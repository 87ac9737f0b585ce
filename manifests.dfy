/**
 * Parsed MakePlayingCards order manifests (the XML files both order scripts
 * read) and the newest-first ordering of a directory listing.
 *
 * After parsing, a manifest is an `order` element with an optional `fronts`
 * section and an optional `backs` section, each holding a list of cards whose
 * `query`, `name`, `id` and `slots` children are single text values.
 */
module Manifests {
  import opened Wrappers
  import opened Sorting

  /** One `card` element: the first text value of each child element. */
  datatype Card = Card(query: string, name: string, id: string, slot: string)

  /** An `order` root. A section is `None` when the element, or its `card`
      list, is absent. */
  datatype Order = Order(fronts: Option<seq<Card>>, backs: Option<seq<Card>>)

  /** A file of the manifest directory with its modification time in
      milliseconds; `order` is `None` when the document has no `order` root. */
  datatype XmlFile = XmlFile(path: string, mtime: int, order: Option<Order>)

  /** The newest-first comparator: `b.mtime - a.mtime` is negative exactly when
      `a` is newer. */
  predicate NewerThan(a: XmlFile, b: XmlFile)
  {
    a.mtime > b.mtime
  }

  lemma NewerThanIsWeakOrder()
    ensures StrictWeakOrder(NewerThan)
  {
  }

  /** The directory listing sorted newest first; files with equal times keep
      their listing order. */
  function ByRecency(files: seq<XmlFile>): (r: seq<XmlFile>)
  {
    SortBy(files, NewerThan)
  }

  /** The sorted listing holds the same files, newest first. */
  lemma ByRecencyOrdered(files: seq<XmlFile>)
    ensures multiset(ByRecency(files)) == multiset(files)
    ensures forall i, j :: 0 <= i < j < |files| ==> ByRecency(files)[i].mtime >= ByRecency(files)[j].mtime
  {
    SortBySorted(files, NewerThan);
  }

  /** Files with the same modification time keep their relative listing order. */
  lemma ByRecencyStable(files: seq<XmlFile>, f: XmlFile)
    ensures EquivalentTo(ByRecency(files), f, NewerThan) == EquivalentTo(files, f, NewerThan)
  {
    NewerThanIsWeakOrder();
    SortByStable(files, f, NewerThan);
  }

  /** Files that share `f`'s modification time, as `EquivalentTo` selects them. */
  lemma EquivalentFilesShareTime(a: XmlFile, f: XmlFile)
    ensures Equivalent(NewerThan, a, f) <==> a.mtime == f.mtime
  {
  }
}
