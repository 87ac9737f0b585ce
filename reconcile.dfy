/**
 * The image-id updater: every card of a target order manifest takes its `id`
 * and `name` from the first card, newest source manifest first, whose `query`
 * is exactly the same. Fronts are looked up among source fronts and backs
 * among source backs; nothing but `id` and `name` is ever written.
 *
 * Reading and writing the XML files is left to the caller: the target is a
 * parsed `order`, and the source directory is a listing of parsed files with
 * their modification times.
 */
module Reconcile {
  import opened Wrappers
  import opened Sorting
  import opened Manifests

  /** The default of the `--output` option. */
  const DefaultOutput: string := "updated.xml"

  /** The section of a source file that `updateCards` reads. A file without an
      `order` root, without the section, or without its card list gives no
      cards. */
  function SourceCards(f: XmlFile, front: bool): seq<Card>
  {
    match f.order
    case None => []
    case Some(o) => (if front then o.fronts else o.backs).GetOr([])
  }

  /** The first card of a list with exactly the given query. */
  function FindByQuery(cards: seq<Card>, query: string): (r: Option<Card>)
    ensures r.None? <==> forall k :: 0 <= k < |cards| ==> cards[k].query != query
    ensures r.Some? ==> exists k :: 0 <= k < |cards| && cards[k] == r.value && cards[k].query == query
                                   && forall k' :: 0 <= k' < k ==> cards[k'].query != query
  {
    if cards == [] then None
    else if cards[0].query == query then Some(cards[0])
    else
      var r := FindByQuery(cards[1..], query);
      assert r.Some? ==> exists k :: 1 <= k < |cards| && cards[k] == r.value && cards[k].query == query
                                   && forall k' :: 1 <= k' < k ==> cards[k'].query != query;
      r
  }

  /** The first source card, files in the given order and cards in file order,
      with exactly the given query. */
  function FirstSource(files: seq<XmlFile>, query: string, front: bool): Option<Card>
  {
    if files == [] then None
    else
      var here := FindByQuery(SourceCards(files[0], front), query);
      if here.Some? then here else FirstSource(files[1..], query, front)
  }

  /** No source card has the query exactly when nothing is found. */
  lemma {:induction false} FirstSourceNone(files: seq<XmlFile>, query: string, front: bool)
    ensures FirstSource(files, query, front).None?
        <==> forall i, j :: 0 <= i < |files| && 0 <= j < |SourceCards(files[i], front)|
               ==> SourceCards(files[i], front)[j].query != query
    decreases |files|
  {
    if files != [] {
      FirstSourceNone(files[1..], query, front);
      var tail := files[1..];
      if forall i, j :: 0 <= i < |tail| && 0 <= j < |SourceCards(tail[i], front)|
           ==> SourceCards(tail[i], front)[j].query != query
      {
        forall i, j | 1 <= i < |files| && 0 <= j < |SourceCards(files[i], front)|
          ensures SourceCards(files[i], front)[j].query != query
        {
          assert files[i] == tail[i - 1];
        }
      } else {
        var i, j :| 0 <= i < |tail| && 0 <= j < |SourceCards(tail[i], front)| && SourceCards(tail[i], front)[j].query == query;
        assert tail[i] == files[i + 1];
      }
    }
  }

  /** The first file holding a card with the query decides the result: its
      first such card. */
  lemma {:induction false} FirstSourceAt(files: seq<XmlFile>, query: string, front: bool, i: nat)
    requires i < |files| && FindByQuery(SourceCards(files[i], front), query).Some?
    requires forall i' :: 0 <= i' < i ==> FindByQuery(SourceCards(files[i'], front), query).None?
    ensures FirstSource(files, query, front) == FindByQuery(SourceCards(files[i], front), query)
    decreases i
  {
    if i > 0 {
      var tail := files[1..];
      forall i' | 0 <= i' < i - 1 ensures FindByQuery(SourceCards(tail[i'], front), query).None? {
        assert tail[i'] == files[i' + 1];
      }
      FirstSourceAt(tail, query, front, i - 1);
    }
  }

  /** A found card has exactly the query looked for. */
  lemma {:induction false} FirstSourceQuery(files: seq<XmlFile>, query: string, front: bool)
    requires FirstSource(files, query, front).Some?
    ensures FirstSource(files, query, front).value.query == query
    decreases |files|
  {
    if FindByQuery(SourceCards(files[0], front), query).None? {
      FirstSourceQuery(files[1..], query, front);
    }
  }

  /** The target card after the update: `id` and `name` from the first source
      card with the same query, or the card unchanged when there is none. */
  function Updated(card: Card, files: seq<XmlFile>, front: bool): Card
  {
    match FirstSource(files, card.query, front)
    case None => card
    case Some(s) => card.(id := s.id, name := s.name)
  }

  /** Only `id` and `name` change; an unmatched card does not change at all. */
  lemma UpdatedFields(card: Card, files: seq<XmlFile>, front: bool)
    ensures var r := Updated(card, files, front);
            && r.query == card.query && r.slot == card.slot
            && (FirstSource(files, card.query, front).None? ==> r == card)
            && (FirstSource(files, card.query, front).Some? ==>
                  var s := FirstSource(files, card.query, front).value;
                  s.query == card.query && r.id == s.id && r.name == s.name)
  {
    if FirstSource(files, card.query, front).Some? {
      FirstSourceQuery(files, card.query, front);
    }
  }

  /** `updateCards` on one target section, whose cards are updated in place.
      The outer loop walks the target cards, the middle one the source files
      until `found`, the inner one the source cards until the first exact
      query match. */
  method UpdateCards(cards: array<Card>, files: seq<XmlFile>, front: bool)
    modifies cards
    ensures forall k :: 0 <= k < cards.Length ==> cards[k] == Updated(old(cards[k]), files, front)
  {
    var k := 0;
    while k < cards.Length
      invariant 0 <= k <= cards.Length
      invariant forall k' :: 0 <= k' < k ==> cards[k'] == Updated(old(cards[k']), files, front)
      invariant forall k' :: k <= k' < cards.Length ==> cards[k'] == old(cards[k'])
    {
      UpdateCard(cards, k, files, front);
      k := k + 1;
    }
  }

  lemma {:induction false} FindByQueryAt(cards: seq<Card>, query: string, j: nat)
    requires j < |cards| && cards[j].query == query
    requires forall j' :: 0 <= j' < j ==> cards[j'].query != query
    ensures FindByQuery(cards, query) == Some(cards[j])
    decreases j
  {
    if j > 0 {
      FindByQueryAt(cards[1..], query, j - 1);
    }
  }

  /** One step of the lookup over the files from `i` on. */
  lemma FirstSourceStep(files: seq<XmlFile>, i: nat, query: string, front: bool)
    requires i < |files|
    ensures var here := FindByQuery(SourceCards(files[i], front), query);
            FirstSource(files[i..], query, front) == if here.Some? then here else FirstSource(files[i + 1..], query, front)
  {
    assert files[i..][0] == files[i];
    assert files[i..][1..] == files[i + 1..];
  }

  /** The body of the outer loop for target card `k`. */
  method UpdateCard(cards: array<Card>, k: nat, files: seq<XmlFile>, front: bool)
    requires k < cards.Length
    modifies cards
    ensures cards[k] == Updated(old(cards[k]), files, front)
    ensures forall k' :: 0 <= k' < cards.Length && k' != k ==> cards[k'] == old(cards[k'])
  {
    var card := cards[k];
    var found := false;
    var i := 0;
    assert files[0..] == files;
    while i < |files|
      invariant 0 <= i <= |files|
      invariant forall k' :: 0 <= k' < cards.Length && k' != k ==> cards[k'] == old(cards[k'])
      invariant found ==> cards[k] == Updated(card, files, front)
      invariant !found ==> cards[k] == card && FirstSource(files, card.query, front) == FirstSource(files[i..], card.query, front)
    {
      if found {
        break;
      }
      var sourceCards := SourceCards(files[i], front);
      FirstSourceStep(files, i, card.query, front);
      var j := 0;
      while j < |sourceCards|
        invariant 0 <= j <= |sourceCards|
        invariant forall j' :: 0 <= j' < j ==> sourceCards[j'].query != card.query
        invariant forall k' :: 0 <= k' < cards.Length && k' != k ==> cards[k'] == old(cards[k'])
        invariant !found && cards[k] == card
      {
        if sourceCards[j].query == card.query {
          FindByQueryAt(sourceCards, card.query, j);
          cards[k] := card.(id := sourceCards[j].id, name := sourceCards[j].name);
          found := true;
          break;
        }
        j := j + 1;
      }
      i := i + 1;
    }
    if !found {
      assert FirstSource(files[i..], card.query, front) == None;
    }
  }

  /** A target section after the update: same cards in the same order, each
      updated on its own. */
  function UpdatedSection(section: Option<seq<Card>>, files: seq<XmlFile>, front: bool): (r: Option<seq<Card>>)
    ensures r.None? <==> section.None?
    ensures r.Some? ==> |r.value| == |section.value|
  {
    match section
    case None => None
    case Some(cards) => Some(seq(|cards|, k requires 0 <= k < |cards| => Updated(cards[k], files, front)))
  }

  /** The target manifest after `updateCards("fronts", "fronts")` and
      `updateCards("backs", "backs")`, with the sources in the given order. */
  function UpdatedOrder(target: Order, files: seq<XmlFile>): Order
  {
    Order(UpdatedSection(target.fronts, files, true), UpdatedSection(target.backs, files, false))
  }

  /** Updating a section held as an array, as the script does to the parsed
      target. */
  method UpdateSection(section: Option<seq<Card>>, files: seq<XmlFile>, front: bool) returns (r: Option<seq<Card>>)
    ensures r == UpdatedSection(section, files, front)
  {
    if section.None? {
      return None;
    }
    var cards := section.value;
    var a := new Card[|cards|](k requires 0 <= k < |cards| => cards[k]);
    assert a[..] == cards;
    UpdateCards(a, files, front);
    assert a[..] == UpdatedSection(section, files, front).value;
    r := Some(a[..]);
  }

  /** `updateTargetXML`: the source listing sorted newest first, then fronts,
      then backs; the result is what gets written to `outputPath`. The target
      is `None` when its parsed XML has no `order` root: reading
      `targetXML.order[...]` then throws, the promise is rejected and nothing
      is written, which is the `None` result. */
  method UpdateTargetXml(target: Option<Order>, listing: seq<XmlFile>, output: Option<string>)
    returns (result: Option<Order>, outputPath: string)
    ensures result.None? <==> target.None?
    ensures target.Some? ==> result == Some(UpdatedOrder(target.value, ByRecency(listing)))
    ensures outputPath == output.GetOr(DefaultOutput)
  {
    outputPath := output.GetOr(DefaultOutput);
    if target.None? {
      return None, outputPath;
    }
    var sortedSourceFiles := ByRecency(listing);
    var fronts := UpdateSection(target.value.fronts, sortedSourceFiles, true);
    var backs := UpdateSection(target.value.backs, sortedSourceFiles, false);
    result := Some(Order(fronts, backs));
  }

  /** Same length, and the same query and slot at every position. */
  predicate SameCards(a: seq<Card>, b: seq<Card>)
  {
    |a| == |b| && forall k :: 0 <= k < |a| ==> a[k].query == b[k].query && a[k].slot == b[k].slot
  }

  /** Sections keep their presence, length, order and queries; a missing
      section stays missing. */
  lemma UpdatedOrderShape(target: Order, files: seq<XmlFile>)
    ensures var r := UpdatedOrder(target, files);
            && (r.fronts.None? <==> target.fronts.None?) && (r.backs.None? <==> target.backs.None?)
            && (r.fronts.Some? ==> SameCards(r.fronts.value, target.fronts.value))
            && (r.backs.Some? ==> SameCards(r.backs.value, target.backs.value))
  {
    if target.fronts.Some? {
      forall k | 0 <= k < |target.fronts.value| {
        UpdatedFields(target.fronts.value[k], files, true);
      }
    }
    if target.backs.Some? {
      forall k | 0 <= k < |target.backs.value| {
        UpdatedFields(target.backs.value[k], files, false);
      }
    }
  }

  /** Updating twice with the same sources is updating once: the lookup reads
      only `query`, which the update never writes. */
  lemma UpdateIdempotent(target: Order, files: seq<XmlFile>)
    ensures UpdatedOrder(UpdatedOrder(target, files), files) == UpdatedOrder(target, files)
  {
    var once := UpdatedOrder(target, files);
    var twice := UpdatedOrder(once, files);
    if target.fronts.Some? {
      forall k | 0 <= k < |once.fronts.value|
        ensures twice.fronts.value[k] == once.fronts.value[k]
      {
        UpdatedFields(target.fronts.value[k], files, true);
      }
      assert twice.fronts.value == once.fronts.value;
    }
    if target.backs.Some? {
      forall k | 0 <= k < |once.backs.value|
        ensures twice.backs.value[k] == once.backs.value[k]
      {
        UpdatedFields(target.backs.value[k], files, false);
      }
      assert twice.backs.value == once.backs.value;
    }
  }

  /** The lookup in one section depends on nothing but the sources' cards of
      that section. */
  lemma {:induction false} FirstSourceReadsSection(files: seq<XmlFile>, files': seq<XmlFile>, query: string, front: bool)
    requires |files| == |files'|
    requires forall i :: 0 <= i < |files| ==> SourceCards(files[i], front) == SourceCards(files'[i], front)
    ensures FirstSource(files, query, front) == FirstSource(files', query, front)
    decreases |files|
  {
    if files != [] {
      FirstSourceReadsSection(files[1..], files'[1..], query, front);
    }
  }

  /** Target fronts are matched only against source fronts, and target backs
      only against source backs. */
  lemma SectionsStaySeparate(target: Order, files: seq<XmlFile>, files': seq<XmlFile>)
    requires |files| == |files'|
    ensures (forall i :: 0 <= i < |files| ==> SourceCards(files[i], true) == SourceCards(files'[i], true))
              ==> UpdatedOrder(target, files).fronts == UpdatedOrder(target, files').fronts
    ensures (forall i :: 0 <= i < |files| ==> SourceCards(files[i], false) == SourceCards(files'[i], false))
              ==> UpdatedOrder(target, files).backs == UpdatedOrder(target, files').backs
  {
    if forall i :: 0 <= i < |files| ==> SourceCards(files[i], true) == SourceCards(files'[i], true) {
      if target.fronts.Some? {
        forall k | 0 <= k < |target.fronts.value|
          ensures Updated(target.fronts.value[k], files, true) == Updated(target.fronts.value[k], files', true)
        {
          FirstSourceReadsSection(files, files', target.fronts.value[k].query, true);
        }
        assert UpdatedSection(target.fronts, files, true).value == UpdatedSection(target.fronts, files', true).value;
      }
    }
    if forall i :: 0 <= i < |files| ==> SourceCards(files[i], false) == SourceCards(files'[i], false) {
      if target.backs.Some? {
        forall k | 0 <= k < |target.backs.value|
          ensures Updated(target.backs.value[k], files, false) == Updated(target.backs.value[k], files', false)
        {
          FirstSourceReadsSection(files, files', target.backs.value[k].query, false);
        }
        assert UpdatedSection(target.backs, files, false).value == UpdatedSection(target.backs, files', false).value;
      }
    }
  }

  /** A newer file's card wins over an older file's card with the same
      query. */
  lemma NewestFileWins(target: Card, older: XmlFile, newer: XmlFile, s: Card)
    requires newer.mtime > older.mtime
    requires FindByQuery(SourceCards(newer, true), target.query) == Some(s)
    ensures Updated(target, ByRecency([older, newer]), true) == target.(id := s.id, name := s.name)
  {
    assert [older, newer][..1] == [older];
    assert SortBy([older], NewerThan) == [older];
    assert ByRecency([older, newer]) == Insert(newer, [older], NewerThan);
    assert ByRecency([older, newer]) == [newer, older];
  }
}
