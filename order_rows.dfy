/**
 * Matching the rows of an order export against the order manifests, as the
 * CSV builder does before batching: name normalisation, the two matching
 * rules, the newest-first manifest scan and the front/back pairing by slot.
 */
module OrderRows {
  import opened Wrappers
  import opened Strings
  import opened Manifests

  /** One row of the order export. The matching step fills in `front`,
      `frontId`, `back` and `backId`; every other column is carried along. */
  datatype Row = Row(
    name: string,
    setCode: Option<string>,
    collectorNumber: Option<string>,
    quantity: Option<string>,
    front: Option<string>,
    frontId: Option<string>,
    back: Option<string>,
    backId: Option<string>)

  /** The separator between the faces of a double-faced card name. */
  const FaceSeparator: string := " // "

  // ----- Normalisation -----

  /** The three apostrophe variants: right single quotation mark, apostrophe
      and grave accent. */
  predicate IsApostrophe(c: char)
  {
    c == '\U{2019}' || c == '\'' || c == '`'
  }

  function FoldChar(c: char): char
  {
    if IsApostrophe(c) then '_' else c
  }

  /** Every apostrophe variant replaced by `_`. */
  function FoldApostrophes(s: string): (r: string)
    ensures |r| == |s|
    ensures forall i :: 0 <= i < |s| ==> r[i] == FoldChar(s[i])
  {
    seq(|s|, i requires 0 <= i < |s| => FoldChar(s[i]))
  }

  predicate NoApostrophes(s: string)
  {
    forall i :: 0 <= i < |s| ==> !IsApostrophe(s[i])
  }

  /** The row side of the comparison: the first face of the name, apostrophes
      folded, lowercased. */
  function NormalizeName(name: string): (r: string)
    ensures |r| <= |name|
    ensures NoApostrophes(r)
  {
    var first := Split(name, FaceSeparator)[0];
    assert |first| <= |name| by {
      SplitFirst(name, FaceSeparator);
    }
    ToLower(FoldApostrophes(first))
  }

  /** The manifest side of the comparison: lowercased and apostrophes folded,
      but never cut at a face separator. */
  function ManifestForm(s: string): (r: string)
    ensures |r| == |s|
    ensures NoApostrophes(r)
  {
    FoldApostrophes(ToLower(s))
  }

  /** A character that the normalisation maps to a space or a slash was one. */
  lemma NormalizeCharFixesSeparator(c: char)
    ensures LowerChar(FoldChar(c)) == ' ' ==> c == ' '
    ensures LowerChar(FoldChar(c)) == '/' ==> c == '/'
  {
  }

  /** A face separator in a normalised text was one before. */
  lemma NormalizedSeparator(first: string, j: int)
    ensures OccursAt(ToLower(FoldApostrophes(first)), FaceSeparator, j) ==> OccursAt(first, FaceSeparator, j)
  {
    var n := ToLower(FoldApostrophes(first));
    if OccursAt(n, FaceSeparator, j) {
      forall k | 0 <= k < |FaceSeparator| ensures first[j + k] == FaceSeparator[k] {
        assert n[j + k] == n[j..j + |FaceSeparator|][k];
        NormalizeCharFixesSeparator(first[j + k]);
      }
      assert first[j..j + |FaceSeparator|] == FaceSeparator;
    }
  }

  /** The normalised name is the text before the first face separator, with
      apostrophes folded and lower-cased; it holds no separator itself. */
  lemma NormalizeNameFirstFace(name: string)
    ensures NormalizeName(name)
         == ToLower(FoldApostrophes(
              if IndexOf(name, FaceSeparator).Some? then name[..IndexOf(name, FaceSeparator).value] else name))
    ensures !Contains(NormalizeName(name), FaceSeparator)
  {
    SplitFirst(name, FaceSeparator);
    var first := Split(name, FaceSeparator)[0];
    SplitPiecesLackSeparator(name, FaceSeparator);
    assert first in Split(name, FaceSeparator);
    assert !Contains(first, FaceSeparator);
    var n := NormalizeName(name);
    assert n == ToLower(FoldApostrophes(first));
    forall j | 0 <= j ensures !OccursAt(n, FaceSeparator, j) {
      NormalizedSeparator(first, j);
    }
  }

  /** Normalising a normalised name changes nothing. */
  lemma NormalizeNameIdempotent(name: string)
    ensures NormalizeName(NormalizeName(name)) == NormalizeName(name)
  {
    var n := NormalizeName(name);
    NormalizeNameFirstFace(name);
    SplitWithoutSeparator(n, FaceSeparator);
    assert Split(n, FaceSeparator)[0] == n;
    assert ToLower(FoldApostrophes(n)) == n;
  }

  /** The worked example: only the first face survives. */
  lemma NormalizeNameExample()
    ensures NormalizeName("Bruna's // Gisela's") == "bruna_s"
  {
    var name := "Bruna's // Gisela's";
    forall j | 0 <= j < 7 ensures !OccursAt(name, FaceSeparator, j) {
      assert name[j..j + 4][0] == name[j] != ' ';
    }
    assert name[7..11] == FaceSeparator;
    IndexFromFirst(name, FaceSeparator, 0, 7);
    SplitFirst(name, FaceSeparator);
    assert name[..7] == "Bruna's";
    FirstFaceExample();
  }

  lemma FirstFaceExample()
    ensures ToLower(FoldApostrophes("Bruna's")) == "bruna_s"
  {
    var f := FoldApostrophes("Bruna's");
    assert f == "Bruna_s";
    assert ToLower(f)[0] == 'b';
  }

  // ----- Matching a front card -----

  /** A manifest front matches a normalised row name when its folded query
      equals the name, or its folded card name contains it. */
  predicate Matches(card: Card, n: string)
  {
    ManifestForm(card.query) == n || Contains(ManifestForm(card.name), n)
  }

  /** An empty row name is contained in every card name. */
  lemma EmptyNameMatchesEveryCard(card: Card)
    ensures Matches(card, "")
  {
    assert OccursAt(ManifestForm(card.name), "", 0);
  }

  /** Containment goes one way only: a card whose name is a part of the row
      name does not match. */
  lemma ContainmentIsDirectional()
    ensures !Matches(Card("Bolt", "Bolt", "id", "0"), NormalizeName("Lightning Bolt"))
  {
    var name := "Lightning Bolt";
    forall j | 0 <= j ensures !OccursAt(name, FaceSeparator, j) {
      if j + 4 <= |name| {
        assert name[j..j + 4][1] == name[j + 1];
      }
    }
    SplitWithoutSeparator(name, FaceSeparator);
    assert |NormalizeName(name)| == 14;
  }

  /** No face split on the manifest side: a double-faced manifest card matches
      by name containment, not by query equality. */
  lemma ManifestSideKeepsBothFaces()
    ensures var c := Card("Fire // Ice", "Fire // Ice", "id", "0");
            var n := NormalizeName("Fire // Ice");
            ManifestForm(c.query) != n && Matches(c, n)
  {
    var name := "Fire // Ice";
    forall j | 0 <= j < 4 ensures !OccursAt(name, FaceSeparator, j) {
      assert name[j..j + 4][0] == name[j];
    }
    IndexFromFirst(name, FaceSeparator, 0, 4);
    SplitFirst(name, FaceSeparator);
    var n := NormalizeName(name);
    var m := ManifestForm(name);
    assert |n| == 4 && |m| == 11;
    assert m[..4] == n;
    OccursContains(m, n, 0);
  }

  // ----- Pairing a back -----

  /** `cards.find(back => back.slot === slot)`. */
  function FindBySlot(cards: seq<Card>, slot: string): (r: Option<Card>)
    ensures r.None? <==> forall k :: 0 <= k < |cards| ==> cards[k].slot != slot
    ensures r.Some? ==> exists k :: 0 <= k < |cards| && cards[k] == r.value && cards[k].slot == slot
                                   && forall k' :: 0 <= k' < k ==> cards[k'].slot != slot
  {
    if cards == [] then None
    else if cards[0].slot == slot then Some(cards[0])
    else
      var r := FindBySlot(cards[1..], slot);
      assert r.Some? ==> exists k :: 1 <= k < |cards| && cards[k] == r.value && cards[k].slot == slot
                                   && forall k' :: 1 <= k' < k ==> cards[k'].slot != slot;
      r
  }

  /** The back of a manifest that shares a front's slot, if the manifest has a
      back list and one of its cards has that slot. */
  function PairedBack(backs: Option<seq<Card>>, slot: string): (r: Option<Card>)
    ensures r.Some? ==> backs.Some? && r.value in backs.value && r.value.slot == slot
  {
    match backs
    case None => None
    case Some(bs) => FindBySlot(bs, slot)
  }

  // ----- Scanning one manifest -----

  /** What a manifest contributes to a row: the front that was written last,
      and the paired back if the scan stopped at one. */
  datatype Hit = Hit(front: Card, back: Option<Card>)

  /** The scan of one manifest's fronts in file order. A match with a paired
      back ends the scan; a match without one is overwritten by any later
      match. */
  function ScanFronts(fronts: seq<Card>, backs: Option<seq<Card>>, n: string): (r: Option<Hit>)
    ensures r.Some? ==> r.value.front in fronts && Matches(r.value.front, n)
    ensures r.Some? && r.value.back.Some? ==> PairedBack(backs, r.value.front.slot) == r.value.back
    decreases |fronts|
  {
    if fronts == [] then None
    else if Matches(fronts[0], n) then
      match PairedBack(backs, fronts[0].slot)
      case Some(b) => Some(Hit(fronts[0], Some(b)))
      case None =>
        var rest := ScanFronts(fronts[1..], backs, n);
        if rest.Some? then rest else Some(Hit(fronts[0], None))
    else ScanFronts(fronts[1..], backs, n)
  }

  /** A manifest without a front list contributes nothing. */
  function ScanManifest(order: Order, n: string): Option<Hit>
  {
    if order.fronts.None? then None else ScanFronts(order.fronts.value, order.backs, n)
  }

  predicate HasMatchingFront(order: Order, n: string)
  {
    order.fronts.Some? && exists j :: 0 <= j < |order.fronts.value| && Matches(order.fronts.value[j], n)
  }

  /** The scan finds something exactly when some front matches. */
  lemma {:induction false} ScanFrontsFound(fronts: seq<Card>, backs: Option<seq<Card>>, n: string)
    ensures ScanFronts(fronts, backs, n).Some? <==> exists j :: 0 <= j < |fronts| && Matches(fronts[j], n)
    decreases |fronts|
  {
    if fronts != [] {
      ScanFrontsFound(fronts[1..], backs, n);
      if exists j :: 1 <= j < |fronts| && Matches(fronts[j], n) {
        var j :| 1 <= j < |fronts| && Matches(fronts[j], n);
        assert Matches(fronts[1..][j - 1], n);
      }
    }
  }

  /** The first matching front that has a paired back ends the scan, and that
      pair is the result. */
  lemma {:induction false} ScanFrontsPaired(fronts: seq<Card>, backs: Option<seq<Card>>, n: string, j: nat)
    requires j < |fronts| && Matches(fronts[j], n) && PairedBack(backs, fronts[j].slot).Some?
    requires forall k :: 0 <= k < j && Matches(fronts[k], n) ==> PairedBack(backs, fronts[k].slot).None?
    ensures ScanFronts(fronts, backs, n) == Some(Hit(fronts[j], PairedBack(backs, fronts[j].slot)))
    decreases j
  {
    if j > 0 {
      ScanFrontsPaired(fronts[1..], backs, n, j - 1);
    }
  }

  /** When no matching front has a paired back, the last matching front is the
      result, with no back. */
  lemma {:induction false} ScanFrontsUnpaired(fronts: seq<Card>, backs: Option<seq<Card>>, n: string, j: nat)
    requires j < |fronts| && Matches(fronts[j], n)
    requires forall k :: 0 <= k < |fronts| && Matches(fronts[k], n) ==> PairedBack(backs, fronts[k].slot).None?
    requires forall k :: j < k < |fronts| ==> !Matches(fronts[k], n)
    ensures ScanFronts(fronts, backs, n) == Some(Hit(fronts[j], None))
    decreases j
  {
    var tail := fronts[1..];
    if j > 0 {
      ScanFrontsUnpaired(tail, backs, n, j - 1);
    } else {
      ScanFrontsFound(tail, backs, n);
      forall k | 0 <= k < |tail| ensures !Matches(tail[k], n) {
        assert tail[k] == fronts[k + 1];
      }
    }
  }

  // ----- Scanning the manifests newest first -----

  /** The contribution of the first manifest, newest first, that has a hit. */
  function Lookup(manifests: seq<Order>, n: string): Option<Hit>
  {
    if manifests == [] then None
    else
      var h := ScanManifest(manifests[0], n);
      if h.Some? then h else Lookup(manifests[1..], n)
  }

  /** The first manifest holding a matching front decides the result; older
      manifests are not consulted. */
  lemma {:induction false} LookupFirstManifest(manifests: seq<Order>, n: string, m: nat)
    requires m < |manifests| && HasMatchingFront(manifests[m], n)
    requires forall k :: 0 <= k < m ==> !HasMatchingFront(manifests[k], n)
    ensures Lookup(manifests, n) == ScanManifest(manifests[m], n)
    ensures Lookup(manifests, n).Some?
    decreases m
  {
    ScanFrontsFound(manifests[0].fronts.GetOr([]), manifests[0].backs, n);
    if m > 0 {
      LookupFirstManifest(manifests[1..], n, m - 1);
    } else {
      ScanFrontsFound(manifests[m].fronts.value, manifests[m].backs, n);
    }
  }

  /** Without any matching front in any manifest the row gets nothing. */
  lemma {:induction false} LookupNoMatch(manifests: seq<Order>, n: string)
    requires forall k :: 0 <= k < |manifests| ==> !HasMatchingFront(manifests[k], n)
    ensures Lookup(manifests, n) == None
    decreases |manifests|
  {
    if manifests != [] {
      ScanFrontsFound(manifests[0].fronts.GetOr([]), manifests[0].backs, n);
      LookupNoMatch(manifests[1..], n);
    }
  }

  // ----- Enriching the row -----

  /** The row with the hit's fields written into it: `Front`/`FrontID` from the
      front's query and id, `Back`/`BackID` only when a back was paired. */
  function Enrich(row: Row, hit: Option<Hit>): (r: Row)
    ensures r.name == row.name && r.setCode == row.setCode
    ensures r.collectorNumber == row.collectorNumber && r.quantity == row.quantity
    ensures hit.None? ==> r == row
    ensures hit.Some? ==> r.front == Some(hit.value.front.query) && r.frontId == Some(hit.value.front.id)
    ensures (hit.Some? && hit.value.back.Some?)
              ==> r.back == Some(hit.value.back.value.query) && r.backId == Some(hit.value.back.value.id)
    ensures (hit.None? || hit.value.back.None?) ==> r.back == row.back && r.backId == row.backId
  {
    match hit
    case None => row
    case Some(h) =>
      var withFront := row.(front := Some(h.front.query), frontId := Some(h.front.id));
      match h.back
      case None => withFront
      case Some(b) => withFront.(back := Some(b.query), backId := Some(b.id))
  }

  /** The first `j` fronts are scanned without reaching a matching front that
      has a paired back; `found` says whether any of them matched, and `last`
      is the last one that did. */
  predicate ScannedUnpaired(fronts: seq<Card>, backs: Option<seq<Card>>, n: string, j: nat, found: bool, last: nat)
  {
    && j <= |fronts|
    && (forall k :: 0 <= k < j && Matches(fronts[k], n) ==> PairedBack(backs, fronts[k].slot).None?)
    && (found <==> exists k :: 0 <= k < j && Matches(fronts[k], n))
    && (found ==> last < j && Matches(fronts[last], n) && forall k :: last < k < j ==> !Matches(fronts[k], n))
  }

  /** A matching front without a paired back becomes the last match. */
  lemma ScannedMatch(fronts: seq<Card>, backs: Option<seq<Card>>, n: string, j: nat, found: bool, last: nat)
    requires ScannedUnpaired(fronts, backs, n, j, found, last) && j < |fronts|
    requires Matches(fronts[j], n) && PairedBack(backs, fronts[j].slot).None?
    ensures ScannedUnpaired(fronts, backs, n, j + 1, true, j)
  {
    forall k | 0 <= k < j + 1 && Matches(fronts[k], n)
      ensures PairedBack(backs, fronts[k].slot).None?
    {
      if k < j {
        assert 0 <= k < j && Matches(fronts[k], n);
      }
    }
  }

  /** A front that does not match changes nothing. */
  lemma ScannedMiss(fronts: seq<Card>, backs: Option<seq<Card>>, n: string, j: nat, found: bool, last: nat)
    requires ScannedUnpaired(fronts, backs, n, j, found, last) && j < |fronts|
    requires !Matches(fronts[j], n)
    ensures ScannedUnpaired(fronts, backs, n, j + 1, found, last)
  {
    if found {
      var k :| 0 <= k < j && Matches(fronts[k], n);
      assert 0 <= k < j + 1 && Matches(fronts[k], n);
    }
    forall k | 0 <= k < j + 1 && Matches(fronts[k], n)
      ensures k < j
    {
    }
  }

  /** One manifest of the scan for one row: its fronts in file order, the row
      updated field by field as fronts match, and a `break` once a matching
      front's back is found. */
  method MatchManifest(row: Row, order: Order) returns (r: Row, frontFound: bool)
    ensures frontFound <==> ScanManifest(order, NormalizeName(row.name)).Some?
    ensures r == Enrich(row, ScanManifest(order, NormalizeName(row.name)))
  {
    r := row;
    frontFound := false;
    ghost var n := NormalizeName(row.name);
    if order.fronts.Some? {
      var normalizedRowName := NormalizeName(row.name);
      var fronts := order.fronts.value;
      var j := 0;
      ghost var last: nat := 0;
      while j < |fronts|
        invariant ScannedUnpaired(fronts, order.backs, n, j, frontFound, last)
        invariant frontFound ==> last < |fronts| && r == Enrich(row, Some(Hit(fronts[last], None)))
        invariant !frontFound ==> r == row
      {
        var card := fronts[j];
        var normalizedQuery := ManifestForm(card.query);
        var normalizedCardName := ManifestForm(card.name);
        if normalizedQuery == normalizedRowName || Contains(normalizedCardName, normalizedRowName) {
          assert Matches(card, n);
          r := r.(front := Some(card.query), frontId := Some(card.id));
          if order.backs.Some? {
            var backCard := FindBySlot(order.backs.value, card.slot);
            if backCard.Some? {
              r := r.(back := Some(backCard.value.query), backId := Some(backCard.value.id));
              ScanFrontsPaired(fronts, order.backs, n, j);
              return r, true;
            }
          }
          ScannedMatch(fronts, order.backs, n, j, frontFound, last);
          frontFound := true;
          last := j;
        } else {
          assert !Matches(card, n);
          ScannedMiss(fronts, order.backs, n, j, frontFound, last);
        }
        j := j + 1;
      }
      if frontFound {
        ScanFrontsUnpaired(fronts, order.backs, n, last);
      } else {
        ScanFrontsFound(fronts, order.backs, n);
      }
    }
  }

  /** The manifest scan for one row, as the script runs it: manifests newest
      first, and a flag that stops the scan once any front of a manifest
      matched. */
  method ProcessRow(row: Row, manifests: seq<Order>) returns (r: Row)
    ensures r == Enrich(row, Lookup(manifests, NormalizeName(row.name)))
  {
    r := row;
    var frontFound := false;
    ghost var n := NormalizeName(row.name);
    var i := 0;
    while i < |manifests|
      invariant 0 <= i <= |manifests|
      invariant !frontFound && r == row
      invariant Lookup(manifests, n) == Lookup(manifests[i..], n)
    {
      var order := manifests[i];
      r, frontFound := MatchManifest(row, order);
      assert manifests[i..][0] == order;
      if frontFound {
        break;
      }
      assert manifests[i..][1..] == manifests[i + 1..];
      i := i + 1;
    }
    if !frontFound {
      assert manifests[i..] == [];
    }
  }
}
