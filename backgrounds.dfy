/**
 * The background file-name pattern of `readBackgroundsAndAppendData`,
 * `^(.*?) \((.*?)\) \[(.*?)\] \{(.*?)\}\.jpg$`, and what a match writes into
 * a record.
 *
 * The four groups are lazy and `.` does not match a line terminator, so the
 * engine's backtracking tries the first group shortest first, then, for that
 * first group, the second group shortest first, and so on: the match it
 * returns is the one whose group lengths are lexicographically least.
 * `Scan` below is that backtracking search written as a recursive function.
 */
module Backgrounds {
  import opened Wrappers
  import opened Strings
  import opened Records

  /** The characters `.` does not match. */
  predicate IsLineTerminator(c: char)
  {
    c == '\n' || c == '\r' || c == '\U{2028}' || c == '\U{2029}'
  }

  predicate OnOneLine(s: string)
  {
    forall i :: 0 <= i < |s| ==> !IsLineTerminator(s[i])
  }

  /** The literal text after each group of the pattern; the last one must end
      the input. */
  const Delimiters: seq<string> := [" (", ") [", "] {", "}.jpg"]

  /** The groups with their delimiters, one after the other. */
  function Weave(groups: seq<string>, delims: seq<string>): string
    requires |groups| == |delims|
  {
    if groups == [] then [] else groups[0] + delims[0] + Weave(groups[1..], delims[1..])
  }

  /** `groups` is a way for the pattern to match all of `t`. */
  predicate Splits(t: string, delims: seq<string>, groups: seq<string>)
  {
    && |groups| == |delims|
    && t == Weave(groups, delims)
    && (forall k :: 0 <= k < |groups| ==> OnOneLine(groups[k]))
  }

  /** Group lengths compared lexicographically: the order in which the
      backtracking search tries candidate matches. */
  predicate LengthsAtMost(a: seq<string>, b: seq<string>)
  {
    a == [] || (b != [] && (|a[0]| < |b[0]| || (|a[0]| == |b[0]| && LengthsAtMost(a[1..], b[1..]))))
  }

  /** The search for the current group, which started at `from` and now tries
      to end at `j`: first the rest of the pattern with the group ended here,
      then the group one character longer. */
  function Scan(s: string, delims: seq<string>, from: nat, j: nat): Option<seq<string>>
    requires delims != [] && from <= j <= |s|
    decreases |delims|, |s| - j, 1
  {
    var rest := Rest(s, delims, j);
    if rest.Some? then Some([s[from..j]] + rest.value)
    else if j == |s| || IsLineTerminator(s[j]) then None
    else Scan(s, delims, from, j + 1)
  }

  /** The rest of the pattern once a group ends at `j`: its delimiter there,
      then the remaining groups, or the end of the input after the last one. */
  function Rest(s: string, delims: seq<string>, j: nat): Option<seq<string>>
    requires delims != [] && j <= |s|
    decreases |delims|, |s| - j, 0
  {
    var d := delims[0];
    if !OccursAt(s, d, j) then None
    else if |delims| == 1 then (if j + |d| == |s| then Some([]) else None)
    else Scan(s, delims[1..], j + |d|, j + |d|)
  }

  lemma WeaveFront(t: string, delims: seq<string>, groups: seq<string>)
    requires |groups| == |delims| && groups != []
    requires t == Weave(groups, delims)
    ensures OccursAt(t, delims[0], |groups[0]|)
    ensures t[..|groups[0]|] == groups[0]
    ensures t[|groups[0]| + |delims[0]|..] == Weave(groups[1..], delims[1..])
  {
    var g, d := groups[0], delims[0];
    assert t == g + d + Weave(groups[1..], delims[1..]);
    assert t[|g|..|g| + |d|] == d;
  }

  /** What the search finds reads the input as the pattern: the current group
      from `from`, then the rest. */
  lemma {:induction false} ScanSound(s: string, delims: seq<string>, from: nat, j: nat)
    requires delims != [] && from <= j <= |s|
    requires OnOneLine(s[from..j])
    requires Scan(s, delims, from, j).Some?
    ensures Splits(s[from..], delims, Scan(s, delims, from, j).value)
    decreases |delims|, |s| - j, 1
  {
    var rest := Rest(s, delims, j);
    if rest.Some? {
      var d := delims[0];
      RestSound(s, delims, j);
      var gs := [s[from..j]] + rest.value;
      assert gs[1..] == rest.value;
      assert s[j..j + |d|] == d;
      assert s[from..] == s[from..j] + d + s[j + |d|..];
    } else {
      assert s[from..j + 1] == s[from..j] + [s[j]];
      ScanSound(s, delims, from, j + 1);
    }
  }

  lemma {:induction false} RestSound(s: string, delims: seq<string>, j: nat)
    requires delims != [] && j <= |s|
    requires Rest(s, delims, j).Some?
    ensures OccursAt(s, delims[0], j)
    ensures Splits(s[j + |delims[0]|..], delims[1..], Rest(s, delims, j).value)
    decreases |delims|, |s| - j, 0
  {
    var d := delims[0];
    if |delims| > 1 {
      assert s[j + |d|..j + |d|] == [];
      ScanSound(s, delims[1..], j + |d|, j + |d|);
    }
  }

  /** What the search finds is no later in the search order than any other
      reading of the input whose current group ends at `j` or after. */
  lemma {:induction false} ScanLeast(s: string, delims: seq<string>, from: nat, j: nat, groups: seq<string>)
    requires delims != [] && from <= j <= |s|
    requires Splits(s[from..], delims, groups) && |groups[0]| >= j - from
    ensures Scan(s, delims, from, j).Some?
    ensures LengthsAtMost(Scan(s, delims, from, j).value, groups)
    decreases |delims|, |s| - j, 1
  {
    var t := s[from..];
    var d := delims[0];
    WeaveFront(t, delims, groups);
    var rest := Rest(s, delims, j);
    if |groups[0]| == j - from {
      assert OccursAt(s, d, j) by {
        assert t[j - from..j - from + |d|] == s[j..j + |d|];
      }
      assert s[j + |d|..] == t[|groups[0]| + |d|..];
      RestLeast(s, delims, j, groups[1..]);
      assert ([s[from..j]] + rest.value)[1..] == rest.value;
    } else if rest.None? {
      assert t[j - from] == groups[0][j - from];
      ScanLeast(s, delims, from, j + 1, groups);
    }
  }

  lemma {:induction false} RestLeast(s: string, delims: seq<string>, j: nat, groups: seq<string>)
    requires delims != [] && j <= |s|
    requires OccursAt(s, delims[0], j)
    requires Splits(s[j + |delims[0]|..], delims[1..], groups)
    ensures Rest(s, delims, j).Some?
    ensures LengthsAtMost(Rest(s, delims, j).value, groups)
    decreases |delims|, |s| - j, 0
  {
    var d := delims[0];
    if |delims| > 1 {
      ScanLeast(s, delims[1..], j + |d|, j + |d|, groups);
    }
  }

  // ----- The pattern itself -----

  /** The groups of a matched background file name. */
  datatype BackgroundName = BackgroundName(cardName: string, artist: string, setCode: string, collectorNumber: string)

  function Spelled(m: BackgroundName): string
  {
    m.cardName + " (" + m.artist + ") [" + m.setCode + "] {" + m.collectorNumber + "}.jpg"
  }

  predicate NameOnOneLine(m: BackgroundName)
  {
    OnOneLine(m.cardName) && OnOneLine(m.artist) && OnOneLine(m.setCode) && OnOneLine(m.collectorNumber)
  }

  /** Search order on whole matches. */
  predicate NoLaterThan(a: BackgroundName, b: BackgroundName)
  {
    || |a.cardName| < |b.cardName|
    || (|a.cardName| == |b.cardName| && |a.artist| < |b.artist|)
    || (|a.cardName| == |b.cardName| && |a.artist| == |b.artist| && |a.setCode| <= |b.setCode|)
  }

  function Groups(m: BackgroundName): seq<string>
  {
    [m.cardName, m.artist, m.setCode, m.collectorNumber]
  }

  /** `file.match(...)`: the groups, or `None` (`null`) when the name does not fit. */
  function MatchBackground(file: string): Option<BackgroundName>
  {
    match Scan(file, Delimiters, 0, 0)
    case Some(gs) => if |gs| == 4 then Some(BackgroundName(gs[0], gs[1], gs[2], gs[3])) else None
    case None => None
  }

  lemma WeaveGroups(m: BackgroundName)
    ensures Weave(Groups(m), Delimiters) == Spelled(m)
  {
    var gs, ds := Groups(m), Delimiters;
    assert Weave(gs[3..], ds[3..]) == m.collectorNumber + "}.jpg" by {
      assert gs[3..][1..] == [] && ds[3..][1..] == [];
    }
    assert Weave(gs[2..], ds[2..]) == m.setCode + "] {" + Weave(gs[3..], ds[3..]) by {
      assert gs[2..][1..] == gs[3..] && ds[2..][1..] == ds[3..];
    }
    assert Weave(gs[1..], ds[1..]) == m.artist + ") [" + Weave(gs[2..], ds[2..]) by {
      assert gs[1..][1..] == gs[2..] && ds[1..][1..] == ds[2..];
    }
  }

  /** A match spells the file name back, and no group spans a line break. */
  lemma MatchBackgroundSound(file: string)
    requires MatchBackground(file).Some?
    ensures Spelled(MatchBackground(file).value) == file
    ensures NameOnOneLine(MatchBackground(file).value)
  {
    assert file[0..0] == [];
    assert file[0..] == file;
    ScanSound(file, Delimiters, 0, 0);
    var gs := Scan(file, Delimiters, 0, 0).value;
    var m := MatchBackground(file).value;
    assert gs == Groups(m);
    WeaveGroups(m);
  }

  /** Every file name of the form `Name (Artist) [SET] {CN}.jpg` matches, and
      the match has the shortest card name, then the shortest artist, then the
      shortest set code of all ways to read the name that way. */
  lemma MatchBackgroundLeast(file: string, m: BackgroundName)
    requires Spelled(m) == file && NameOnOneLine(m)
    ensures MatchBackground(file).Some?
    ensures NoLaterThan(MatchBackground(file).value, m)
  {
    assert file[0..0] == [];
    assert file[0..] == file;
    WeaveGroups(m);
    ScanLeast(file, Delimiters, 0, 0, Groups(m));
    ScanSound(file, Delimiters, 0, 0);
    var gs := Scan(file, Delimiters, 0, 0).value;
    var a := Groups(m);
    assert |gs| == 4;
    if |gs[0]| == |a[0]| {
      assert LengthsAtMost(gs[1..], a[1..]);
      if |gs[1]| == |a[1]| {
        assert LengthsAtMost(gs[1..][1..], a[1..][1..]);
        assert gs[1..][1..][0] == gs[2] && a[1..][1..][0] == a[2];
      }
    }
  }

  /** A delimiter occurring before the end of `part`, where `part` is followed
      by the delimiter in `t`, occurs in `part` followed by all but the last
      character of the delimiter. */
  lemma {:induction false} EarlierDelimiter(t: string, part: string, d: string, n: nat)
    requires d != [] && |part| + |d| <= |t|
    requires t[..|part|] == part && OccursAt(t, d, |part|)
    requires n < |part| && OccursAt(t, d, n)
    ensures Contains(part + d[..|d| - 1], d)
  {
    var w := part + d[..|d| - 1];
    forall k | 0 <= k < |d| ensures w[n + k] == d[k] {
      assert t[n..n + |d|][k] == t[n + k];
      if n + k < |part| {
        assert t[..|part|][n + k] == t[n + k];
      } else {
        assert t[|part|..|part| + |d|][n + k - |part|] == t[n + k];
      }
    }
    assert w[n..n + |d|] == d;
    OccursContains(w, d, n);
  }

  /** Two readings of one text as a part, a delimiter and a rest agree when the
      delimiter occurs nowhere earlier and the second part is no longer. */
  lemma SameHead(a: string, b: string, d: string, ta: string, tb: string)
    requires d != [] && a + d + ta == b + d + tb && |b| <= |a|
    requires !Contains(a + d[..|d| - 1], d)
    ensures a == b && ta == tb
  {
    var t := a + d + ta;
    assert t[..|a|] == a && t[|a|..|a| + |d|] == d;
    if |b| < |a| {
      assert t[|b|..|b| + |d|] == d;
      EarlierDelimiter(t, a, d, |b|);
    }
    assert t[..|b|] == b;
    assert t[|a| + |d|..] == ta && t[|b| + |d|..] == tb;
  }

  /** The spelled name after its first group and delimiter. */
  function AfterName(m: BackgroundName): string
  {
    m.artist + ") [" + AfterArtist(m)
  }

  function AfterArtist(m: BackgroundName): string
  {
    m.setCode + "] {" + AfterSetCode(m)
  }

  function AfterSetCode(m: BackgroundName): string
  {
    m.collectorNumber + "}.jpg"
  }

  lemma SpelledFront(m: BackgroundName)
    ensures Spelled(m) == m.cardName + " (" + AfterName(m)
  {
  }

  /** The usual case: when the delimiter text does not occur inside the card
      name, the artist or the set code, the match gives exactly those parts. */
  lemma MatchBackgroundPlain(m: BackgroundName)
    requires NameOnOneLine(m)
    requires !Contains(m.cardName + " ", " (")
    requires !Contains(m.artist + ") ", ") [")
    requires !Contains(m.setCode + "] ", "] {")
    ensures MatchBackground(Spelled(m)) == Some(m)
  {
    var file := Spelled(m);
    MatchBackgroundLeast(file, m);
    MatchBackgroundSound(file);
    var r := MatchBackground(file).value;
    SpelledFront(m);
    SpelledFront(r);
    assert " ("[..1] == " " && ") ["[..2] == ") " && "] {"[..2] == "] ";
    SameHead(m.cardName, r.cardName, " (", AfterName(m), AfterName(r));
    SameHead(m.artist, r.artist, ") [", AfterArtist(m), AfterArtist(r));
    SameHead(m.setCode, r.setCode, "] {", AfterSetCode(m), AfterSetCode(r));
    assert AfterSetCode(m)[..|AfterSetCode(m)| - 5] == m.collectorNumber;
    assert AfterSetCode(r)[..|AfterSetCode(r)| - 5] == r.collectorNumber;
  }

  // ----- What a match writes -----

  /** The three fields a match writes, in the order the callback writes them. */
  function WithName(r: Record, m: BackgroundName): Record
  {
    Put(Put(Put(r, "card_name", Str(m.cardName)), "artist", Str(m.artist)), "collector_number", Str(m.collectorNumber))
  }

  /** The body of the `forEach` callback after a file was chosen: the three
      fields when the name matches, then always `background`. */
  function AppendBackground(r: Record, file: string): (r': Record)
  {
    var r1 := match MatchBackground(file)
      case Some(m) => WithName(r, m)
      case None => r;
    Put(r1, "background", Str(file))
  }

  /** Writing the name keeps the keys in place and the record well formed,
      stores the three groups and leaves every other key alone. */
  lemma WithNameFields(r: Record, m: BackgroundName, key: string)
    requires WellFormed(r)
    ensures WellFormed(WithName(r, m))
    ensures Keys(r) <= Keys(WithName(r, m))
    ensures Get(WithName(r, m), "card_name") == Str(m.cardName)
    ensures Get(WithName(r, m), "artist") == Str(m.artist)
    ensures Get(WithName(r, m), "collector_number") == Str(m.collectorNumber)
    ensures key !in ["card_name", "artist", "collector_number"] ==> Get(WithName(r, m), key) == Get(r, key)
  {
    var r1 := Put(r, "card_name", Str(m.cardName));
    var r2 := Put(r1, "artist", Str(m.artist));
    PutGet(r, "card_name", Str(m.cardName), key);
    PutGet(r1, "artist", Str(m.artist), key);
    PutGet(r2, "collector_number", Str(m.collectorNumber), key);
    PutGet(r1, "artist", Str(m.artist), "card_name");
    PutGet(r2, "collector_number", Str(m.collectorNumber), "card_name");
    PutGet(r2, "collector_number", Str(m.collectorNumber), "artist");
  }

  /** The record keeps its keys in place and gains `background`. */
  lemma AppendBackgroundKeys(r: Record, file: string)
    ensures Keys(r) <= Keys(AppendBackground(r, file))
    ensures "background" in Keys(AppendBackground(r, file))
  {
    match MatchBackground(file)
    case Some(m) =>
      var r1 := Put(r, "card_name", Str(m.cardName));
      var r2 := Put(r1, "artist", Str(m.artist));
      var r3 := Put(r2, "collector_number", Str(m.collectorNumber));
      assert Keys(r) <= Keys(r1) <= Keys(r2) <= Keys(r3);
    case None =>
  }

  /** `background` is always the file name; the three name fields come from
      the match when there is one and are otherwise left as they were. */
  lemma AppendBackgroundFields(r: Record, file: string, key: string)
    requires WellFormed(r)
    ensures WellFormed(AppendBackground(r, file))
    ensures Keys(r) <= Keys(AppendBackground(r, file))
    ensures "background" in Keys(AppendBackground(r, file))
    ensures Get(AppendBackground(r, file), "background") == Str(file)
    ensures MatchBackground(file).Some? ==>
              && Get(AppendBackground(r, file), "card_name") == Str(MatchBackground(file).value.cardName)
              && Get(AppendBackground(r, file), "artist") == Str(MatchBackground(file).value.artist)
              && Get(AppendBackground(r, file), "collector_number") == Str(MatchBackground(file).value.collectorNumber)
    ensures key !in ["background", "card_name", "artist", "collector_number"] ==>
              Get(AppendBackground(r, file), key) == Get(r, key)
    ensures MatchBackground(file).None? && key != "background" ==>
              Get(AppendBackground(r, file), key) == Get(r, key)
  {
    AppendBackgroundKeys(r, file);
    match MatchBackground(file)
    case Some(m) =>
      var r1 := WithName(r, m);
      WithNameFields(r, m, key);
      PutGet(r1, "background", Str(file), key);
      PutGet(r1, "background", Str(file), "card_name");
      PutGet(r1, "background", Str(file), "artist");
      PutGet(r1, "background", Str(file), "collector_number");
    case None =>
      PutGet(r, "background", Str(file), key);
  }
}
