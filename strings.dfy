/**
 * The JavaScript string operations the scripts rely on, over `seq<char>`:
 * ASCII case mapping, `split`/`join`, `includes`, the `\s` whitespace class,
 * `trim`-style stripping, `parseInt(_, 10)` and integer-to-decimal conversion.
 */
module Strings {
  import opened Wrappers

  // ----- Character classes -----

  predicate IsDigit(c: char) { '0' <= c <= '9' }

  predicate IsAsciiLetterOrDigit(c: char) { 'a' <= c <= 'z' || 'A' <= c <= 'Z' || IsDigit(c) }

  /** The characters of the `\s` regular-expression class, which are also the ones
      `parseInt` skips in front of a number. */
  predicate IsWhitespace(c: char)
  {
    || c == ' ' || c == '\t' || c == '\n' || c == '\U{B}' || c == '\U{C}' || c == '\r'
    || c == '\U{A0}' || c == '\U{1680}' || ('\U{2000}' <= c <= '\U{200A}')
    || c == '\U{2028}' || c == '\U{2029}' || c == '\U{202F}' || c == '\U{205F}'
    || c == '\U{3000}' || c == '\U{FEFF}'
  }

  // ----- Case mapping (ASCII letters only) -----

  function LowerChar(c: char): char
  {
    if 'A' <= c <= 'Z' then (c as int - 'A' as int + 'a' as int) as char else c
  }

  function UpperChar(c: char): char
  {
    if 'a' <= c <= 'z' then (c as int - 'a' as int + 'A' as int) as char else c
  }

  /** `toLowerCase`, restricted to the ASCII letters. */
  function ToLower(s: string): (r: string)
    ensures |r| == |s|
    ensures forall i :: 0 <= i < |s| ==> r[i] == LowerChar(s[i])
  {
    seq(|s|, i requires 0 <= i < |s| => LowerChar(s[i]))
  }

  /** `toUpperCase`, restricted to the ASCII letters. */
  function ToUpper(s: string): (r: string)
    ensures |r| == |s|
    ensures forall i :: 0 <= i < |s| ==> r[i] == UpperChar(s[i])
  {
    seq(|s|, i requires 0 <= i < |s| => UpperChar(s[i]))
  }

  lemma ToLowerIdempotent(s: string)
    ensures ToLower(ToLower(s)) == ToLower(s)
  {
  }

  // ----- Prefixes and substrings -----

  predicate StartsWith(s: string, prefix: string)
  {
    |prefix| <= |s| && s[..|prefix|] == prefix
  }

  predicate EndsWith(s: string, suffix: string)
  {
    |suffix| <= |s| && s[|s| - |suffix|..] == suffix
  }

  /** `pat` occurs in `s` starting at index `j`. */
  predicate OccursAt(s: string, pat: string, j: int)
  {
    0 <= j && j + |pat| <= |s| && s[j..j + |pat|] == pat
  }

  lemma OccursFirstChar(s: string, pat: string, j: int)
    requires pat != [] && OccursAt(s, pat, j)
    ensures s[j] == pat[0]
  {
    assert s[j..j + |pat|][0] == s[j];
  }

  /** The first index at or after `from` where `pat` occurs in `s`. */
  function IndexFrom(s: string, pat: string, from: nat): (r: Option<nat>)
    ensures r.Some? ==> from <= r.value && OccursAt(s, pat, r.value)
    ensures r.Some? ==> forall j :: from <= j < r.value ==> !OccursAt(s, pat, j)
    ensures r.None? ==> forall j :: from <= j ==> !OccursAt(s, pat, j)
    decreases |s| - from
  {
    if from + |pat| > |s| then None
    else if s[from..from + |pat|] == pat then Some(from)
    else IndexFrom(s, pat, from + 1)
  }

  /** `s.indexOf(pat)`, with -1 rendered as `None`. */
  function IndexOf(s: string, pat: string): Option<nat>
  {
    IndexFrom(s, pat, 0)
  }

  /** `s.includes(pat)`: true exactly when `pat` occurs somewhere in `s`. */
  predicate Contains(s: string, pat: string)
  {
    IndexOf(s, pat).Some?
  }

  /** An occurrence with none before it (from `from` on) is what `IndexFrom` finds. */
  lemma {:induction false} IndexFromFirst(s: string, pat: string, from: nat, i: nat)
    requires from <= i && OccursAt(s, pat, i)
    requires forall j :: from <= j < i ==> !OccursAt(s, pat, j)
    ensures IndexFrom(s, pat, from) == Some(i)
    decreases i - from
  {
    if from < i {
      IndexFromFirst(s, pat, from + 1, i);
    }
  }

  /** The first occurrence in a string stays the first one when more text
      follows. */
  lemma IndexOfExtends(head: string, tail: string, pat: string, i: nat)
    requires IndexOf(head, pat) == Some(i)
    ensures IndexOf(head + tail, pat) == Some(i)
  {
    var s := head + tail;
    assert s[i..i + |pat|] == head[i..i + |pat|];
    forall j | 0 <= j < i
      ensures !OccursAt(s, pat, j)
    {
      assert !OccursAt(head, pat, j);
      assert s[j..j + |pat|] == head[j..j + |pat|];
    }
    IndexFromFirst(s, pat, 0, i);
  }

  /** A string whose first occurrence of `pat` begins at its end part does
      not contain `pat` before that. */
  lemma NotBeforeFirst(head: string, tail: string, pat: string)
    requires pat != [] && IndexOf(head + tail, pat) == Some(|head|)
    ensures !Contains(head, pat)
  {
    if Contains(head, pat) {
      var j := IndexOf(head, pat).value;
      assert (head + tail)[..|head|] == head;
      OccursInPrefix(head + tail, |head|, pat, j);
    }
  }

  /** Any occurrence makes `includes` true. */
  lemma OccursContains(s: string, pat: string, j: int)
    requires OccursAt(s, pat, j)
    ensures Contains(s, pat)
  {
  }

  lemma ContainsChar(s: string, c: char)
    ensures Contains(s, [c]) <==> c in s
  {
    if Contains(s, [c]) {
      var j := IndexOf(s, [c]).value;
      assert s[j..j + 1] == [c];
      assert s[j] == s[j..j + 1][0];
    }
    if c in s {
      var j :| 0 <= j < |s| && s[j] == c;
      assert OccursAt(s, [c], j);
    }
  }

  /** An occurrence inside a prefix of `s` is an occurrence in `s`. */
  lemma OccursInPrefix(s: string, n: nat, pat: string, j: int)
    requires n <= |s|
    requires OccursAt(s[..n], pat, j)
    ensures OccursAt(s, pat, j)
  {
    assert s[..n][j..j + |pat|] == s[j..j + |pat|];
  }

  /** An occurrence inside a suffix of `s` is an occurrence in `s`, shifted. */
  lemma OccursInSuffix(s: string, n: nat, pat: string, j: int)
    requires n <= |s|
    requires OccursAt(s[n..], pat, j)
    ensures OccursAt(s, pat, n + j)
  {
    assert s[n..][j..j + |pat|] == s[n + j..n + j + |pat|];
  }

  // ----- Ordering -----

  /** Code-point lexicographic order: the order `localeCompare` is taken to be. */
  predicate LexLess(a: string, b: string)
    decreases |a|
  {
    if a == [] then b != []
    else if b == [] then false
    else if a[0] != b[0] then a[0] < b[0]
    else LexLess(a[1..], b[1..])
  }

  lemma {:induction false} LexLessIrreflexive(a: string)
    ensures !LexLess(a, a)
    decreases |a|
  {
    if a != [] {
      LexLessIrreflexive(a[1..]);
    }
  }

  lemma {:induction false} LexLessTransitive(a: string, b: string, c: string)
    requires LexLess(a, b) && LexLess(b, c)
    ensures LexLess(a, c)
    decreases |a|
  {
    if a != [] && b != [] && c != [] && a[0] == b[0] && b[0] == c[0] {
      LexLessTransitive(a[1..], b[1..], c[1..]);
    }
  }

  /** Two different strings are ordered one way or the other. */
  lemma {:induction false} LexLessTotal(a: string, b: string)
    requires a != b
    ensures LexLess(a, b) || LexLess(b, a)
    decreases |a|
  {
    if a != [] && b != [] && a[0] == b[0] {
      assert a == [a[0]] + a[1..] && b == [b[0]] + b[1..];
      LexLessTotal(a[1..], b[1..]);
    }
  }

  // ----- split and join -----

  /** `s.split(sep)` for a non-empty separator: the pieces between successive
      left-to-right, non-overlapping occurrences of `sep`. */
  function Split(s: string, sep: string): (r: seq<string>)
    requires sep != []
    ensures |r| >= 1
    decreases |s|
  {
    match IndexOf(s, sep)
    case None => [s]
    case Some(i) => [s[..i]] + Split(s[i + |sep|..], sep)
  }

  /** `parts.join(sep)`. */
  function Join(parts: seq<string>, sep: string): string
  {
    if |parts| == 0 then ""
    else if |parts| == 1 then parts[0]
    else parts[0] + sep + Join(parts[1..], sep)
  }

  /** The last element of a non-empty list. */
  function Last<T>(s: seq<T>): T
    requires |s| > 0
  {
    s[|s| - 1]
  }

  /** Joining the pieces of a split with the same separator restores the string. */
  lemma {:induction false} SplitJoin(s: string, sep: string)
    requires sep != []
    ensures Join(Split(s, sep), sep) == s
    decreases |s|
  {
    match IndexOf(s, sep)
    case None =>
    case Some(i) =>
      var rest := s[i + |sep|..];
      var parts := Split(s, sep);
      assert parts == [s[..i]] + Split(rest, sep);
      assert parts[1..] == Split(rest, sep);
      SplitJoin(rest, sep);
      assert Join(parts, sep) == s[..i] + sep + rest;
      assert s[i..i + |sep|] == sep;
      assert s == s[..i] + s[i..i + |sep|] + rest;
  }

  /** No piece of a split contains the separator. */
  lemma {:induction false} SplitPiecesLackSeparator(s: string, sep: string)
    requires sep != []
    ensures forall p :: p in Split(s, sep) ==> !Contains(p, sep)
    decreases |s|
  {
    match IndexOf(s, sep)
    case None =>
    case Some(i) =>
      var rest := s[i + |sep|..];
      SplitPiecesLackSeparator(rest, sep);
      if Contains(s[..i], sep) {
        var j := IndexOf(s[..i], sep).value;
        OccursInPrefix(s, i, sep, j);
        assert false;
      }
  }

  /** The first piece of a split is the text before the first separator. */
  lemma SplitFirst(s: string, sep: string)
    requires sep != []
    ensures Split(s, sep)[0] == if IndexOf(s, sep).Some? then s[..IndexOf(s, sep).value] else s
  {
  }

  /** A string without the separator splits into itself alone. */
  lemma SplitWithoutSeparator(s: string, sep: string)
    requires sep != [] && !Contains(s, sep)
    ensures Split(s, sep) == [s]
  {
  }

  /** Where the last piece of a split starts: just after the last separator,
      or at 0 when there is none. */
  function LastStart(s: string, sep: string): (k: nat)
    requires sep != []
    ensures k <= |s|
    decreases |s|
  {
    match IndexOf(s, sep)
    case None => 0
    case Some(i) => i + |sep| + LastStart(s[i + |sep|..], sep)
  }

  /** The last piece of a split is what follows the last separator, or the
      whole string when there is none. */
  lemma {:induction false} LastStartPiece(s: string, sep: string)
    requires sep != []
    ensures Last(Split(s, sep)) == s[LastStart(s, sep)..]
    decreases |s|
  {
    if IndexOf(s, sep).Some? {
      var i := IndexOf(s, sep).value;
      FoundBound(s, sep, i);
      LastStartSome(s, sep, i);
      LastStartPiece(s[i + |sep|..], sep);
      LastPieceStep(s, sep, i);
    } else {
      assert Split(s, sep) == [s];
    }
  }

  /** `k` is 0 or just after an occurrence of `sep`. */
  predicate AfterSep(s: string, sep: string, k: nat)
  {
    k == 0 || (k >= |sep| && OccursAt(s, sep, k - |sep|))
  }

  /** The last piece, when it is not the whole string, follows a separator. */
  lemma {:induction false} LastStartAfterSep(s: string, sep: string)
    requires sep != []
    ensures AfterSep(s, sep, LastStart(s, sep))
    decreases |s|
  {
    if IndexOf(s, sep).Some? {
      var i := IndexOf(s, sep).value;
      FoundBound(s, sep, i);
      LastStartSome(s, sep, i);
      LastStartAfterSep(s[i + |sep|..], sep);
      AfterSepStep(s, sep, i);
    }
  }

  /** With a separator at `i`, the last piece starts where the last piece of
      the rest after it starts. */
  lemma LastStartSome(s: string, sep: string, i: nat)
    requires sep != [] && IndexOf(s, sep) == Some(i) && i + |sep| <= |s|
    ensures LastStart(s, sep) == i + |sep| + LastStart(s[i + |sep|..], sep)
  {
  }

  /** A separator that is found fits in the string. */
  lemma FoundBound(s: string, sep: string, i: nat)
    requires IndexOf(s, sep) == Some(i)
    ensures i + |sep| <= |s|
  {
  }

  /** A position after a separator in what follows the first separator is one
      in the whole string. */
  lemma AfterSepStep(s: string, sep: string, i: nat)
    requires sep != [] && IndexOf(s, sep) == Some(i) && i + |sep| <= |s|
    requires AfterSep(s[i + |sep|..], sep, LastStart(s[i + |sep|..], sep))
    ensures AfterSep(s, sep, LastStart(s, sep))
  {
    LastStartSome(s, sep, i);
    var k' := LastStart(s[i + |sep|..], sep);
    if k' > 0 {
      LaterSep(s, sep, i, k', LastStart(s, sep));
    } else {
      FoundOccurs(s, sep, i);
      SepBefore(s, sep, LastStart(s, sep), i);
    }
  }

  lemma LaterSep(s: string, sep: string, i: nat, k': nat, k: nat)
    requires i + |sep| <= |s| && k == i + |sep| + k'
    requires k' >= |sep| && OccursAt(s[i + |sep|..], sep, k' - |sep|)
    ensures AfterSep(s, sep, k)
  {
    OccursShifted(s, i + |sep|, sep, k' - |sep|, i + k');
    SepBefore(s, sep, k, i + k');
  }

  /** A position `|sep|` after an occurrence of `sep` is after a separator. */
  lemma SepBefore(s: string, sep: string, k: nat, m: int)
    requires m + |sep| == k && OccursAt(s, sep, m)
    ensures AfterSep(s, sep, k)
  {
  }

  /** The last piece after the first separator is the last piece of the
      whole. */
  lemma LastPieceStep(s: string, sep: string, i: nat)
    requires sep != [] && IndexOf(s, sep) == Some(i) && i + |sep| <= |s|
    requires var rest := s[i + |sep|..]; Last(Split(rest, sep)) == rest[LastStart(rest, sep)..]
    ensures Last(Split(s, sep)) == s[LastStart(s, sep)..]
  {
    var rest := s[i + |sep|..];
    var k' := LastStart(rest, sep);
    LastStartSome(s, sep, i);
    SplitAt(s, sep, i);
    LastCons(s[..i], Split(rest, sep));
    assert rest[k'..] == s[i + |sep| + k'..];
  }

  /** An occurrence in a suffix, at the position it has in the whole. */
  lemma OccursShifted(s: string, n: nat, pat: string, j: int, m: int)
    requires n <= |s| && m == n + j
    requires OccursAt(s[n..], pat, j)
    ensures OccursAt(s, pat, m)
  {
    OccursInSuffix(s, n, pat, j);
  }

  lemma FoundOccurs(s: string, sep: string, i: nat)
    requires IndexOf(s, sep) == Some(i)
    ensures OccursAt(s, sep, i)
  {
  }

  /** A split at the first separator, at `i`, continues after it. */
  lemma SplitAt(s: string, sep: string, i: nat)
    requires sep != [] && IndexOf(s, sep) == Some(i)
    ensures i + |sep| <= |s| && Split(s, sep) == [s[..i]] + Split(s[i + |sep|..], sep)
  {
  }

  lemma LastCons<T>(x: T, t: seq<T>)
    requires t != []
    ensures Last([x] + t) == Last(t)
  {
  }

  /** A one-character separator that `a` lacks splits `a` off first. */
  lemma SplitAtFirst(a: string, c: char, b: string)
    requires c !in a
    ensures Split(a + [c] + b, [c]) == [a] + Split(b, [c])
  {
    var s := a + [c] + b;
    assert s[|a|..|a| + 1] == [c];
    forall j | 0 <= j < |a| ensures !OccursAt(s, [c], j) {
      assert s[j..j + 1] == [a[j]];
    }
    IndexFromFirst(s, [c], 0, |a|);
    assert IndexOf(s, [c]) == Some(|a|);
    assert s[..|a|] == a;
    assert s[|a| + 1..] == b;
  }

  /** Joining with one more part at the end adds the separator and that part. */
  lemma {:induction false} JoinSnoc(parts: seq<string>, x: string, sep: string)
    requires parts != []
    ensures Join(parts + [x], sep) == Join(parts, sep) + sep + x
    decreases |parts|
  {
    if |parts| == 1 {
      assert (parts + [x])[1..] == [x];
    } else {
      assert (parts + [x])[1..] == parts[1..] + [x];
      JoinSnoc(parts[1..], x, sep);
    }
  }

  /** Splitting on a one-character separator that no part contains gives the
      joined parts back. */
  lemma {:induction false} JoinSplit(parts: seq<string>, c: char)
    requires parts != [] && forall k :: 0 <= k < |parts| ==> c !in parts[k]
    ensures Split(Join(parts, [c]), [c]) == parts
    decreases |parts|
  {
    if |parts| == 1 {
      ContainsChar(parts[0], c);
      SplitWithoutSeparator(parts[0], [c]);
    } else {
      JoinSplit(parts[1..], c);
      SplitAtFirst(parts[0], c, Join(parts[1..], [c]));
      assert parts == [parts[0]] + parts[1..];
    }
  }

  /** Joining with a shorter separator gives a string no longer. */
  lemma {:induction false} JoinShorter(parts: seq<string>, a: string, b: string)
    requires |a| <= |b|
    ensures |Join(parts, a)| <= |Join(parts, b)|
    decreases |parts|
  {
    if |parts| > 1 {
      JoinShorter(parts[1..], a, b);
    }
  }

  /** The parts written one after another. */
  function Concat(parts: seq<string>): string
  {
    if parts == [] then [] else Concat(parts[..|parts| - 1]) + parts[|parts| - 1]
  }

  // ----- Whitespace trimming -----

  /** Drops leading whitespace. */
  function TrimStart(s: string): (r: string)
    ensures |r| <= |s| && r == s[|s| - |r|..]
    ensures forall k :: 0 <= k < |s| - |r| ==> IsWhitespace(s[k])
    ensures r != [] ==> !IsWhitespace(r[0])
    decreases |s|
  {
    if s != [] && IsWhitespace(s[0]) then TrimStart(s[1..]) else s
  }

  /** Drops trailing whitespace. */
  function TrimEnd(s: string): (r: string)
    ensures |r| <= |s| && r == s[..|r|]
    ensures forall k :: |r| <= k < |s| ==> IsWhitespace(s[k])
    ensures r != [] ==> !IsWhitespace(r[|r| - 1])
    decreases |s|
  {
    if s != [] && IsWhitespace(s[|s| - 1]) then TrimEnd(s[..|s| - 1]) else s
  }

  /** `s.replace(/^\s+|\s+$/g, "")`: leading and trailing whitespace removed.
      What is kept neither starts nor ends with whitespace. */
  function Trim(s: string): (r: string)
    ensures |r| <= |s|
    ensures r != [] ==> !IsWhitespace(r[0]) && !IsWhitespace(r[|r| - 1])
  {
    var t := TrimStart(s);
    var r := TrimEnd(t);
    assert r != [] ==> r[0] == t[0];
    r
  }

  /** Trimming twice trims nothing more. */
  lemma TrimIdempotent(s: string)
    ensures Trim(Trim(s)) == Trim(s)
  {
    var r := Trim(s);
    assert TrimStart(r) == r;
    assert TrimEnd(r) == r;
  }

  // ----- Decimal numbers -----

  function DigitChar(d: nat): (c: char)
    requires d < 10
    ensures IsDigit(c)
  {
    ('0' as int + d) as char
  }

  function DigitValue(c: char): (d: nat)
    requires IsDigit(c)
    ensures d < 10
  {
    c as int - '0' as int
  }

  predicate AllDigits(s: string)
  {
    forall i :: 0 <= i < |s| ==> IsDigit(s[i])
  }

  /** The number a string of decimal digits denotes. */
  function DigitsValue(ds: string): nat
    requires AllDigits(ds)
  {
    if ds == [] then 0 else DigitsValue(ds[..|ds| - 1]) * 10 + DigitValue(ds[|ds| - 1])
  }

  /** A run of zeros has the value 0. */
  lemma {:induction false} ZerosValue(z: string)
    requires forall k :: 0 <= k < |z| ==> z[k] == '0'
    ensures AllDigits(z) && DigitsValue(z) == 0
    decreases |z|
  {
    if z != [] {
      ZerosValue(z[..|z| - 1]);
    }
  }

  /** Leading zeros do not change the value of a digit string. */
  lemma {:induction false} LeadingZeros(z: string, ds: string)
    requires forall k :: 0 <= k < |z| ==> z[k] == '0'
    requires AllDigits(ds)
    ensures AllDigits(z + ds) && DigitsValue(z + ds) == DigitsValue(ds)
    decreases |ds|
  {
    assert AllDigits(z + ds);
    if ds == [] {
      assert z + ds == z;
      ZerosValue(z);
    } else {
      var m := |ds| - 1;
      LeadingZeros(z, ds[..m]);
      assert (z + ds)[..|z| + m] == z + ds[..m];
    }
  }

  /** The longest prefix of `s` made of decimal digits. */
  function DigitPrefix(s: string): (r: string)
    ensures |r| <= |s| && r == s[..|r|] && AllDigits(r)
    ensures |r| < |s| ==> !IsDigit(s[|r|])
  {
    if s != [] && IsDigit(s[0]) then [s[0]] + DigitPrefix(s[1..]) else []
  }

  /** `parseInt(s, 10)`: skip leading whitespace, take an optional sign and the
      longest run of digits after it; `None` stands for `NaN` (no digits). */
  function ParseInt(s: string): Option<int>
  {
    var t := TrimStart(s);
    var negative := t != [] && t[0] == '-';
    var body := if t != [] && (t[0] == '-' || t[0] == '+') then t[1..] else t;
    var ds := DigitPrefix(body);
    if ds == [] then None
    else if negative then Some(-(DigitsValue(ds) as int))
    else Some(DigitsValue(ds))
  }

  /** `parseInt(x, 10) || fallback` for a value that may be missing: a missing
      value, `NaN` and `0` are all falsy and give `fallback`. */
  function ParseIntOr(x: Option<string>, fallback: int): (r: int)
    ensures r == fallback || (x.Some? && ParseInt(x.value) == Some(r) && r != 0)
    ensures x.Some? && ParseInt(x.value).Some? && ParseInt(x.value).value != 0 ==> r == ParseInt(x.value).value
  {
    if x.None? then fallback
    else match ParseInt(x.value)
      case Some(v) => if v != 0 then v else fallback
      case None => fallback
  }

  /** The shortest decimal representation of a natural number. */
  function NatToDecimal(n: nat): (r: string)
    ensures |r| >= 1 && AllDigits(r)
    ensures DigitsValue(r) == n
    ensures |r| > 1 ==> r[0] != '0'
    decreases n
  {
    if n < 10 then [DigitChar(n)]
    else
      var prefix := NatToDecimal(n / 10);
      var r := prefix + [DigitChar(n % 10)];
      assert r[..|r| - 1] == prefix;
      r
  }

  /** `String(n)` for an integer: a minus sign for negatives, then the digits. */
  function IntToDecimal(n: int): string
  {
    if n < 0 then "-" + NatToDecimal(-n) else NatToDecimal(n)
  }

  lemma {:induction false} DigitPrefixOfDigits(s: string)
    requires AllDigits(s)
    ensures DigitPrefix(s) == s
    decreases |s|
  {
    if s != [] {
      DigitPrefixOfDigits(s[1..]);
    }
  }

  /** `parseInt` of a string of digits, leading zeros included. */
  lemma ParseAllDigits(s: string)
    requires s != [] && AllDigits(s)
    ensures ParseInt(s) == Some(DigitsValue(s) as int)
  {
    assert !IsWhitespace(s[0]) && s[0] != '-' && s[0] != '+';
    assert TrimStart(s) == s;
    DigitPrefixOfDigits(s);
  }

  /** Parsing the decimal form of an integer gives the integer back. */
  lemma ParseIntDecimal(n: int)
    ensures ParseInt(IntToDecimal(n)) == Some(n)
  {
    var s := IntToDecimal(n);
    var m: nat := if n < 0 then -n else n;
    var ds := NatToDecimal(m);
    assert !IsWhitespace(s[0]);
    assert TrimStart(s) == s;
    if n < 0 {
      assert s[1..] == ds;
    } else {
      assert s == ds;
      assert s[0] != '-' && s[0] != '+';
    }
    DigitPrefixOfDigits(ds);
  }

  /** The decimal form is one-to-one. */
  lemma DecimalInjective(a: int, b: int)
    requires IntToDecimal(a) == IntToDecimal(b)
    ensures a == b
  {
    ParseIntDecimal(a);
    ParseIntDecimal(b);
  }

  /** A decimal form has no whitespace in it. */
  lemma DecimalHasNoWhitespace(n: int)
    ensures forall k :: 0 <= k < |IntToDecimal(n)| ==> !IsWhitespace(IntToDecimal(n)[k])
  {
  }

  function Pow10(k: nat): (p: nat)
    ensures p >= 1
  {
    if k == 0 then 1 else 10 * Pow10(k - 1)
  }

  /** A number below 10^k has at most k digits. */
  lemma {:induction false} DecimalLength(n: nat, k: nat)
    requires k >= 1 && n < Pow10(k)
    ensures |NatToDecimal(n)| <= k
    decreases k
  {
    if n >= 10 {
      assert Pow10(1) == 10;
      assert k >= 2;
      assert Pow10(k) == 10 * Pow10(k - 1);
      assert n / 10 < Pow10(k - 1);
      DecimalLength(n / 10, k - 1);
      assert |NatToDecimal(n)| == |NatToDecimal(n / 10)| + 1;
    }
  }

  /** A digit string without a leading zero is the decimal form of its value. */
  lemma {:induction false} DecimalOfDigits(s: string)
    requires s != [] && AllDigits(s) && (|s| > 1 ==> s[0] != '0')
    ensures NatToDecimal(DigitsValue(s)) == s
    decreases |s|
  {
    var init, d := s[..|s| - 1], DigitValue(s[|s| - 1]);
    if |s| > 1 {
      assert init[0] == s[0];
      DigitsValuePositive(init);
      DecimalOfDigits(init);
      var n := DigitsValue(s);
      assert n == DigitsValue(init) * 10 + d;
      assert n / 10 == DigitsValue(init) && n % 10 == d;
      assert DigitChar(d) == s[|s| - 1];
      assert s == init + [s[|s| - 1]];
    }
  }

  lemma {:induction false} DigitsValuePositive(s: string)
    requires s != [] && AllDigits(s) && s[0] != '0'
    ensures DigitsValue(s) >= 1
    decreases |s|
  {
    if |s| > 1 {
      assert s[..|s| - 1][0] == s[0];
      DigitsValuePositive(s[..|s| - 1]);
    }
  }

  /** `parseInt` reads a digit string without a leading zero as its value. */
  lemma ParseDigits(s: string)
    requires s != [] && AllDigits(s) && (|s| > 1 ==> s[0] != '0')
    ensures ParseInt(s) == Some(DigitsValue(s) as int)
  {
    DecimalOfDigits(s);
    ParseIntDecimal(DigitsValue(s));
  }

  /** A string that starts with neither whitespace, a sign nor a digit parses
      as `NaN`. */
  lemma ParseNoDigits(s: string)
    requires s != [] && !IsWhitespace(s[0]) && !IsDigit(s[0]) && s[0] != '-' && s[0] != '+'
    ensures ParseInt(s) == None
  {
    assert TrimStart(s) == s;
    assert DigitPrefix(s) == [];
  }

  /** A single digit parses as its value. */
  lemma ParseOneDigit(c: char)
    requires IsDigit(c)
    ensures ParseInt([c]) == Some(DigitValue(c))
  {
    assert !IsWhitespace(c);
    assert TrimStart([c]) == [c];
    assert [c][1..] == [];
    assert DigitPrefix([c]) == [c];
    assert [c][..0] == [];
    assert DigitsValue([c]) == DigitValue(c);
    assert c != '-' && c != '+';
  }
}
