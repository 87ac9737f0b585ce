/**
 * The text helpers the two Illustrator scripts share: turning CSV text into
 * records, the file name at the end of a URL, the `Mon YYYY` date and the
 * artist line.
 */
module ScriptText {
  import opened Wrappers
  import opened Seqs
  import opened Strings
  import opened Records

  // ----- parseCSV -----

  /** The object `{}` after `obj[headers[j]] = cells[j]` for each `j` in turn. */
  function RecordOf(headers: seq<string>, cells: seq<string>): (r: Record)
    requires |cells| == |headers|
    ensures WellFormed(r) && TextValues(r)
  {
    if headers == [] then Record([])
    else
      var n := |headers| - 1;
      var init := RecordOf(headers[..n], cells[..n]);
      PutGet(init, headers[n], Str(cells[n]), headers[n]);
      PutText(init, headers[n], Str(cells[n]));
      Put(init, headers[n], Str(cells[n]))
  }

  /** The keys are the headers in order, a repeated header listed once, where
      it first appears. */
  lemma {:induction false} RecordOfKeys(headers: seq<string>, cells: seq<string>)
    requires |cells| == |headers|
    ensures Keys(RecordOf(headers, cells)) == Dedup(headers)
    decreases |headers|
  {
    if headers != [] {
      var n := |headers| - 1;
      RecordOfKeys(headers[..n], cells[..n]);
      RecordOfLast(headers, cells);
      assert headers[..n] + [headers[n]] == headers;
      KeysAfterPut(RecordOf(headers[..n], cells[..n]), headers[..n], headers[n], Str(cells[n]));
    }
  }

  lemma KeysAfterPut(r: Record, seen: seq<string>, key: string, v: Value)
    requires Keys(r) == Dedup(seen)
    ensures Keys(Put(r, key, v)) == Dedup(seen + [key])
  {
    DedupSnoc(seen, key);
  }

  /** A header names its own cell, unless a later column repeats the header,
      in which case the later cell wins. */
  lemma {:induction false} RecordOfGet(headers: seq<string>, cells: seq<string>, j: nat)
    requires |cells| == |headers| && j < |headers|
    requires forall k :: j < k < |headers| ==> headers[k] != headers[j]
    ensures Get(RecordOf(headers, cells), headers[j]) == Str(cells[j])
    decreases |headers|
  {
    var n := |headers| - 1;
    var init := RecordOf(headers[..n], cells[..n]);
    RecordOfLast(headers, cells);
    if j < n {
      RecordOfGet(headers[..n], cells[..n], j);
      assert headers[..n][j] == headers[j] && cells[..n][j] == cells[j];
      GetAfterPut(init, headers[n], Str(cells[n]), headers[j], Str(cells[j]));
    } else {
      assert j == n;
      GetAfterPut(init, headers[n], Str(cells[n]), headers[n], Str(cells[n]));
    }
  }

  lemma RecordOfLast(headers: seq<string>, cells: seq<string>)
    requires |cells| == |headers| > 0
    ensures RecordOf(headers, cells)
      == Put(RecordOf(headers[..|headers| - 1], cells[..|headers| - 1]), headers[|headers| - 1], Str(cells[|headers| - 1]))
  {
  }

  lemma GetAfterPut(r: Record, key: string, v: Value, other: string, w: Value)
    requires WellFormed(r)
    requires other == key ==> w == v
    requires other != key ==> Get(r, other) == w
    ensures Get(Put(r, key, v), other) == w
  {
    PutGet(r, key, v, other);
  }

  /** The records of the data lines whose cell count is the header count, in
      order. */
  function CsvRows(lines: seq<string>, headers: seq<string>, parseLine: string -> seq<string>): (rows: seq<Record>)
    ensures |rows| <= |lines|
  {
    if lines == [] then []
    else
      var n := |lines| - 1;
      var cells := parseLine(lines[n]);
      CsvRows(lines[..n], headers, parseLine) + (if |cells| == |headers| then [RecordOf(headers, cells)] else [])
  }

  /** `parseCSV` with the given line parser: the first line gives the headers. */
  function ParsedCsv(data: string, parseLine: string -> seq<string>): seq<Record>
  {
    var lines := Split(data, "\n");
    CsvRows(lines[1..], parseLine(lines[0]), parseLine)
  }

  /** The loops of `parseCSV`. */
  method ParseCsv(data: string, parseLine: string -> seq<string>) returns (result: seq<Record>)
    ensures result == ParsedCsv(data, parseLine)
  {
    var lines := Split(data, "\n");
    var headers := parseLine(lines[0]);
    result := [];
    var i := 1;
    while i < |lines|
      invariant 1 <= i <= |lines|
      invariant result == CsvRows(lines[1..i], headers, parseLine)
    {
      var cells := parseLine(lines[i]);
      assert lines[1..i + 1][..i - 1] == lines[1..i];
      if |cells| == |headers| {
        var obj := Record([]);
        var j := 0;
        while j < |headers|
          invariant j <= |headers|
          invariant obj == RecordOf(headers[..j], cells[..j])
        {
          assert headers[..j + 1][..j] == headers[..j] && cells[..j + 1][..j] == cells[..j];
          obj := Put(obj, headers[j], Str(cells[j]));
          j := j + 1;
        }
        assert headers[..j] == headers && cells[..j] == cells;
        result := result + [obj];
      }
      i := i + 1;
    }
    assert lines[1..i] == lines[1..];
  }

  /** A record comes out for exactly the data lines with as many cells as
      there are headers, built from that line. */
  lemma {:induction false} CsvRowsFrom(lines: seq<string>, headers: seq<string>, parseLine: string -> seq<string>)
    ensures forall r :: r in CsvRows(lines, headers, parseLine) <==>
              exists i :: 0 <= i < |lines| && |parseLine(lines[i])| == |headers| && r == RecordOf(headers, parseLine(lines[i]))
    decreases |lines|
  {
    if lines != [] {
      var n := |lines| - 1;
      CsvRowsFrom(lines[..n], headers, parseLine);
      assert forall i :: 0 <= i < n ==> lines[..n][i] == lines[i];
    }
  }

  /** Every record `parseCSV` builds has distinct keys and string values. */
  lemma ParsedRecords(data: string, parseLine: string -> seq<string>)
    ensures forall r :: r in ParsedCsv(data, parseLine) ==> WellFormed(r) && TextValues(r)
  {
    var lines := Split(data, "\n");
    CsvRowsFrom(lines[1..], parseLine(lines[0]), parseLine);
  }

  // ----- getFileNameFromURL -----

  /** The text after the last `/`, cut at the first `?` after it. */
  function FileNameFromUrl(url: string): (name: string)
    ensures '/' !in name && '?' !in name
  {
    var parts := Split(url, "/");
    var last := Last(parts);
    SplitPiecesLackSeparator(url, "/");
    ContainsChar(last, '/');
    SplitPiecesLackSeparator(last, "?");
    var name := Split(last, "?")[0];
    ContainsChar(name, '?');
    SplitFirst(last, "?");
    assert forall k :: 0 <= k < |name| ==> name[k] == last[k];
    name
  }

  /** `url[i..j]` starts after the last `/` of `url` and stops at the first
      `?` after that, or at the end. */
  predicate LastSegment(url: string, i: int, j: int)
  {
    && 0 <= i <= j <= |url|
    && (i == 0 || url[i - 1] == '/') && '/' !in url[i..]
    && (j == |url| || url[j] == '?') && '?' !in url[i..j]
  }

  /** The file name is the last path segment of the URL without its query. */
  lemma FileNameIsLastSegment(url: string)
    ensures exists i, j :: LastSegment(url, i, j) && FileNameFromUrl(url) == url[i..j]
  {
    var i := LastStart(url, "/");
    SlashStart(url);
    var last := url[i..];
    var p := QueryEnd(last);
    QueryEndShape(last);
    var j := i + p;
    assert url[i..j] == last[..p];
    assert j < |url| ==> url[j] == last[p];
    FileNameParts(url);
    assert FileNameFromUrl(url) == Split(last, "?")[0];
    assert LastSegment(url, i, j);
  }

  lemma FileNameParts(url: string)
    ensures FileNameFromUrl(url) == Split(Last(Split(url, "/")), "?")[0]
  {
  }

  /** The last segment starts after the last `/` and holds no `/`. */
  lemma SlashStart(url: string)
    ensures var i := LastStart(url, "/");
      && Last(Split(url, "/")) == url[i..]
      && (i == 0 || url[i - 1] == '/') && '/' !in url[i..]
  {
    var i := LastStart(url, "/");
    var parts := Split(url, "/");
    LastStartPiece(url, "/");
    LastStartAfterSep(url, "/");
    SplitPiecesLackSeparator(url, "/");
    assert Last(parts) in parts;
    ContainsChar(url[i..], '/');
    if i > 0 {
      assert url[i - 1..i] == "/";
      assert url[i - 1] == url[i - 1..i][0];
    }
  }

  /** Where the query of a segment starts, or its length when it has none. */
  function QueryEnd(last: string): (p: nat)
    ensures p <= |last|
  {
    match IndexOf(last, "?")
    case Some(p) => p
    case None => |last|
  }

  /** The name part stops at the first `?` and holds none. */
  lemma QueryEndShape(last: string)
    ensures var p := QueryEnd(last);
      && Split(last, "?")[0] == last[..p]
      && (p == |last| || last[p] == '?') && '?' !in last[..p]
  {
    var p := QueryEnd(last);
    SplitFirst(last, "?");
    SplitPiecesLackSeparator(last, "?");
    assert Split(last, "?")[0] in Split(last, "?");
    ContainsChar(last[..p], '?');
    if IndexOf(last, "?").Some? {
      assert last[p..p + 1] == "?";
      assert last[p] == last[p..p + 1][0];
    }
  }

  // ----- formatDate -----

  const MonthNames: seq<string> := ["Jan", "Feb", "Mar", "Apr", "May", "Jun", "Jul", "Aug", "Sep", "Oct", "Nov", "Dec"]

  /** `monthNames[parseInt(month, 10) - 1]` as it prints: `undefined` when the
      month is absent, not a number or out of range. */
  function MonthName(n: Option<int>): string
  {
    if n.Some? && 1 <= n.value <= 12 then MonthNames[n.value - 1] else "undefined"
  }

  /** `formatDate`: the month of the second `-`-separated part, a space and
      the first part. */
  function FormatDate(dateStr: string): string
  {
    DateText(Split(dateStr, "-"))
  }

  /** The text `formatDate` builds from the `-`-separated parts. */
  function DateText(parts: seq<string>): string
    requires |parts| >= 1
  {
    MonthName(if |parts| > 1 then ParseInt(parts[1]) else None) + " " + parts[0]
  }

  /** A `YYYY-MM…` date with a month from 01 to 12 gives the month's three
      letters and the year. */
  lemma FormatIsoDate(year: string, month: string, rest: string)
    requires '-' !in year && '-' !in month && (rest != [] ==> rest[0] == '-')
    requires month != [] && AllDigits(month) && 1 <= DigitsValue(month) <= 12
    ensures FormatDate(year + "-" + month + rest) == MonthNames[DigitsValue(month) - 1] + " " + year
  {
    var date := year + "-" + month + rest;
    var name := MonthNames[DigitsValue(month) - 1];
    ParseAllDigits(month);
    FormatDateParts(date, year, month, rest, DigitsValue(month), name);
  }

  lemma FormatDateParts(date: string, year: string, month: string, rest: string, n: int, name: string)
    requires date == year + "-" + month + rest
    requires '-' !in year && '-' !in month && (rest != [] ==> rest[0] == '-')
    requires ParseInt(month) == Some(n) && 1 <= n <= 12 && name == MonthNames[n - 1]
    ensures FormatDate(date) == name + " " + year
  {
    IsoDateParts(year, month, rest);
    DateTextOf(Split(date, "-"), year, month, n, name);
  }

  lemma DateTextOf(parts: seq<string>, year: string, month: string, n: int, name: string)
    requires |parts| > 1 && parts[0] == year && parts[1] == month
    requires ParseInt(month) == Some(n) && 1 <= n <= 12 && name == MonthNames[n - 1]
    ensures DateText(parts) == name + " " + year
  {
  }

  lemma IsoDateParts(year: string, month: string, rest: string)
    requires '-' !in year && '-' !in month && (rest != [] ==> rest[0] == '-')
    ensures var parts := Split(year + "-" + month + rest, "-");
            |parts| > 1 && parts[0] == year && parts[1] == month
  {
    assert year + "-" + month + rest == year + ['-'] + (month + rest);
    SplitAtFirst(year, '-', month + rest);
    if rest == [] {
      assert month + rest == month;
      ContainsChar(month, '-');
      SplitWithoutSeparator(month, "-");
    } else {
      assert month + rest == month + ['-'] + rest[1..];
      SplitAtFirst(month, '-', rest[1..]);
    }
  }

  /** A date without `-` has no month part. */
  lemma FormatDateWithoutMonth(year: string)
    requires '-' !in year
    ensures FormatDate(year) == "undefined " + year
  {
    ContainsChar(year, '-');
    SplitWithoutSeparator(year, "-");
  }

  // ----- The artist line -----

  /** The artist, followed by `sep` and the collector number when there is
      one; empty when there is no artist. */
  function ArtistText(artist: Value, collectorNumber: Value, sep: string): (text: string)
    requires artist.Str? || !Truthy(artist)
    requires collectorNumber.Str? || !Truthy(collectorNumber)
  {
    if !Truthy(artist) then ""
    else if Truthy(collectorNumber) then artist.s + sep + collectorNumber.s
    else artist.s
  }

  /** A separator first found right after the artist's name (so the name
      neither holds it nor runs into it) splits the line back into the
      artist and, when there is one, the collector number. */
  lemma ArtistTextSplit(artist: string, collectorNumber: Value, sep: string)
    requires sep != [] && artist != [] && IndexOf(artist + sep, sep) == Some(|artist|)
    requires collectorNumber.Str? || collectorNumber == Missing
    requires collectorNumber.Str? ==> !Contains(collectorNumber.s, sep)
    ensures Split(ArtistText(Str(artist), collectorNumber, sep), sep)
      == if Truthy(collectorNumber) then [artist, collectorNumber.s] else [artist]
  {
    NotBeforeFirst(artist, sep, sep);
    if Truthy(collectorNumber) {
      var line := artist + sep + collectorNumber.s;
      IndexOfExtends(artist + sep, collectorNumber.s, sep, |artist|);
      SplitAt(line, sep, |artist|);
      assert line[..|artist|] == artist;
      assert line[|artist| + |sep|..] == collectorNumber.s;
      SplitWithoutSeparator(collectorNumber.s, sep);
    } else {
      SplitWithoutSeparator(artist, sep);
    }
  }
}
