/**
 * The text side of the collector-number range images script: its
 * quote-aware CSV line parser, `padStart` and `repeat` for the export
 * names, the title abbreviation, and the subtitle and artist lines.
 */
module RangeImages {
  import opened Wrappers
  import opened Strings
  import opened Records
  import opened ScriptText
  import opened Seqs

  // ----- parseCSVLine -----

  /** The character at `k` is a `"` not preceded by a backslash: it switches
      quoting on or off and is not kept. */
  predicate TogglesQuote(line: string, k: nat)
    requires k < |line|
  {
    line[k] == '"' && (k == 0 || line[k - 1] != '\\')
  }

  /** What the loop holds after the first `n` characters: whether it is inside
      quotes, the fields finished so far (before trimming) and the field being
      read. */
  datatype LineScan = LineScan(inside: bool, fields: seq<string>, value: string)

  function Scan(line: string, n: nat): LineScan
    requires n <= |line|
  {
    if n == 0 then LineScan(false, [], "")
    else
      var st := Scan(line, n - 1);
      if TogglesQuote(line, n - 1) then st.(inside := !st.inside)
      else if line[n - 1] == ',' && !st.inside then LineScan(st.inside, st.fields + [st.value], "")
      else st.(value := st.value + [line[n - 1]])
  }

  /** The character at `k` is a comma outside quotes: it ends a field. */
  predicate Separates(line: string, k: nat)
    requires k < |line|
  {
    !TogglesQuote(line, k) && line[k] == ',' && !Scan(line, k).inside
  }

  /** The fields before trimming: the finished ones and the last one. */
  function RawFields(line: string): seq<string>
  {
    var st := Scan(line, |line|);
    st.fields + [st.value]
  }

  function TrimAll(fields: seq<string>): seq<string>
  {
    seq(|fields|, k requires 0 <= k < |fields| => Trim(fields[k]))
  }

  /** What `parseCSVLine` returns. */
  function ParsedLine(line: string): seq<string>
  {
    TrimAll(RawFields(line))
  }

  lemma TrimAllSnoc(fields: seq<string>, x: string)
    ensures TrimAll(fields + [x]) == TrimAll(fields) + [Trim(x)]
  {
  }

  /** The loop of `parseCSVLine`. */
  method ParseCsvLine(line: string) returns (result: seq<string>)
    ensures result == ParsedLine(line)
  {
    result := [];
    var insideQuote := false;
    var value := "";
    for i := 0 to |line|
      invariant insideQuote == Scan(line, i).inside && value == Scan(line, i).value
      invariant result == TrimAll(Scan(line, i).fields)
    {
      ghost var st := Scan(line, i);
      var character := line[i];
      if character == '"' && (i == 0 || line[i - 1] != '\\') {
        insideQuote := !insideQuote;
      } else if character == ',' && !insideQuote {
        TrimAllSnoc(st.fields, value);
        result := result + [Trim(value)];
        value := "";
      } else {
        value := value + [character];
      }
    }
    TrimAllSnoc(Scan(line, |line|).fields, value);
    result := result + [Trim(value)];
  }

  /** How many of the first `n` characters end a field. */
  function SeparatorCount(line: string, n: nat): nat
    requires n <= |line|
  {
    if n == 0 then 0 else SeparatorCount(line, n - 1) + (if Separates(line, n - 1) then 1 else 0)
  }

  lemma {:induction false} FinishedFields(line: string, n: nat)
    requires n <= |line|
    ensures |Scan(line, n).fields| == SeparatorCount(line, n)
  {
    if n > 0 {
      FinishedFields(line, n - 1);
    }
  }

  /** One field more than there are commas outside quotes. */
  lemma FieldCount(line: string)
    ensures |ParsedLine(line)| == SeparatorCount(line, |line|) + 1
  {
    FinishedFields(line, |line|);
  }

  /** Every field is trimmed: trimming it again changes nothing, and it neither
      starts nor ends with whitespace. */
  lemma FieldsTrimmed(line: string)
    ensures forall f :: f in ParsedLine(line) ==> Trim(f) == f
    ensures forall f :: f in ParsedLine(line) && f != [] ==> !IsWhitespace(f[0]) && !IsWhitespace(f[|f| - 1])
  {
    var raw := RawFields(line);
    forall k | 0 <= k < |raw|
      ensures Trim(ParsedLine(line)[k]) == ParsedLine(line)[k]
    {
      TrimIdempotent(raw[k]);
    }
  }

  /** The first `n` characters without the quotes that toggle quoting and
      without the commas that end a field. */
  function Kept(line: string, n: nat): string
    requires n <= |line|
  {
    if n == 0 then []
    else Kept(line, n - 1) + (if TogglesQuote(line, n - 1) || Separates(line, n - 1) then [] else [line[n - 1]])
  }

  lemma {:induction false} KeptSoFar(line: string, n: nat)
    requires n <= |line|
    ensures Concat(Scan(line, n).fields) + Scan(line, n).value == Kept(line, n)
  {
    if n > 0 {
      KeptSoFar(line, n - 1);
      var st := Scan(line, n - 1);
      if !TogglesQuote(line, n - 1) && line[n - 1] == ',' && !st.inside {
        assert (st.fields + [st.value])[..|st.fields|] == st.fields;
      }
    }
  }

  /** Before trimming, the fields hold every character of the line in order
      except the quotes that toggle quoting and the commas outside quotes; an
      escaped quote is kept together with its backslash. */
  lemma KeptCharacters(line: string)
    ensures Concat(RawFields(line)) == Kept(line, |line|)
  {
    var st := Scan(line, |line|);
    KeptSoFar(line, |line|);
    assert (st.fields + [st.value])[..|st.fields|] == st.fields;
  }

  lemma {:induction false} QuoteFreeSoFar(line: string, n: nat)
    requires n <= |line| && '"' !in line
    ensures !Scan(line, n).inside
    ensures Join(Scan(line, n).fields + [Scan(line, n).value], ",") == line[..n]
    ensures forall f :: f in Scan(line, n).fields + [Scan(line, n).value] ==> ',' !in f
  {
    if n > 0 {
      QuoteFreeSoFar(line, n - 1);
      var st := Scan(line, n - 1);
      assert line[..n] == line[..n - 1] + [line[n - 1]];
      if line[n - 1] == ',' {
        JoinSnoc(st.fields + [st.value], "", ",");
      } else if st.fields == [] {
        assert Join([st.value + [line[n - 1]]], ",") == st.value + [line[n - 1]];
      } else {
        JoinSnoc(st.fields, st.value, ",");
        JoinSnoc(st.fields, st.value + [line[n - 1]], ",");
      }
    }
  }

  /** A line without any `"` is read as its comma-separated pieces, each
      trimmed. */
  lemma QuoteFreeLine(line: string)
    requires '"' !in line
    ensures RawFields(line) == Split(line, ",")
    ensures ParsedLine(line) == TrimAll(Split(line, ","))
  {
    QuoteFreeSoFar(line, |line|);
    assert line[..|line|] == line;
    JoinSplit(RawFields(line), ',');
  }

  // ----- repeat and padStart -----

  /** `s` written `n` times. */
  function Repeated(s: string, n: nat): string
  {
    if n == 0 then [] else Repeated(s, n - 1) + s
  }

  /** `n` copies of `s` have `n·|s|` characters, begin with `s`, repeat with
      period `|s|` and use no character that is not in `s`. */
  lemma {:induction false} RepeatedShape(s: string, n: nat)
    ensures |Repeated(s, n)| == n * |s|
    ensures n > 0 ==> Repeated(s, n)[..|s|] == s
    ensures forall k :: |s| <= k < |Repeated(s, n)| ==> Repeated(s, n)[k] == Repeated(s, n)[k - |s|]
    ensures forall c :: c in Repeated(s, n) ==> c in s
  {
    if n > 0 {
      RepeatedShape(s, n - 1);
      var r := Repeated(s, n - 1);
      assert Repeated(s, n) == r + s;
      if n > 1 {
        assert r == Repeated(s, n - 2) + s;
        assert |r| >= |s|;
        assert r[|r| - |s|..] == s;
      }
    }
  }

  /** The loop of `repeat`: a count of zero or less gives the empty string. */
  method Repeat(str: string, count: int) returns (result: string)
    ensures result == Repeated(str, if count > 0 then count else 0)
  {
    result := "";
    var i := 0;
    while i < count
      invariant 0 <= i <= (if count > 0 then count else 0)
      invariant result == Repeated(str, i)
    {
      result := result + str;
      i := i + 1;
    }
  }

  /** `Math.ceil(t / d)`: the least number of `d`-blocks that cover `t`. */
  function CeilDiv(t: nat, d: nat): (q: nat)
    requires d > 0
    ensures q * d >= t
    ensures q == 0 || (q - 1) * d < t
  {
    var q := (t + d - 1) / d;
    assert t + d - 1 == q * d + (t + d - 1) % d;
    q
  }

  /** `String(padString || " ")`. */
  function PadText(padString: string): (pad: string)
    ensures pad != []
  {
    if padString == "" then " " else padString
  }

  /** `s.slice(0, n)`: the first `n` characters, or all of them. */
  function SlicePrefix(s: string, n: nat): (r: string)
    ensures |r| == if n <= |s| then n else |s|
    ensures r == s[..|r|]
  {
    if n <= |s| then s[..n] else s
  }

  /** `padStart(str, targetLength, padString)`, with the target length
      already a whole number. */
  function PadStart(str: string, targetLength: int, padString: string): string
  {
    if |str| > targetLength then str
    else
      var t := targetLength - |str|;
      var pad := PadText(padString);
      SlicePrefix(Repeated(pad, CeilDiv(t, |pad|)), t) + str
  }

  /** The padded string is as long as the target, or `str` when that is
      longer; `str` ends it and is all of it when it already reaches the
      target; the padding in front is the pad text repeated. */
  lemma PadStartShape(str: string, targetLength: int, padString: string)
    ensures var r := PadStart(str, targetLength, padString);
      && |r| == (if |str| >= targetLength then |str| else targetLength)
      && r[|r| - |str|..] == str
      && (|str| >= targetLength ==> r == str)
    ensures var r, pad := PadStart(str, targetLength, padString), PadText(padString);
      && (forall k :: 0 <= k < |r| - |str| && k < |pad| ==> r[k] == pad[k])
      && (forall k :: |pad| <= k < |r| - |str| ==> r[k] == r[k - |pad|])
  {
    if |str| <= targetLength {
      var t := targetLength - |str|;
      var pad := PadText(padString);
      var q := CeilDiv(t, |pad|);
      RepeatedShape(pad, q);
      var filler := SlicePrefix(Repeated(pad, q), t);
      assert |filler| == t;
      var r := filler + str;
      assert r[t..] == str;
      forall k | 0 <= k < t && k < |pad|
        ensures r[k] == pad[k]
      {
        assert r[k] == Repeated(pad, q)[k];
        assert q > 0;
        assert Repeated(pad, q)[..|pad|][k] == pad[k];
      }
    }
  }

  /** The name the `i`-th image (from 0) is exported under:
      `padStart(i + 1, 4, "0")`. */
  function ExportName(i: nat): string
  {
    PadStart(NatToDecimal(i + 1), 4, "0")
  }

  /** An export name is a digit string of at least four digits whose value is
      `i + 1`, exactly four below the 10000th image. */
  lemma ExportNameDigits(i: nat)
    ensures AllDigits(ExportName(i)) && DigitsValue(ExportName(i)) == i + 1
    ensures |ExportName(i)| >= 4
    ensures i < 9999 ==> |ExportName(i)| == 4
  {
    var s := NatToDecimal(i + 1);
    PadStartShape(s, 4, "0");
    if |s| <= 4 {
      var t := 4 - |s|;
      var q := CeilDiv(t, 1);
      RepeatedShape("0", q);
      var filler := SlicePrefix(Repeated("0", q), t);
      assert forall k :: 0 <= k < |filler| ==> filler[k] in Repeated("0", q);
      LeadingZeros(filler, s);
    }
    if i < 9999 {
      assert Pow10(4) == 10000;
      DecimalLength(i + 1, 4);
    }
  }

  /** Every image gets its own file name. */
  lemma ExportNamesDistinct(i: nat, j: nat)
    requires i != j
    ensures ExportName(i) != ExportName(j)
  {
    ExportNameDigits(i);
    ExportNameDigits(j);
  }

  // ----- setTitle -----

  const MaxLength := 30

  /** The abbreviations, in the order `for … in` visits the keys of the
      object that holds them. */
  const Abbreviations: seq<(string, string)> := [("Commander", "(C)"), ("Duel Decks Anthology", "DDA"), ("Duel Decks", "DD")]

  /** Each phrase is non-empty and its abbreviation is no longer than it. */
  lemma AbbreviationsShorten(i: nat)
    requires i < |Abbreviations|
    ensures Abbreviations[i].0 != [] && |Abbreviations[i].1| <= |Abbreviations[i].0|
  {
    if i == 0 {
      assert Abbreviations[0] == ("Commander", "(C)");
    } else if i == 1 {
      assert Abbreviations[1] == ("Duel Decks Anthology", "DDA");
    } else {
      assert Abbreviations[2] == ("Duel Decks", "DD");
    }
  }

  /** `text.split(key).join(short)`: every occurrence of `key`, left to right,
      replaced by `short`. */
  function ReplaceAll(text: string, key: string, short: string): string
    requires key != []
  {
    Join(Split(text, key), short)
  }

  /** A replacement by something no longer never lengthens the text. */
  lemma ReplaceAllShortens(text: string, key: string, short: string)
    requires key != [] && |short| <= |key|
    ensures |ReplaceAll(text, key, short)| <= |text|
  {
    JoinShorter(Split(text, key), short, key);
    SplitJoin(text, key);
  }

  /** The title after the first `n` abbreviations. */
  function Abbreviated(text: string, n: nat): string
    requires n <= |Abbreviations|
  {
    if n == 0 then text
    else
      AbbreviationsShorten(n - 1);
      ReplaceAll(Abbreviated(text, n - 1), Abbreviations[n - 1].0, Abbreviations[n - 1].1)
  }

  lemma {:induction false} AbbreviatedShortens(text: string, n: nat)
    requires n <= |Abbreviations|
    ensures |Abbreviated(text, n)| <= |text|
  {
    if n > 0 {
      AbbreviatedShortens(text, n - 1);
      AbbreviationsShorten(n - 1);
      ReplaceAllShortens(Abbreviated(text, n - 1), Abbreviations[n - 1].0, Abbreviations[n - 1].1);
    }
  }

  /** The text `setTitle` writes into the title frames. */
  function TitleText(text: string): string
  {
    if |text| < MaxLength then text
    else
      var short := Abbreviated(text, |Abbreviations|);
      if |short| >= MaxLength then short[..MaxLength - 1] + "..." else short
  }

  /** The text-building part of `setTitle`. */
  method SetTitle(text: string) returns (title: string)
    ensures title == TitleText(text)
  {
    title := text;
    if |title| >= MaxLength {
      for i := 0 to |Abbreviations|
        invariant title == Abbreviated(text, i)
      {
        var (key, short) := Abbreviations[i];
        AbbreviationsShorten(i);
        title := Join(Split(title, key), short);
      }
      if |title| >= MaxLength {
        title := title[..29] + "...";
      }
    }
  }

  /** A title shorter than 30 characters is kept; otherwise the abbreviated
      title is kept when it is shorter than 30 and is no longer than the
      original, and else its first 29 characters are followed by `...`. The
      result is therefore shorter than 30 characters or exactly 32. */
  lemma TitleLength(text: string)
    ensures |text| < MaxLength ==> TitleText(text) == text
    ensures |TitleText(text)| < MaxLength || |TitleText(text)| == MaxLength + 2
    ensures |TitleText(text)| < MaxLength ==> |TitleText(text)| <= |text|
    ensures |TitleText(text)| == MaxLength + 2 ==>
      TitleText(text) == Abbreviated(text, |Abbreviations|)[..MaxLength - 1] + "..."
  {
    AbbreviatedShortens(text, |Abbreviations|);
  }

  // ----- setSubtitle, setArtist, setIcon, setBackground -----

  /** The subtitle `setSubtitle` writes: the upper-cased set code, the parent
      set's code in brackets when there is one, and the release date; `None`
      when the code or the date is missing or empty and the layer is left as
      it was. */
  function Subtitle(item: Record): Option<string>
    requires TextValues(item)
  {
    GetText(item, "code");
    GetText(item, "released_at");
    GetText(item, "parent_set_code");
    var code, released, parent := Get(item, "code"), Get(item, "released_at"), Get(item, "parent_set_code");
    if !Truthy(code) || !Truthy(released) then None
    else if Truthy(parent) then Some(ToUpper(code.s) + " [" + ToUpper(parent.s) + "] - " + FormatDate(released.s))
    else Some(ToUpper(code.s) + " - " + FormatDate(released.s))
  }

  /** With a set code, a `YYYY-MM…` release date and no parent set, the
      subtitle reads `CODE - Mon YYYY`; with a parent set it reads
      `CODE [PARENT] - Mon YYYY`. */
  lemma SubtitleOfIsoDate(item: Record, code: string, parent: Value, year: string, month: string, rest: string)
    requires TextValues(item)
    requires Get(item, "code") == Str(code) && code != []
    requires Get(item, "released_at") == Str(year + "-" + month + rest)
    requires Get(item, "parent_set_code") == parent && (parent.Str? || parent == Missing)
    requires '-' !in year && '-' !in month && (rest != [] ==> rest[0] == '-')
    requires month != [] && AllDigits(month) && 1 <= DigitsValue(month) <= 12
    ensures var date := MonthNames[DigitsValue(month) - 1] + " " + year;
      Truthy(parent) ==> Subtitle(item) == Some(ToUpper(code) + " [" + ToUpper(parent.s) + "] - " + date)
    ensures var date := MonthNames[DigitsValue(month) - 1] + " " + year;
      !Truthy(parent) ==> Subtitle(item) == Some(ToUpper(code) + " - " + date)
  {
    var date := year + "-" + month + rest;
    var formatted := MonthNames[DigitsValue(month) - 1] + " " + year;
    FormatIsoDate(year, month, rest);
    SubtitleWith(item, code, parent, date, formatted);
  }

  lemma SubtitleWith(item: Record, code: string, parent: Value, date: string, formatted: string)
    requires TextValues(item)
    requires Get(item, "code") == Str(code) && code != []
    requires Get(item, "released_at") == Str(date) && date != []
    requires Get(item, "parent_set_code") == parent && (parent.Str? || parent == Missing)
    requires FormatDate(date) == formatted
    ensures Truthy(parent) ==> Subtitle(item) == Some(ToUpper(code) + " [" + ToUpper(parent.s) + "] - " + formatted)
    ensures !Truthy(parent) ==> Subtitle(item) == Some(ToUpper(code) + " - " + formatted)
  {
  }

  /** The artist line: the artist and ` - CN ` and the collector number. */
  function ArtistLine(item: Record): string
    requires TextValues(item)
  {
    GetText(item, "artist");
    GetText(item, "collector_number");
    ArtistText(Get(item, "artist"), Get(item, "collector_number"), " - CN ")
  }

  /** The icon file placed from the icon directory, if the set has an icon. */
  function IconFile(item: Record): Option<string>
    requires TextValues(item)
  {
    GetText(item, "icon_svg_uri");
    var uri := Get(item, "icon_svg_uri");
    if Truthy(uri) then Some(FileNameFromUrl(uri.s)) else None
  }

  /** The background file placed from the background directory, if any. */
  function BackgroundFile(item: Record): Option<string>
    requires TextValues(item)
  {
    GetText(item, "background");
    var background := Get(item, "background");
    if Truthy(background) then Some(background.s) else None
  }

  // ----- updateContent -----

  /** What one exported image shows and the name it is exported under. */
  datatype Page = Page(title: string, subtitle: Option<string>, artist: string,
                       icon: Option<string>, background: Option<string>, fileName: string)

  /** The page for the `i`-th row, or `None` when the row has no title and
      `setTitle` fails on it. */
  function PageOf(item: Record, i: nat): Option<Page>
    requires TextValues(item)
  {
    GetText(item, "title");
    var title := Get(item, "title");
    if title == Missing then None
    else Some(Page(TitleText(title.s), Subtitle(item), ArtistLine(item), IconFile(item), BackgroundFile(item), ExportName(i)))
  }

  predicate AllText(data: seq<Record>)
  {
    forall r :: r in data ==> TextValues(r)
  }

  /** The pages exported, in row order, up to the first row that fails, and
      whether there was one. */
  function Pages(data: seq<Record>): Run<Page>
    requires AllText(data)
  {
    assert forall i :: 0 <= i < |data| ==> data[i] in data;
    UpToNone(MapIndexed(data, PageOf))
  }

  /** A row that does not fail adds its page. */
  lemma ExportStep(data: seq<Record>, i: nat, exported: seq<Page>, page: Page)
    requires AllText(data) && i < |data|
    requires Pages(data[..i]) == Run(exported, false) && PageOf(data[i], i) == Some(page)
    ensures Pages(data[..i + 1]) == Run(exported + [page], false)
  {
    assert forall j :: 0 <= j < |data| ==> data[j] in data;
    MapIndexedSnoc(data, PageOf, i);
    UpToNoneSnoc(MapIndexed(data[..i], PageOf), Some(page));
  }

  /** A row that fails ends the run: what was exported before it is all
      there is. */
  lemma FailureEndsRun(data: seq<Record>, i: nat, exported: seq<Page>)
    requires AllText(data) && i < |data|
    requires Pages(data[..i]) == Run(exported, false) && PageOf(data[i], i).None?
    ensures Pages(data) == Run(exported, true)
  {
    assert forall j :: 0 <= j < |data| ==> data[j] in data;
    var ps := MapIndexed(data, PageOf);
    MapIndexedPrefix(data, PageOf, i);
    MapIndexedAt(data, PageOf, i);
    UpToNoneStopsAt(ps, i);
  }

  /** The loop of `updateContent`: the number of images, or `None` when a row
      threw, and the pages exported until then. */
  method UpdateContent(data: seq<Record>) returns (imagesGenerated: Option<nat>, exported: seq<Page>)
    requires AllText(data)
    ensures exported == Pages(data).values
    ensures imagesGenerated.Some? <==> !Pages(data).stopped
    ensures imagesGenerated.Some? ==> imagesGenerated.value == |data|
  {
    exported := [];
    var count := 0;
    for i := 0 to |data|
      invariant Pages(data[..i]) == Run(exported, false)
      invariant count == i
    {
      var page := PageOf(data[i], i);
      if page.None? {
        FailureEndsRun(data, i, exported);
        return None, exported;
      }
      ExportStep(data, i, exported, page.value);
      exported := exported + [page.value];
      count := count + 1;
    }
    assert data[..|data|] == data;
    imagesGenerated := Some(count);
  }

  /** The pages are those of the rows in order, up to the first row without a
      title; the loop fails exactly when there is such a row. */
  lemma PagesShape(data: seq<Record>)
    requires AllText(data)
    ensures var o := Pages(data);
      && |o.values| <= |data|
      && (forall k :: 0 <= k < |o.values| ==> PageOf(data[k], k) == Some(o.values[k]))
      && (o.stopped <==> exists k :: 0 <= k < |data| && Get(data[k], "title") == Missing)
      && (o.stopped ==> Get(data[|o.values|], "title") == Missing)
      && (!o.stopped ==> |o.values| == |data|)
  {
    assert forall j :: 0 <= j < |data| ==> data[j] in data;
    var ps := MapIndexed(data, PageOf);
    UpToNoneShape(ps);
    forall k | 0 <= k < |data|
      ensures ps[k] == PageOf(data[k], k)
      ensures ps[k].None? <==> Get(data[k], "title") == Missing
    {
      MapIndexedAt(data, PageOf, k);
      TitleDecidesPage(data[k], k);
    }
  }

  /** A row fails exactly when it has no title. */
  lemma TitleDecidesPage(item: Record, i: nat)
    requires TextValues(item)
    ensures PageOf(item, i).None? <==> Get(item, "title") == Missing
  {
  }

  /** Each exported image gets its own file name, `0001` for the first. */
  lemma ExportedNames(data: seq<Record>)
    requires AllText(data)
    ensures var pages := Pages(data).values;
      forall k :: 0 <= k < |pages| ==> pages[k].fileName == ExportName(k)
    ensures var pages := Pages(data).values;
      forall j, k :: 0 <= j < k < |pages| ==> pages[j].fileName != pages[k].fileName
  {
    PagesShape(data);
    var pages := Pages(data).values;
    forall j, k | 0 <= j < k < |pages|
      ensures pages[j].fileName != pages[k].fileName
    {
      ExportNamesDistinct(j, k);
    }
  }

  /** The script's main block: an empty file reports no images, anything else
      is parsed with the quote-aware line parser and turned into pages. */
  method RunScript(csvData: string) returns (imagesGenerated: Option<nat>, exported: seq<Page>)
    ensures csvData == "" ==> imagesGenerated == None && exported == []
    ensures csvData != "" ==> var data := ParsedCsv(csvData, ParsedLine);
      && AllText(data)
      && exported == Pages(data).values
      && (imagesGenerated.Some? <==> !Pages(data).stopped)
  {
    if csvData == "" {
      return None, [];
    }
    var data := ParseCsv(csvData, ParsedLine);
    ParsedRecords(csvData, ParsedLine);
    imagesGenerated, exported := UpdateContent(data);
  }
}
