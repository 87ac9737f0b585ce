/**
 * The text side of the set images script: its plain comma-split CSV reading,
 * the subtitle and artist lines, the icon file, the export file name made
 * from the set's name, and the loop that handles only the first five rows.
 */
module SetImages {
  import opened Wrappers
  import opened Strings
  import opened Records
  import opened Seqs
  import opened ScriptText

  // ----- parseCSV -----

  /** `line.split(",")`: no quoting and no trimming. */
  function SplitLine(line: string): seq<string>
  {
    Split(line, ",")
  }

  /** The cells of a line hold no comma, and joining them with commas gives
      the line back. */
  lemma SplitLineCells(line: string)
    ensures forall c :: c in SplitLine(line) ==> ',' !in c
    ensures Join(SplitLine(line), ",") == line
  {
    SplitPiecesLackSeparator(line, ",");
    forall c | c in SplitLine(line)
      ensures ',' !in c
    {
      ContainsChar(c, ',');
    }
    SplitJoin(line, ",");
  }

  // ----- The export file name -----

  predicate SlugChar(c: char)
  {
    'a' <= c <= 'z' || '0' <= c <= '9'
  }

  /** No two dashes in a row. */
  predicate NoDoubleDash(s: string)
  {
    forall k :: 0 <= k < |s| - 1 ==> !(s[k] == '-' && s[k + 1] == '-')
  }

  /** `s.replace(/[^a-z0-9]+/g, "-")`: every maximal run of other characters
      becomes a single `-`. */
  function CollapseRuns(s: string): (r: string)
    ensures forall k :: 0 <= k < |r| ==> SlugChar(r[k]) || r[k] == '-'
    ensures NoDoubleDash(r)
    ensures r == [] <==> s == []
    ensures r != [] ==> (r[0] == '-' <==> !SlugChar(s[0]))
    ensures r != [] ==> (r[|r| - 1] == '-' <==> !SlugChar(s[|s| - 1]))
  {
    if s == [] then []
    else
      var n := |s| - 1;
      var init := CollapseRuns(s[..n]);
      if SlugChar(s[n]) then init + [s[n]]
      else if n > 0 && !SlugChar(s[n - 1]) then init
      else init + "-"
  }

  /** `s.replace(/(^-|-$)/g, "")`: one leading and one trailing dash dropped. */
  function TrimDashes(s: string): string
  {
    var a := if s != [] && s[0] == '-' then s[1..] else s;
    if a != [] && a[|a| - 1] == '-' then a[..|a| - 1] else a
  }

  /** The name `exportPNG` gives the image of a set. */
  function Slug(text: string): string
  {
    TrimDashes(CollapseRuns(ToLower(text)))
  }

  /** A slug is made of `a`-`z`, `0`-`9` and `-`, has no two dashes in a row,
      and neither starts nor ends with a dash. */
  predicate IsSlug(s: string)
  {
    && (forall k :: 0 <= k < |s| ==> SlugChar(s[k]) || s[k] == '-')
    && NoDoubleDash(s)
    && (s != [] ==> s[0] != '-' && s[|s| - 1] != '-')
  }

  /** A piece of a string made of slug characters and single dashes is made
      of them too. */
  lemma SliceClean(s: string, i: nat, j: nat)
    requires i <= j <= |s|
    requires forall k :: 0 <= k < |s| ==> SlugChar(s[k]) || s[k] == '-'
    requires NoDoubleDash(s)
    ensures forall k :: 0 <= k < j - i ==> SlugChar(s[i..j][k]) || s[i..j][k] == '-'
    ensures NoDoubleDash(s[i..j])
  {
    assert forall k :: 0 <= k < j - i ==> s[i..j][k] == s[i + k];
  }

  lemma TrimDashesSlug(s: string)
    requires forall k :: 0 <= k < |s| ==> SlugChar(s[k]) || s[k] == '-'
    requires NoDoubleDash(s)
    ensures IsSlug(TrimDashes(s))
  {
    var i := if s != [] && s[0] == '-' then 1 else 0;
    var a := s[i..];
    var j := if a != [] && a[|a| - 1] == '-' then |s| - 1 else |s|;
    assert a != [] ==> a[|a| - 1] == s[|s| - 1];
    assert TrimDashes(s) == s[i..j];
    SliceClean(s, i, j);
    var t := s[i..j];
    if t != [] {
      assert t[0] == s[i] && t[|t| - 1] == s[j - 1];
      assert i == 1 ==> s[0] == '-';
      assert j == |s| - 1 ==> s[|s| - 1] == '-';
    }
  }

  /** Every export name is a slug. */
  lemma SlugShape(text: string)
    ensures IsSlug(Slug(text))
  {
    TrimDashesSlug(CollapseRuns(ToLower(text)));
  }

  /** A string already made of slug characters without double dashes is left
      as it is by the run replacement. */
  lemma {:induction false} CollapseClean(s: string)
    requires forall k :: 0 <= k < |s| ==> SlugChar(s[k]) || s[k] == '-'
    requires NoDoubleDash(s)
    ensures CollapseRuns(s) == s
  {
    if s != [] {
      var n := |s| - 1;
      CollapseClean(s[..n]);
      assert s == s[..n] + [s[n]];
    }
  }

  /** Making a slug of a slug changes nothing. */
  lemma SlugIdempotent(text: string)
    ensures Slug(Slug(text)) == Slug(text)
  {
    var u := Slug(text);
    SlugShape(text);
    assert ToLower(u) == u;
    CollapseClean(u);
  }

  lemma {:induction false} CollapseSymbols(s: string)
    requires forall k :: 0 <= k < |s| ==> !SlugChar(s[k])
    ensures CollapseRuns(s) == if s == [] then [] else "-"
  {
    if s != [] {
      CollapseSymbols(s[..|s| - 1]);
    }
  }

  /** A name without any ASCII letter or digit gives the empty file name. */
  lemma SlugOfSymbols(text: string)
    requires forall k :: 0 <= k < |text| ==> !IsAsciiLetterOrDigit(text[k])
    ensures Slug(text) == ""
  {
    CollapseSymbols(ToLower(text));
  }

  // ----- updateContent -----

  /** What one exported image of a set shows and the name it is exported
      under. */
  datatype SetPage = SetPage(title: string, subtitle: string, artist: string, icon: string, fileName: string)

  /** The row has every field the script reads without a check: `name`,
      `code`, `released_at` and `icon_svg_uri`. */
  predicate Complete(item: Record)
  {
    && Get(item, "name") != Missing && Get(item, "code") != Missing
    && Get(item, "released_at") != Missing && Get(item, "icon_svg_uri") != Missing
  }

  /** `set.code.toUpperCase() + " - " + formatDate(set.released_at)`. */
  function SetSubtitle(code: string, released: string): string
  {
    ToUpper(code) + " - " + FormatDate(released)
  }

  /** With a `YYYY-MM…` release date the subtitle reads `CODE - Mon YYYY`. */
  lemma SetSubtitleOfIsoDate(code: string, year: string, month: string, rest: string)
    requires '-' !in year && '-' !in month && (rest != [] ==> rest[0] == '-')
    requires month != [] && AllDigits(month) && 1 <= DigitsValue(month) <= 12
    ensures SetSubtitle(code, year + "-" + month + rest) == ToUpper(code) + " - " + (MonthNames[DigitsValue(month) - 1] + " " + year)
  {
    var date := year + "-" + month + rest;
    var formatted := MonthNames[DigitsValue(month) - 1] + " " + year;
    FormatIsoDate(year, month, rest);
    SubtitleText(code, date, formatted);
  }

  lemma SubtitleText(code: string, released: string, formatted: string)
    requires FormatDate(released) == formatted
    ensures SetSubtitle(code, released) == ToUpper(code) + " - " + formatted
  {
  }

  function SetArtist(item: Record): string
    requires TextValues(item)
  {
    GetText(item, "artist");
    GetText(item, "collector_number");
    ArtistText(Get(item, "artist"), Get(item, "collector_number"), " | ")
  }

  /** The page of a complete row. */
  function CompletePage(item: Record): SetPage
    requires TextValues(item) && Complete(item)
  {
    GetText(item, "name");
    GetText(item, "code");
    GetText(item, "released_at");
    GetText(item, "icon_svg_uri");
    var name := Get(item, "name").s;
    SetPage(name, SetSubtitle(Get(item, "code").s, Get(item, "released_at").s), SetArtist(item),
            FileNameFromUrl(Get(item, "icon_svg_uri").s), Slug(name))
  }

  /** The page of a set, or `None` when the row is not complete and the
      script throws on it before the export. */
  function SetPageOf(item: Record): Option<SetPage>
    requires TextValues(item)
  {
    if Complete(item) then Some(CompletePage(item)) else None
  }

  const RowLimit := 5

  predicate AllText(data: seq<Record>)
  {
    forall r :: r in data ==> TextValues(r)
  }

  /** The pages of the given rows, in order, up to the first failing row, and
      whether there was one. */
  function SetPages(data: seq<Record>): Run<SetPage>
    requires AllText(data)
  {
    UpToNone(MapSeq(data, SetPageOf))
  }

  /** The rows `updateContent` looks at. */
  function FirstRows(data: seq<Record>): (rows: seq<Record>)
    ensures |rows| <= RowLimit && |rows| <= |data| && rows == data[..|rows|]
    ensures |data| <= RowLimit ==> rows == data
  {
    if |data| <= RowLimit then data else data[..RowLimit]
  }

  /** A row that does not fail adds its page. */
  lemma ExportStep(data: seq<Record>, i: nat, exported: seq<SetPage>, page: SetPage)
    requires AllText(data) && i < |data|
    requires SetPages(data[..i]) == Run(exported, false) && SetPageOf(data[i]) == Some(page)
    ensures SetPages(data[..i + 1]) == Run(exported + [page], false)
  {
    MapSeqSnoc(data, SetPageOf, i);
    UpToNoneSnoc(MapSeq(data[..i], SetPageOf), Some(page));
  }

  /** A row that fails ends the run: what was exported before it is all
      there is. */
  lemma FailureEndsRun(data: seq<Record>, i: nat, exported: seq<SetPage>)
    requires AllText(data) && i < |data| && i < RowLimit
    requires SetPages(data[..i]) == Run(exported, false) && SetPageOf(data[i]).None?
    ensures SetPages(FirstRows(data)) == Run(exported, true)
  {
    var rows := FirstRows(data);
    var ps := MapSeq(rows, SetPageOf);
    assert rows[..i] == data[..i] && rows[i] == data[i];
    MapSeqPrefix(rows, SetPageOf, i);
    MapSeqAt(rows, SetPageOf, i);
    UpToNoneStopsAt(ps, i);
  }

  /** The loop of `updateContent`, which breaks at the sixth row. */
  method UpdateContent(data: seq<Record>) returns (exported: seq<SetPage>, failed: bool)
    requires AllText(data)
    ensures Run(exported, failed) == SetPages(FirstRows(data))
  {
    exported := [];
    for i := 0 to |data|
      invariant i <= RowLimit
      invariant SetPages(data[..i]) == Run(exported, false)
    {
      if i >= RowLimit {
        assert data[..i] == FirstRows(data);
        return exported, false;
      }
      var page := SetPageOf(data[i]);
      if page.None? {
        FailureEndsRun(data, i, exported);
        return exported, true;
      }
      ExportStep(data, i, exported, page.value);
      exported := exported + [page.value];
    }
    assert data[..|data|] == FirstRows(data);
    failed := false;
  }

  /** The images made are those of the rows in order, up to the first row
      that lacks a field the script needs. */
  lemma SetPagesShape(data: seq<Record>)
    requires AllText(data)
    ensures var o := SetPages(data);
      && |o.values| <= |data|
      && (forall k :: 0 <= k < |o.values| ==> SetPageOf(data[k]) == Some(o.values[k]))
      && (o.stopped <==> exists k :: 0 <= k < |data| && SetPageOf(data[k]).None?)
      && (o.stopped ==> SetPageOf(data[|o.values|]).None?)
      && (!o.stopped ==> |o.values| == |data|)
  {
    var ps := MapSeq(data, SetPageOf);
    UpToNoneShape(ps);
    forall k | 0 <= k < |data|
      ensures ps[k] == SetPageOf(data[k])
    {
      MapSeqAt(data, SetPageOf, k);
    }
  }

  /** At most five images are made. */
  lemma AtMostFiveImages(data: seq<Record>)
    requires AllText(data)
    ensures |SetPages(FirstRows(data)).values| <= RowLimit
  {
    SetPagesShape(FirstRows(data));
  }

  /** Every exported image has the set's own name as its title, a slug as its
      file name and a bare file name as its icon; a row fails exactly when one
      of the four fields the script reads unguarded is absent. */
  lemma SetPageFields(item: Record)
    requires TextValues(item)
    ensures SetPageOf(item).None? <==>
      Get(item, "name") == Missing || Get(item, "code") == Missing ||
      Get(item, "released_at") == Missing || Get(item, "icon_svg_uri") == Missing
    ensures SetPageOf(item).Some? ==> var p := SetPageOf(item).value;
      && Get(item, "name") == Str(p.title)
      && IsSlug(p.fileName) && p.fileName == Slug(p.title)
      && '/' !in p.icon && '?' !in p.icon
  {
    if Complete(item) {
      GetText(item, "name");
      SlugShape(Get(item, "name").s);
    }
  }

  /** The script's main block: an empty file is an error and exports nothing;
      anything else is split into cells at every comma and handed to the
      loop. */
  method RunScript(csvData: string) returns (exported: seq<SetPage>, failed: bool)
    ensures csvData == "" ==> exported == [] && failed
    ensures csvData != "" ==> var data := ParsedCsv(csvData, SplitLine);
      && AllText(data)
      && Run(exported, failed) == SetPages(FirstRows(data))
  {
    if csvData == "" {
      return [], true;
    }
    var data := ParseCsv(csvData, SplitLine);
    ParsedRecords(csvData, SplitLine);
    exported, failed := UpdateContent(data);
  }
}
