/**
 * The collector-number range sheet: ranges of `step` collector numbers from
 * `initialCn` up to `maxCn`, one titled record per card cycling through the
 * ranges, a background file for each record and the CSV header of the result.
 *
 * The command line, the directory listing and the random choice of a
 * background are inputs here; writing the CSV is left out.
 */
module CnRanges {
  import opened Wrappers
  import opened Seqs
  import opened Strings
  import opened Records
  import opened Backgrounds

  // ----- Settings -----

  /** The numeric settings after `parseInt(option, 10) || default`. */
  datatype Settings = Settings(cardCount: int, step: int, maxCn: int, initialCn: int)

  /** `program.opts()`: commander stores each option under the camel-cased
      form of its long flag (`--card-count` as `cardCount`), holding the flag's
      text or, when the flag is not given, the declared default text. */
  function CommanderOptions(cardCount: Option<string>, step: Option<string>, maxCn: Option<string>, initialCn: Option<string>): (o: Record)
    ensures Keys(o) == ["cardCount", "step", "maxCn", "initialCn"]
  {
    Record([Field("cardCount", Str(cardCount.GetOr("440"))), Field("step", Str(step.GetOr("50"))),
            Field("maxCn", Str(maxCn.GetOr("450"))), Field("initialCn", Str(initialCn.GetOr("51")))])
  }

  /** The text `parseInt` reads from an option value; `parseInt(undefined, 10)`
      is `NaN`. */
  function OptionText(v: Value): Option<string>
  {
    if v.Str? then Some(v.s) else None
  }

  /** `parseInt(options[key], 10) || fallback`. */
  function Setting(options: Record, key: string, fallback: int): (v: int)
    ensures key !in Keys(options) ==> v == fallback
    ensures v == fallback || (Get(options, key).Str? && ParseInt(Get(options, key).s) == Some(v) && v != 0)
  {
    ParseIntOr(OptionText(Get(options, key)), fallback)
  }

  /** A flag's text, or its declared default text when it is not given,
      parsed with `parseInt(_, 10) || fallback`. */
  function FlagSetting(flag: Option<string>, defaultText: string, fallback: int): (v: int)
    ensures v == fallback || (ParseInt(flag.GetOr(defaultText)) == Some(v) && v != 0)
  {
    ParseIntOr(Some(flag.GetOr(defaultText)), fallback)
  }

  /** The settings as the script reads them, under the dashed flag names. */
  function ReadSettings(options: Record): (s: Settings)
    ensures "card-count" !in Keys(options) ==> s.cardCount == 440
    ensures "max-cn" !in Keys(options) ==> s.maxCn == 450
    ensures "initial-cn" !in Keys(options) ==> s.initialCn == 51
  {
    Settings(Setting(options, "card-count", 440), Setting(options, "step", 50),
             Setting(options, "max-cn", 450), Setting(options, "initial-cn", 51))
  }

  /** The settings read under the keys commander actually uses. */
  function IntendedSettings(options: Record): (s: Settings)
    ensures "cardCount" !in Keys(options) ==> s.cardCount == 440
    ensures "maxCn" !in Keys(options) ==> s.maxCn == 450
    ensures "initialCn" !in Keys(options) ==> s.initialCn == 51
  {
    Settings(Setting(options, "cardCount", 440), Setting(options, "step", 50),
             Setting(options, "maxCn", 450), Setting(options, "initialCn", 51))
  }

  /** As written, only `--step` reaches the script: the three dashed keys are
      never set by commander, so those settings always take their fallbacks,
      whatever the command line says. */
  lemma OnlyStepIsRead(cardCount: Option<string>, step: Option<string>, maxCn: Option<string>, initialCn: Option<string>)
    ensures ReadSettings(CommanderOptions(cardCount, step, maxCn, initialCn))
            == Settings(440, FlagSetting(step, "50", 50), 450, 51)
  {
    var o := CommanderOptions(cardCount, step, maxCn, initialCn);
    assert "card-count" !in Keys(o) && "max-cn" !in Keys(o) && "initial-cn" !in Keys(o);
    assert Get(o, "step") == Str(step.GetOr("50"));
  }

  /** Read under commander's keys, every flag takes effect. */
  lemma IntendedSettingsUseFlags(cardCount: Option<string>, step: Option<string>, maxCn: Option<string>, initialCn: Option<string>)
    ensures IntendedSettings(CommanderOptions(cardCount, step, maxCn, initialCn))
            == Settings(FlagSetting(cardCount, "440", 440), FlagSetting(step, "50", 50),
                        FlagSetting(maxCn, "450", 450), FlagSetting(initialCn, "51", 51))
  {
    var o := CommanderOptions(cardCount, step, maxCn, initialCn);
    assert Get(o, "cardCount") == Str(cardCount.GetOr("440"));
    assert Get(o, "step") == Str(step.GetOr("50"));
    assert Get(o, "maxCn") == Str(maxCn.GetOr("450"));
    assert Get(o, "initialCn") == Str(initialCn.GetOr("51"));
  }

  /** `--card-count 100`: the script still makes 440 cards, where 100 were
      asked for. */
  lemma CardCountFlagIgnored()
    ensures ReadSettings(CommanderOptions(Some("100"), None, None, None)).cardCount == 440
    ensures IntendedSettings(CommanderOptions(Some("100"), None, None, None)).cardCount == 100
  {
    var flag := Some("100");
    OnlyStepIsRead(flag, None, None, None);
    IntendedSettingsUseFlags(flag, None, None, None);
    Hundred();
    FlagSettingOf(flag, "440", 440, 100);
  }

  lemma Hundred()
    ensures ParseInt("100") == Some(100)
  {
    assert NatToDecimal(100) == "100";
    ParseIntDecimal(100);
  }

  /** `--step -5` does reach the script, as a negative step. */
  lemma NegativeStepRead()
    ensures ReadSettings(CommanderOptions(None, Some("-5"), None, None)) == Settings(440, -5, 450, 51)
  {
    var flag := Some("-5");
    OnlyStepIsRead(None, flag, None, None);
    NegativeFive();
    FlagSettingOf(flag, "50", 50, -5);
  }

  lemma NegativeFive()
    ensures ParseInt("-5") == Some(-5)
  {
    assert NatToDecimal(5) == "5";
    assert IntToDecimal(-5) == "-5";
    ParseIntDecimal(-5);
  }

  /** A flag whose text parses to a non-zero number gives that number. */
  lemma FlagSettingOf(flag: Option<string>, defaultText: string, fallback: int, n: int)
    requires flag.Some? && ParseInt(flag.value) == Some(n) && n != 0
    ensures FlagSetting(flag, defaultText, fallback) == n
  {
  }

  /** With no options, or with every option `0`, the settings are 440 cards,
      step 50, up to 450, from 51; `0` is falsy and gives the default. */
  lemma DefaultSettings()
    ensures ReadSettings(CommanderOptions(None, None, None, None)) == Settings(440, 50, 450, 51)
    ensures IntendedSettings(CommanderOptions(None, None, None, None)) == Settings(440, 50, 450, 51)
    ensures IntendedSettings(CommanderOptions(Some("0"), Some("0"), Some("0"), Some("0"))) == Settings(440, 50, 450, 51)
  {
    OnlyStepIsRead(None, None, None, None);
    IntendedSettingsUseFlags(None, None, None, None);
    IntendedSettingsUseFlags(Some("0"), Some("0"), Some("0"), Some("0"));
    DefaultCardCount();
    DefaultStep();
    DefaultMaxCn();
    DefaultInitialCn();
  }

  lemma DefaultCardCount()
    ensures FlagSetting(None, "440", 440) == 440 && FlagSetting(Some("0"), "440", 440) == 440
  {
    DefaultSetting("440", 440);
  }

  lemma DefaultStep()
    ensures FlagSetting(None, "50", 50) == 50 && FlagSetting(Some("0"), "50", 50) == 50
  {
    DefaultSetting("50", 50);
  }

  lemma DefaultMaxCn()
    ensures FlagSetting(None, "450", 450) == 450 && FlagSetting(Some("0"), "450", 450) == 450
  {
    DefaultSetting("450", 450);
  }

  lemma DefaultInitialCn()
    ensures FlagSetting(None, "51", 51) == 51 && FlagSetting(Some("0"), "51", 51) == 51
  {
    DefaultSetting("51", 51);
  }

  /** A default numeral always wins over a missing option or a zero. */
  lemma DefaultSetting(text: string, n: nat)
    requires 1 <= |text| <= 3 && AllDigits(text) && text[0] != '0'
    requires n == if |text| == 1 then DigitValue(text[0])
                  else if |text| == 2 then DigitValue(text[0]) * 10 + DigitValue(text[1])
                  else DigitValue(text[0]) * 100 + DigitValue(text[1]) * 10 + DigitValue(text[2])
    ensures FlagSetting(None, text, n) == n
    ensures FlagSetting(Some("0"), text, n) == n
  {
    ParsesAs(text, n);
    ParsesAs("0", 0);
  }

  /** `parseInt` on a numeral of up to three digits. */
  lemma ParsesAs(s: string, n: nat)
    requires 1 <= |s| <= 3 && AllDigits(s) && (|s| > 1 ==> s[0] != '0')
    requires n == if |s| == 1 then DigitValue(s[0])
                  else if |s| == 2 then DigitValue(s[0]) * 10 + DigitValue(s[1])
                  else DigitValue(s[0]) * 100 + DigitValue(s[1]) * 10 + DigitValue(s[2])
    ensures ParseInt(s) == Some(n)
  {
    ParseDigits(s);
    ShortDigitsValue(s);
  }

  lemma ShortDigitsValue(s: string)
    requires 1 <= |s| <= 3 && AllDigits(s)
    ensures DigitsValue(s) == if |s| == 1 then DigitValue(s[0])
                  else if |s| == 2 then DigitValue(s[0]) * 10 + DigitValue(s[1])
                  else DigitValue(s[0]) * 100 + DigitValue(s[1]) * 10 + DigitValue(s[2])
  {
    var d0 := DigitValue(s[0]);
    assert s[..1][..0] == [];
    assert DigitsValue(s[..1]) == d0;
    if |s| == 1 {
      assert s[..1] == s;
    } else {
      var d1 := DigitValue(s[1]);
      assert s[..2][..1] == s[..1];
      assert DigitsValue(s[..2]) == d0 * 10 + d1;
      if |s| == 2 {
        assert s[..2] == s;
      } else {
        var d2 := DigitValue(s[2]);
        assert s[..3][..2] == s[..2];
        assert s[..3] == s;
        assert DigitsValue(s) == (d0 * 10 + d1) * 10 + d2;
        assert (d0 * 10 + d1) * 10 == d0 * 100 + d1 * 10;
      }
    }
  }

  // ----- generateCNRanges -----

  datatype CnRange = CnRange(min: int, max: int)

  /** How many times the loop of `generateCNRanges` runs. With a step of zero
      or less it never stops unless it never starts. */
  function RangeCount(step: int, maxCn: int, initialCn: int): nat
    requires step > 0 || initialCn > maxCn
  {
    if initialCn > maxCn then 0 else (maxCn - initialCn) / step + 1
  }

  /** The `k`-th range: `step` numbers starting `k` steps after `initialCn`. */
  function RangeAt(step: int, initialCn: int, k: nat): CnRange
  {
    CnRange(initialCn + k * step, initialCn + k * step + step - 1)
  }

  function Ranges(step: int, maxCn: int, initialCn: int): (rs: seq<CnRange>)
    requires step > 0 || initialCn > maxCn
    ensures |rs| == RangeCount(step, maxCn, initialCn)
  {
    seq(RangeCount(step, maxCn, initialCn), k requires 0 <= k => RangeAt(step, initialCn, k))
  }

  /** A start `n` steps after `initialCn` is still within `maxCn` exactly when
      the loop has run fewer than `RangeCount` times. */
  lemma CountAt(step: int, maxCn: int, initialCn: int, n: nat)
    requires step > 0
    ensures initialCn + n * step <= maxCn <==> n < RangeCount(step, maxCn, initialCn)
  {
    if initialCn <= maxCn {
      var q := (maxCn - initialCn) / step;
      assert q * step <= maxCn - initialCn < q * step + step;
      if n <= q {
        assert n * step <= q * step by {
          MultiplyMonotone(n, q, step);
        }
      } else {
        assert (q + 1) * step <= n * step by {
          MultiplyMonotone(q + 1, n, step);
        }
      }
    } else {
      assert n * step >= 0;
    }
  }

  lemma MultiplyMonotone(a: nat, b: nat, c: int)
    requires a <= b && c > 0
    ensures a * c <= b * c
  {
  }

  /** With a step of zero or less, once `initialCn <= maxCn` the loop of
      `generateCNRanges` never stops: after any number `n` of rounds the
      counter is still within `maxCn`. */
  lemma NonPositiveStepNeverStops(step: int, maxCn: int, initialCn: int, n: nat)
    requires step <= 0 && initialCn <= maxCn
    ensures initialCn + n * step <= maxCn
  {
    assert n * step <= 0 by {
      MultiplyNonPositive(n, step);
    }
  }

  lemma {:induction false} MultiplyNonPositive(a: nat, c: int)
    requires c <= 0
    ensures a * c <= 0
    decreases a
  {
    if a > 0 {
      MultiplyNonPositive(a - 1, c);
      assert a * c == (a - 1) * c + c;
    }
  }

  /** The `for` loop of `generateCNRanges`. */
  method GenerateCnRanges(step: int, maxCn: int, initialCn: int) returns (ranges: seq<CnRange>)
    requires step > 0 || initialCn > maxCn
    ensures ranges == Ranges(step, maxCn, initialCn)
  {
    ranges := [];
    var i := initialCn;
    while i <= maxCn
      invariant i == initialCn + |ranges| * step
      invariant i <= maxCn ==> step > 0
      invariant step > 0 ==> |ranges| <= RangeCount(step, maxCn, initialCn)
      invariant step <= 0 ==> ranges == []
      invariant forall k :: 0 <= k < |ranges| ==> ranges[k] == RangeAt(step, initialCn, k)
      decreases if i <= maxCn then maxCn - i + 1 else 0
    {
      CountAt(step, maxCn, initialCn, |ranges|);
      ranges := ranges + [CnRange(i, i + step - 1)];
      i := i + step;
    }
    if step > 0 {
      CountAt(step, maxCn, initialCn, |ranges|);
    }
    assert |ranges| == RangeCount(step, maxCn, initialCn);
  }

  /** The ranges start at `initialCn`, each spans `step` numbers and begins one
      after the previous one ends, every range starts within `maxCn`, and one
      more range would start beyond it; the last may end beyond `maxCn`. */
  lemma RangesShape(step: int, maxCn: int, initialCn: int)
    requires step > 0
    ensures var rs := Ranges(step, maxCn, initialCn);
            && (rs != [] <==> initialCn <= maxCn)
            && (rs != [] ==> rs[0].min == initialCn)
            && (forall k :: 0 <= k < |rs| ==> rs[k].max == rs[k].min + step - 1 && rs[k].min <= maxCn)
            && (forall k :: 0 < k < |rs| ==> rs[k].min == rs[k - 1].max + 1)
            && initialCn + |rs| * step > maxCn
  {
    var rs := Ranges(step, maxCn, initialCn);
    forall k | 0 <= k < |rs| ensures rs[k].min <= maxCn {
      CountAt(step, maxCn, initialCn, k);
    }
    forall k | 0 < k < |rs| ensures rs[k].min == rs[k - 1].max + 1 {
      assert k * step == (k - 1) * step + step;
    }
    CountAt(step, maxCn, initialCn, |rs|);
  }

  // ----- getCNRangeFormatted and getCNRanges -----

  /** `cnRange.min + " - " + cnRange.max`. */
  function RangeTitle(r: CnRange): string
  {
    IntToDecimal(r.min) + " - " + IntToDecimal(r.max)
  }

  /** Reads a title back: the two numbers around the first `" - "`. */
  function ParseRangeTitle(title: string): Option<CnRange>
  {
    var parts := Split(title, " - ");
    if |parts| != 2 then None
    else match (ParseInt(parts[0]), ParseInt(parts[1]))
      case (Some(a), Some(b)) => Some(CnRange(a, b))
      case _ => None
  }

  lemma NoSeparatorInDecimal(n: int)
    ensures !Contains(IntToDecimal(n), " - ")
  {
    var s := IntToDecimal(n);
    DecimalHasNoWhitespace(n);
    forall j | 0 <= j ensures !OccursAt(s, " - ", j) {
      if OccursAt(s, " - ", j) {
        OccursFirstChar(s, " - ", j);
      }
    }
  }

  /** A title names its range: reading it back gives the same bounds, so no
      two ranges share a title. */
  lemma RangeTitleRoundTrip(r: CnRange)
    ensures ParseRangeTitle(RangeTitle(r)) == Some(r)
  {
    var a, b := IntToDecimal(r.min), IntToDecimal(r.max);
    var t := RangeTitle(r);
    DecimalHasNoWhitespace(r.min);
    assert OccursAt(t, " - ", |a|) by {
      assert t[|a|..|a| + 3] == " - ";
    }
    forall j | 0 <= j < |a| ensures !OccursAt(t, " - ", j) {
      assert t[j] == a[j];
    }
    IndexFromFirst(t, " - ", 0, |a|);
    assert t[..|a|] == a;
    assert t[|a| + 3..] == b;
    NoSeparatorInDecimal(r.max);
    SplitWithoutSeparator(b, " - ");
    assert Split(t, " - ") == [a, b];
    ParseIntDecimal(r.min);
    ParseIntDecimal(r.max);
  }

  /** The record `{ title: ... }` pushed for one card. */
  function TitleRecord(r: CnRange): Record
  {
    Record([Field("title", Str(RangeTitle(r)))])
  }

  /** Record `k` is titled by range `k` modulo the number of ranges. */
  predicate Cycles(ranges: seq<Record>, cnRanges: seq<CnRange>)
  {
    cnRanges != [] && forall k :: 0 <= k < |ranges| ==> ranges[k] == TitleRecord(cnRanges[k % |cnRanges|])
  }

  /** The `for` loop of `getCNRanges`: one record per card, the ranges taken
      in turn and started over after the last. An empty range list makes the
      first iteration read `undefined.min`, so it may only come with no cards. */
  method GetCnRanges(cardCount: int, cnRanges: seq<CnRange>) returns (ranges: seq<Record>)
    requires cardCount <= 0 || cnRanges != []
    ensures |ranges| == if cardCount > 0 then cardCount else 0
    ensures forall k :: 0 <= k < |ranges| ==> ranges[k] == TitleRecord(cnRanges[k % |cnRanges|])
  {
    ranges := [];
    if cardCount <= 0 {
      return;
    }
    var rangeIndex := 0;
    var i := 1;
    while i <= cardCount
      invariant 1 <= i <= cardCount + 1
      invariant |ranges| == i - 1
      invariant rangeIndex == |ranges| % |cnRanges|
      invariant Cycles(ranges, cnRanges)
    {
      CyclesSnoc(ranges, cnRanges, TitleRecord(cnRanges[rangeIndex]));
      ModNext(|ranges|, |cnRanges|);
      ranges := ranges + [TitleRecord(cnRanges[rangeIndex])];
      rangeIndex := (rangeIndex + 1) % |cnRanges|;
      i := i + 1;
    }
  }

  /** Appending the record of the current range keeps the cycle. */
  lemma CyclesSnoc(ranges: seq<Record>, cnRanges: seq<CnRange>, r: Record)
    requires Cycles(ranges, cnRanges) && r == TitleRecord(cnRanges[|ranges| % |cnRanges|])
    ensures Cycles(ranges + [r], cnRanges)
  {
    var s := ranges + [r];
    forall k | 0 <= k < |s|
      ensures s[k] == TitleRecord(cnRanges[k % |cnRanges|])
    {
      if k < |ranges| {
        assert s[k] == ranges[k];
      }
    }
  }

  /** Adding one to the index and reducing it again keeps it the position
      modulo the length. */
  lemma ModNext(a: nat, n: nat)
    requires n > 0
    ensures (a % n + 1) % n == (a + 1) % n
  {
    var q, r := a / n, a % n;
    assert a == q * n + r;
    if r + 1 < n {
      assert a + 1 == q * n + (r + 1);
      DivModUnique(a + 1, n, q, r + 1);
    } else {
      assert a + 1 == (q + 1) * n + 0;
      DivModUnique(a + 1, n, q + 1, 0);
    }
  }

  lemma DivModUnique(a: int, n: int, q: int, r: int)
    requires n > 0 && 0 <= r < n && a == q * n + r
    ensures a % n == r
  {
    var q', r' := a / n, a % n;
    assert a == q' * n + r';
    if q' < q {
      assert (q - q') * n >= n by {
        MultiplyMonotone(1, q - q', n);
      }
    } else if q' > q {
      assert (q' - q) * n >= n by {
        MultiplyMonotone(1, q' - q, n);
      }
    }
  }

  /** With the default settings there are eight ranges, from 51-100 to 401-450,
      and the 440 cards go round them 55 times. */
  lemma DefaultRanges()
    ensures var rs := Ranges(50, 450, 51);
            && |rs| == 8
            && rs[0] == CnRange(51, 100)
            && rs[7] == CnRange(401, 450)
            && 440 == 55 * |rs|
  {
    assert RangeCount(50, 450, 51) == 8;
  }

  /** The first default title. */
  lemma FirstDefaultTitle()
    ensures RangeTitle(CnRange(51, 100)) == "51 - 100"
  {
    assert NatToDecimal(51) == "51";
    assert NatToDecimal(100) == "100";
  }

  /** The last default title. */
  lemma LastDefaultTitle()
    ensures RangeTitle(CnRange(401, 450)) == "401 - 450"
  {
    assert NatToDecimal(401) == "401";
    assert NatToDecimal(450) == "450";
  }

  // ----- The sheet -----

  /** The draws of `readBackgroundsAndAppendData`: one per record, each
      `Math.floor(Math.random() * files.length)`, so within the listing
      whenever the listing is not empty. */
  predicate Draws(data: seq<Record>, files: seq<string>, picks: seq<nat>)
  {
    |picks| == |data| && (files == [] || forall k :: 0 <= k < |picks| ==> picks[k] < |files|)
  }

  /** The records after `readBackgroundsAndAppendData`, where `files[picks[k]]`
      is the file drawn for record `k`. With an empty listing the draw is
      `undefined` and `file.match` throws at the first record, so nothing is
      returned. */
  function WithBackgrounds(data: seq<Record>, files: seq<string>, picks: seq<nat>): (r: Option<seq<Record>>)
    requires Draws(data, files, picks)
    ensures r.None? <==> data != [] && files == []
    ensures r.Some? ==> |r.value| == |data|
  {
    if data != [] && files == [] then None
    else Some(seq(|data|, k requires 0 <= k < |data| => AppendBackground(data[k], files[picks[k]])))
  }

  /** Every record of a non-empty listing gets the drawn file as its
      `background`, and keeps the keys it had. */
  lemma BackgroundsDrawn(data: seq<Record>, files: seq<string>, picks: seq<nat>, k: nat)
    requires Draws(data, files, picks) && files != [] && k < |data| && WellFormed(data[k])
    ensures var r := WithBackgrounds(data, files, picks);
            && r.Some?
            && Get(r.value[k], "background") == Str(files[picks[k]])
            && Keys(data[k]) <= Keys(r.value[k])
  {
    AppendBackgroundFields(data[k], files[picks[k]], "background");
  }

  /** The header of the sheet starts with `title`, the key of the first
      record, and contains `background`, which every record receives. */
  lemma SheetHeader(data: seq<Record>, files: seq<string>, picks: seq<nat>, first: CnRange)
    requires data != [] && files != [] && Draws(data, files, picks) && data[0] == TitleRecord(first)
    ensures var sheet := WithBackgrounds(data, files, picks);
            && sheet.Some?
            && Header(sheet.value).Some? && Header(sheet.value).value != [] && Header(sheet.value).value[0] == "title"
            && "background" in Header(sheet.value).value
  {
    var sheet := WithBackgrounds(data, files, picks).value;
    AppendBackgroundKeys(data[0], files[picks[0]]);
    assert Keys(data[0]) == ["title"];
    assert Keys(sheet[0])[..1] == ["title"];
    FirstKeyIsTitle(sheet);
    AllKeysContains(sheet, 0, "background");
  }

  lemma {:induction false} FirstKeyIsTitle(sheet: seq<Record>)
    requires sheet != [] && Keys(sheet[0]) != [] && Keys(sheet[0])[0] == "title"
    ensures AllKeys(sheet) != [] && AllKeys(sheet)[0] == "title"
    ensures Dedup(AllKeys(sheet)) != [] && Dedup(AllKeys(sheet))[0] == "title"
    decreases |sheet|
  {
    if |sheet| > 1 {
      var init := sheet[..|sheet| - 1];
      FirstKeyIsTitle(init);
    }
    DedupFront(AllKeys(sheet));
  }

  lemma {:induction false} AllKeysContains(data: seq<Record>, k: nat, key: string)
    requires k < |data| && key in Keys(data[k])
    ensures key in AllKeys(data)
    decreases |data|
  {
    if k < |data| - 1 {
      AllKeysContains(data[..|data| - 1], k, key);
    }
  }
}
