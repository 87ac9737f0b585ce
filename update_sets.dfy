/**
 * The set sheet builder: the command line, the sort of the set records, the
 * filters applied to the list of sets, the background picked for each set,
 * the CSV header and the map from set code to icon.
 *
 * The request to the set list service, the directory listing, the random
 * draws, writing the CSV and downloading the icons are left to the caller:
 * the response, the listing and the draws are parameters.
 */
module UpdateSets {
  import opened Wrappers
  import opened Seqs
  import opened Strings
  import opened Sorting
  import opened Records
  import opened Backgrounds

  // ----- processArgs -----

  datatype Args = Args(setCodes: seq<string>, sortBy: string, sortDir: string, randomArt: bool)

  /** The object the loop starts from. */
  const DefaultArgs := Args([], "code", "asc", false)

  /** `argv[j] && !argv[j].startsWith("--")`: there is an argument at `j`, it
      is not empty and it is not a flag. */
  predicate Consumable(argv: seq<string>, j: int)
  {
    0 <= j < |argv| && argv[j] != "" && !StartsWith(argv[j], "--")
  }

  /** What the loop makes of the arguments from index `i` on, given what it
      has built so far. A flag that takes a value skips it. */
  function ArgsFrom(argv: seq<string>, i: nat, args: Args): Args
    requires i <= |argv|
    decreases |argv| - i
  {
    if i == |argv| then args
    else if argv[i] == "--sort-by" && Consumable(argv, i + 1) then
      ArgsFrom(argv, i + 2, args.(sortBy := argv[i + 1]))
    else if argv[i] == "--sort-dir" && Consumable(argv, i + 1) then
      ArgsFrom(argv, i + 2, args.(sortDir := argv[i + 1]))
    else if argv[i] == "--random-art" then
      ArgsFrom(argv, i + 1, args.(randomArt := true))
    else if !StartsWith(argv[i], "--") then
      ArgsFrom(argv, i + 1, args.(setCodes := args.setCodes + [argv[i]]))
    else
      ArgsFrom(argv, i + 1, args)
  }

  /** The settings for the arguments after the script name. */
  function ParsedArgs(argv: seq<string>): (a: Args)
    ensures argv == [] ==> a == DefaultArgs
  {
    ArgsFrom(argv, 0, DefaultArgs)
  }

  /** The `for` loop of `processArgs`. */
  method ProcessArgs(argv: seq<string>) returns (args: Args)
    ensures args == ParsedArgs(argv)
  {
    args := Args([], "code", "asc", false);
    var i := 0;
    while i < |argv|
      invariant i <= |argv|
      invariant ArgsFrom(argv, i, args) == ParsedArgs(argv)
    {
      if argv[i] == "--sort-by" && i + 1 < |argv| && argv[i + 1] != "" && !StartsWith(argv[i + 1], "--") {
        args := args.(sortBy := argv[i + 1]);
        i := i + 1;
      } else if argv[i] == "--sort-dir" && i + 1 < |argv| && argv[i + 1] != "" && !StartsWith(argv[i + 1], "--") {
        args := args.(sortDir := argv[i + 1]);
        i := i + 1;
      } else if argv[i] == "--random-art" {
        args := args.(randomArt := true);
      } else if !StartsWith(argv[i], "--") {
        args := args.(setCodes := args.setCodes + [argv[i]]);
      }
      i := i + 1;
    }
  }

  lemma FlagsStartWithDashes()
    ensures StartsWith("--random-art", "--") && StartsWith("--sort-by", "--") && StartsWith("--sort-dir", "--")
  {
    assert "--random-art"[..2] == "--";
    assert "--sort-by"[..2] == "--";
    assert "--sort-dir"[..2] == "--";
  }

  /** A consumed value never starts with `--`, so no flag is ever swallowed
      as the value of another: `--random-art` anywhere turns the option on. */
  lemma RandomArtFlag(argv: seq<string>)
    ensures ParsedArgs(argv).randomArt <==> "--random-art" in argv
  {
    RandomArtFrom(argv, 0, DefaultArgs);
    assert argv[0..] == argv;
  }

  lemma {:induction false} RandomArtFrom(argv: seq<string>, i: nat, args: Args)
    requires i <= |argv|
    ensures ArgsFrom(argv, i, args).randomArt <==> args.randomArt || "--random-art" in argv[i..]
    decreases |argv| - i
  {
    if i < |argv| {
      FlagsStartWithDashes();
      assert argv[i..] == [argv[i]] + argv[i + 1..];
      if (argv[i] == "--sort-by" || argv[i] == "--sort-dir") && Consumable(argv, i + 1) {
        assert argv[i + 1..] == [argv[i + 1]] + argv[i + 2..];
        assert argv[i + 1] != "--random-art";
        RandomArtFrom(argv, i + 2, if argv[i] == "--sort-by" then args.(sortBy := argv[i + 1]) else args.(sortDir := argv[i + 1]));
      } else if argv[i] == "--random-art" {
        RandomArtFrom(argv, i + 1, args.(randomArt := true));
      } else if !StartsWith(argv[i], "--") {
        RandomArtFrom(argv, i + 1, args.(setCodes := args.setCodes + [argv[i]]));
      } else {
        RandomArtFrom(argv, i + 1, args);
      }
    }
  }

  /** Not a flag: what `processArgs` takes for a set code. */
  predicate IsCode(a: string)
  {
    !StartsWith(a, "--")
  }

  /** Without `--sort-by` and `--sort-dir` the sort settings keep their
      defaults and the set codes are exactly the arguments that are not flags,
      in order; unknown flags are dropped. */
  lemma PlainArguments(argv: seq<string>)
    requires "--sort-by" !in argv && "--sort-dir" !in argv
    ensures ParsedArgs(argv) == Args(Filter(argv, IsCode), "code", "asc", "--random-art" in argv)
  {
    PlainFrom(argv, 0, DefaultArgs);
    assert argv[0..] == argv;
    RandomArtFlag(argv);
  }

  lemma {:induction false} PlainFrom(argv: seq<string>, i: nat, args: Args)
    requires i <= |argv| && "--sort-by" !in argv[i..] && "--sort-dir" !in argv[i..]
    ensures var r := ArgsFrom(argv, i, args);
            r.setCodes == args.setCodes + Filter(argv[i..], IsCode) && r.sortBy == args.sortBy && r.sortDir == args.sortDir
    decreases |argv| - i
  {
    if i == |argv| {
      assert argv[i..] == [];
    } else {
      assert argv[i..] == [argv[i]] + argv[i + 1..];
      assert argv[i] != "--sort-by" && argv[i] != "--sort-dir";
      assert "--sort-by" !in argv[i + 1..] && "--sort-dir" !in argv[i + 1..];
      FilterCons(argv[i], argv[i + 1..], IsCode);
      if argv[i] == "--random-art" {
        FlagsStartWithDashes();
        assert ArgsFrom(argv, i, args) == ArgsFrom(argv, i + 1, args.(randomArt := true));
        PlainFrom(argv, i + 1, args.(randomArt := true));
      } else if IsCode(argv[i]) {
        assert ArgsFrom(argv, i, args) == ArgsFrom(argv, i + 1, args.(setCodes := args.setCodes + [argv[i]]));
        PlainFrom(argv, i + 1, args.(setCodes := args.setCodes + [argv[i]]));
        AppendAssoc(args.setCodes, [argv[i]], Filter(argv[i + 1..], IsCode));
      } else {
        assert ArgsFrom(argv, i, args) == ArgsFrom(argv, i + 1, args);
        PlainFrom(argv, i + 1, args);
      }
    }
  }

  /** Each set code is an argument that is not a flag. */
  lemma CodesAreArguments(argv: seq<string>)
    ensures forall c :: c in ParsedArgs(argv).setCodes ==> c in argv && IsCode(c)
  {
    CodesFrom(argv, 0, DefaultArgs);
    assert argv[0..] == argv;
  }

  lemma {:induction false} CodesFrom(argv: seq<string>, i: nat, args: Args)
    requires i <= |argv|
    ensures forall c :: c in ArgsFrom(argv, i, args).setCodes ==> c in args.setCodes || (c in argv[i..] && IsCode(c))
    decreases |argv| - i
  {
    if i < |argv| {
      assert argv[i..] == [argv[i]] + argv[i + 1..];
      if (argv[i] == "--sort-by" || argv[i] == "--sort-dir") && Consumable(argv, i + 1) {
        assert argv[i + 1..] == [argv[i + 1]] + argv[i + 2..];
        CodesFrom(argv, i + 2, if argv[i] == "--sort-by" then args.(sortBy := argv[i + 1]) else args.(sortDir := argv[i + 1]));
      } else if argv[i] == "--random-art" {
        CodesFrom(argv, i + 1, args.(randomArt := true));
      } else if IsCode(argv[i]) {
        CodesFrom(argv, i + 1, args.(setCodes := args.setCodes + [argv[i]]));
      } else {
        CodesFrom(argv, i + 1, args);
      }
    }
  }

  /** `argv[j]` is the value taken by `flag` at `j - 1`. */
  predicate ValueOf(argv: seq<string>, flag: string, j: int, v: string)
  {
    1 <= j < |argv| && argv[j - 1] == flag && Consumable(argv, j) && argv[j] == v
  }

  /** The sort key and direction are the defaults, or a value that follows its
      flag, is not empty and does not start with `--`. */
  lemma SortSettings(argv: seq<string>)
    ensures var a := ParsedArgs(argv);
            && (a.sortBy == "code" || exists j :: ValueOf(argv, "--sort-by", j, a.sortBy))
            && (a.sortDir == "asc" || exists j :: ValueOf(argv, "--sort-dir", j, a.sortDir))
  {
    SortFrom(argv, 0, DefaultArgs);
  }

  lemma {:induction false} SortFrom(argv: seq<string>, i: nat, args: Args)
    requires i <= |argv|
    ensures var a := ArgsFrom(argv, i, args);
            && (a.sortBy == args.sortBy || exists j :: i < j && ValueOf(argv, "--sort-by", j, a.sortBy))
            && (a.sortDir == args.sortDir || exists j :: i < j && ValueOf(argv, "--sort-dir", j, a.sortDir))
    decreases |argv| - i
  {
    if i < |argv| {
      if argv[i] == "--sort-by" && Consumable(argv, i + 1) {
        SortFrom(argv, i + 2, args.(sortBy := argv[i + 1]));
        assert ValueOf(argv, "--sort-by", i + 1, argv[i + 1]);
      } else if argv[i] == "--sort-dir" && Consumable(argv, i + 1) {
        SortFrom(argv, i + 2, args.(sortDir := argv[i + 1]));
        assert ValueOf(argv, "--sort-dir", i + 1, argv[i + 1]);
      } else if argv[i] == "--random-art" {
        SortFrom(argv, i + 1, args.(randomArt := true));
      } else if IsCode(argv[i]) {
        SortFrom(argv, i + 1, args.(setCodes := args.setCodes + [argv[i]]));
      } else {
        SortFrom(argv, i + 1, args);
      }
    }
  }

  // ----- sortData -----

  /** The number a value converts to for `<`, when it is one: a number, or a
      boolean as 1 or 0. */
  function NumberOf(v: Value): (n: Option<int>)
    ensures n.Some? <==> v.Num? || v.Bool?
  {
    match v
    case Num(n) => Some(n)
    case Bool(b) => Some(if b then 1 else 0)
    case _ => None
  }

  /** `a < b` on the values the records hold: strings by code units, numbers
      and booleans numerically, and `undefined` (NaN) below nothing. */
  predicate JsLess(a: Value, b: Value)
  {
    if a.Str? && b.Str? then LexLess(a.s, b.s)
    else NumberOf(a).Some? && NumberOf(b).Some? && NumberOf(a).value < NumberOf(b).value
  }

  lemma JsLessStrict(a: Value, b: Value, c: Value)
    ensures !JsLess(a, a)
    ensures JsLess(a, b) && JsLess(b, c) ==> JsLess(a, c)
  {
    if a.Str? {
      LexLessIrreflexive(a.s);
      if b.Str? && c.Str? && JsLess(a, b) && JsLess(b, c) {
        LexLessTransitive(a.s, b.s, c.s);
      }
    }
  }

  /** The comparator of `sortData` is negative exactly when `Before` holds:
      `valA < valB` for `"asc"`, `valA > valB` for any other direction. */
  function Before(sortBy: string, sortOrder: string): (Record, Record) -> bool
  {
    if sortOrder == "asc" then (a: Record, b: Record) => JsLess(Get(a, sortBy), Get(b, sortBy))
    else (a: Record, b: Record) => JsLess(Get(b, sortBy), Get(a, sortBy))
  }

  lemma BeforeIsStrict(sortBy: string, sortOrder: string)
    ensures StrictOrder(Before(sortBy, sortOrder))
  {
    var lt := Before(sortBy, sortOrder);
    forall a: Record ensures !lt(a, a) {
      JsLessStrict(Get(a, sortBy), Get(a, sortBy), Get(a, sortBy));
    }
    forall a: Record, b: Record, c: Record | lt(a, b) && lt(b, c) ensures lt(a, c) {
      if sortOrder == "asc" {
        JsLessStrict(Get(a, sortBy), Get(b, sortBy), Get(c, sortBy));
      } else {
        JsLessStrict(Get(c, sortBy), Get(b, sortBy), Get(a, sortBy));
      }
    }
  }

  /** The records in the order `sortData` leaves them. */
  function SortedData(data: seq<Record>, sortBy: string, sortOrder: string): seq<Record>
  {
    SortBy(data, Before(sortBy, sortOrder))
  }

  /** The sorted records are the same records, ascending by `sortBy` when the
      direction is `"asc"` and descending for any other direction. */
  lemma SortedDataOrder(data: seq<Record>, sortBy: string, sortOrder: string)
    ensures var r := SortedData(data, sortBy, sortOrder);
            && multiset(r) == multiset(data)
            && (sortOrder == "asc" ==> forall i, j :: 0 <= i < j < |r| ==> !JsLess(Get(r[j], sortBy), Get(r[i], sortBy)))
            && (sortOrder != "asc" ==> forall i, j :: 0 <= i < j < |r| ==> !JsLess(Get(r[i], sortBy), Get(r[j], sortBy)))
  {
    BeforeIsStrict(sortBy, sortOrder);
    SortBySorted(data, Before(sortBy, sortOrder));
  }

  /** `data.sort(...)`: the array is sorted in place and is itself the result. */
  method SortData(a: array<Record>, sortBy: string, sortOrder: string) returns (r: array<Record>)
    modifies a
    ensures r == a && a[..] == SortedData(old(a[..]), sortBy, sortOrder)
  {
    var sorted := SortedData(a[..], sortBy, sortOrder);
    var i := 0;
    while i < a.Length
      invariant i <= a.Length == |sorted|
      invariant forall k :: 0 <= k < i ==> a[k] == sorted[k]
    {
      a[i] := sorted[i];
      i := i + 1;
    }
    assert a[..] == sorted;
    r := a;
  }

  // ----- getSetData -----

  const IgnoredSets: set<string> := {"exampleSetCode1", "exampleSetCode2"}

  const MinimumSetSize := 50

  const SetTypes: set<string> := {"core", "expansion", "starter", "masters", "commander", "planechase",
    "draft_innovation", "duel_deck", "premium_deck", "from_the_vault", "archenemy", "box", "funny"}

  /** The test applied to each set when no codes are requested. */
  predicate KeptByDefault(exp: Record)
  {
    var code, count, setType := Get(exp, "code"), Get(exp, "card_count"), Get(exp, "set_type");
    && !(code.Str? && code.s in IgnoredSets)
    && NumberOf(count).Some? && NumberOf(count).value >= MinimumSetSize
    && (|SetTypes| == 0 || (setType.Str? && setType.s in SetTypes))
    && !Truthy(Get(exp, "digital"))
    && (!Truthy(Get(exp, "nonfoil_only")) || !Truthy(Get(exp, "foil_only")))
  }

  /** The requested codes, lowercased, in the order the `Set` keeps them. */
  function Requested(setCodes: seq<string>): (r: seq<string>)
    ensures NoDuplicates(r)
    ensures forall i :: 0 <= i < |setCodes| ==> ToLower(setCodes[i]) in r
    ensures forall c :: c in r ==> exists i :: 0 <= i < |setCodes| && ToLower(setCodes[i]) == c
  {
    var lowered := seq(|setCodes|, i requires 0 <= i < |setCodes| => ToLower(setCodes[i]));
    DedupFirstSeen(lowered);
    assert forall i :: 0 <= i < |setCodes| ==> lowered[i] == ToLower(setCodes[i]);
    Dedup(lowered)
  }

  /** The set's lowercased code is among the requested ones. */
  predicate IsRequested(requested: seq<string>, exp: Record)
  {
    Get(exp, "code").Str? && ToLower(Get(exp, "code").s) in requested
  }

  /** Every set's code is a string, so `code.toLowerCase()` does not throw. */
  predicate CodesAreText(data: seq<Record>)
  {
    forall k :: 0 <= k < |data| ==> Get(data[k], "code").Str?
  }

  /** Some set's lowercased code is `code`. */
  predicate HasCode(data: seq<Record>, code: string)
  {
    exists k :: 0 <= k < |data| && Get(data[k], "code").Str? && ToLower(Get(data[k], "code").s) == code
  }

  /** `data.some((set) => set.code.toLowerCase() === code)`, or `None` when it
      reaches a set whose code is not a string before it finds one. */
  function SomeHasCode(data: seq<Record>, code: string): (r: Option<bool>)
    ensures r == Some(true) ==> HasCode(data, code)
    ensures CodesAreText(data) ==> r == Some(HasCode(data, code))
  {
    if data == [] then Some(false)
    else
      var v := Get(data[0], "code");
      assert forall k :: 0 < k < |data| ==> data[k] == data[1..][k - 1];
      assert forall k :: 0 <= k < |data| - 1 ==> data[1..][k] == data[k + 1];
      if !v.Str? then None
      else if ToLower(v.s) == code then Some(true)
      else SomeHasCode(data[1..], code)
  }

  /** The requested codes no set has, in request order, or `None` when the
      scan throws. */
  function UnknownSets(data: seq<Record>, requested: seq<string>): (r: Option<seq<string>>)
    ensures CodesAreText(data) ==> r.Some?
    ensures r.Some? ==> |r.value| <= |requested|
  {
    if requested == [] then Some([])
    else
      var init := UnknownSets(data, requested[..|requested| - 1]);
      var found := SomeHasCode(data, requested[|requested| - 1]);
      if init.None? || found.None? then None
      else if found.value then init
      else Some(init.value + [requested[|requested| - 1]])
  }

  /** What `getSetData` resolves to. `response` is the list in the service's
      reply (an absent list is the empty one), or `None` when the request
      fails. Any exception in the `try` block gives the empty list. */
  function GetSetData(setCodes: seq<string>, response: Option<seq<Record>>): seq<Record>
  {
    if response.None? then []
    else
      var data := response.value;
      if |setCodes| > 0 then
        var requested := Requested(setCodes);
        if UnknownSets(data, requested).None? || !CodesAreText(data) then []
        else Filter(data, exp => IsRequested(requested, exp))
      else Filter(data, KeptByDefault)
  }

  /** With requested codes, the result is exactly the sets whose lowercased
      code matches a lowercased request; a set whose code is not a string
      makes the whole call give nothing. */
  lemma RequestedSets(setCodes: seq<string>, data: seq<Record>)
    requires |setCodes| > 0
    ensures var r := GetSetData(setCodes, Some(data));
            && (CodesAreText(data) ==> forall exp :: exp in r <==>
                  (exp in data && exists i :: 0 <= i < |setCodes| && ToLower(setCodes[i]) == ToLower(Get(exp, "code").s)))
            && (!CodesAreText(data) ==> r == [])
  {
  }

  /** The logged unknown codes are the requests, lowercased and once each,
      that no set's lowercased code equals. */
  lemma {:induction false} UnknownSetsExactly(data: seq<Record>, requested: seq<string>)
    requires CodesAreText(data)
    ensures forall c :: c in UnknownSets(data, requested).value <==> (c in requested && !HasCode(data, c))
    decreases |requested|
  {
    if requested != [] {
      var init := requested[..|requested| - 1];
      UnknownSetsExactly(data, init);
      assert requested == init + [requested[|requested| - 1]];
    }
  }

  /** Without requested codes, a set is kept exactly when its code is not
      ignored, it has at least 50 cards, its type is one of the thirteen, it
      is not digital, and it is not both nonfoil-only and foil-only. */
  lemma DefaultSets(data: seq<Record>)
    ensures var r := GetSetData([], Some(data));
            forall exp :: exp in r <==>
              (&& exp in data
               && !(Get(exp, "code").Str? && Get(exp, "code").s in IgnoredSets)
               && NumberOf(Get(exp, "card_count")).Some? && NumberOf(Get(exp, "card_count")).value >= 50
               && Get(exp, "set_type").Str? && Get(exp, "set_type").s in SetTypes
               && !Truthy(Get(exp, "digital"))
               && !(Truthy(Get(exp, "nonfoil_only")) && Truthy(Get(exp, "foil_only"))))
  {
    assert "core" in SetTypes;
  }

  /** A failed request gives no sets. */
  lemma FailedRequest(setCodes: seq<string>)
    ensures GetSetData(setCodes, None) == []
  {
  }

  // ----- createCodeToIconMap -----

  /** One entry of a JavaScript `Map`. */
  datatype Entry = Entry(key: Value, value: Value)

  function MapKeys(m: seq<Entry>): (ks: seq<Value>)
    ensures |ks| == |m|
    ensures forall i :: 0 <= i < |m| ==> ks[i] == m[i].key
  {
    seq(|m|, i requires 0 <= i < |m| => m[i].key)
  }

  /** `m.get(k)`, `None` standing for `undefined` when the key is absent. */
  function MapGet(m: seq<Entry>, k: Value): (v: Option<Value>)
    ensures v.Some? <==> k in MapKeys(m)
  {
    if k in MapKeys(m) then Some(m[FirstIndex(MapKeys(m), k)].value) else None
  }

  /** `m.set(k, v)`: an existing key keeps its place, a new one goes last. */
  function MapSet(m: seq<Entry>, k: Value, v: Value): (m': seq<Entry>)
    ensures k in MapKeys(m) ==> MapKeys(m') == MapKeys(m)
    ensures k !in MapKeys(m) ==> MapKeys(m') == MapKeys(m) + [k]
  {
    if k in MapKeys(m) then
      seq(|m|, i requires 0 <= i < |m| => if m[i].key == k then Entry(k, v) else m[i])
    else m + [Entry(k, v)]
  }

  /** After `m.set(k, v)`, `k` maps to `v` and every other key to what it did. */
  lemma MapSetGet(m: seq<Entry>, k: Value, v: Value, other: Value)
    ensures MapGet(MapSet(m, k, v), k) == Some(v)
    ensures other != k ==> MapGet(MapSet(m, k, v), other) == MapGet(m, other)
  {
    if k in MapKeys(m) {
      MapSetExisting(m, k, v, other);
    } else {
      MapSetNew(m, k, v, other);
    }
  }

  /** Setting a key that is there replaces its value in place. */
  lemma MapSetExisting(m: seq<Entry>, k: Value, v: Value, other: Value)
    requires k in MapKeys(m)
    ensures MapGet(MapSet(m, k, v), k) == Some(v)
    ensures other != k ==> MapGet(MapSet(m, k, v), other) == MapGet(m, other)
  {
    var m', ks := MapSet(m, k, v), MapKeys(m);
    var i := FirstIndex(ks, k);
    assert m'[i].value == v;
    if other != k && other in ks {
      assert m'[FirstIndex(ks, other)] == m[FirstIndex(ks, other)];
    }
  }

  /** Setting a new key appends it. */
  lemma MapSetNew(m: seq<Entry>, k: Value, v: Value, other: Value)
    requires k !in MapKeys(m)
    ensures MapGet(MapSet(m, k, v), k) == Some(v)
    ensures other != k ==> MapGet(MapSet(m, k, v), other) == MapGet(m, other)
  {
    var ks, ks' := MapKeys(m), MapKeys(MapSet(m, k, v));
    assert ks'[..|ks|] == ks;
    FirstIndexAt(ks', k, |ks|);
    if other != k && other in ks {
      MapSetNewOther(m, k, v, other);
    }
  }

  /** Appending a new key leaves the first place of an old one where it was. */
  lemma MapSetNewOther(m: seq<Entry>, k: Value, v: Value, other: Value)
    requires k !in MapKeys(m) && other in MapKeys(m)
    ensures MapGet(MapSet(m, k, v), other) == MapGet(m, other)
  {
    var ks, ks' := MapKeys(m), MapKeys(MapSet(m, k, v));
    var j := FirstIndex(ks, other);
    assert ks'[..j] == ks[..j];
    FirstIndexAt(ks', other, j);
  }

  function Codes(data: seq<Record>): (cs: seq<Value>)
    ensures |cs| == |data|
    ensures forall k :: 0 <= k < |data| ==> cs[k] == Get(data[k], "code")
  {
    seq(|data|, k requires 0 <= k < |data| => Get(data[k], "code"))
  }

  /** `new Map(setData.map((set) => [set.code, set.icon_svg_uri]))`: the pairs
      are set one after the other. */
  function CodeToIconMap(data: seq<Record>): seq<Entry>
  {
    if data == [] then []
    else
      var last := data[|data| - 1];
      MapSet(CodeToIconMap(data[..|data| - 1]), Get(last, "code"), Get(last, "icon_svg_uri"))
  }

  /** The map has one key per distinct code, in the order the codes first
      appear. */
  lemma {:induction false} CodeToIconMapKeys(data: seq<Record>)
    ensures MapKeys(CodeToIconMap(data)) == Dedup(Codes(data))
    ensures NoDuplicates(MapKeys(CodeToIconMap(data)))
    decreases |data|
  {
    if data != [] {
      var init := data[..|data| - 1];
      CodeToIconMapKeys(init);
      assert Codes(data)[..|data| - 1] == Codes(init);
    }
    DedupFirstSeen(Codes(data));
  }

  /** A code maps to the icon of the last set that has it. */
  lemma {:induction false} CodeToIconMapLastWins(data: seq<Record>, k: nat)
    requires k < |data|
    requires forall j :: k < j < |data| ==> Get(data[j], "code") != Get(data[k], "code")
    ensures MapGet(CodeToIconMap(data), Get(data[k], "code")) == Some(Get(data[k], "icon_svg_uri"))
    decreases |data|
  {
    var init, last := data[..|data| - 1], data[|data| - 1];
    MapSetGet(CodeToIconMap(init), Get(last, "code"), Get(last, "icon_svg_uri"), Get(data[k], "code"));
    if k < |data| - 1 {
      CodeToIconMapLastWins(init, k);
    }
  }

  // ----- readBackgroundsAndAppendData -----

  /** The text the regular expression built from the code looks for. */
  function Tag(code: string): string
  {
    "[" + ToUpper(code) + "]"
  }

  /** `files.find((f) => regex.test(f))`, as an index. */
  function FindFile(files: seq<string>, tag: string): (r: Option<nat>)
    ensures r.Some? ==> r.value < |files| && Contains(files[r.value], tag)
    ensures r.Some? ==> forall j :: 0 <= j < r.value ==> !Contains(files[j], tag)
    ensures r.None? ==> forall j :: 0 <= j < |files| ==> !Contains(files[j], tag)
  {
    if files == [] then None
    else if Contains(files[0], tag) then Some(0)
    else
      match FindFile(files[1..], tag)
      case Some(i) => Some(i + 1)
      case None => None
  }

  /** The background file of one set: the random draw `files[pick]` with
      `randomArt`, otherwise the first file naming the set's code in square
      brackets, falling back to the draw. `None` where the script throws:
      without `randomArt` a non-string code has no `toUpperCase`, and from an
      empty listing the file is `undefined`, which has no `match`. */
  function ChooseBackground(files: seq<string>, code: Value, randomArt: bool, pick: nat): (f: Option<string>)
    requires files == [] || pick < |files|
    ensures f.None? <==> files == [] || (!randomArt && !code.Str?)
    ensures f.Some? ==> f.value in files
  {
    if !randomArt && !code.Str? then None
    else if files == [] then None
    else if randomArt then Some(files[pick])
    else
      match FindFile(files, Tag(code.s))
      case Some(i) => Some(files[i])
      case None => Some(files[pick])
  }

  /** Without `randomArt` the chosen file names the code exactly when some
      file does, and then it is the first such file. */
  lemma ChooseBackgroundTagged(files: seq<string>, code: string, pick: nat)
    requires pick < |files|
    ensures var f := ChooseBackground(files, Str(code), false, pick);
            && f.Some?
            && ((exists j :: 0 <= j < |files| && Contains(files[j], Tag(code))) ==>
                  exists i :: 0 <= i < |files| && f.value == files[i] && Contains(f.value, Tag(code)) &&
                    forall j :: 0 <= j < i ==> !Contains(files[j], Tag(code)))
            && ((forall j :: 0 <= j < |files| ==> !Contains(files[j], Tag(code))) ==> f.value == files[pick])
  {
  }

  /** The choice at the head of the `forEach` body: a random file, or the
      first file tagged with the set's code, or a random one when none is. */
  method PickBackground(files: seq<string>, code: Value, randomArt: bool, pick: nat) returns (file: Option<string>)
    requires files == [] || pick < |files|
    ensures file == ChooseBackground(files, code, randomArt, pick)
  {
    if randomArt {
      file := if files == [] then None else Some(files[pick]);
    } else if !code.Str? {
      file := None;
    } else {
      var found := FindFile(files, Tag(code.s));
      if found.Some? {
        file := Some(files[found.value]);
      } else {
        file := if files == [] then None else Some(files[pick]);
      }
    }
  }

  /** What the `forEach` body does to one set, `None` where it throws. */
  function WithBackground(exp: Record, files: seq<string>, randomArt: bool, pick: nat): (r: Option<Record>)
    requires files == [] || pick < |files|
    ensures r.None? <==> files == [] || (!randomArt && !Get(exp, "code").Str?)
  {
    match ChooseBackground(files, Get(exp, "code"), randomArt, pick)
    case Some(file) => Some(AppendBackground(exp, file))
    case None => None
  }

  /** The draws `readBackgroundsAndAppendData` makes: one per set, each
      `Math.floor(Math.random() * files.length)`, so within the listing
      whenever the listing is not empty. */
  predicate Draws(data: seq<Record>, files: seq<string>, picks: seq<nat>)
  {
    |picks| == |data| && (files == [] || forall k :: 0 <= k < |picks| ==> picks[k] < |files|)
  }

  /** Some set makes the `forEach` body throw: the listing is empty, or a code
      is not a string and the art is not random. */
  predicate Throws(data: seq<Record>, files: seq<string>, randomArt: bool)
  {
    data != [] && (files == [] || (!randomArt && !CodesAreText(data)))
  }

  /** The `forEach` body throws at some set exactly when `Throws` holds. */
  lemma ThrowsAt(data: seq<Record>, files: seq<string>, randomArt: bool, picks: seq<nat>)
    requires Draws(data, files, picks)
    ensures Throws(data, files, randomArt) <==>
              exists k :: 0 <= k < |data| && WithBackground(data[k], files, randomArt, picks[k]).None?
  {
    if Throws(data, files, randomArt) {
      if files == [] {
        assert WithBackground(data[0], files, randomArt, picks[0]).None?;
      } else {
        var k :| 0 <= k < |data| && !Get(data[k], "code").Str?;
        assert WithBackground(data[k], files, randomArt, picks[k]).None?;
      }
    }
  }

  /** The `forEach` loop, which updates every set object in place. It stops
      at the first set whose body throws, `done`, with the sets before it
      updated and the rest untouched; `done` is the length when none throws. */
  method ReadBackgroundsAndAppendData(setData: array<Record>, files: seq<string>, randomArt: bool, picks: seq<nat>)
    returns (done: nat)
    requires Draws(setData[..], files, picks)
    modifies setData
    ensures done <= setData.Length
    ensures forall k :: 0 <= k < done ==>
              WithBackground(old(setData[k]), files, randomArt, picks[k]) == Some(setData[k])
    ensures done < setData.Length ==> WithBackground(old(setData[done]), files, randomArt, picks[done]).None?
    ensures forall k :: done <= k < setData.Length ==> setData[k] == old(setData[k])
  {
    ghost var sets := setData[..];
    var i := 0;
    while i < setData.Length
      invariant i <= setData.Length
      invariant forall k :: 0 <= k < i ==> WithBackground(sets[k], files, randomArt, picks[k]) == Some(setData[k])
      invariant forall k :: i <= k < setData.Length ==> setData[k] == sets[k]
    {
      var exp := setData[i];
      var file := PickBackground(files, Get(exp, "code"), randomArt, picks[i]);
      if file.None? {
        return i;
      }
      setData[i] := AppendBackground(exp, file.value);
      i := i + 1;
    }
    done := i;
  }

  // ----- The script -----

  /** The sets with their backgrounds, in the order `getSetData` gives them,
      or `None` when the `forEach` body throws. */
  function WithBackgrounds(data: seq<Record>, files: seq<string>, randomArt: bool, picks: seq<nat>): (r: Option<seq<Record>>)
    requires Draws(data, files, picks)
    ensures r.None? <==> Throws(data, files, randomArt)
    ensures r.Some? ==> |r.value| == |data|
  {
    if Throws(data, files, randomArt) then None
    else Some(seq(|data|, k requires 0 <= k < |data| => WithBackground(data[k], files, randomArt, picks[k]).value))
  }

  /** The rows of `sets.csv`, or `None` when the script throws before
      writing them. */
  function Sheet(args: Args, data: seq<Record>, files: seq<string>, picks: seq<nat>): Option<seq<Record>>
    requires Draws(data, files, picks)
  {
    match WithBackgrounds(data, files, args.randomArt, picks)
    case Some(w) => Some(SortedData(w, args.sortBy, args.sortDir))
    case None => None
  }

  /** Every row of the sheet is one of the fetched sets with a background
      file from the listing; there is a sheet exactly when no set throws. */
  lemma SheetShape(args: Args, data: seq<Record>, files: seq<string>, picks: seq<nat>)
    requires Draws(data, files, picks)
    requires forall k :: 0 <= k < |data| ==> WellFormed(data[k])
    ensures Sheet(args, data, files, picks).None? <==> Throws(data, files, args.randomArt)
    ensures Sheet(args, data, files, picks).Some? ==>
              && |Sheet(args, data, files, picks).value| == |data|
              && forall r :: r in Sheet(args, data, files, picks).value ==>
                   WellFormed(r) && Get(r, "background").Str? && Get(r, "background").s in files
  {
    if !Throws(data, files, args.randomArt) {
      var w := WithBackgrounds(data, files, args.randomArt, picks).value;
      forall k | 0 <= k < |data|
        ensures WellFormed(w[k]) && Get(w[k], "background").Str? && Get(w[k], "background").s in files
      {
        var f := ChooseBackground(files, Get(data[k], "code"), args.randomArt, picks[k]).value;
        AppendBackgroundFields(data[k], f, "background");
      }
      assert forall r :: r in Sheet(args, data, files, picks).value ==> r in multiset(w);
    }
  }

  /** The script after the arguments are read: fetch the sets, give each a
      background, sort them, and produce the CSV header and the icon map.
      `ok` is false when giving the backgrounds throws, and then nothing
      further happens. */
  method Run(args: Args, response: Option<seq<Record>>, files: seq<string>, picks: seq<nat>)
      returns (ok: bool, data: array<Record>, header: Option<seq<string>>, icons: seq<Entry>)
    requires Draws(GetSetData(args.setCodes, response), files, picks)
    ensures ok <==> Sheet(args, GetSetData(args.setCodes, response), files, picks).Some?
    ensures ok ==> data[..] == Sheet(args, GetSetData(args.setCodes, response), files, picks).value
    ensures ok ==> header == Header(data[..])
    ensures ok ==> icons == CodeToIconMap(data[..])
  {
    var sets := GetSetData(args.setCodes, response);
    data := new Record[|sets|](k requires 0 <= k < |sets| => sets[k]);
    assert data[..] == sets;
    var done := ReadBackgroundsAndAppendData(data, files, args.randomArt, picks);
    ThrowsAt(sets, files, args.randomArt, picks);
    if done < data.Length {
      return false, data, None, [];
    }
    assert !Throws(sets, files, args.randomArt);
    assert data[..] == WithBackgrounds(sets, files, args.randomArt, picks).value;
    data := SortData(data, args.sortBy, args.sortDir);
    header := HeaderUnion(data[..]);
    icons := CodeToIconMap(data[..]);
    ok := true;
  }
}
