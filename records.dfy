/**
 * Plain JavaScript objects as the scripts use them: an ordered list of keys,
 * each with a value. Assigning to an existing key keeps its place and
 * assigning to a new key appends it. For keys that are not array indices,
 * which are the only keys the scripts use, `Object.keys` lists them in the
 * order they were first assigned. `saveDataToCSV` builds its header from the
 * keys of all records with a `Set`, which also keeps first-insertion order.
 */
module Records {
  import opened Wrappers
  import opened Seqs

  /** The values the scripts read from records: strings, numbers (only integral
      ones occur), booleans, and `undefined` for an absent key. */
  datatype Value = Str(s: string) | Num(n: int) | Bool(b: bool) | Missing

  /** `!!v`. */
  predicate Truthy(v: Value)
  {
    match v
    case Str(s) => s != ""
    case Num(n) => n != 0
    case Bool(b) => b
    case Missing => false
  }

  datatype Field = Field(key: string, value: Value)

  datatype Record = Record(fields: seq<Field>)

  /** `Object.keys(r)`. */
  function Keys(r: Record): (ks: seq<string>)
    ensures |ks| == |r.fields|
    ensures forall i :: 0 <= i < |ks| ==> ks[i] == r.fields[i].key
  {
    seq(|r.fields|, i requires 0 <= i < |r.fields| => r.fields[i].key)
  }

  /** No key is listed twice, as in every JavaScript object. */
  predicate WellFormed(r: Record)
  {
    forall i, j :: 0 <= i < j < |r.fields| ==> r.fields[i].key != r.fields[j].key
  }

  /** `r[key]`: the value stored under `key`, `undefined` when there is none. */
  function Get(r: Record, key: string): (v: Value)
    ensures key !in Keys(r) ==> v == Missing
    ensures forall i :: 0 <= i < |r.fields| && r.fields[i].key == key && WellFormed(r) ==> v == r.fields[i].value
    decreases |r.fields|
  {
    if r.fields == [] then Missing
    else if r.fields[0].key == key then r.fields[0].value
    else
      var rest := Record(r.fields[1..]);
      assert forall i :: 0 < i < |r.fields| ==> r.fields[i] == rest.fields[i - 1];
      Get(rest, key)
  }

  /** `r[key] = v`: an existing key keeps its place, a new one goes last. */
  function Put(r: Record, key: string, v: Value): (r': Record)
    ensures key in Keys(r) ==> Keys(r') == Keys(r)
    ensures key !in Keys(r) ==> Keys(r') == Keys(r) + [key]
  {
    if key in Keys(r) then
      Record(seq(|r.fields|, i requires 0 <= i < |r.fields| =>
        if r.fields[i].key == key then Field(key, v) else r.fields[i]))
    else Record(r.fields + [Field(key, v)])
  }

  /** Assignment stores the value under its key, leaves every other key alone
      and keeps the keys distinct. */
  lemma PutGet(r: Record, key: string, v: Value, other: string)
    requires WellFormed(r)
    ensures WellFormed(Put(r, key, v))
    ensures Get(Put(r, key, v), key) == v
    ensures other != key ==> Get(Put(r, key, v), other) == Get(r, other)
  {
    var r' := Put(r, key, v);
    assert Keys(r) == Keys(r') || Keys(r') == Keys(r) + [key];
    assert key in Keys(r');
    var i :| 0 <= i < |Keys(r')| && Keys(r')[i] == key;
    assert r'.fields[i].value == v;
    if other in Keys(r) {
      var j :| 0 <= j < |Keys(r)| && Keys(r)[j] == other;
      assert r'.fields[j] == r.fields[j] || other == key;
    } else {
      assert other != key ==> other !in Keys(r');
    }
  }

  /** Every value is a string, as in the objects a CSV parser builds. */
  predicate TextValues(r: Record)
  {
    forall f :: f in r.fields ==> f.value.Str?
  }

  /** Storing a string keeps every value a string. */
  lemma PutText(r: Record, key: string, v: Value)
    requires TextValues(r) && v.Str?
    ensures TextValues(Put(r, key, v))
  {
  }

  /** Reading a key of such a record gives a string or `undefined`. */
  lemma {:induction false} GetText(r: Record, key: string)
    requires TextValues(r)
    ensures Get(r, key).Str? || Get(r, key) == Missing
    decreases |r.fields|
  {
    if r.fields != [] && r.fields[0].key != key {
      assert r.fields[0] in r.fields;
      GetText(Record(r.fields[1..]), key);
    } else if r.fields != [] {
      assert r.fields[0] in r.fields;
    }
  }

  // ----- The header union of saveDataToCSV -----

  /** The keys of every record, record after record. */
  function AllKeys(data: seq<Record>): seq<string>
  {
    if data == [] then [] else AllKeys(data[..|data| - 1]) + Keys(data[|data| - 1])
  }

  /** The header `saveDataToCSV` writes, or `None` when there are no records
      and it returns without writing. */
  function Header(data: seq<Record>): (h: Option<seq<string>>)
    ensures h.None? <==> data == []
    ensures h.Some? ==> NoDuplicates(h.value) && (forall k :: k in h.value <==> k in AllKeys(data))
  {
    DedupFirstSeen(AllKeys(data));
    if data == [] then None else Some(Dedup(AllKeys(data)))
  }

  /** The inner `forEach`: each key of one record goes into the `Set`, which
      already holds the keys `before` it. */
  method AddKeys(allKeys: seq<string>, ghost before: seq<string>, keys: seq<string>) returns (allKeys': seq<string>)
    requires allKeys == Dedup(before)
    ensures allKeys' == Dedup(before + keys)
  {
    allKeys' := allKeys;
    var j := 0;
    assert before + keys[..0] == before;
    while j < |keys|
      invariant j <= |keys|
      invariant allKeys' == Dedup(before + keys[..j])
    {
      assert before + keys[..j + 1] == (before + keys[..j]) + [keys[j]];
      DedupSnoc(before + keys[..j], keys[j]);
      if keys[j] !in allKeys' {
        allKeys' := allKeys' + [keys[j]];
      }
      j := j + 1;
    }
    assert keys[..j] == keys;
  }

  /** The nested `forEach` loops that add every key to the `Set`. */
  method HeaderUnion(data: seq<Record>) returns (headers: Option<seq<string>>)
    ensures headers == Header(data)
  {
    if |data| == 0 {
      return None;
    }
    var allKeys: seq<string> := [];
    var i := 0;
    while i < |data|
      invariant i <= |data|
      invariant allKeys == Dedup(AllKeys(data[..i]))
    {
      allKeys := AddKeys(allKeys, AllKeys(data[..i]), Keys(data[i]));
      assert data[..i + 1][..i] == data[..i];
      i := i + 1;
    }
    assert data[..i] == data;
    headers := Some(allKeys);
  }
}
