/**
 * The order in which the CSV builder sorts the order-export rows before
 * matching and batching: by set code, then by collector number.
 */
module RowOrdering {
  import opened Wrappers
  import opened Strings
  import opened Sorting
  import opened OrderRows

  /** `Number.MAX_SAFE_INTEGER`, the key of a row without a usable number. */
  const MaxSafeInteger: int := 9007199254740991

  /** `row["Set Code"] || ""`. */
  function SetCodeKey(row: Row): string
  {
    row.setCode.GetOr("")
  }

  /** `parseInt(row["Collector Number"]) || Number.MAX_SAFE_INTEGER`: a missing
      number, one that does not parse, and `0` all sort last. */
  function CollectorKey(row: Row): (k: int)
    ensures k == MaxSafeInteger || (row.collectorNumber.Some? && ParseInt(row.collectorNumber.value) == Some(k))
  {
    ParseIntOr(row.collectorNumber, MaxSafeInteger)
  }

  /** The comparator is negative: set codes differ and the first is smaller,
      or they agree and the first collector key is smaller. */
  predicate RowBefore(a: Row, b: Row)
  {
    if SetCodeKey(a) != SetCodeKey(b) then LexLess(SetCodeKey(a), SetCodeKey(b))
    else CollectorKey(a) < CollectorKey(b)
  }

  /** Two rows tie under the comparator exactly when both keys agree. */
  lemma RowTie(a: Row, b: Row)
    ensures Equivalent(RowBefore, a, b) <==> SetCodeKey(a) == SetCodeKey(b) && CollectorKey(a) == CollectorKey(b)
  {
    if SetCodeKey(a) != SetCodeKey(b) {
      LexLessTotal(SetCodeKey(a), SetCodeKey(b));
    }
  }

  /** The comparator is consistent, so the engine's sort is well defined. */
  lemma RowBeforeIsWeakOrder()
    ensures StrictWeakOrder(RowBefore)
  {
    forall a: Row ensures !RowBefore(a, a) {
      LexLessIrreflexive(SetCodeKey(a));
    }
    forall a: Row, b: Row, c: Row | RowBefore(a, b) && RowBefore(b, c) ensures RowBefore(a, c) {
      var ka, kb, kc := SetCodeKey(a), SetCodeKey(b), SetCodeKey(c);
      if ka != kb && kb != kc {
        LexLessTransitive(ka, kb, kc);
        if ka == kc {
          LexLessIrreflexive(ka);
        }
      }
    }
    forall a: Row, b: Row, c: Row | Equivalent(RowBefore, a, b) && Equivalent(RowBefore, b, c)
      ensures Equivalent(RowBefore, a, c)
    {
      RowTie(a, b);
      RowTie(b, c);
      RowTie(a, c);
    }
  }

  /** `results.sort(comparator)`. */
  function SortRows(rows: seq<Row>): seq<Row>
  {
    SortBy(rows, RowBefore)
  }

  /** The sorted rows are the input rows, grouped by ascending set code and,
      within a set code, by ascending collector key. */
  lemma SortRowsOrdered(rows: seq<Row>)
    ensures multiset(SortRows(rows)) == multiset(rows)
    ensures forall i, j :: 0 <= i < j < |rows| ==>
              var a, b := SortRows(rows)[i], SortRows(rows)[j];
              !LexLess(SetCodeKey(b), SetCodeKey(a))
              && (SetCodeKey(a) == SetCodeKey(b) ==> CollectorKey(a) <= CollectorKey(b))
  {
    RowBeforeIsWeakOrder();
    SortBySorted(rows, RowBefore);
    var r := SortRows(rows);
    forall i, j | 0 <= i < j < |rows|
      ensures !LexLess(SetCodeKey(r[j]), SetCodeKey(r[i]))
    {
      assert !RowBefore(r[j], r[i]);
      LexLessIrreflexive(SetCodeKey(r[i]));
    }
  }

  /** Rows with the same set code and collector key keep their input order. */
  lemma SortRowsStable(rows: seq<Row>, y: Row)
    ensures EquivalentTo(SortRows(rows), y, RowBefore) == EquivalentTo(rows, y, RowBefore)
  {
    RowBeforeIsWeakOrder();
    SortByStable(rows, y, RowBefore);
  }

  function ExampleRow(setCode: string, cn: string): Row
  {
    Row("card", Some(setCode), Some(cn), Some("1"), None, None, None, None)
  }

  /** A non-numeric collector number sorts last within its set code. */
  lemma SortRowsExample()
    ensures SortRows([ExampleRow("WAR", "12"), ExampleRow("ABC", "x"), ExampleRow("ABC", "3")])
         == [ExampleRow("ABC", "3"), ExampleRow("ABC", "x"), ExampleRow("WAR", "12")]
  {
    ExampleOrder();
    SortReversedThree(ExampleRow("WAR", "12"), ExampleRow("ABC", "x"), ExampleRow("ABC", "3"), RowBefore);
  }

  lemma ExampleOrder()
    ensures RowBefore(ExampleRow("ABC", "x"), ExampleRow("WAR", "12"))
    ensures RowBefore(ExampleRow("ABC", "3"), ExampleRow("ABC", "x"))
  {
    ExampleKeys();
    assert LexLess("ABC", "WAR");
  }

  lemma ExampleKeys()
    ensures CollectorKey(ExampleRow("ABC", "x")) == MaxSafeInteger
    ensures CollectorKey(ExampleRow("ABC", "3")) == 3
  {
    ParseLetter();
    ParseThree();
  }

  lemma ParseLetter()
    ensures ParseInt("x") == None
  {
    ParseNoDigits("x");
  }

  lemma ParseThree()
    ensures ParseInt("3") == Some(3)
  {
    ParseOneDigit('3');
    assert "3" == ['3'];
  }
}
