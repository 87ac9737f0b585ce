/**
 * The drain loop of the CSV builder: the sorted, matched rows are poured into
 * batches of at most `maxPerFile` cards, a row's quantity being split across
 * as many batches as it needs. Each batch becomes one CSV file, numbered
 * 0, 1, 2, ... in the order the files are written.
 *
 * `PlaceRow`, `PlaceRows` and `Batches` say what the loop computes; the
 * method `DrainIntoBatches` is the loop itself, and the lemmas below state
 * what the resulting files satisfy.
 */
module Batching {
  import opened Wrappers
  import opened Strings
  import opened Sorting
  import opened OrderRows

  /** `maxPerFile`. */
  const MaxPerFile: nat := 612

  /** `parseInt(row.Quantity || 0, 10)`: a missing quantity reads as `0`, and
      `None` stands for `NaN`. */
  function ParsedQuantity(row: Row): Option<int>
  {
    match row.quantity
    case None => Some(0)
    case Some(s) => ParseInt(s)
  }

  /** The value the drain loop starts from; `NaN > 0` is false, so `NaN`
      behaves like `0`. */
  function StartQuantity(row: Row): int
  {
    match ParsedQuantity(row)
    case None => 0
    case Some(v) => v
  }

  function Pos(x: int): nat { if x > 0 then x else 0 }

  /** The number of cards a row contributes: the parsed quantity when it is
      positive, and nothing for `NaN`, zero or a negative number. */
  function Quantity(row: Row): (q: int)
    ensures q >= 0
    ensures q > 0 <==> ParsedQuantity(row).Some? && ParsedQuantity(row).value > 0
    ensures q > 0 ==> q == ParsedQuantity(row).value
  {
    Pos(StartQuantity(row))
  }

  /** `{ ...row, Quantity: quantity }`: a copy of the row with its own count. */
  datatype LineItem = LineItem(row: Row, quantity: int)

  /** One output file: its number and its line items. */
  datatype Batch = Batch(number: nat, items: seq<LineItem>)

  /** The cards of a list of line items. */
  function Total(items: seq<LineItem>): int
  {
    if items == [] then 0 else Total(items[..|items| - 1]) + items[|items| - 1].quantity
  }

  lemma TotalAppend(items: seq<LineItem>, x: LineItem)
    ensures Total(items + [x]) == Total(items) + x.quantity
  {
    assert (items + [x])[..|items|] == items;
  }

  // ----- What the loop computes -----

  /** The loop's variables between two steps: the files written so far
      (`batchNumber` is their count), `currentBatch` and `currentBatchTotal`. */
  datatype Drain = Drain(written: seq<Batch>, current: seq<LineItem>, total: int)

  const Start: Drain := Drain([], [], 0)

  /** The `if` branch: `item` closes the open batch, which is written as file
      number `batchNumber`. */
  function Flush(s: Drain, item: LineItem): (r: Drain)
    ensures |r.written| == |s.written| + 1
    ensures r.written[..|s.written|] == s.written
    ensures r.written[|s.written|] == Batch(|s.written|, s.current + [item])
  {
    Drain(s.written + [Batch(|s.written|, s.current + [item])], [], 0)
  }

  /** The inner `while (quantity > 0)` loop for one row. */
  function PlaceRow(s: Drain, row: Row, quantity: int, capacity: nat): (r: Drain)
    requires capacity > 0 && 0 <= s.total <= capacity
    ensures 0 <= r.total <= capacity
    decreases Pos(quantity), s.total
  {
    if quantity <= 0 then s
    else if s.total + quantity > capacity then
      var fitting := capacity - s.total;
      PlaceRow(Flush(s, LineItem(row, fitting)), row, quantity - fitting, capacity)
    else
      Drain(s.written, s.current + [LineItem(row, quantity)], s.total + quantity)
  }

  /** The outer loop over the rows. */
  function PlaceRows(s: Drain, rows: seq<Row>, capacity: nat): (r: Drain)
    requires capacity > 0 && 0 <= s.total <= capacity
    ensures 0 <= r.total <= capacity
    decreases |rows|
  {
    if rows == [] then s
    else PlaceRows(PlaceRow(s, rows[0], StartQuantity(rows[0]), capacity), rows[1..], capacity)
  }

  /** After the loop: the open batch is written when it is not empty. */
  function Finish(s: Drain): seq<Batch>
  {
    if |s.current| > 0 then s.written + [Batch(|s.written|, s.current)] else s.written
  }

  /** Every file the drain writes, in the order it writes them. */
  function Batches(rows: seq<Row>, capacity: nat): seq<Batch>
    requires capacity > 0
  {
    Finish(PlaceRows(Start, rows, capacity))
  }

  /** The drain loop as written: a `for` over the rows around the inner
      `while (quantity > 0)`. */
  method DrainIntoBatches(rows: seq<Row>, capacity: nat) returns (batches: seq<Batch>)
    requires capacity > 0
    ensures batches == Batches(rows, capacity)
  {
    var batchNumber := 0;
    var currentBatchTotal := 0;
    var currentBatch: seq<LineItem> := [];
    var written: seq<Batch> := [];
    var i := 0;
    while i < |rows|
      invariant i <= |rows|
      invariant batchNumber == |written| && 0 <= currentBatchTotal <= capacity
      invariant PlaceRows(Drain(written, currentBatch, currentBatchTotal), rows[i..], capacity)
             == PlaceRows(Start, rows, capacity)
    {
      var row := rows[i];
      var quantity := StartQuantity(row);
      ghost var before := Drain(written, currentBatch, currentBatchTotal);
      while quantity > 0
        invariant batchNumber == |written| && 0 <= currentBatchTotal <= capacity
        invariant PlaceRow(Drain(written, currentBatch, currentBatchTotal), row, quantity, capacity)
               == PlaceRow(before, row, StartQuantity(row), capacity)
        decreases Pos(quantity), currentBatchTotal
      {
        if currentBatchTotal + quantity > capacity {
          var fittingQuantity := capacity - currentBatchTotal;
          currentBatch := currentBatch + [LineItem(row, fittingQuantity)];
          currentBatchTotal := currentBatchTotal + fittingQuantity;
          written := written + [Batch(batchNumber, currentBatch)];
          batchNumber := batchNumber + 1;
          quantity := quantity - fittingQuantity;
          currentBatch := [];
          currentBatchTotal := 0;
        } else {
          currentBatch := currentBatch + [LineItem(row, quantity)];
          currentBatchTotal := currentBatchTotal + quantity;
          quantity := 0;
        }
      }
      assert rows[i..][1..] == rows[i + 1..];
      i := i + 1;
    }
    if |currentBatch| > 0 {
      written := written + [Batch(batchNumber, currentBatch)];
    }
    batches := written;
  }

  // ----- The shape of the files -----

  predicate Positive(items: seq<LineItem>)
  {
    forall j :: 0 <= j < |items| ==> items[j].quantity > 0
  }

  lemma {:induction false} TotalPositive(items: seq<LineItem>)
    requires Positive(items) && items != []
    ensures Total(items) > 0
    decreases |items|
  {
    var init := items[..|items| - 1];
    if init != [] {
      TotalPositive(init);
    }
  }

  /** A file written inside the loop: full to capacity, and every line item
      but the last one positive; the last may hold zero cards, when the batch
      had reached capacity exactly before the next row arrived. */
  predicate Full(b: Batch, k: nat, capacity: nat)
  {
    && b.number == k
    && b.items != []
    && Total(b.items) == capacity
    && Positive(b.items[..|b.items| - 1])
    && b.items[|b.items| - 1].quantity >= 0
  }

  /** The invariant of the loop's variables. */
  predicate Good(s: Drain, capacity: nat)
  {
    && (forall k :: 0 <= k < |s.written| ==> Full(s.written[k], k, capacity))
    && Positive(s.current)
    && s.total == Total(s.current)
    && 0 <= s.total <= capacity
  }

  /** Between rows the last written file ends with a positive line item
      whenever no batch is open. */
  predicate Settled(s: Drain)
  {
    s.current == [] && s.written != [] ==>
      var b := s.written[|s.written| - 1];
      b.items != [] && b.items[|b.items| - 1].quantity > 0
  }

  lemma FlushGood(s: Drain, item: LineItem, capacity: nat)
    requires Good(s, capacity) && item.quantity >= 0 && s.total + item.quantity == capacity
    ensures Good(Flush(s, item), capacity)
  {
    var items := s.current + [item];
    TotalAppend(s.current, item);
    assert items[..|items| - 1] == s.current;
    var r := Flush(s, item);
    forall k | 0 <= k < |r.written| ensures Full(r.written[k], k, capacity) {
      if k < |s.written| {
        assert r.written[k] == r.written[..|s.written|][k];
      }
    }
  }

  lemma PushGood(s: Drain, item: LineItem, capacity: nat)
    requires Good(s, capacity) && item.quantity > 0 && s.total + item.quantity <= capacity
    ensures Good(Drain(s.written, s.current + [item], s.total + item.quantity), capacity)
  {
    TotalAppend(s.current, item);
  }

  /** Placing a row keeps the invariant and only appends files. */
  lemma {:induction false} PlaceRowGood(s: Drain, row: Row, quantity: int, capacity: nat)
    requires capacity > 0 && Good(s, capacity)
    requires quantity > 0 || Settled(s)
    ensures var r := PlaceRow(s, row, quantity, capacity);
            Good(r, capacity) && Settled(r) && s.written <= r.written
    decreases Pos(quantity), s.total
  {
    if quantity > 0 {
      if s.total + quantity > capacity {
        var fitting := capacity - s.total;
        var f := Flush(s, LineItem(row, fitting));
        FlushGood(s, LineItem(row, fitting), capacity);
        PlaceRowGood(f, row, quantity - fitting, capacity);
      } else {
        PushGood(s, LineItem(row, quantity), capacity);
      }
    }
  }

  lemma {:induction false} PlaceRowsGood(s: Drain, rows: seq<Row>, capacity: nat)
    requires capacity > 0 && Good(s, capacity) && Settled(s)
    ensures var r := PlaceRows(s, rows, capacity);
            Good(r, capacity) && Settled(r) && s.written <= r.written
    decreases |rows|
  {
    if rows != [] {
      PlaceRowGood(s, rows[0], StartQuantity(rows[0]), capacity);
      PlaceRowsGood(PlaceRow(s, rows[0], StartQuantity(rows[0]), capacity), rows[1..], capacity);
    }
  }

  /** The files are numbered 0, 1, 2, ...; every file but the last holds
      exactly `capacity` cards; the last holds between one and `capacity`
      cards, all in positive line items; and only the last line item of an
      earlier file may hold zero cards. */
  lemma BatchesShape(rows: seq<Row>, capacity: nat)
    requires capacity > 0
    ensures var bs := Batches(rows, capacity);
            && (forall k :: 0 <= k < |bs| ==> bs[k].number == k && bs[k].items != [])
            && (forall k :: 0 <= k < |bs| - 1 ==> Full(bs[k], k, capacity))
            && (bs != [] ==> var last := bs[|bs| - 1].items;
                             0 < Total(last) <= capacity && Positive(last))
  {
    var s := PlaceRows(Start, rows, capacity);
    PlaceRowsGood(Start, rows, capacity);
    if |s.current| > 0 {
      FinishOpen(s, capacity);
    } else {
      FinishClosed(s, capacity);
    }
  }

  lemma FinishOpen(s: Drain, capacity: nat)
    requires capacity > 0 && Good(s, capacity) && s.current != []
    ensures var bs := Finish(s);
            && (forall k :: 0 <= k < |bs| ==> bs[k].number == k && bs[k].items != [])
            && (forall k :: 0 <= k < |bs| - 1 ==> Full(bs[k], k, capacity))
            && (bs != [] ==> var last := bs[|bs| - 1].items;
                             0 < Total(last) <= capacity && Positive(last))
  {
    TotalPositive(s.current);
    var bs := Finish(s);
    assert bs == s.written + [Batch(|s.written|, s.current)];
    forall k | 0 <= k < |bs| - 1 ensures Full(bs[k], k, capacity) {
      assert bs[k] == s.written[k];
    }
  }

  lemma FinishClosed(s: Drain, capacity: nat)
    requires capacity > 0 && Good(s, capacity) && Settled(s) && s.current == []
    ensures var bs := Finish(s);
            && (forall k :: 0 <= k < |bs| ==> bs[k].number == k && bs[k].items != [])
            && (forall k :: 0 <= k < |bs| - 1 ==> Full(bs[k], k, capacity))
            && (bs != [] ==> var last := bs[|bs| - 1].items;
                             0 < Total(last) <= capacity && Positive(last))
  {
    var bs := Finish(s);
    assert bs == s.written;
    if bs != [] {
      var last := bs[|bs| - 1].items;
      assert Full(bs[|bs| - 1], |bs| - 1, capacity);
      forall j | 0 <= j < |last| ensures last[j].quantity > 0 {
        if j < |last| - 1 {
          assert last[j] == last[..|last| - 1][j];
        }
      }
    }
  }

  // ----- The cards of the files -----

  /** `q` copies of `x`. */
  function Repeat<T>(x: T, q: int): (r: seq<T>)
    ensures |r| == Pos(q)
    ensures forall k :: 0 <= k < |r| ==> r[k] == x
  {
    seq(Pos(q), _ => x)
  }

  lemma RepeatAdd<T>(x: T, a: nat, b: nat)
    ensures Repeat(x, a) + Repeat(x, b) == Repeat(x, a + b)
  {
  }

  /** The cards of some line items, one copy of the item's row per card. */
  function Expand(items: seq<LineItem>): seq<Row>
  {
    if items == [] then [] else Expand(items[..|items| - 1]) + Repeat(items[|items| - 1].row, items[|items| - 1].quantity)
  }

  lemma ExpandAppend(items: seq<LineItem>, x: LineItem)
    ensures Expand(items + [x]) == Expand(items) + Repeat(x.row, x.quantity)
  {
    assert (items + [x])[..|items|] == items;
  }

  /** The cards of some files, file after file. */
  function ExpandBatches(batches: seq<Batch>): seq<Row>
  {
    if batches == [] then [] else ExpandBatches(batches[..|batches| - 1]) + Expand(batches[|batches| - 1].items)
  }

  lemma ExpandBatchesAppend(batches: seq<Batch>, b: Batch)
    ensures ExpandBatches(batches + [b]) == ExpandBatches(batches) + Expand(b.items)
  {
    assert (batches + [b])[..|batches|] == batches;
  }

  /** The cards the rows ask for, row after row. */
  function ExpandRows(rows: seq<Row>): seq<Row>
  {
    if rows == [] then [] else Repeat(rows[0], Quantity(rows[0])) + ExpandRows(rows[1..])
  }

  /** The cards held by the loop's variables. */
  function Held(s: Drain): seq<Row>
  {
    ExpandBatches(s.written) + Expand(s.current)
  }

  lemma FlushHeld(s: Drain, item: LineItem)
    ensures Held(Flush(s, item)) == Held(s) + Repeat(item.row, item.quantity)
  {
    ExpandBatchesAppend(s.written, Batch(|s.written|, s.current + [item]));
    ExpandAppend(s.current, item);
    AppendAssoc(ExpandBatches(s.written), Expand(s.current), Repeat(item.row, item.quantity));
  }

  lemma PushHeld(s: Drain, item: LineItem, total: int)
    ensures Held(Drain(s.written, s.current + [item], total)) == Held(s) + Repeat(item.row, item.quantity)
  {
    ExpandAppend(s.current, item);
    AppendAssoc(ExpandBatches(s.written), Expand(s.current), Repeat(item.row, item.quantity));
  }

  /** Placing a row adds exactly the row's cards, after the ones already
      held. */
  lemma {:induction false} PlaceRowHeld(s: Drain, row: Row, quantity: int, capacity: nat)
    requires capacity > 0 && 0 <= s.total <= capacity
    ensures Held(PlaceRow(s, row, quantity, capacity)) == Held(s) + Repeat(row, quantity)
    decreases Pos(quantity), s.total
  {
    if quantity <= 0 {
      assert Repeat(row, quantity) == [];
      assert Held(s) + [] == Held(s);
    } else if s.total + quantity > capacity {
      var fitting := capacity - s.total;
      var f := Flush(s, LineItem(row, fitting));
      FlushHeld(s, LineItem(row, fitting));
      PlaceRowHeld(f, row, quantity - fitting, capacity);
      AppendAssoc(Held(s), Repeat(row, fitting), Repeat(row, quantity - fitting));
      RepeatAdd(row, fitting, quantity - fitting);
    } else {
      PushHeld(s, LineItem(row, quantity), s.total + quantity);
    }
  }

  lemma {:induction false} PlaceRowsHeld(s: Drain, rows: seq<Row>, capacity: nat)
    requires capacity > 0 && 0 <= s.total <= capacity
    ensures Held(PlaceRows(s, rows, capacity)) == Held(s) + ExpandRows(rows)
    decreases |rows|
  {
    if rows == [] {
      assert Held(s) + [] == Held(s);
    } else {
      var s' := PlaceRow(s, rows[0], StartQuantity(rows[0]), capacity);
      PlaceRowHeld(s, rows[0], StartQuantity(rows[0]), capacity);
      assert Repeat(rows[0], StartQuantity(rows[0])) == Repeat(rows[0], Quantity(rows[0]));
      PlaceRowsHeld(s', rows[1..], capacity);
      AppendAssoc(Held(s), Repeat(rows[0], Quantity(rows[0])), ExpandRows(rows[1..]));
    }
  }

  /** No card is lost, duplicated or reordered: reading the files in order,
      each line item standing for as many copies of its row as its quantity,
      gives every row as many times as it asks for, in row order. */
  lemma BatchesKeepCards(rows: seq<Row>, capacity: nat)
    requires capacity > 0
    ensures ExpandBatches(Batches(rows, capacity)) == ExpandRows(rows)
  {
    var s := PlaceRows(Start, rows, capacity);
    PlaceRowsHeld(Start, rows, capacity);
    assert Held(Start) == [];
    if |s.current| > 0 {
      ExpandBatchesAppend(s.written, Batch(|s.written|, s.current));
    } else {
      assert Expand(s.current) == [];
      assert Held(s) == ExpandBatches(s.written);
    }
  }

  // ----- Counting cards -----

  /** The number of cards in some files. */
  function Cards(batches: seq<Batch>): int
  {
    if batches == [] then 0 else Cards(batches[..|batches| - 1]) + Total(batches[|batches| - 1].items)
  }

  lemma {:induction false} ExpandLength(items: seq<LineItem>)
    requires forall j :: 0 <= j < |items| ==> items[j].quantity >= 0
    ensures |Expand(items)| == Total(items)
    decreases |items|
  {
    if items != [] {
      ExpandLength(items[..|items| - 1]);
    }
  }

  lemma {:induction false} ExpandBatchesLength(batches: seq<Batch>)
    requires forall k, j :: 0 <= k < |batches| && 0 <= j < |batches[k].items| ==> batches[k].items[j].quantity >= 0
    ensures |ExpandBatches(batches)| == Cards(batches)
    decreases |batches|
  {
    if batches != [] {
      var n := |batches| - 1;
      ExpandBatchesLength(batches[..n]);
      ExpandLength(batches[n].items);
    }
  }

  lemma {:induction false} ExpandRowsLength(rows: seq<Row>)
    ensures |ExpandRows(rows)| == SumOf(rows, Quantity)
    decreases |rows|
  {
    if rows != [] {
      ExpandRowsLength(rows[1..]);
      assert SumOf(rows, Quantity) == Quantity(rows[0]) + SumOf(rows[1..], Quantity);
      assert |Repeat(rows[0], Quantity(rows[0]))| == Quantity(rows[0]);
    }
  }

  /** The files together hold the sum of the rows' quantities. */
  lemma BatchesCount(rows: seq<Row>, capacity: nat)
    requires capacity > 0
    ensures Cards(Batches(rows, capacity)) == SumOf(rows, Quantity)
  {
    var bs := Batches(rows, capacity);
    BatchesShape(rows, capacity);
    forall k, j | 0 <= k < |bs| && 0 <= j < |bs[k].items| ensures bs[k].items[j].quantity >= 0 {
      var items := bs[k].items;
      if k < |bs| - 1 && j < |items| - 1 {
        assert items[j] == items[..|items| - 1][j];
      }
    }
    ExpandBatchesLength(bs);
    BatchesKeepCards(rows, capacity);
    ExpandRowsLength(rows);
  }

  /** A batch reaching capacity exactly stays open until the next row with
      cards, which then closes it with a zero-card line item. */
  lemma ZeroLineExample(a: Row, b: Row)
    requires StartQuantity(a) == 2 && StartQuantity(b) == 1
    ensures Batches([a, b], 2) == [Batch(0, [LineItem(a, 2), LineItem(b, 0)]), Batch(1, [LineItem(b, 1)])]
  {
    var s1 := Drain([], [LineItem(a, 2)], 2);
    var full := Batch(0, [LineItem(a, 2), LineItem(b, 0)]);
    var s2 := Drain([full], [LineItem(b, 1)], 1);
    assert PlaceRows(Start, [a, b], 2) == PlaceRows(s1, [b], 2) by {
      assert PlaceRow(Start, a, 2, 2) == s1;
      assert [a, b][1..] == [b];
    }
    assert PlaceRow(s1, b, 1, 2) == s2 by {
      ClosingStep(a, b);
    }
    assert PlaceRows(s1, [b], 2) == s2 by {
      assert [b][1..] == [];
    }
    assert Finish(s2) == [full, Batch(1, [LineItem(b, 1)])];
  }

  lemma ClosingStep(a: Row, b: Row)
    ensures PlaceRow(Drain([], [LineItem(a, 2)], 2), b, 1, 2)
         == Drain([Batch(0, [LineItem(a, 2), LineItem(b, 0)])], [LineItem(b, 1)], 1)
  {
    var s1 := Drain([], [LineItem(a, 2)], 2);
    var full := Batch(0, [LineItem(a, 2), LineItem(b, 0)]);
    var f := Drain([full], [], 0);
    assert Flush(s1, LineItem(b, 0)) == f by {
      assert s1.current + [LineItem(b, 0)] == full.items;
      assert s1.written + [full] == [full];
    }
    assert PlaceRow(f, b, 1, 2) == Drain([full], [LineItem(b, 1)], 1);
  }

  // ----- File names -----

  /** `baseFilePath.replace(/\.csv$/, "")`: one trailing `.csv` removed. */
  function StripCsv(path: string): (r: string)
    ensures EndsWith(path, ".csv") ==> r + ".csv" == path
    ensures !EndsWith(path, ".csv") ==> r == path
  {
    if EndsWith(path, ".csv") then path[..|path| - 4] else path
  }

  /** The path of file number `n`: `<base>_<n>.csv`. */
  function BatchFileName(baseFilePath: string, n: nat): (r: string)
    ensures EndsWith(r, ".csv")
  {
    StripCsv(baseFilePath) + "_" + NatToDecimal(n) + ".csv"
  }

  /** Different batch numbers give different paths, so no file overwrites
      another. */
  lemma BatchFileNamesDistinct(baseFilePath: string, n: nat, m: nat)
    requires n != m
    ensures BatchFileName(baseFilePath, n) != BatchFileName(baseFilePath, m)
  {
    var p := StripCsv(baseFilePath) + "_";
    var dn, dm := NatToDecimal(n), NatToDecimal(m);
    assert DigitsValue(dn) != DigitsValue(dm);
    MiddleDiffers(p, dn, dm, ".csv");
  }

  lemma MiddleDiffers(p: string, x: string, y: string, q: string)
    requires x != y
    ensures p + x + q != p + y + q
  {
    var a, b := p + x + q, p + y + q;
    assert a[|p|..|a| - |q|] == x;
    assert b[|p|..|b| - |q|] == y;
  }
}
