/**
 * `processFiles` of the CSV builder: the order rows are sorted, each row is
 * matched against the manifests newest first, and the matched rows are
 * drained into numbered CSV files of at most 612 cards each.
 *
 * Reading the CSV, listing the directory and writing the files are left to
 * the caller: the rows and the listing are parameters, and the files are
 * returned as a sequence of paths with their batches.
 */
module Pipeline {
  import opened Wrappers
  import opened Sorting
  import opened Manifests
  import opened OrderRows
  import opened RowOrdering
  import opened Batching

  /** One CSV file the call to `writeBatchToFile` produces. */
  datatype CsvFile = CsvFile(path: string, batch: Batch)

  /** Every file of the listing parsed to an `order` root; `xmlData.order.fronts`
      throws on any other file. */
  predicate AllParsed(files: seq<XmlFile>)
  {
    forall f | f in files :: f.order.Some?
  }

  /** The manifests, newest first. */
  function RecentManifests(files: seq<XmlFile>): (ms: seq<Order>)
    requires AllParsed(files)
    ensures |ms| == |files|
  {
    ByRecencyOrdered(files);
    var sorted := ByRecency(files);
    assert forall k :: 0 <= k < |sorted| ==> sorted[k] in multiset(files);
    seq(|sorted|, k requires 0 <= k < |sorted| => sorted[k].order.value)
  }

  /** What `processRow` does to one row. */
  function Matched(row: Row, manifests: seq<Order>): Row
  {
    Enrich(row, Lookup(manifests, NormalizeName(row.name)))
  }

  function MatchAll(rows: seq<Row>, manifests: seq<Order>): (r: seq<Row>)
    ensures |r| == |rows|
  {
    seq(|rows|, k requires 0 <= k < |rows| => Matched(rows[k], manifests))
  }

  /** The files the builder writes, in order. */
  function Outputs(rows: seq<Row>, files: seq<XmlFile>, outputFilePath: string): (r: seq<CsvFile>)
    requires AllParsed(files)
  {
    var bs := Batches(MatchAll(SortRows(rows), RecentManifests(files)), MaxPerFile);
    seq(|bs|, k requires 0 <= k < |bs| => CsvFile(BatchFileName(outputFilePath, bs[k].number), bs[k]))
  }

  /** The body of the `end` handler of `processFiles`. */
  method ProcessFiles(rows: seq<Row>, files: seq<XmlFile>, outputFilePath: string) returns (out: seq<CsvFile>)
    requires AllParsed(files)
    ensures out == Outputs(rows, files, outputFilePath)
  {
    var manifests := RecentManifests(files);
    var results := SortRows(rows);
    var matched := ProcessRows(results, manifests);
    var batches := DrainIntoBatches(matched, MaxPerFile);
    out := WriteBatches(batches, outputFilePath);
  }

  /** `processRow` on every row, one after the other. */
  method ProcessRows(results: seq<Row>, manifests: seq<Order>) returns (matched: seq<Row>)
    ensures matched == MatchAll(results, manifests)
  {
    matched := [];
    var i := 0;
    while i < |results|
      invariant i <= |results| && |matched| == i
      invariant forall k :: 0 <= k < i ==> matched[k] == Matched(results[k], manifests)
    {
      var row := ProcessRow(results[i], manifests);
      matched := matched + [row];
      i := i + 1;
    }
  }

  /** `writeBatchToFile` for each batch, in the order they are produced. */
  method WriteBatches(batches: seq<Batch>, outputFilePath: string) returns (out: seq<CsvFile>)
    ensures |out| == |batches|
    ensures forall k :: 0 <= k < |batches| ==> out[k] == CsvFile(BatchFileName(outputFilePath, batches[k].number), batches[k])
  {
    out := [];
    var k := 0;
    while k < |batches|
      invariant k <= |batches| && |out| == k
      invariant forall j :: 0 <= j < k ==> out[j] == CsvFile(BatchFileName(outputFilePath, batches[j].number), batches[j])
    {
      out := out + [CsvFile(BatchFileName(outputFilePath, batches[k].number), batches[k])];
      k := k + 1;
    }
  }

  /** Matching a row leaves its quantity alone. */
  lemma {:induction false} MatchAllKeepsQuantity(rows: seq<Row>, manifests: seq<Order>)
    ensures SumOf(MatchAll(rows, manifests), Quantity) == SumOf(rows, Quantity)
    decreases |rows|
  {
    if rows != [] {
      var m := MatchAll(rows, manifests);
      assert m[1..] == MatchAll(rows[1..], manifests);
      assert Quantity(m[0]) == Quantity(rows[0]);
      MatchAllKeepsQuantity(rows[1..], manifests);
    }
  }

  /** The output files hold as many cards as the input rows ask for. */
  lemma OutputsKeepCount(rows: seq<Row>, files: seq<XmlFile>, outputFilePath: string)
    requires AllParsed(files)
    ensures var out := Outputs(rows, files, outputFilePath);
            Cards(seq(|out|, k requires 0 <= k < |out| => out[k].batch)) == SumOf(rows, Quantity)
  {
    var out := Outputs(rows, files, outputFilePath);
    var matched := MatchAll(SortRows(rows), RecentManifests(files));
    var bs := Batches(matched, MaxPerFile);
    assert seq(|out|, k requires 0 <= k < |out| => out[k].batch) == bs;
    BatchesCount(matched, MaxPerFile);
    MatchAllKeepsQuantity(SortRows(rows), RecentManifests(files));
    SumOfSortBy(rows, RowBefore, Quantity);
  }

  /** Every file but the last holds exactly 612 cards, the last at most 612,
      and no two files share a path. */
  lemma OutputsShape(rows: seq<Row>, files: seq<XmlFile>, outputFilePath: string)
    requires AllParsed(files)
    ensures var out := Outputs(rows, files, outputFilePath);
            && (forall k :: 0 <= k < |out| - 1 ==> Total(out[k].batch.items) == MaxPerFile)
            && (out != [] ==> 0 < Total(out[|out| - 1].batch.items) <= MaxPerFile)
            && (forall j, k :: 0 <= j < k < |out| ==> out[j].path != out[k].path)
  {
    var out := Outputs(rows, files, outputFilePath);
    var matched := MatchAll(SortRows(rows), RecentManifests(files));
    BatchesShape(matched, MaxPerFile);
    forall j, k | 0 <= j < k < |out| ensures out[j].path != out[k].path {
      BatchFileNamesDistinct(outputFilePath, j, k);
    }
  }
}
