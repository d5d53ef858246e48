/** `seed`: parse the four sheets, merge the three keyed years, match the
    2024 blocks to assembly ids, and send the writes in batches. The
    workbook, the stored documents and the database are inputs and outputs
    of this function rather than calls it makes. */
module Seed {
  import opened Wrappers
  import opened Cells
  import opened Records
  import opened FixedLayout
  import opened Sheet2024
  import opened Merge
  import opened Reconcile

  /** An `IndexError` in one of the sheets. */
  datatype SeedError = SheetError(year: int, row: nat)

  /** Everything `seed` sends: the merged 2009/2014/2019 updates, the 2024
      writes, and the 2024 names it could not match. */
  datatype Plan = Plan(updates: map<StationKey, Update>, writes2024: seq<(string, Election)>, unmatched: seq<string>)

  /** `seed` up to the writes. The sheets are parsed in the order 2009, 2014,
      2019, 2024; the first one that raises ends the run. The name map is
      built only when the 2024 sheet gave some block. */
  function SeedPlan(main: seq<Row>, sheet1: seq<Row>, sheet2: seq<Row>, sheet4: seq<Row>,
                    docs: seq<(string, string)>): (r: Result<Plan, SeedError>)
    ensures r.Success? ==>
      && Parse2009(main).Success? && Parse2014(sheet1).Success?
      && Parse2019(sheet2).Success? && Parse2024(sheet4).Success?
      && r.value.updates == MergeUpdates(Parse2009(main).value, Parse2014(sheet1).value, Parse2019(sheet2).value)
    ensures r.Failure? ==>
      || (Parse2009(main).Failure? && r.error == SheetError(2009, Parse2009(main).error.row))
      || (Parse2009(main).Success? && Parse2014(sheet1).Failure? && r.error == SheetError(2014, Parse2014(sheet1).error.row))
      || (Parse2009(main).Success? && Parse2014(sheet1).Success? && Parse2019(sheet2).Failure?
          && r.error == SheetError(2019, Parse2019(sheet2).error.row))
      || (Parse2009(main).Success? && Parse2014(sheet1).Success? && Parse2019(sheet2).Success?
          && Parse2024(sheet4).Failure? && r.error == SheetError(2024, Parse2024(sheet4).error.row))
  {
    match Parse2009(main)
    case Failure(e) => Failure(SheetError(2009, e.row))
    case Success(d09) =>
      match Parse2014(sheet1)
      case Failure(e) => Failure(SheetError(2014, e.row))
      case Success(d14) =>
        match Parse2019(sheet2)
        case Failure(e) => Failure(SheetError(2019, e.row))
        case Success(d19) =>
          match Parse2024(sheet4)
          case Failure(e) => Failure(SheetError(2024, e.row))
          case Success(d24) =>
            var upload := if d24 != [] then Upload2024(d24, NameMapOf(docs)) else Upload([], []);
            Success(Plan(MergeUpdates(d09, d14, d19), upload.writes, upload.unmatched))
  }

  /** Every merged update holds its key's records for exactly the years that
      have it, and the 2024 writes are the resolved blocks' stations. */
  lemma SeedPlanSpec(main: seq<Row>, sheet1: seq<Row>, sheet2: seq<Row>, sheet4: seq<Row>,
                     docs: seq<(string, string)>)
    ensures SeedPlan(main, sheet1, sheet2, sheet4, docs).Success? ==>
      var p := SeedPlan(main, sheet1, sheet2, sheet4, docs).value;
      var d09 := Parse2009(main).value; var d14 := Parse2014(sheet1).value;
      var d19 := Parse2019(sheet2).value; var d24 := Parse2024(sheet4).value;
      && p.updates.Keys == d09.Keys + d14.Keys + d19.Keys
      && (forall k :: k in p.updates ==> p.updates[k] != map[])
      && (forall a :: a in p.unmatched <==>
            exists i :: 0 <= i < |d24| && d24[i].0 == a && !ResolvedAt(d24, NameMapOf(docs), i))
      && |p.writes2024| == ResolvedStations(d24, NameMapOf(docs))
  {
    if SeedPlan(main, sheet1, sheet2, sheet4, docs).Success? {
      var d09 := Parse2009(main).value;
      var d14 := Parse2014(sheet1).value;
      var d19 := Parse2019(sheet2).value;
      var d24 := Parse2024(sheet4).value;
      Upload2024Spec(d24, NameMapOf(docs));
    }
  }

  // ---------------------------------------------------------------------
  // Batching
  // ---------------------------------------------------------------------

  /** Writes per batch commit. */
  const BatchSize: nat := 400

  function Sum(s: seq<nat>): nat {
    if s == [] then 0 else Sum(s[..|s| - 1]) + s[|s| - 1]
  }

  /** The commit sizes of one upload phase of `n` writes: the counter is
      increased per write, a full batch is committed as soon as it reaches
      the batch size, and a final partial batch is committed by the last
      `flush`; an empty batch is never committed. */
  method CommitSizes(n: nat) returns (sizes: seq<nat>)
    ensures Sum(sizes) == n
    ensures forall i :: 0 <= i < |sizes| ==> 0 < sizes[i] <= BatchSize
    ensures forall i :: 0 <= i < |sizes| - 1 ==> sizes[i] == BatchSize
    ensures |sizes| == (n + BatchSize - 1) / BatchSize
  {
    sizes := [];
    var count := 0;
    var k := 0;
    while k < n
      invariant k <= n
      invariant count < BatchSize && count == k % BatchSize
      invariant |sizes| == k / BatchSize
      invariant forall i :: 0 <= i < |sizes| ==> sizes[i] == BatchSize
      invariant Sum(sizes) + count == k
    {
      count := count + 1;
      if count >= BatchSize {
        assert (sizes + [count])[..|sizes|] == sizes;
        sizes := sizes + [count];
        count := 0;
      }
      k := k + 1;
    }
    if count > 0 {
      assert (sizes + [count])[..|sizes|] == sizes;
      sizes := sizes + [count];
    }
  }

  /** `total_written`: both phases, each batched on its own. */
  method TotalWritten(p: Plan) returns (total: nat, phase1: seq<nat>, phase2: seq<nat>)
    ensures total == |p.updates| + |p.writes2024|
    ensures Sum(phase1) == |p.updates| && Sum(phase2) == |p.writes2024|
    ensures forall i :: 0 <= i < |phase1| ==> 0 < phase1[i] <= BatchSize
    ensures forall i :: 0 <= i < |phase2| ==> 0 < phase2[i] <= BatchSize
  {
    phase1 := CommitSizes(|p.updates|);
    phase2 := CommitSizes(|p.writes2024|);
    total := Sum(phase1) + Sum(phase2);
  }
}
