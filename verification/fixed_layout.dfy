/** The three fixed-column sheet parsers of seed_elections.py: `parse_main_2009`,
    `parse_sheet1_2014` and `parse_sheet2_2019`. They share one algorithm and
    differ only in their `Layout`: the party columns, the 2009 residual
    `OTHERS` columns, and the 2014 declared-total column. */
module FixedLayout {
  import opened Wrappers
  import opened Text
  import opened PyFloat
  import opened Cells
  import opened Dict
  import opened Records

  /** How a layout obtains a row's total. */
  datatype TotalRule =
    | PartySum                  // `sum(party_votes.values())`
    | DeclaredElseSum(col: nat) // `si(row[col])` when that cell is truthy, else the sum

  datatype Layout = Layout(
    year: int,
    parties: seq<(nat, string)>,
    others: Option<(nat, nat)>, // columns `range(lo, min(len(row), hi))` summed into OTHERS
    total: TotalRule)

  const AcIdCol: nat := 4
  const PsNoCol: nat := 11

  const Layout2009: Layout := Layout(2009,
    [(12, "PRP"), (13, "INC"), (14, "IND"), (15, "TDP"), (16, "LSP"), (17, "BJP")],
    Some((18, 30)), PartySum)

  const Layout2014: Layout := Layout(2014,
    [(12, "YSRCP"), (13, "TDP"), (14, "JANASENA"), (15, "NOTA"), (16, "BSP"), (17, "LSP"), (18, "INC")],
    None, DeclaredElseSum(19))

  const Layout2019: Layout := Layout(2019,
    [(12, "TDP"), (13, "YSRCP"), (14, "JANASENA"), (15, "BJP"), (16, "INC"), (17, "IND"), (18, "NOTA")],
    None, PartySum)

  /** `(ac_id, ps_no)`, both `str(si(...))` of a cell. */
  type StationKey = (string, string)

  /** An `IndexError` raised while reading row `row` of the sheet. */
  datatype ParseError = IndexError(row: nat, column: nat)

  /** What one data row does: nothing, an assignment into `results`, or an
      `IndexError` on a short row. */
  datatype RowOutcome = Skip | Emit(key: StationKey, record: Election) | Crash(column: nat)

  /** The `others` loop: the nonzero counts of columns `lo .. min(len(row), hi) - 1`. */
  function OthersSum(row: Row, lo: nat, hi: nat): int
    decreases hi - lo
  {
    if lo >= hi || lo >= |row| then 0
    else
      var v := SafeInt(row[lo]);
      (if v != 0 then v else 0) + OthersSum(row, lo + 1, hi)
  }

  /** Reference: every count in the residual range, zero or not. */
  function RangeSum(row: Row, lo: nat, hi: nat): int
    decreases hi - lo
  {
    if lo >= hi || lo >= |row| then 0 else ColumnCount(row, lo) + RangeSum(row, lo + 1, hi)
  }

  /** Skipping zero counts does not change the residual sum. */
  lemma {:induction false} OthersSumIsRangeSum(row: Row, lo: nat, hi: nat)
    ensures OthersSum(row, lo, hi) == RangeSum(row, lo, hi)
    decreases hi - lo
  {
    if lo < hi && lo < |row| {
      OthersSumIsRangeSum(row, lo + 1, hi);
    }
  }

  /** A row's `party_votes` dict. */
  function RowVotes(L: Layout, row: Row): Votes {
    var named := ColumnVotes(L.parties, row, []);
    match L.others
    case None => named
    case Some(range) =>
      var others := OthersSum(row, range.0, range.1);
      if others != 0 then Put(named, "OTHERS", others) else named
  }

  /** A row's `total`. */
  function RowTotal(L: Layout, row: Row): int {
    match L.total
    case PartySum => SumValues(RowVotes(L, row))
    case DeclaredElseSum(col) =>
      if |row| > col && Truthy(row[col]) then SafeInt(row[col]) else SumValues(RowVotes(L, row))
  }

  /** One iteration of the parser's row loop. A row is skipped when cell 0 is
      falsy, when `si(cell 0)` is not the layout's year, when `si(cell 11)` is 0
      (its rendering is "0"), or when the total is 0. The check that `ac_id` is
      non-empty never fires: `str()` of an int is never empty. Reading cell 0
      of an empty row, or cell 4 or 11 of a short row of the right year, raises. */
  function ParseRow(L: Layout, row: Row): (r: RowOutcome)
    ensures r.Crash? <==> |row| == 0 || (|row| <= PsNoCol && Truthy(row[0]) && SafeInt(row[0]) == L.year)
    ensures r.Emit? <==>
      && |row| > PsNoCol && Truthy(row[0]) && SafeInt(row[0]) == L.year
      && SafeInt(row[PsNoCol]) != 0 && RowTotal(L, row) != 0
    ensures r.Emit? ==>
      && r.key == (IntToString(SafeInt(row[AcIdCol])), IntToString(SafeInt(row[PsNoCol])))
      && r.record == ElectionField(L.year, RowVotes(L, row), RowTotal(L, row))
      && r.record.year == L.year && r.record.totalVotes != 0 && r.key.1 != "0"
      && IsIntString(r.key.0) && IsIntString(r.key.1)
  {
    if |row| == 0 then Crash(0)
    else if !Truthy(row[0]) then Skip
    else if SafeInt(row[0]) != L.year then Skip
    else if |row| <= AcIdCol then Crash(AcIdCol)
    else if |row| <= PsNoCol then Crash(PsNoCol)
    else
      var acId := IntToString(SafeInt(row[AcIdCol]));
      var psNo := IntToString(SafeInt(row[PsNoCol]));
      IntToStringShape(SafeInt(row[AcIdCol]));
      IntToStringShape(SafeInt(row[PsNoCol]));
      if acId == "" || psNo == "0" then Skip
      else
        var votes := RowVotes(L, row);
        var total := RowTotal(L, row);
        if total == 0 then Skip
        else Emit((acId, psNo), ElectionField(L.year, votes, total))
  }

  /** A key whose two parts are renderings of integers, the station number
      not "0". */
  predicate ValidKey(k: StationKey) {
    IsIntString(k.0) && IsIntString(k.1) && k.1 != "0"
  }

  /** Every record is of the layout's year with a nonzero total, under a
      valid key. */
  predicate Valid(L: Layout, m: map<StationKey, Election>) {
    forall k :: k in m ==> m[k].year == L.year && m[k].totalVotes != 0 && ValidKey(k)
  }

  /** What the row loop does with each row, in order. */
  function Outcomes(L: Layout, rows: seq<Row>): (os: seq<RowOutcome>)
    ensures |os| == |rows| && forall j :: 0 <= j < |rows| ==> os[j] == ParseRow(L, rows[j])
    ensures ValidOutcomes(L, os)
  {
    seq(|rows|, j requires 0 <= j < |rows| => ParseRow(L, rows[j]))
  }

  /** Every emitted record is of the layout's year with a nonzero total, under
      a valid key. */
  predicate ValidOutcomes(L: Layout, os: seq<RowOutcome>) {
    forall j :: 0 <= j < |os| && os[j].Emit? ==>
      os[j].record.year == L.year && os[j].record.totalVotes != 0 && ValidKey(os[j].key)
  }

  /** The row loop from row `i` on, with the results so far in `acc`: the
      first raising row ends it, and each emitted record is stored under its
      key, replacing any earlier one. */
  function RunFrom(L: Layout, os: seq<RowOutcome>, i: nat, acc: map<StationKey, Election>)
    : (r: Result<map<StationKey, Election>, ParseError>)
    requires Valid(L, acc) && ValidOutcomes(L, os)
    ensures r.Success? ==> Valid(L, r.value) && acc.Keys <= r.value.Keys
    ensures r.Failure? ==> i <= r.error.row < |os| && os[r.error.row].Crash?
    decreases |os| - i
  {
    if i >= |os| then Success(acc)
    else
      match os[i]
      case Crash(col) => Failure(IndexError(i, col))
      case Skip => RunFrom(L, os, i + 1, acc)
      case Emit(k, e) => RunFrom(L, os, i + 1, acc[k := e])
  }

  /** A whole sheet: the first row is the header (`min_row=2`). */
  function ParseSheet(L: Layout, rows: seq<Row>): Result<map<StationKey, Election>, ParseError> {
    RunFrom(L, Outcomes(L, rows), 1, map[])
  }

  function Parse2009(rows: seq<Row>): Result<map<StationKey, Election>, ParseError> {
    ParseSheet(Layout2009, rows)
  }

  function Parse2014(rows: seq<Row>): Result<map<StationKey, Election>, ParseError> {
    ParseSheet(Layout2014, rows)
  }

  function Parse2019(rows: seq<Row>): Result<map<StationKey, Election>, ParseError> {
    ParseSheet(Layout2019, rows)
  }

  // ---------------------------------------------------------------------
  // The row loop as a whole
  // ---------------------------------------------------------------------

  predicate EmitsAt(os: seq<RowOutcome>, j: nat, k: StationKey)
    requires j < |os|
  {
    os[j].Emit? && os[j].key == k
  }

  /** The last position at or after `lo` whose outcome assigns key `k`. */
  function LastEmit(os: seq<RowOutcome>, lo: nat, k: StationKey): (r: Option<nat>)
    ensures r.Some? ==>
      && lo <= r.value < |os| && EmitsAt(os, r.value, k)
      && (forall j :: r.value < j < |os| ==> !EmitsAt(os, j, k))
    ensures r.None? ==> forall j :: lo <= j < |os| ==> !EmitsAt(os, j, k)
    decreases |os| - lo
  {
    if lo >= |os| then None
    else
      match LastEmit(os, lo + 1, k)
      case Some(j) => Some(j)
      case None => if EmitsAt(os, lo, k) then Some(lo) else None
  }

  /** The loop stops with an error exactly when some row raises, and then at
      the first such row. */
  lemma {:induction false} RunFromFailure(L: Layout, os: seq<RowOutcome>, i: nat, acc: map<StationKey, Election>)
    requires Valid(L, acc) && ValidOutcomes(L, os)
    ensures RunFrom(L, os, i, acc).Failure? <==> exists j :: i <= j < |os| && os[j].Crash?
    ensures RunFrom(L, os, i, acc).Failure? ==>
      forall j :: i <= j < RunFrom(L, os, i, acc).error.row ==> !os[j].Crash?
    decreases |os| - i
  {
    if i < |os| {
      match os[i]
      case Crash(_) =>
      case Skip =>
        RunFromFailure(L, os, i + 1, acc);
      case Emit(k0, e) =>
        RunFromFailure(L, os, i + 1, acc[k0 := e]);
    }
  }

  /** Last write wins: a key is in the result exactly when some row assigns it
      (or it was already there), and then it holds the record of the last row
      that assigns it. */
  lemma {:induction false} RunFromLastWriteWins(L: Layout, os: seq<RowOutcome>, i: nat, acc: map<StationKey, Election>)
    requires Valid(L, acc) && ValidOutcomes(L, os)
    requires RunFrom(L, os, i, acc).Success?
    ensures var m := RunFrom(L, os, i, acc).value;
      forall k ::
        && (k in m <==> (LastEmit(os, i, k).Some? || k in acc))
        && (LastEmit(os, i, k).Some? ==> m[k] == os[LastEmit(os, i, k).value].record)
        && (LastEmit(os, i, k).None? && k in acc ==> m[k] == acc[k])
    decreases |os| - i
  {
    if i < |os| {
      match os[i]
      case Skip =>
        RunFromLastWriteWins(L, os, i + 1, acc);
      case Emit(k0, e) =>
        RunFromLastWriteWins(L, os, i + 1, acc[k0 := e]);
    }
  }

  /** The sheet-level form: the result holds exactly the keys some data row
      assigns, each with the record of the last such row; it fails exactly when
      some data row raises, and then reports the first such row. */
  lemma SheetLastWriteWins(L: Layout, rows: seq<Row>)
    ensures ParseSheet(L, rows).Failure? <==> exists j :: 1 <= j < |rows| && ParseRow(L, rows[j]).Crash?
    ensures ParseSheet(L, rows).Failure? ==> var e := ParseSheet(L, rows).error;
      && 1 <= e.row < |rows| && ParseRow(L, rows[e.row]).Crash?
      && forall j :: 1 <= j < e.row ==> !ParseRow(L, rows[j]).Crash?
    ensures ParseSheet(L, rows).Success? ==> var m := ParseSheet(L, rows).value;
      forall k ::
        && (k in m <==> exists j :: 1 <= j < |rows| && EmitsAt(Outcomes(L, rows), j, k))
        && (k in m ==> var last := LastEmit(Outcomes(L, rows), 1, k).value;
              1 <= last < |rows| && m[k] == ParseRow(L, rows[last]).record)
  {
    RunFromFailure(L, Outcomes(L, rows), 1, map[]);
    if ParseSheet(L, rows).Success? {
      SheetContents(L, rows);
    }
  }

  /** The success half of `SheetLastWriteWins`. */
  lemma SheetContents(L: Layout, rows: seq<Row>)
    requires ParseSheet(L, rows).Success?
    ensures var m := ParseSheet(L, rows).value;
      forall k ::
        && (k in m <==> exists j :: 1 <= j < |rows| && EmitsAt(Outcomes(L, rows), j, k))
        && (k in m ==> var last := LastEmit(Outcomes(L, rows), 1, k).value;
              1 <= last < |rows| && m[k] == ParseRow(L, rows[last]).record)
  {
    var os := Outcomes(L, rows);
    RunFromLastWriteWins(L, os, 1, map[]);
    var m := ParseSheet(L, rows).value;
    forall k ensures (k in m <==> exists j :: 1 <= j < |rows| && EmitsAt(os, j, k)) {
      if k in m {
        assert EmitsAt(os, LastEmit(os, 1, k).value, k);
      }
    }
  }

  // ---------------------------------------------------------------------
  // Totals per layout
  // ---------------------------------------------------------------------

  lemma LayoutsDistinct()
    ensures DistinctNames(Layout2009.parties) && "OTHERS" !in Names(Layout2009.parties)
    ensures DistinctNames(Layout2014.parties)
    ensures DistinctNames(Layout2019.parties)
  {
    Distinct2009();
    Distinct2014();
    Distinct2019();
  }

  lemma Distinct2009()
    ensures DistinctNames(Layout2009.parties) && "OTHERS" !in Names(Layout2009.parties)
  {
  }

  lemma Distinct2014()
    ensures DistinctNames(Layout2014.parties)
  {
  }

  lemma Distinct2019()
    ensures DistinctNames(Layout2019.parties)
  {
  }

  /** The six named 2009 columns on their own. */
  lemma Named2009(row: Row)
    ensures var named := ColumnVotes(Layout2009.parties, row, []);
      && Keys(named) == NonzeroNames(Layout2009.parties, row) && "OTHERS" !in Keys(named)
      && SumValues(named) == ColumnSum(Layout2009.parties, row)
  {
    var cols := Layout2009.parties;
    LayoutsDistinct();
    ColumnVotesEntries(cols, row, []);
    ColumnVotesSum(cols, row, []);
    assert NonzeroNames(cols, row) <= Names(cols);
  }

  /** 2009: the total is the six named columns' counts plus the residual
      columns 18 to 29. */
  lemma Total2009(row: Row)
    ensures RowTotal(Layout2009, row) == ColumnSum(Layout2009.parties, row) + RangeSum(row, 18, 30)
  {
    var named := ColumnVotes(Layout2009.parties, row, []);
    var others := OthersSum(row, 18, 30);
    OthersSumIsRangeSum(row, 18, 30);
    Named2009(row);
    if others != 0 {
      SumValuesAppend(named, "OTHERS", others);
    }
  }

  /** 2009: OTHERS is present exactly when the residual is nonzero. */
  lemma Keys2009(row: Row)
    ensures Keys(RowVotes(Layout2009, row)) ==
      NonzeroNames(Layout2009.parties, row) + (if RangeSum(row, 18, 30) != 0 then {"OTHERS"} else {})
  {
    OthersSumIsRangeSum(row, 18, 30);
    Named2009(row);
  }

  /** 2014: the declared total of column 19 when that cell is truthy, even when
      `si` of it is 0; otherwise the sum of the seven party columns. */
  lemma Total2014(row: Row)
    ensures RowTotal(Layout2014, row) ==
      if |row| > 19 && Truthy(row[19]) then SafeInt(row[19]) else ColumnSum(Layout2014.parties, row)
  {
    var votes := RowVotes(Layout2014, row);
    assert votes == ColumnVotes(Layout2014.parties, row, []);
    assert SumValues(votes) == ColumnSum(Layout2014.parties, row) by {
      LayoutsDistinct();
      ColumnVotesSum(Layout2014.parties, row, []);
    }
  }

  /** 2019: always the sum of the seven party columns. */
  lemma Total2019(row: Row)
    ensures RowTotal(Layout2019, row) == ColumnSum(Layout2019.parties, row)
  {
    var votes := RowVotes(Layout2019, row);
    assert votes == ColumnVotes(Layout2019.parties, row, []);
    assert SumValues(votes) == ColumnSum(Layout2019.parties, row) by {
      LayoutsDistinct();
      ColumnVotesSum(Layout2019.parties, row, []);
    }
  }

  /** An assembly id of 0 is accepted: its key component is "0". */
  lemma ZeroAssemblyAccepted(L: Layout, row: Row)
    requires |row| > PsNoCol && Truthy(row[0]) && SafeInt(row[0]) == L.year
    requires SafeInt(row[AcIdCol]) == 0 && SafeInt(row[PsNoCol]) != 0 && RowTotal(L, row) != 0
    ensures ParseRow(L, row).Emit? && ParseRow(L, row).key.0 == "0"
  {
  }

  /** The row of the example below. */
  const ExampleRow: Row := [Int(2009), Empty, Empty, Empty, Text("108"), Empty, Empty, Empty, Empty, Empty, Empty,
                            Text("1"), Int(100), Int(50), Int(0), Int(200), Int(0), Int(0)]

  lemma ExampleRowCounts()
    ensures SafeInt(ExampleRow[0]) == 2009 && Truthy(ExampleRow[0])
    ensures SafeInt(ExampleRow[4]) == 108 && SafeInt(ExampleRow[11]) == 1
    ensures IntToString(108) == "108" && IntToString(1) == "1"
    ensures ColumnCount(ExampleRow, 12) == 100 && ColumnCount(ExampleRow, 13) == 50
    ensures ColumnCount(ExampleRow, 14) == 0 && ColumnCount(ExampleRow, 15) == 200
    ensures ColumnCount(ExampleRow, 16) == 0 && ColumnCount(ExampleRow, 17) == 0
    ensures |ExampleRow| == 18
  {
    assert ExampleRow[4] == Text("108") && ExampleRow[11] == Text("1");
    assert ExampleRow[12] == Int(100) && ExampleRow[13] == Int(50) && ExampleRow[14] == Int(0);
    assert ExampleRow[15] == Int(200) && ExampleRow[16] == Int(0) && ExampleRow[17] == Int(0);
    assert IntToString(108) == "108" by {
      assert NatToString(10) == "10";
    }
    assert IntToString(1) == "1";
    assert SafeInt(Int(2009)) == 2009 by { SafeIntOfIntText(2009); }
    assert SafeInt(Text("108")) == 108 by { SafeIntOfIntText(108); }
    assert SafeInt(Text("1")) == 1 by { SafeIntOfIntText(1); }
    assert SafeInt(Int(100)) == 100 by { SafeIntOfIntText(100); }
    assert SafeInt(Int(50)) == 50 by { SafeIntOfIntText(50); }
    assert SafeInt(Int(0)) == 0 by { SafeIntOfIntText(0); }
    assert SafeInt(Int(200)) == 200 by { SafeIntOfIntText(200); }
  }

  /** Which 2009 party columns are nonzero, for the counts of the example. */
  lemma ExampleNonzero(row: Row)
    requires ColumnCount(row, 12) == 100 && ColumnCount(row, 13) == 50
    requires ColumnCount(row, 14) == 0 && ColumnCount(row, 15) == 200
    requires ColumnCount(row, 16) == 0 && ColumnCount(row, 17) == 0
    ensures NonzeroNames(Layout2009.parties, row) == {"PRP", "INC", "TDP"}
  {
    var cols: seq<(nat, string)> := Layout2009.parties;
    var none: set<string> := {};
    var n5 := NonzeroNames(cols[5..], row);
    assert n5 == none by { NonzeroNamesCons(cols[5..], row); assert |cols[5..][1..]| == 0; }
    var n4 := NonzeroNames(cols[4..], row);
    assert n4 == none by { NonzeroNamesCons(cols[4..], row); assert cols[4..][1..] == cols[5..]; }
    var n3 := NonzeroNames(cols[3..], row);
    assert n3 == {"TDP"} by { NonzeroNamesCons(cols[3..], row); assert cols[3..][1..] == cols[4..]; }
    var n2 := NonzeroNames(cols[2..], row);
    assert n2 == {"TDP"} by { NonzeroNamesCons(cols[2..], row); assert cols[2..][1..] == cols[3..]; }
    var n1 := NonzeroNames(cols[1..], row);
    assert n1 == {"INC", "TDP"} by { NonzeroNamesCons(cols[1..], row); assert cols[1..][1..] == cols[2..]; }
    NonzeroNamesCons(cols, row);
  }

  /** The six 2009 party columns of the example sum to 350. */
  lemma ExampleColumnSum(row: Row)
    requires ColumnCount(row, 12) == 100 && ColumnCount(row, 13) == 50
    requires ColumnCount(row, 14) == 0 && ColumnCount(row, 15) == 200
    requires ColumnCount(row, 16) == 0 && ColumnCount(row, 17) == 0
    ensures ColumnSum(Layout2009.parties, row) == 350
  {
    var cols := Layout2009.parties;
    assert ColumnSum(cols[6..], row) == 0 by { assert |cols[6..]| == 0; }
    assert ColumnSum(cols[5..], row) == 0 by { assert cols[5..][1..] == cols[6..]; }
    assert ColumnSum(cols[4..], row) == 0 by { assert cols[4..][1..] == cols[5..]; }
    assert ColumnSum(cols[3..], row) == 200 by { assert cols[3..][1..] == cols[4..]; }
    assert ColumnSum(cols[2..], row) == 200 by { assert cols[2..][1..] == cols[3..]; }
    assert ColumnSum(cols[1..], row) == 250 by { assert cols[1..][1..] == cols[2..]; }
  }

  lemma ExampleTotal(row: Row)
    requires |row| == 18
    requires ColumnCount(row, 12) == 100 && ColumnCount(row, 13) == 50
    requires ColumnCount(row, 14) == 0 && ColumnCount(row, 15) == 200
    requires ColumnCount(row, 16) == 0 && ColumnCount(row, 17) == 0
    ensures RowTotal(Layout2009, row) == 350
  {
    Total2009(row);
    ExampleColumnSum(row);
  }

  lemma ExampleVotes(row: Row)
    requires |row| == 18
    requires ColumnCount(row, 12) == 100 && ColumnCount(row, 13) == 50
    requires ColumnCount(row, 14) == 0 && ColumnCount(row, 15) == 200
    requires ColumnCount(row, 16) == 0 && ColumnCount(row, 17) == 0
    ensures var votes := RowVotes(Layout2009, row);
      && Keys(votes) == {"PRP", "INC", "TDP"}
      && Get(votes, "PRP") == Some(100) && Get(votes, "INC") == Some(50) && Get(votes, "TDP") == Some(200)
  {
    var cols := Layout2009.parties;
    var votes := RowVotes(Layout2009, row);
    assert Keys(votes) == {"PRP", "INC", "TDP"} by {
      Keys2009(row);
      ExampleNonzero(row);
    }
    assert votes == ColumnVotes(cols, row, []);
    ExampleGets(row);
  }

  lemma ExampleGets(row: Row)
    requires ColumnCount(row, 12) == 100 && ColumnCount(row, 13) == 50
    requires ColumnCount(row, 14) == 0 && ColumnCount(row, 15) == 200
    requires ColumnCount(row, 16) == 0 && ColumnCount(row, 17) == 0
    ensures var votes := ColumnVotes(Layout2009.parties, row, []);
      Get(votes, "PRP") == Some(100) && Get(votes, "INC") == Some(50) && Get(votes, "TDP") == Some(200)
  {
    var cols := Layout2009.parties;
    LayoutsDistinct();
    ColumnVotesEntries(cols, row, []);
    assert cols[0] == (12, "PRP") && cols[1] == (13, "INC") && cols[3] == (15, "TDP");
  }

  /** The example's outcome, for any 2009 row with the example's counts. */
  lemma ExampleOutcome(row: Row)
    requires |row| == 18 && Truthy(row[0]) && SafeInt(row[0]) == 2009
    requires SafeInt(row[AcIdCol]) == 108 && SafeInt(row[PsNoCol]) == 1
    requires IntToString(108) == "108" && IntToString(1) == "1"
    requires ColumnCount(row, 12) == 100 && ColumnCount(row, 13) == 50
    requires ColumnCount(row, 14) == 0 && ColumnCount(row, 15) == 200
    requires ColumnCount(row, 16) == 0 && ColumnCount(row, 17) == 0
    ensures var r := ParseRow(Layout2009, row);
      && r.Emit? && r.key == ("108", "1") && r.record.totalVotes == 350
      && r.record.candidates.Keys == {"PRP", "INC", "TDP"}
      && r.record.candidates["PRP"] == 2.0 / 7.0
      && r.record.candidates["INC"] == 1.0 / 7.0
      && r.record.candidates["TDP"] == 4.0 / 7.0
  {
    ExampleTotal(row);
    ExampleVotes(row);
    ExampleShares(RowVotes(Layout2009, row));
  }

  lemma ExampleShares(votes: Votes)
    requires Keys(votes) == {"PRP", "INC", "TDP"}
    requires Get(votes, "PRP") == Some(100) && Get(votes, "INC") == Some(50) && Get(votes, "TDP") == Some(200)
    ensures var e := ElectionField(2009, votes, 350);
      && e.candidates.Keys == {"PRP", "INC", "TDP"}
      && e.candidates["PRP"] == 2.0 / 7.0
      && e.candidates["INC"] == 1.0 / 7.0
      && e.candidates["TDP"] == 4.0 / 7.0
  {
    var e := ElectionField(2009, votes, 350);
    assert e.candidates["PRP"] == Share(100, 350);
    assert e.candidates["INC"] == Share(50, 350);
    assert e.candidates["TDP"] == Share(200, 350);
  }

  /** The example row: a 2009 row of assembly "108", station "1", PRP 100, INC 50, IND 0,
      TDP 200 and two empty-count columns. IND is left out for its zero count. */
  lemma Example2009Row()
    ensures var r := ParseRow(Layout2009, ExampleRow);
      && r.Emit? && r.key == ("108", "1") && r.record.totalVotes == 350
      && r.record.candidates.Keys == {"PRP", "INC", "TDP"}
      && r.record.candidates["PRP"] == 2.0 / 7.0
      && r.record.candidates["INC"] == 1.0 / 7.0
      && r.record.candidates["TDP"] == 4.0 / 7.0
  {
    ExampleRowCounts();
    ExampleOutcome(ExampleRow);
  }
}
