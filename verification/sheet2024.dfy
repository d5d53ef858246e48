/** The 2024 sheet parser. The sheet is a run of blocks, one per assembly: a
    marker row holding the assembly's name, a header row, then station rows
    up to the next marker. The sheet carries no assembly ids; stations are
    grouped under the upper-cased assembly name and matched to ids later. */
module Sheet2024 {
  import opened Wrappers
  import opened Text
  import opened Cells
  import opened Dict
  import opened Records
  import opened Party

  type Booths = Dict<string, Election>
  type Assemblies = Dict<string, Booths>

  /** `all_rows[i]` or `dr[0]` of an empty row raises `IndexError`. */
  datatype ParseError = IndexError(row: nat)

  // ---------------------------------------------------------------------
  // Rows
  // ---------------------------------------------------------------------

  /** A marker row: cell 0 is a string that is not blank after stripping
      (`StripEmptyIff`), and cell 1 is absent or empty. */
  predicate IsMarker(row: Row)
    requires |row| > 0
  {
    row[0].Text? && !IsBlank(row[0].s) && (|row| < 2 || row[1].Empty?)
  }

  /** The assembly name of a marker row. */
  function MarkerName(row: Row): string
    requires |row| > 0 && IsMarker(row)
  {
    Upper(Strip(row[0].s))
  }

  // ---------------------------------------------------------------------
  // Header discovery
  // ---------------------------------------------------------------------

  /** A header cell's text: `str(h).strip()` when the cell is truthy, else "". */
  function HeaderText(c: Cell): string {
    if Truthy(c) then Strip(CellStr(c)) else ""
  }

  function HeaderTexts(hdr: Row): (hs: seq<string>)
    ensures |hs| == |hdr| && forall j :: 0 <= j < |hdr| ==> hs[j] == HeaderText(hdr[j])
  {
    seq(|hdr|, j requires 0 <= j < |hdr| => HeaderText(hdr[j]))
  }

  predicate Mentions(h: string, term: string) {
    Contains(Upper(h), term)
  }

  /** The `for idx, h in enumerate(headers): if term in h.upper(): col = idx`
      loop from index `idx` on: every match overwrites the previous one. */
  function ScanLast(hs: seq<string>, term: string, idx: nat, found: Option<nat>): Option<nat>
    decreases |hs| - idx
  {
    if idx >= |hs| then found
    else ScanLast(hs, term, idx + 1, if Mentions(hs[idx], term) then Some(idx) else found)
  }

  /** The column whose header is the last to mention `term`, if any. */
  function LastMention(hs: seq<string>, term: string): Option<nat> {
    ScanLast(hs, term, 0, None)
  }

  /** The loop keeps the last match: the result mentions the term and no later
      header does; with no match the result is `None`. */
  lemma {:induction false} ScanLastSpec(hs: seq<string>, term: string, idx: nat, found: Option<nat>)
    requires found.Some? ==> found.value < idx && found.value < |hs| && Mentions(hs[found.value], term)
    requires found.Some? ==> forall j :: found.value < j < idx && j < |hs| ==> !Mentions(hs[j], term)
    requires found.None? ==> forall j :: 0 <= j < idx && j < |hs| ==> !Mentions(hs[j], term)
    ensures var r := ScanLast(hs, term, idx, found);
      && (r.Some? ==> r.value < |hs| && Mentions(hs[r.value], term)
                      && forall j :: r.value < j < |hs| ==> !Mentions(hs[j], term))
      && (r.None? ==> forall j :: 0 <= j < |hs| ==> !Mentions(hs[j], term))
    decreases |hs| - idx
  {
    if idx < |hs| {
      var found' := if Mentions(hs[idx], term) then Some(idx) else found;
      ScanLastSpec(hs, term, idx + 1, found');
    }
  }

  lemma LastMentionSpec(hs: seq<string>, term: string)
    ensures var r := LastMention(hs, term);
      && (r.Some? ==> r.value < |hs| && Mentions(hs[r.value], term)
                      && forall j :: r.value < j < |hs| ==> !Mentions(hs[j], term))
      && (r.None? <==> forall j :: 0 <= j < |hs| ==> !Mentions(hs[j], term))
  {
    ScanLastSpec(hs, term, 0, None);
  }

  /** The header texts that disqualify a column from being a party column. */
  const SkipTerms: seq<string> := ["TOTAL", "NOTA", "NO.OF", "REJECTED", "PS NO", ""]

  predicate Skipped(h: string) {
    exists t :: t in SkipTerms && Contains(Upper(h), t)
  }

  /** The party-column loop from index `idx` on: columns 0 and 1 are never
      party columns, skipped headers are dropped, and any other non-empty
      header is kept under its normalized party label. */
  function PartyColsFrom(hs: seq<string>, idx: nat, acc: seq<(nat, string)>): seq<(nat, string)>
    decreases |hs| - idx
  {
    if idx >= |hs| then acc
    else if idx == 0 || idx == 1 || Skipped(hs[idx]) || hs[idx] == "" then PartyColsFrom(hs, idx + 1, acc)
    else PartyColsFrom(hs, idx + 1, acc + [(idx, NormalizeParty(hs[idx]))])
  }

  /** Every string contains the empty string. */
  lemma ContainsEmpty(s: string)
    ensures Contains(s, "")
  {
    assert OccursAt(s, "", 0);
  }

  /** The empty string among the skip terms matches every header, so no column
      is ever kept as a party column. */
  lemma {:induction false} PartyColsFromKeepsNone(hs: seq<string>, idx: nat, acc: seq<(nat, string)>)
    ensures PartyColsFrom(hs, idx, acc) == acc
    decreases |hs| - idx
  {
    if idx < |hs| {
      ContainsEmpty(Upper(hs[idx]));
      assert "" in SkipTerms;
      assert Skipped(hs[idx]);
      PartyColsFromKeepsNone(hs, idx + 1, acc);
    }
  }

  /** What the station loop needs from a header row. */
  datatype Header = Header(partyCols: seq<(nat, string)>, notaCol: Option<nat>, totalCol: Option<nat>)

  function ParseHeader(hdr: Row): Header {
    var hs := HeaderTexts(hdr);
    Header(PartyColsFrom(hs, 0, []), LastMention(hs, "NOTA"), LastMention(hs, "TOTAL"))
  }

  /** The header a block is read with: no party columns, and the NOTA and
      total columns are the last headers mentioning those words. */
  lemma HeaderShape(hdr: Row)
    ensures var h := ParseHeader(hdr); var hs := HeaderTexts(hdr);
      && h.partyCols == []
      && (h.notaCol.Some? ==> h.notaCol.value < |hdr| && Mentions(hs[h.notaCol.value], "NOTA")
                              && forall j :: h.notaCol.value < j < |hdr| ==> !Mentions(hs[j], "NOTA"))
      && (h.notaCol.None? <==> forall j :: 0 <= j < |hdr| ==> !Mentions(hs[j], "NOTA"))
      && (h.totalCol.Some? ==> h.totalCol.value < |hdr| && Mentions(hs[h.totalCol.value], "TOTAL")
                               && forall j :: h.totalCol.value < j < |hdr| ==> !Mentions(hs[j], "TOTAL"))
      && (h.totalCol.None? <==> forall j :: 0 <= j < |hdr| ==> !Mentions(hs[j], "TOTAL"))
  {
    var hs := HeaderTexts(hdr);
    PartyColsFromKeepsNone(hs, 0, []);
    LastMentionSpec(hs, "NOTA");
    LastMentionSpec(hs, "TOTAL");
  }

  // ---------------------------------------------------------------------
  // Station rows
  // ---------------------------------------------------------------------

  /** The party counts of a station row: the party columns, then NOTA when
      its column is present and nonzero. */
  function StationVotes(h: Header, dr: Row): Votes {
    var named := ColumnVotes(h.partyCols, dr, []);
    if h.notaCol.Some? && h.notaCol.value < |dr| && SafeInt(dr[h.notaCol.value]) != 0 then
      Put(named, "NOTA", SafeInt(dr[h.notaCol.value]))
    else named
  }

  /** `total_col and total_col < len(dr)`: a total column at index 0 counts
      as absent. */
  predicate HasTotalCell(h: Header, dr: Row) {
    h.totalCol.Some? && h.totalCol.value != 0 && h.totalCol.value < |dr|
  }

  /** The declared total when there is a total cell, with no fallback when it
      reads as 0; otherwise the sum of the counts. */
  function StationTotal(h: Header, dr: Row): (t: int)
    ensures HasTotalCell(h, dr) ==> t == SafeInt(dr[h.totalCol.value])
    ensures !HasTotalCell(h, dr) ==> t == SumValues(StationVotes(h, dr))
  {
    if HasTotalCell(h, dr) then SafeInt(dr[h.totalCol.value]) else SumValues(StationVotes(h, dr))
  }

  /** With the header of a real block there are no party columns, so the
      fallback sum is just the NOTA count: the total is `si` of the total
      cell when there is one, else `si` of the NOTA cell when that column is
      within the row, else 0. */
  lemma StationTotalOfHeader(hdr: Row, dr: Row)
    ensures var h := ParseHeader(hdr);
      StationTotal(h, dr) ==
        if HasTotalCell(h, dr) then SafeInt(dr[h.totalCol.value])
        else if h.notaCol.Some? && h.notaCol.value < |dr| then SafeInt(dr[h.notaCol.value])
        else 0
  {
    PartyColsFromKeepsNone(HeaderTexts(hdr), 0, []);
    StationTotalNoParties(ParseHeader(hdr), dr);
  }

  lemma StationTotalNoParties(h: Header, dr: Row)
    requires h.partyCols == []
    ensures StationTotal(h, dr) ==
      if HasTotalCell(h, dr) then SafeInt(dr[h.totalCol.value])
      else if h.notaCol.Some? && h.notaCol.value < |dr| then SafeInt(dr[h.notaCol.value])
      else 0
  {
    assert ColumnVotes(h.partyCols, dr, []) == [];
    if h.notaCol.Some? && h.notaCol.value < |dr| && SafeInt(dr[h.notaCol.value]) != 0 {
      var v := SafeInt(dr[h.notaCol.value]);
      assert Put([], "NOTA", v) == [("NOTA", v)] by {
        PutEmpty("NOTA", v);
      }
      assert SumValues([("NOTA", v)]) == v;
    }
  }

  /** Cell 1 holds a number (an `int` or a `float`). */
  predicate HasStationNumber(dr: Row) {
    |dr| > 1 && (dr[1].Int? || dr[1].Real?)
  }

  /** One row of the station loop that is not a marker: `None` when the row is
      skipped, else its station number and record. */
  function StationRow(h: Header, dr: Row): (r: Option<(string, Election)>)
    ensures r.Some? <==> HasStationNumber(dr) && StationTotal(h, dr) != 0
    ensures r.Some? ==>
      && r.value.0 == IntToString(SafeInt(dr[1]))
      && r.value.1 == ElectionField(2024, StationVotes(h, dr), StationTotal(h, dr))
  {
    if !HasStationNumber(dr) then None
    else
      var total := StationTotal(h, dr);
      if total == 0 then None
      else Some((IntToString(SafeInt(dr[1])), ElectionField(2024, StationVotes(h, dr), total)))
  }

  /** A station record is for 2024, has a nonzero total, and names no party
      other than those of the party columns and NOTA. */
  predicate ValidRecord(h: Header, e: Election) {
    e.year == 2024 && e.totalVotes != 0 && e.candidates.Keys <= Names(h.partyCols) + {"NOTA"}
  }

  lemma StationRowValid(h: Header, dr: Row)
    requires StationRow(h, dr).Some?
    ensures ValidRecord(h, StationRow(h, dr).value.1)
  {
    var votes := StationVotes(h, dr);
    var named := ColumnVotes(h.partyCols, dr, []);
    assert Keys(named) <= Names(h.partyCols) by {
      ColumnVotesKeys(h.partyCols, dr, []);
    }
    assert Keys(votes) <= Names(h.partyCols) + {"NOTA"};
  }

  /** The fold only adds labels of its columns. */
  lemma {:induction false} ColumnVotesKeys(cols: seq<(nat, string)>, row: Row, acc: Votes)
    ensures Keys(ColumnVotes(cols, row, acc)) <= Keys(acc) + Names(cols)
    decreases |cols|
  {
    if cols != [] {
      NamesCons(cols);
      ColumnVotesUnfold(cols, row, acc);
      ColumnVotesKeys(cols[1..], row, ColumnStep(cols[0], row, acc));
    }
  }

  /** With the header of a real block, a station's counts hold at most NOTA. */
  lemma StationOnlyNota(hdr: Row, dr: Row)
    requires StationRow(ParseHeader(hdr), dr).Some?
    ensures StationRow(ParseHeader(hdr), dr).value.1.candidates.Keys <= {"NOTA"}
  {
    var h := ParseHeader(hdr);
    HeaderShape(hdr);
    StationRowValid(h, dr);
    assert Names(h.partyCols) == {};
  }

  // ---------------------------------------------------------------------
  // Blocks
  // ---------------------------------------------------------------------

  /** Every stored record is valid for the header. */
  predicate AllValid(h: Header, booths: Booths) {
    forall i :: 0 <= i < |booths| ==> ValidRecord(h, booths[i].1)
  }

  /** `Put` keeps a property that holds of every stored value and of the new
      value. */
  lemma PutAllValid(h: Header, booths: Booths, k: string, e: Election)
    requires AllValid(h, booths) && ValidRecord(h, e)
    ensures AllValid(h, Put(booths, k, e))
  {
    var r := Put(booths, k, e);
    forall i | 0 <= i < |r| ensures ValidRecord(h, r[i].1) {
      assert r[i] == (k, e) || r[i] in booths;
    }
  }

  /** Row `stop` is the first row from `j` on that is a marker, or the end of
      the sheet; the rows passed over are non-empty. */
  predicate StopsAtMarker(rows: seq<Row>, j: nat, stop: nat) {
    && j <= stop <= |rows|
    && (stop < |rows| ==> |rows[stop]| > 0 && IsMarker(rows[stop]))
    && (forall m :: j <= m < stop ==> |rows[m]| > 0 && !IsMarker(rows[m]))
  }

  /** Row `row`, at or after row `i`, is an empty row of the sheet: the row
      that raises the `IndexError`. */
  predicate EmptyRowFrom(rows: seq<Row>, i: nat, row: nat) {
    i <= row < |rows| && |rows[row]| == 0
  }

  /** Row `row` is the first empty row from `j` on, and no marker comes
      before it: the station loop from `j` raises there. */
  predicate BlockedAt(rows: seq<Row>, j: nat, row: nat) {
    && EmptyRowFrom(rows, j, row)
    && (forall m :: j <= m < row ==> |rows[m]| > 0 && !IsMarker(rows[m]))
  }

  /** The station loop of one block from row `j`, with the stations so far in
      `booths`. It stops at the end of the sheet or at the next marker, which
      it leaves for the outer loop; it raises on an empty row. On success it
      returns the row where it stopped and the block's stations. A row's
      station does not depend on where the loop stops, so the stopping row
      and the stations are found one after the other. */
  function ScanBlock(rows: seq<Row>, j: nat, h: Header, booths: Booths)
    : (r: Result<(nat, Booths), ParseError>)
    requires j <= |rows|
    ensures r.Success? ==> StopsAtMarker(rows, j, r.value.0)
    ensures r.Failure? ==> BlockedAt(rows, j, r.error.row)
  {
    match BlockEnd(rows, j)
    case Failure(e) => Failure(e)
    case Success(stop) => Success((stop, Stations(rows, j, stop, h, booths)))
  }

  /** Where the station loop from row `j` stops: the next marker or the end of
      the sheet; it raises on the first empty row, when that comes before
      either. */
  function BlockEnd(rows: seq<Row>, j: nat): (r: Result<nat, ParseError>)
    requires j <= |rows|
    ensures r.Success? ==> StopsAtMarker(rows, j, r.value)
    ensures r.Failure? ==> BlockedAt(rows, j, r.error.row)
    decreases |rows| - j
  {
    if j == |rows| then Success(j)
    else if |rows[j]| == 0 then Failure(IndexError(j))
    else if IsMarker(rows[j]) then Success(j)
    else BlockEnd(rows, j + 1)
  }

  /** The stations of rows `j` up to `stop`, added to `booths` in row order. */
  function Stations(rows: seq<Row>, j: nat, stop: nat, h: Header, booths: Booths): Booths
    requires j <= stop <= |rows|
    decreases stop - j
  {
    if j == stop then booths else Stations(rows, j + 1, stop, h, AddStation(h, rows[j], booths))
  }

  /** `booths[booth_no] = ...` for a station row that is not skipped. */
  function AddStation(h: Header, dr: Row, booths: Booths): Booths {
    match StationRow(h, dr)
    case None => booths
    case Some(st) => Put(booths, st.0, st.1)
  }

  /** The stations of a block are keyed once each and all valid. */
  lemma ScanBlockValid(rows: seq<Row>, j: nat, h: Header, booths: Booths)
    requires j <= |rows| && NoDupKeys(booths) && AllValid(h, booths)
    requires ScanBlock(rows, j, h, booths).Success?
    ensures NoDupKeys(ScanBlock(rows, j, h, booths).value.1)
    ensures AllValid(h, ScanBlock(rows, j, h, booths).value.1)
  {
    StationsValid(rows, j, BlockEnd(rows, j).value, h, booths);
  }

  lemma {:induction false} StationsValid(rows: seq<Row>, j: nat, stop: nat, h: Header, booths: Booths)
    requires j <= stop <= |rows| && NoDupKeys(booths) && AllValid(h, booths)
    ensures NoDupKeys(Stations(rows, j, stop, h, booths))
    ensures AllValid(h, Stations(rows, j, stop, h, booths))
    decreases stop - j
  {
    if j < stop {
      AddStationValid(h, rows[j], booths);
      StationsValid(rows, j + 1, stop, h, AddStation(h, rows[j], booths));
    }
  }

  lemma AddStationValid(h: Header, dr: Row, booths: Booths)
    requires NoDupKeys(booths) && AllValid(h, booths)
    ensures NoDupKeys(AddStation(h, dr, booths)) && AllValid(h, AddStation(h, dr, booths))
  {
    match StationRow(h, dr)
    case None =>
    case Some(st) =>
      StationRowValid(h, dr);
      PutAllValid(h, booths, st.0, st.1);
  }

  /** The station of one row, if it has one. */
  function RowStation(h: Header, dr: Row): seq<(string, Election)> {
    match StationRow(h, dr)
    case None => []
    case Some(st) => [st]
  }

  /** The stations of rows `j` up to `stop`, in row order, skipped rows
      left out. */
  function StationPairs(rows: seq<Row>, j: nat, stop: nat, h: Header): seq<(string, Election)>
    requires j <= stop <= |rows|
    decreases stop - j
  {
    if j == stop then [] else RowStation(h, rows[j]) + StationPairs(rows, j + 1, stop, h)
  }

  /** The station loop is `booths[booth_no] = ...` for each station of the
      range in row order. */
  lemma {:induction false} StationsArePuts(rows: seq<Row>, j: nat, stop: nat, h: Header, booths: Booths)
    requires j <= stop <= |rows|
    ensures Stations(rows, j, stop, h, booths) == PutAll(booths, StationPairs(rows, j, stop, h))
    decreases stop - j
  {
    if j == stop {
      assert StationPairs(rows, j, stop, h) == [];
    } else {
      var next := AddStation(h, rows[j], booths);
      StationsArePuts(rows, j + 1, stop, h, next);
      StationsPutsStep(rows, j, stop, h, booths, next);
    }
  }

  /** The step of `StationsArePuts` at row `j`. */
  lemma StationsPutsStep(rows: seq<Row>, j: nat, stop: nat, h: Header, booths: Booths, next: Booths)
    requires j < stop <= |rows| && next == AddStation(h, rows[j], booths)
    requires Stations(rows, j + 1, stop, h, next) == PutAll(next, StationPairs(rows, j + 1, stop, h))
    ensures Stations(rows, j, stop, h, booths) == PutAll(booths, StationPairs(rows, j, stop, h))
  {
    StationsStep(rows, j, stop, h, booths, next);
    PutAllAppend(booths, RowStation(h, rows[j]), StationPairs(rows, j + 1, stop, h));
  }

  /** One step of the station loop and of its list of stations. */
  lemma StationsStep(rows: seq<Row>, j: nat, stop: nat, h: Header, booths: Booths, next: Booths)
    requires j < stop <= |rows| && next == AddStation(h, rows[j], booths)
    ensures next == PutAll(booths, RowStation(h, rows[j]))
    ensures Stations(rows, j, stop, h, booths) == Stations(rows, j + 1, stop, h, next)
    ensures StationPairs(rows, j, stop, h) == RowStation(h, rows[j]) + StationPairs(rows, j + 1, stop, h)
  {
    AddStationPuts(h, rows[j], booths);
  }

  /** One row of the station loop assigns the row's station, if it has one. */
  lemma AddStationPuts(h: Header, dr: Row, booths: Booths)
    ensures AddStation(h, dr, booths) == PutAll(booths, RowStation(h, dr))
  {
    match StationRow(h, dr)
    case None =>
    case Some(st) =>
      assert [st][1..] == [];
  }

  /** Within a block a later row with the same station number overwrites an
      earlier one: each number holds the record of its last station in the
      range, and a number no row carries keeps what it held. */
  lemma StationsLastWins(rows: seq<Row>, j: nat, stop: nat, h: Header, booths: Booths, n: string)
    requires j <= stop <= |rows|
    ensures var last := LastValue(StationPairs(rows, j, stop, h), n);
      Get(Stations(rows, j, stop, h, booths), n) == if last.Some? then last else Get(booths, n)
  {
    StationsArePuts(rows, j, stop, h, booths);
    PutAllGet(booths, StationPairs(rows, j, stop, h), n);
  }

  /** No recorded block is without stations. */
  predicate EveryBlockHasStations(blocks: seq<(string, Booths)>) {
    forall b :: b in blocks ==> b.1 != []
  }

  /** The blocks recorded from row `i` on, in sheet order: a marker, the
      header row after it (whatever it holds), and its station rows. A block
      with no station is not recorded, and a marker in the last row ends the
      scan. Rows outside any block are passed over. */
  function ScanBlocks(rows: seq<Row>, i: nat): (r: Result<seq<(string, Booths)>, ParseError>)
    ensures r.Success? ==> EveryBlockHasStations(r.value)
    ensures r.Failure? ==> EmptyRowFrom(rows, i, r.error.row)
    decreases |rows| - i
  {
    if i >= |rows| then Success([])
    else if |rows[i]| == 0 then Failure(IndexError(i))
    else if !IsMarker(rows[i]) then ScanBlocks(rows, i + 1)
    else if i + 1 >= |rows| then Success([])
    else
      match ReadBlock(rows, i)
      case Failure(e) => Failure(e)
      case Success(res) =>
        match ScanBlocks(rows, res.0)
        case Failure(e) => Failure(e)
        case Success(rest) => Success(Recorded(MarkerName(rows[i]), res.1, rest))
  }

  /** The block whose marker is row `i`: row `i + 1` is its header, and its
      stations start at row `i + 2`. */
  function ReadBlock(rows: seq<Row>, i: nat): (r: Result<(nat, Booths), ParseError>)
    requires i + 1 < |rows|
    ensures r.Success? ==> StopsAtMarker(rows, i + 2, r.value.0)
    ensures r.Failure? ==> BlockedAt(rows, i + 2, r.error.row)
  {
    ScanBlock(rows, i + 2, ParseHeader(rows[i + 1]), [])
  }

  /** A block is recorded in front of the later ones unless it has no
      station. */
  function Recorded(name: string, booths: Booths, rest: seq<(string, Booths)>): (r: seq<(string, Booths)>)
    requires EveryBlockHasStations(rest)
    ensures EveryBlockHasStations(r)
  {
    if booths != [] then [(name, booths)] + rest else rest
  }

  // ---------------------------------------------------------------------
  // The blocks, read off the markers
  // ---------------------------------------------------------------------

  /** Row `m` is a marker row; an empty row is not one. */
  predicate MarkerRow(rows: seq<Row>, m: nat)
    requires m < |rows|
  {
    |rows[m]| > 0 && IsMarker(rows[m])
  }

  /** `p` is the first marker row at or after `from`, or the end of the sheet
      when there is none. */
  predicate IsFirstMarker(rows: seq<Row>, from: nat, p: nat) {
    && from <= p
    && (from <= |rows| ==> p <= |rows|)
    && (p < |rows| ==> MarkerRow(rows, p))
    && (forall m :: from <= m < p && m < |rows| ==> !MarkerRow(rows, m))
  }

  function FirstMarker(rows: seq<Row>, from: nat): (p: nat)
    ensures IsFirstMarker(rows, from, p)
    decreases |rows| - from
  {
    if from >= |rows| then from
    else if MarkerRow(rows, from) then from
    else FirstMarker(rows, from + 1)
  }

  /** The blocks from marker row `p` on, as the markers lay them out: a
      marker `p` with a row after it opens a block named after it, row
      `p + 1` is its header whatever that row holds, and its stations are the
      rows from `p + 2` up to the next marker, which opens the next block. A
      block with no station is dropped, and a marker in the last row opens
      nothing. */
  function BlocksAt(rows: seq<Row>, p: nat): seq<(string, Booths)>
    requires p < |rows| ==> MarkerRow(rows, p)
    decreases |rows| - p
  {
    if p + 1 >= |rows| then []
    else
      var stop := FirstMarker(rows, p + 2);
      var booths := Stations(rows, p + 2, stop, ParseHeader(rows[p + 1]), []);
      var rest := BlocksAt(rows, stop);
      if booths != [] then [(MarkerName(rows[p]), booths)] + rest else rest
  }

  /** The blocks of the sheet from row `from` on. */
  function MarkedBlocks(rows: seq<Row>, from: nat): seq<(string, Booths)> {
    BlocksAt(rows, FirstMarker(rows, from))
  }

  /** The rows taken as block headers from marker row `p` on. */
  function HeadersAt(rows: seq<Row>, p: nat): set<nat>
    decreases |rows| - p
  {
    if p + 1 >= |rows| then {} else {p + 1} + HeadersAt(rows, FirstMarker(rows, p + 2))
  }

  /** The rows taken as block headers from row `from` on. */
  function HeaderRows(rows: seq<Row>, from: nat): set<nat> {
    HeadersAt(rows, FirstMarker(rows, from))
  }

  /** Row `r` is an empty row that the parse reads as a marker candidate or
      a station row, that is, one that is not a header: reading its cell 0
      raises `IndexError`. */
  predicate Fault(rows: seq<Row>, from: nat, r: nat) {
    from <= r < |rows| && |rows[r]| == 0 && r !in HeaderRows(rows, from)
  }

  /** The outcome of the parse from row `from` on: it raises at the first
      faulty row, and otherwise records exactly the marked blocks, in sheet
      order. */
  ghost predicate ScanOutcome(rows: seq<Row>, from: nat, r: Result<seq<(string, Booths)>, ParseError>) {
    && (r.Failure? ==> Fault(rows, from, r.error.row) && forall k :: Fault(rows, from, k) ==> r.error.row <= k)
    && (r.Success? ==> r.value == MarkedBlocks(rows, from) && forall k :: !Fault(rows, from, k))
  }

  /** The parse from row `i` raises exactly when some row from `i` on is
      faulty, at the first such row, and otherwise returns the marked
      blocks. */
  lemma {:induction false} ScanBlocksSpec(rows: seq<Row>, i: nat)
    ensures ScanOutcome(rows, i, ScanBlocks(rows, i))
    ensures ScanBlocks(rows, i).Failure? <==> exists k :: Fault(rows, i, k)
    decreases |rows| - i
  {
    ScanBlocksOutcome(rows, i);
    if ScanBlocks(rows, i).Failure? {
      assert Fault(rows, i, ScanBlocks(rows, i).error.row);
    }
  }

  lemma {:induction false} ScanBlocksOutcome(rows: seq<Row>, i: nat)
    ensures ScanOutcome(rows, i, ScanBlocks(rows, i))
    decreases |rows| - i
  {
    if i >= |rows| {
    } else if |rows[i]| == 0 {
      EmptyRowFails(rows, i);
    } else if !IsMarker(rows[i]) {
      ScanBlocksOutcome(rows, i + 1);
      FaultsPastRow(rows, i);
    } else if i + 1 >= |rows| {
      assert FirstMarker(rows, i) == i;
    } else {
      assert FirstMarker(rows, i) == i;
      ScanMarkedBlock(rows, i);
    }
  }

  /** The step of `ScanBlocksOutcome` at a marker with a row after it. */
  lemma {:induction false} ScanMarkedBlock(rows: seq<Row>, i: nat)
    requires i + 1 < |rows| && MarkerRow(rows, i) && FirstMarker(rows, i) == i
    ensures ScanOutcome(rows, i, ScanBlocks(rows, i))
    decreases |rows| - i, 0
  {
    match ReadBlock(rows, i)
    case Failure(e) =>
      MarkedBlockFails(rows, i, e.row);
    case Success(res) =>
      var stop := res.0;
      StopIsFirstMarker(rows, i + 2, stop);
      FaultsPastBlock(rows, i, stop);
      ScanBlocksOutcome(rows, stop);
      var booths := Stations(rows, i + 2, stop, ParseHeader(rows[i + 1]), []);
      assert res.1 == booths;
      assert MarkedBlocks(rows, i) == (if booths != [] then [(MarkerName(rows[i]), booths)] else []) + MarkedBlocks(rows, stop);
  }

  /** Past a row that is neither empty nor a marker, the faulty rows are the
      same. */
  lemma FaultsPastRow(rows: seq<Row>, i: nat)
    requires i < |rows| && |rows[i]| > 0 && !IsMarker(rows[i])
    ensures forall k :: Fault(rows, i, k) <==> Fault(rows, i + 1, k)
  {
    assert FirstMarker(rows, i) == FirstMarker(rows, i + 1);
  }

  /** Past a block that ends at row `stop`, the faulty rows are the same: the
      marker and the station rows are not empty and the header may be. */
  lemma FaultsPastBlock(rows: seq<Row>, i: nat, stop: nat)
    requires i + 1 < |rows| && MarkerRow(rows, i) && FirstMarker(rows, i) == i
    requires StopsAtMarker(rows, i + 2, stop) && FirstMarker(rows, i + 2) == stop
    requires FirstMarker(rows, stop) == stop
    ensures forall k :: Fault(rows, i, k) <==> Fault(rows, stop, k)
  {
    assert HeaderRows(rows, i) == {i + 1} + HeaderRows(rows, stop);
    forall k: nat | Fault(rows, i, k) ensures k >= stop {
      assert k != i && k != i + 1;
      assert !(i + 2 <= k < stop);
    }
  }

  /** An empty row where the parse looks for a marker is the first faulty
      row. */
  lemma EmptyRowFails(rows: seq<Row>, i: nat)
    requires i < |rows| && |rows[i]| == 0
    ensures Fault(rows, i, i) && forall k :: Fault(rows, i, k) ==> i <= k
  {
    HeadersAfter(rows, FirstMarker(rows, i));
  }

  /** A block whose station loop raises at row `row` makes the parse raise
      there, at the first faulty row. */
  lemma MarkedBlockFails(rows: seq<Row>, i: nat, row: nat)
    requires i + 1 < |rows| && MarkerRow(rows, i) && FirstMarker(rows, i) == i
    requires BlockedAt(rows, i + 2, row)
    ensures Fault(rows, i, row) && forall k :: Fault(rows, i, k) ==> row <= k
  {
    var next := FirstMarker(rows, i + 2);
    assert HeaderRows(rows, i) == {i + 1} + HeadersAt(rows, next);
    BlockedBeforeMarker(rows, i + 2, row);
    HeadersAfter(rows, next);
    forall k: nat | Fault(rows, i, k) ensures row <= k {
      assert k != i && k != i + 1;
    }
  }

  /** Every header row from marker row `p` on comes after `p`. */
  lemma {:induction false} HeadersAfter(rows: seq<Row>, p: nat)
    ensures forall h :: h in HeadersAt(rows, p) ==> h > p
    decreases |rows| - p
  {
    if p + 1 < |rows| {
      HeadersAfter(rows, FirstMarker(rows, p + 2));
    }
  }

  /** Where the station loop stops is the first marker from its start, and
      the first marker from there is itself. */
  lemma StopIsFirstMarker(rows: seq<Row>, j: nat, stop: nat)
    requires j <= |rows| && StopsAtMarker(rows, j, stop)
    ensures FirstMarker(rows, j) == stop && FirstMarker(rows, stop) == stop
  {
    assert IsFirstMarker(rows, j, stop);
    FirstMarkerUnique(rows, j, FirstMarker(rows, j), stop);
    assert IsFirstMarker(rows, stop, stop);
    FirstMarkerUnique(rows, stop, FirstMarker(rows, stop), stop);
  }

  /** There is one first marker. */
  lemma FirstMarkerUnique(rows: seq<Row>, from: nat, p: nat, q: nat)
    requires from <= |rows| && IsFirstMarker(rows, from, p) && IsFirstMarker(rows, from, q)
    ensures p == q
  {
  }

  /** The row where the station loop raises comes before any marker. */
  lemma BlockedBeforeMarker(rows: seq<Row>, j: nat, row: nat)
    requires BlockedAt(rows, j, row)
    ensures FirstMarker(rows, j) > row
  {
  }

  /** `result[asm_name] = booth_data` for each recorded block in turn. */
  function Collect(blocks: seq<(string, Booths)>, acc: Assemblies): Assemblies {
    PutAll(acc, blocks)
  }

  /** `parse_sheet4_2024`: every row is read, the first included. */
  function Parse2024(rows: seq<Row>): Result<Assemblies, ParseError> {
    match ScanBlocks(rows, 0)
    case Failure(e) => Failure(e)
    case Success(blocks) => Success(Collect(blocks, []))
  }

  // ---------------------------------------------------------------------
  // Properties of the whole parse
  // ---------------------------------------------------------------------

  /** The sheet raises exactly when it has a faulty row, at the first one;
      otherwise its result maps each assembly name to the stations of the
      last marked block under that name, and every stored block has a
      station. */
  lemma Parse2024LastBlockWins(rows: seq<Row>)
    ensures Parse2024(rows).Failure? <==> exists k :: Fault(rows, 0, k)
    ensures Parse2024(rows).Failure? ==>
      var e := Parse2024(rows).error.row;
      Fault(rows, 0, e) && forall k :: Fault(rows, 0, k) ==> e <= k
    ensures Parse2024(rows).Success? ==>
      var r := Parse2024(rows).value; var blocks := MarkedBlocks(rows, 0);
      && NoDupKeys(r)
      && (forall name :: Get(r, name) == LastValue(blocks, name))
      && (forall i :: 0 <= i < |r| ==> r[i].1 != [])
  {
    ScanBlocksSpec(rows, 0);
    if Parse2024(rows).Success? {
      var blocks := ScanBlocks(rows, 0).value;
      PutAllGet([], blocks, "");
      forall name ensures Get(Collect(blocks, []), name) == LastValue(blocks, name) {
        PutAllGet([], blocks, name);
      }
    }
  }

  /** A block whose only station row (number 5) has a total of 0 leaves no
      entry at all, not an empty one. Any header row works: it is consumed
      as the header whatever it holds. */
  lemma ZeroTotalBlockLeavesNoEntry(name: string, hdr: Row, dr: Row)
    requires Strip(name) != ""
    requires |dr| > 1 && dr[1] == Int(5) && StationTotal(ParseHeader(hdr), dr) == 0
    ensures Parse2024([[Text(name), Empty], hdr, dr]) == Success([])
  {
    var rows := [[Text(name), Empty], hdr, dr];
    var h := ParseHeader(hdr);
    StripEmptyIff(name);
    assert IsMarker(rows[0]);
    assert StationRow(h, dr).None?;
    assert !IsMarker(rows[2]);
    assert BlockEnd(rows, 3) == Success(3);
    assert BlockEnd(rows, 2) == Success(3);
    assert AddStation(h, dr, []) == [];
    assert Stations(rows, 3, 3, h, []) == [];
    assert Stations(rows, 2, 3, h, []) == [];
    assert ScanBlock(rows, 2, h, []) == Success((3, []));
    assert ReadBlock(rows, 0) == Success((3, []));
    assert ScanBlocks(rows, 3) == Success([]);
  }
}
