/** The canonical per-station election record (`election_field`), the vote
    shares it holds (`share`), and the per-row vote dictionary the parsers
    build from fixed columns. */
module Records {
  import opened Wrappers
  import opened Text
  import opened Cells
  import opened Dict

  /** A row's `party_votes` dict: party label to vote count. */
  type Votes = Dict<string, int>

  /** `sum(party_votes.values())`. */
  function SumValues(d: Votes): int {
    if d == [] then 0 else d[0].1 + SumValues(d[1..])
  }

  lemma {:induction false} SumValuesAppend(d: Votes, k: string, v: int)
    ensures SumValues(d + [(k, v)]) == SumValues(d) + v
  {
    if d != [] {
      assert (d + [(k, v)])[1..] == d[1..] + [(k, v)];
      SumValuesAppend(d[1..], k, v);
    }
  }

  /** `share(votes, total)`: the fraction of the total, and 0 when the total is
      not positive. The result is exact; the rounding to 6 decimal places is
      not modelled. */
  function Share(votes: int, total: int): (r: real)
    ensures total > 0 ==> r * total as real == votes as real
    ensures total <= 0 ==> r == 0.0
  {
    if total > 0 then votes as real / total as real else 0.0
  }

  /** One year's record for one station. */
  datatype Election = Election(year: int, totalVotes: int, candidates: map<string, real>)

  /** `election_field(year, party_votes, total)`: the year and total unchanged,
      one entry for every party with a non-empty label and a positive count,
      and that entry is the party's `Share` of the total. */
  function ElectionField(year: int, votes: Votes, total: int): (e: Election)
    ensures e.year == year && e.totalVotes == total
    ensures forall p :: p in e.candidates <==>
      p != "" && Get(votes, p).Some? && Get(votes, p).value > 0
    ensures forall p :: p in e.candidates ==> e.candidates[p] == Share(Get(votes, p).value, total)
  {
    Election(year, total, Shares(votes, total))
  }

  /** The candidates comprehension of `election_field`. */
  function Shares(votes: Votes, total: int): (m: map<string, real>)
    ensures forall p :: p in m <==> p != "" && Get(votes, p).Some? && Get(votes, p).value > 0
    ensures forall p :: p in m ==> m[p] == Share(Get(votes, p).value, total)
  {
    map p | p in Keys(votes) && p != "" && Get(votes, p).value > 0
      :: Share(Get(votes, p).value, total)
  }

  /** The `for col, name in PARTY_COLS: if col < len(row): v = si(row[col]);
      if v: party_votes[name] = v` loop, continuing from `acc`. */
  function ColumnVotes(cols: seq<(nat, string)>, row: Row, acc: Votes): Votes
    decreases |cols|
  {
    if cols == [] then acc
    else
      var col := cols[0].0;
      var acc' := if col < |row| && SafeInt(row[col]) != 0
        then Put(acc, cols[0].1, SafeInt(row[col])) else acc;
      ColumnVotes(cols[1..], row, acc')
  }

  /** The count a column contributes: `si` of the cell, 0 past the row's end. */
  function ColumnCount(row: Row, col: nat): int {
    if col < |row| then SafeInt(row[col]) else 0
  }

  /** Reference total of a column list: every column's count, zero or not. */
  function ColumnSum(cols: seq<(nat, string)>, row: Row): int {
    if cols == [] then 0 else ColumnCount(row, cols[0].0) + ColumnSum(cols[1..], row)
  }

  predicate DistinctNames(cols: seq<(nat, string)>) {
    forall i, j :: 0 <= i < j < |cols| ==> cols[i].1 != cols[j].1
  }

  function Names(cols: seq<(nat, string)>): set<string> {
    set i | 0 <= i < |cols| :: cols[i].1
  }

  /** The labels whose column holds a nonzero count. */
  function NonzeroNames(cols: seq<(nat, string)>, row: Row): set<string> {
    set i | 0 <= i < |cols| && ColumnCount(row, cols[i].0) != 0 :: cols[i].1
  }

  lemma NamesCons(cols: seq<(nat, string)>)
    requires cols != []
    ensures Names(cols) == {cols[0].1} + Names(cols[1..])
  {
    forall x | x in Names(cols) ensures x in {cols[0].1} + Names(cols[1..]) {
      var i :| 0 <= i < |cols| && cols[i].1 == x;
      if i > 0 { assert cols[1..][i - 1].1 == x; }
    }
    forall x | x in Names(cols[1..]) ensures x in Names(cols) {
      var i :| 0 <= i < |cols[1..]| && cols[1..][i].1 == x;
      assert cols[i + 1].1 == x;
    }
  }

  lemma NonzeroNamesCons(cols: seq<(nat, string)>, row: Row)
    requires cols != []
    ensures NonzeroNames(cols, row) ==
      (if ColumnCount(row, cols[0].0) != 0 then {cols[0].1} else {}) + NonzeroNames(cols[1..], row)
  {
    var nz := NonzeroNames(cols, row);
    var nz' := NonzeroNames(cols[1..], row);
    forall x | x in nz
      ensures x in (if ColumnCount(row, cols[0].0) != 0 then {cols[0].1} else {}) + nz'
    {
      var i :| 0 <= i < |cols| && ColumnCount(row, cols[i].0) != 0 && cols[i].1 == x;
      if i > 0 { assert cols[1..][i - 1] == cols[i]; }
    }
    forall x | x in nz' ensures x in nz {
      var i :| 0 <= i < |cols[1..]| && ColumnCount(row, cols[1..][i].0) != 0 && cols[1..][i].1 == x;
      assert cols[i + 1] == cols[1..][i];
    }
  }

  lemma DistinctNamesTail(cols: seq<(nat, string)>)
    requires cols != [] && DistinctNames(cols)
    ensures DistinctNames(cols[1..])
    ensures cols[0].1 !in Names(cols[1..])
  {
    forall i, j | 0 <= i < j < |cols[1..]| ensures cols[1..][i].1 != cols[1..][j].1 {
      assert cols[1..][i] == cols[i + 1] && cols[1..][j] == cols[j + 1];
    }
    forall i | 0 <= i < |cols[1..]| ensures cols[1..][i].1 != cols[0].1 {
      assert cols[1..][i] == cols[i + 1];
    }
  }

  /** One step of the loop. */
  function ColumnStep(col: (nat, string), row: Row, acc: Votes): Votes {
    if col.0 < |row| && SafeInt(row[col.0]) != 0 then Put(acc, col.1, SafeInt(row[col.0])) else acc
  }

  lemma ColumnVotesUnfold(cols: seq<(nat, string)>, row: Row, acc: Votes)
    requires cols != []
    ensures ColumnVotes(cols, row, acc) == ColumnVotes(cols[1..], row, ColumnStep(cols[0], row, acc))
  {
  }

  /** With distinct labels not already present, the loop keeps the dict free of
      repeated keys and adds the column sum to the total. */
  lemma {:induction false} ColumnVotesSum(cols: seq<(nat, string)>, row: Row, acc: Votes)
    requires DistinctNames(cols) && Names(cols) !! Keys(acc) && NoDupKeys(acc)
    ensures NoDupKeys(ColumnVotes(cols, row, acc))
    ensures SumValues(ColumnVotes(cols, row, acc)) == SumValues(acc) + ColumnSum(cols, row)
    decreases |cols|
  {
    if cols != [] {
      NamesCons(cols);
      DistinctNamesTail(cols);
      var acc' := ColumnStep(cols[0], row, acc);
      if ColumnCount(row, cols[0].0) != 0 {
        SumValuesAppend(acc, cols[0].1, ColumnCount(row, cols[0].0));
      }
      ColumnVotesUnfold(cols, row, acc);
      ColumnVotesSum(cols[1..], row, acc');
    }
  }

  /** The loop adds exactly the labels whose column holds a nonzero count, each
      with that count, and leaves every other label as it was. */
  lemma {:induction false} ColumnVotesEntries(cols: seq<(nat, string)>, row: Row, acc: Votes)
    requires DistinctNames(cols) && Names(cols) !! Keys(acc)
    ensures var r := ColumnVotes(cols, row, acc);
      && Keys(r) == Keys(acc) + NonzeroNames(cols, row)
      && (forall i :: 0 <= i < |cols| && ColumnCount(row, cols[i].0) != 0 ==>
            Get(r, cols[i].1) == Some(ColumnCount(row, cols[i].0)))
      && (forall k :: k !in Names(cols) ==> Get(r, k) == Get(acc, k))
    decreases |cols|
  {
    if cols != [] {
      NamesCons(cols);
      DistinctNamesTail(cols);
      NonzeroNamesCons(cols, row);
      var acc' := ColumnStep(cols[0], row, acc);
      ColumnVotesUnfold(cols, row, acc);
      ColumnVotesEntries(cols[1..], row, acc');
      var r := ColumnVotes(cols, row, acc);
      forall i | 0 <= i < |cols| && ColumnCount(row, cols[i].0) != 0
        ensures Get(r, cols[i].1) == Some(ColumnCount(row, cols[i].0))
      {
        if i > 0 {
          assert cols[1..][i - 1] == cols[i];
        }
      }
    }
  }
}
