/**
 * The alignment matrix editor (class Alignment): rows of characters with a
 * label each, the gap count of every column, and the gap interval table
 * (for every column s, the distinct lengths of the '-' runs that start at s).
 *
 * The source keeps gap proportions as doubles; this model keeps their
 * numerators, the gap counts, so that a proportion is gapCounts[j] divided by
 * the number of rows. An interval list the source leaves null is the empty
 * sequence here: the source never creates an empty non-null list.
 */
module Aln {
  import opened Util

  // ------------------------------------------------------------ gap runs

  /** Length of the '-' run starting at s (0 if row[s] is not a gap). */
  function RunLen(row: seq<char>, s: nat): (r: nat)
    requires s <= |row|
    ensures s + r <= |row|
    decreases |row| - s
  {
    if s < |row| && row[s] == '-' then 1 + RunLen(row, s + 1) else 0
  }

  /** s starts a maximal '-' run. */
  predicate RunStart(row: seq<char>, s: nat)
  {
    s < |row| && row[s] == '-' && (s == 0 || row[s - 1] != '-')
  }

  /** A run starting at s that a non-gap character closes. */
  predicate ClosedRun(row: seq<char>, s: nat)
  {
    RunStart(row, s) && s + RunLen(row, s) < |row|
  }

  /** A run starting at s that reaches the end of the row. */
  predicate TrailingRun(row: seq<char>, s: nat)
  {
    RunStart(row, s) && s + RunLen(row, s) == |row|
  }

  /** Where the '-' run ending just before j starts (j itself if row[j-1] is not a gap). */
  function GapStart(row: seq<char>, j: nat): (r: nat)
    requires j <= |row|
    ensures r <= j
  {
    if j > 0 && row[j - 1] == '-' then GapStart(row, j - 1) else j
  }

  /** Adds a length to an interval list unless it is already there. */
  function Record(list: seq<int>, len: int): (r: seq<int>)
    ensures len in r && forall x :: x in r <==> x in list || x == len
  {
    if len in list then list else list + [len]
  }

  /** The interval table after updateGapIntervals' scan of one more row: closed runs are recorded. */
  function RecordRow(table: seq<seq<int>>, row: seq<char>): (r: seq<seq<int>>)
    ensures |r| == |table|
  {
    seq(|table|, s requires 0 <= s < |table| =>
      if ClosedRun(row, s) then Record(table[s], RunLen(row, s)) else table[s])
  }

  /** The interval table after fillAlignment's scan of one more row: a trailing run replaces the list at its start. */
  function FillRow(table: seq<seq<int>>, row: seq<char>): (r: seq<seq<int>>)
    ensures |r| == |table|
  {
    seq(|table|, s requires 0 <= s < |table| =>
      if ClosedRun(row, s) then Record(table[s], RunLen(row, s))
      else if TrailingRun(row, s) then [RunLen(row, s)]
      else table[s])
  }

  /** updateGapIntervals over the given rows, from an empty table of cols lists. */
  function Intervals(rows: seq<seq<char>>, cols: nat): (r: seq<seq<int>>)
    ensures |r| == cols
  {
    if rows == [] then seq(cols, _ => []) else RecordRow(Intervals(rows[..|rows| - 1], cols), rows[|rows| - 1])
  }

  /** fillAlignment's interval table over the given rows. */
  function FillIntervals(rows: seq<seq<char>>, cols: nat): (r: seq<seq<int>>)
    ensures |r| == cols
  {
    if rows == [] then seq(cols, _ => []) else FillRow(FillIntervals(rows[..|rows| - 1], cols), rows[|rows| - 1])
  }

  // ------------------------------------------------------------ facts about runs

  /** A run is all gaps and is followed by the row end or a non-gap. */
  lemma {:induction false} RunLenFacts(row: seq<char>, s: nat)
    requires s <= |row|
    ensures forall u :: s <= u < s + RunLen(row, s) ==> row[u] == '-'
    ensures s + RunLen(row, s) == |row| || row[s + RunLen(row, s)] != '-'
    decreases |row| - s
  {
    if s < |row| && row[s] == '-' {
      RunLenFacts(row, s + 1);
    }
  }

  /** Gaps from s up to j followed by the row end or a non-gap: the run from s ends at j. */
  lemma {:induction false} RunLenUpTo(row: seq<char>, s: nat, j: nat)
    requires s <= j <= |row|
    requires forall u :: s <= u < j ==> row[u] == '-'
    requires j == |row| || row[j] != '-'
    ensures s + RunLen(row, s) == j
    decreases j - s
  {
    if s < j {
      RunLenUpTo(row, s + 1, j);
    }
  }

  /** What GapStart finds: gaps from it up to j, preceded by the row start or a non-gap. */
  lemma {:induction false} GapStartFacts(row: seq<char>, j: nat)
    requires j <= |row|
    ensures forall u :: GapStart(row, j) <= u < j ==> row[u] == '-'
    ensures GapStart(row, j) == 0 || row[GapStart(row, j) - 1] != '-'
  {
    if j > 0 && row[j - 1] == '-' {
      GapStartFacts(row, j - 1);
    }
  }

  /** Walking back from j over gaps stops at the start s of the run. */
  lemma {:induction false} GapStartOfRun(row: seq<char>, s: nat, j: nat)
    requires s <= j <= |row|
    requires s == 0 || row[s - 1] != '-'
    requires forall u :: s <= u < j ==> row[u] == '-'
    ensures GapStart(row, j) == s
  {
    if j > s {
      GapStartOfRun(row, s, j - 1);
    }
  }

  /** The runs ending at j: exactly the one found by GapStart, if j is the row end or a non-gap. */
  lemma RunsEndingAt(row: seq<char>, j: nat)
    requires j <= |row|
    ensures forall s: nat :: RunStart(row, s) && s + RunLen(row, s) == j <==>
      (j == |row| || row[j] != '-') && GapStart(row, j) < j && s == GapStart(row, j)
  {
    GapStartFacts(row, j);
    var g := GapStart(row, j);
    if (j == |row| || row[j] != '-') && g < j {
      RunLenUpTo(row, g, j);
    }
    forall s: nat | RunStart(row, s) && s + RunLen(row, s) == j
      ensures (j == |row| || row[j] != '-') && g < j && s == g
    {
      RunLenFacts(row, s);
      GapStartOfRun(row, s, j);
    }
  }

  /**
   * The row scan shared by fillAlignment, updateGapIntervals and addSequence:
   * closing a run at its first non-gap records its length at its start; with
   * closeTrailing (fillAlignment) a run reaching the row end replaces the
   * list at its start with its length alone.
   */
  method ScanRow(table: seq<seq<int>>, row: seq<char>, closeTrailing: bool) returns (t: seq<seq<int>>)
    requires |table| == |row|
    ensures t == if closeTrailing then FillRow(table, row) else RecordRow(table, row)
  {
    var firstGapIndex;
    t, firstGapIndex := ScanClosedRuns(table, row);
    RunsEndingAt(row, |row|);
    if closeTrailing && firstGapIndex != -1 {
      t := t[firstGapIndex := [|row| - firstGapIndex]];
    }
  }

  /**
   * The loop of the row scan: every run closed by a non-gap is recorded, and
   * the start of a run still open at the row end (or -1) is returned.
   */
  method ScanClosedRuns(table: seq<seq<int>>, row: seq<char>) returns (t: seq<seq<int>>, firstGapIndex: int)
    requires |table| == |row|
    ensures t == RecordRow(table, row)
    ensures firstGapIndex == if GapStart(row, |row|) < |row| then GapStart(row, |row|) else -1
  {
    t := table;
    firstGapIndex := -1;
    var previousChar := 'n';
    for j := 0 to |row|
      invariant previousChar == if j == 0 then 'n' else row[j - 1]
      invariant firstGapIndex == if GapStart(row, j) < j then GapStart(row, j) else -1
      invariant |t| == |table|
      invariant forall s :: 0 <= s < |t| ==>
        t[s] == if RunStart(row, s) && s + RunLen(row, s) < j then Record(table[s], RunLen(row, s)) else table[s]
    {
      RunsEndingAt(row, j);
      var c := row[j];
      if c == '-' {
        if previousChar != '-' {
          if firstGapIndex == -1 {
            firstGapIndex := j;
          }
        }
      } else {
        if firstGapIndex != -1 {
          var length := j - firstGapIndex;
          if length !in t[firstGapIndex] {
            t := t[firstGapIndex := t[firstGapIndex] + [length]];
          }
          firstGapIndex := -1;
        }
      }
      previousChar := c;
    }
    RunsEndingAt(row, |row|);
  }

  // ------------------------------------------------------------ interval tables

  /** No list of the table holds a length twice. */
  ghost predicate ListsDistinct(table: seq<seq<int>>)
  {
    forall s :: 0 <= s < |table| ==> Distinct(table[s])
  }

  lemma RecordKeepsDistinct(list: seq<int>, len: int)
    requires Distinct(list)
    ensures Distinct(Record(list, len))
  {
    if len !in list {
      var r := list + [len];
      forall i, j | 0 <= i < j < |r| ensures r[i] != r[j] {
        if j == |list| { assert r[i] == list[i]; }
      }
    }
  }

  /**
   * updateGapIntervals: list s holds exactly the lengths of the runs starting
   * at s that a non-gap closes in some row; runs reaching the row end are not
   * recorded.
   */
  lemma {:induction false} IntervalsMembership(rows: seq<seq<char>>, cols: nat, s: nat, len: int)
    requires s < cols
    ensures len in Intervals(rows, cols)[s] <==>
      exists i :: 0 <= i < |rows| && ClosedRun(rows[i], s) && RunLen(rows[i], s) == len
  {
    if rows != [] {
      var init := rows[..|rows| - 1];
      var last := rows[|rows| - 1];
      IntervalsMembership(init, cols, s, len);
      if exists i :: 0 <= i < |rows| && ClosedRun(rows[i], s) && RunLen(rows[i], s) == len {
        var i :| 0 <= i < |rows| && ClosedRun(rows[i], s) && RunLen(rows[i], s) == len;
        if i < |rows| - 1 {
          assert init[i] == rows[i];
        }
      }
      if len in Intervals(rows, cols)[s] && !(len in Intervals(init, cols)[s]) {
        assert ClosedRun(last, s) && RunLen(last, s) == len;
      }
      if len in Intervals(init, cols)[s] {
        var i :| 0 <= i < |init| && ClosedRun(init[i], s) && RunLen(init[i], s) == len;
        assert rows[i] == init[i];
      }
    }
  }

  /** The lists of updateGapIntervals never hold a length twice. */
  lemma {:induction false} IntervalsDistinct(rows: seq<seq<char>>, cols: nat)
    ensures ListsDistinct(Intervals(rows, cols))
  {
    if rows != [] {
      var init := rows[..|rows| - 1];
      IntervalsDistinct(init, cols);
      forall s | 0 <= s < cols ensures Distinct(Intervals(rows, cols)[s]) {
        if ClosedRun(rows[|rows| - 1], s) {
          RecordKeepsDistinct(Intervals(init, cols)[s], RunLen(rows[|rows| - 1], s));
        }
      }
    }
  }

  /** Row i records len at s: a run of that length starts there, closed or trailing. */
  predicate RecordsAt(row: seq<char>, s: nat, len: int)
  {
    RunStart(row, s) && RunLen(row, s) == len
  }

  /**
   * fillAlignment: list s holds exactly the lengths recorded at s by some
   * row after which no row has a run reaching its end from s (such a run
   * replaces the whole list).
   */
  lemma {:induction false} FillIntervalsMembership(rows: seq<seq<char>>, cols: nat, s: nat, len: int)
    requires s < cols
    ensures len in FillIntervals(rows, cols)[s] <==>
      exists i :: 0 <= i < |rows| && RecordsAt(rows[i], s, len)
        && forall i' :: i < i' < |rows| ==> !TrailingRun(rows[i'], s)
  {
    if rows != [] {
      var n := |rows| - 1;
      if TrailingRun(rows[n], s) {
        FillAfterTrailing(rows, cols, s, len);
      } else {
        FillIntervalsMembership(rows[..n], cols, s, len);
        FillAfterOther(rows, cols, s, len);
      }
    }
  }

  /** Some row records len at s and no later row ends in a run from s. */
  ghost predicate LastRecorded(rows: seq<seq<char>>, s: nat, len: int)
  {
    exists i :: 0 <= i < |rows| && RecordsAt(rows[i], s, len)
      && forall i' :: i < i' < |rows| ==> !TrailingRun(rows[i'], s)
  }

  /** A last row ending in a run from s leaves that run's length alone in list s. */
  lemma FillAfterTrailing(rows: seq<seq<char>>, cols: nat, s: nat, len: int)
    requires s < cols && rows != [] && TrailingRun(rows[|rows| - 1], s)
    ensures len in FillIntervals(rows, cols)[s] <==> LastRecorded(rows, s, len)
  {
    var n := |rows| - 1;
    if LastRecorded(rows, s, len) {
      var i :| 0 <= i < |rows| && RecordsAt(rows[i], s, len)
        && forall i' :: i < i' < |rows| ==> !TrailingRun(rows[i'], s);
      assert i == n;
    }
    if len in FillIntervals(rows, cols)[s] {
      assert RecordsAt(rows[n], s, len);
    }
  }

  /** Any other last row adds at most its closed run from s to list s and keeps the rest. */
  lemma FillAfterOther(rows: seq<seq<char>>, cols: nat, s: nat, len: int)
    requires s < cols && rows != [] && !TrailingRun(rows[|rows| - 1], s)
    requires len in FillIntervals(rows[..|rows| - 1], cols)[s] <==> LastRecorded(rows[..|rows| - 1], s, len)
    ensures len in FillIntervals(rows, cols)[s] <==> LastRecorded(rows, s, len)
  {
    var last := rows[|rows| - 1];
    assert len in FillIntervals(rows, cols)[s] <==>
      len in FillIntervals(rows[..|rows| - 1], cols)[s] || (ClosedRun(last, s) && RunLen(last, s) == len);
    LastRecordedSnoc(rows, s, len);
  }

  /** Below a last row that does not end in a run from s, the witnesses are the earlier ones and the last row. */
  lemma LastRecordedSnoc(rows: seq<seq<char>>, s: nat, len: int)
    requires rows != [] && !TrailingRun(rows[|rows| - 1], s)
    ensures LastRecorded(rows, s, len) <==>
      LastRecorded(rows[..|rows| - 1], s, len) || RecordsAt(rows[|rows| - 1], s, len)
  {
    var n := |rows| - 1;
    var init := rows[..n];
    if LastRecorded(rows, s, len) {
      var i :| 0 <= i < |rows| && RecordsAt(rows[i], s, len)
        && forall i' :: i < i' < |rows| ==> !TrailingRun(rows[i'], s);
      if i < n {
        LastRecordedInPrefix(rows, s, len, i);
      }
    }
    if LastRecorded(init, s, len) {
      var i :| 0 <= i < |init| && RecordsAt(init[i], s, len)
        && forall i' :: i < i' < |init| ==> !TrailingRun(init[i'], s);
      assert rows[i] == init[i];
      forall i' | i < i' < |rows| ensures !TrailingRun(rows[i'], s) {
        if i' < n { assert rows[i'] == init[i']; }
      }
    }
  }

  /** A witness before the last row is a witness of the rows without the last. */
  lemma LastRecordedInPrefix(rows: seq<seq<char>>, s: nat, len: int, i: nat)
    requires i < |rows| - 1 && RecordsAt(rows[i], s, len)
    requires forall i' :: i < i' < |rows| ==> !TrailingRun(rows[i'], s)
    ensures LastRecorded(rows[..|rows| - 1], s, len)
  {
    var init := rows[..|rows| - 1];
    assert init[i] == rows[i];
    forall i' | i < i' < |init| ensures !TrailingRun(init[i'], s) {
      assert init[i'] == rows[i'];
    }
  }

  /** The lists of fillAlignment never hold a length twice. */
  lemma {:induction false} FillIntervalsDistinct(rows: seq<seq<char>>, cols: nat)
    ensures ListsDistinct(FillIntervals(rows, cols))
  {
    if rows != [] {
      var init := rows[..|rows| - 1];
      FillIntervalsDistinct(init, cols);
      forall s | 0 <= s < cols ensures Distinct(FillIntervals(rows, cols)[s]) {
        if ClosedRun(rows[|rows| - 1], s) {
          RecordKeepsDistinct(FillIntervals(init, cols)[s], RunLen(rows[|rows| - 1], s));
        }
      }
    }
  }

  // ------------------------------------------------------------ gap counts

  /** Column j of the rows. */
  function Column(rows: seq<seq<char>>, j: nat): seq<char>
    requires forall i :: 0 <= i < |rows| ==> j < |rows[i]|
  {
    seq(|rows|, i requires 0 <= i < |rows| => rows[i][j])
  }

  /** The counts after one more row: +1 where the row has a gap. */
  function WithRowGaps(counts: seq<int>, row: seq<char>): (r: seq<int>)
    requires |row| == |counts|
    ensures |r| == |counts|
  {
    seq(|counts|, j requires 0 <= j < |counts| => counts[j] + if row[j] == '-' then 1 else 0)
  }

  /** The counting loops of the source: every row adds its gaps, starting from zero. */
  function GapCounts(rows: seq<seq<char>>, cols: nat): (r: seq<int>)
    requires forall i :: 0 <= i < |rows| ==> |rows[i]| == cols
    ensures |r| == cols
  {
    if rows == [] then seq(cols, _ => 0) else WithRowGaps(GapCounts(rows[..|rows| - 1], cols), rows[|rows| - 1])
  }

  /** One more row adds its gaps to the column counts. */
  lemma GapCountsSnoc(rows: seq<seq<char>>, row: seq<char>, cols: nat)
    requires Uniform(rows, cols) && |row| == cols
    ensures Uniform(rows + [row], cols)
    ensures GapCounts(rows + [row], cols) == WithRowGaps(GapCounts(rows, cols), row)
  {
    assert (rows + [row])[..|rows|] == rows;
  }

  /** The per-column gap count is the number of rows holding '-' in that column. */
  lemma {:induction false} GapCountsAreColumnGaps(rows: seq<seq<char>>, cols: nat, j: nat)
    requires forall i :: 0 <= i < |rows| ==> |rows[i]| == cols
    requires j < cols
    ensures GapCounts(rows, cols)[j] == multiset(Column(rows, j))['-']
  {
    if rows != [] {
      var init := rows[..|rows| - 1];
      GapCountsAreColumnGaps(init, cols, j);
      assert Column(rows, j) == Column(init, j) + [rows[|rows| - 1][j]];
    }
  }

  // ------------------------------------------------------------ column removal

  /** The unflagged column indices, in increasing order. */
  function Kept(mask: seq<bool>): seq<nat>
  {
    if mask == [] then [] else Kept(mask[..|mask| - 1]) + (if mask[|mask| - 1] then [] else [|mask| - 1])
  }

  /** A row restricted to the unflagged columns, as reduceAlignment copies it with its shift counter. */
  function KeepColumns(row: seq<char>, mask: seq<bool>): seq<char>
    requires |row| == |mask|
  {
    if row == [] then []
    else KeepColumns(row[..|row| - 1], mask[..|mask| - 1]) + (if mask[|mask| - 1] then [] else [row[|row| - 1]])
  }

  /** Kept lists exactly the unflagged columns, increasing, and there are |mask| minus the flagged ones. */
  lemma KeptFacts(mask: seq<bool>)
    ensures |Kept(mask)| == |mask| - multiset(mask)[true]
    ensures forall t :: 0 <= t < |Kept(mask)| ==> Kept(mask)[t] < |mask| && !mask[Kept(mask)[t]]
    ensures forall t, u :: 0 <= t < u < |Kept(mask)| ==> Kept(mask)[t] < Kept(mask)[u]
    ensures forall j :: 0 <= j < |mask| && !mask[j] ==> j in Kept(mask)
  {
    KeptLength(mask);
    KeptOrdered(mask);
    KeptComplete(mask);
  }

  lemma {:induction false} KeptLength(mask: seq<bool>)
    ensures |Kept(mask)| == |mask| - multiset(mask)[true]
  {
    if mask != [] {
      var init := mask[..|mask| - 1];
      KeptLength(init);
      assert mask == init + [mask[|mask| - 1]];
      assert multiset(mask) == multiset(init) + multiset{mask[|mask| - 1]};
    }
  }

  lemma {:induction false} KeptOrdered(mask: seq<bool>)
    ensures forall t :: 0 <= t < |Kept(mask)| ==> Kept(mask)[t] < |mask| && !mask[Kept(mask)[t]]
    ensures forall t, u :: 0 <= t < u < |Kept(mask)| ==> Kept(mask)[t] < Kept(mask)[u]
  {
    if mask != [] {
      var init := mask[..|mask| - 1];
      KeptOrdered(init);
      forall t | 0 <= t < |Kept(init)| ensures !mask[Kept(init)[t]] {
        assert mask[Kept(init)[t]] == init[Kept(init)[t]];
      }
    }
  }

  lemma {:induction false} KeptComplete(mask: seq<bool>)
    ensures forall j :: 0 <= j < |mask| && !mask[j] ==> j in Kept(mask)
  {
    if mask != [] {
      var init := mask[..|mask| - 1];
      KeptComplete(init);
      forall j | 0 <= j < |mask| && !mask[j] ensures j in Kept(mask) {
        if j < |mask| - 1 {
          assert init[j] == mask[j];
        }
      }
    }
  }

  /** A reduced row holds exactly the characters of the unflagged columns, in their original order. */
  lemma {:induction false} KeepColumnsIsKept(row: seq<char>, mask: seq<bool>)
    requires |row| == |mask|
    ensures |KeepColumns(row, mask)| == |Kept(mask)|
    ensures forall t :: 0 <= t < |Kept(mask)| ==> Kept(mask)[t] < |row| && KeepColumns(row, mask)[t] == row[Kept(mask)[t]]
  {
    KeptOrdered(mask);
    if row != [] {
      var n := |row| - 1;
      KeepColumnsIsKept(row[..n], mask[..n]);
      forall t | 0 <= t < |Kept(mask)| ensures KeepColumns(row, mask)[t] == row[Kept(mask)[t]] {
        if t < |Kept(mask[..n])| {
          assert Kept(mask)[t] == Kept(mask[..n])[t];
        }
      }
    }
  }

  /** Recording one row keeps every list free of repeats. */
  lemma RecordRowKeepsDistinct(table: seq<seq<int>>, row: seq<char>)
    requires ListsDistinct(table)
    ensures ListsDistinct(RecordRow(table, row))
  {
    forall s | 0 <= s < |table| ensures Distinct(RecordRow(table, row)[s]) {
      if ClosedRun(row, s) {
        RecordKeepsDistinct(table[s], RunLen(row, s));
      }
    }
  }

  // ------------------------------------------------------------ the alignment

  /** Every row has cols columns. */
  ghost predicate Uniform(rows: seq<seq<char>>, cols: nat)
  {
    forall i :: 0 <= i < |rows| ==> |rows[i]| == cols
  }

  /** Exactly one label equals the given one. */
  ghost predicate UniqueLabel(labels: seq<string>, name: string)
  {
    exists i :: 0 <= i < |labels| && labels[i] == name && forall j :: 0 <= j < |labels| && labels[j] == name ==> j == i
  }

  /** The first row carrying the label. */
  function FirstIndex(labels: seq<string>, name: string): (r: nat)
    requires name in labels
    ensures r < |labels| && labels[r] == name
    ensures forall j :: 0 <= j < r ==> labels[j] != name
  {
    if labels[0] == name then 0 else 1 + FirstIndex(labels[1..], name)
  }

  /** Which columns reduceAlignment drops: gap proportion count/rows at least the ratio num/den. */
  function RemovalMask(counts: seq<int>, rows: nat, num: int, den: int): (r: seq<bool>)
    ensures |r| == |counts|
  {
    seq(|counts|, j requires 0 <= j < |counts| => counts[j] * den >= num * rows)
  }

  /** The first loop of reduceAlignment: the flag of every column and the number of flagged columns. */
  method FlagColumns(counts: seq<int>, rows: nat, num: int, den: int) returns (toRemove: seq<bool>, removed: int)
    ensures toRemove == RemovalMask(counts, rows, num, den)
    ensures removed == multiset(toRemove)[true]
  {
    toRemove := [];
    removed := 0;
    for j := 0 to |counts|
      invariant toRemove == RemovalMask(counts, rows, num, den)[..j]
      invariant removed == multiset(toRemove)[true]
    {
      var flag := counts[j] * den >= num * rows;
      if flag {
        removed := removed + 1;
      }
      assert multiset(toRemove + [flag]) == multiset(toRemove) + multiset{flag};
      toRemove := toRemove + [flag];
    }
  }

  /** The copy loop of reduceAlignment for one row: unflagged columns move left by the number of flagged ones before them. */
  method CopyKeptColumns(row: seq<char>, toRemove: seq<bool>) returns (newRow: seq<char>)
    requires |row| == |toRemove|
    ensures newRow == KeepColumns(row, toRemove)
  {
    newRow := [];
    var shift := 0;
    for j := 0 to |row|
      invariant newRow == KeepColumns(row[..j], toRemove[..j])
      invariant |newRow| == j - shift
    {
      assert row[..j + 1][..j] == row[..j] && toRemove[..j + 1][..j] == toRemove[..j];
      if toRemove[j] {
        shift := shift + 1;
        continue;
      }
      newRow := newRow + [row[j]];
    }
    assert row[..|row|] == row && toRemove[..|row|] == toRemove;
  }

  /**
   * The copy loop of reduceAlignment: every row loses its flagged columns,
   * and the gaps of the new rows are counted as they are copied.
   */
  method CopyAndCount(matrix: seq<seq<char>>, toRemove: seq<bool>) returns (newMatrix: seq<seq<char>>, counts: seq<int>)
    requires Uniform(matrix, |toRemove|)
    ensures |newMatrix| == |matrix|
    ensures forall i :: 0 <= i < |matrix| ==> newMatrix[i] == KeepColumns(matrix[i], toRemove)
    ensures Uniform(newMatrix, |toRemove| - multiset(toRemove)[true])
    ensures counts == GapCounts(newMatrix, |toRemove| - multiset(toRemove)[true])
  {
    KeptFacts(toRemove);
    var newCols := |toRemove| - multiset(toRemove)[true];
    newMatrix := [];
    counts := seq(newCols, _ => 0);
    for i := 0 to |matrix|
      invariant |newMatrix| == i
      invariant forall t :: 0 <= t < i ==> newMatrix[t] == KeepColumns(matrix[t], toRemove)
      invariant Uniform(newMatrix, newCols)
      invariant counts == GapCounts(newMatrix, newCols)
    {
      var row := matrix[i];
      var newRow := CopyKeptColumns(row, toRemove);
      KeepColumnsIsKept(row, toRemove);
      assert (newMatrix + [newRow])[..i] == newMatrix;
      counts := WithRowGaps(counts, newRow);
      newMatrix := newMatrix + [newRow];
    }
  }

  /** A sequence without its element k (unchanged when it has none). */
  ghost function Drop<T>(s: seq<T>, k: nat): seq<T>
  {
    if k < |s| then s[..k] + s[k + 1..] else s
  }

  /** Dropping element k from a prefix one longer: element i is skipped when it is k, else appended. */
  lemma DropSnoc<T>(s: seq<T>, i: nat, k: nat)
    requires i < |s|
    ensures Drop(s[..i + 1], k) == if i == k then Drop(s[..i], k) else Drop(s[..i], k) + [s[i]]
  {
    var p, q := s[..i], s[..i + 1];
    assert q == p + [s[i]];
    if k < i {
      assert q[k + 1..] == p[k + 1..] + [s[i]];
    }
  }

  /** A label held by exactly one row is held by no row but its first. */
  lemma OnlyRowWithLabel(labels: seq<string>, name: string, j: nat)
    requires UniqueLabel(labels, name) && j < |labels|
    ensures name in labels
    ensures labels[j] == name <==> j == FirstIndex(labels, name)
  {
    var i :| 0 <= i < |labels| && labels[i] == name && forall j :: 0 <= j < |labels| && labels[j] == name ==> j == i;
    assert labels[i] == name;
  }

  /** Once its only row is dropped, the label is gone. */
  lemma LabelDropped(labels: seq<string>, name: string)
    requires UniqueLabel(labels, name)
    ensures name in labels
    ensures var k := FirstIndex(labels, name); name !in labels[..k] + labels[k + 1..]
  {
    var i :| 0 <= i < |labels| && labels[i] == name && forall j :: 0 <= j < |labels| && labels[j] == name ==> j == i;
    assert labels[i] == name;
    var k := FirstIndex(labels, name);
    var rest := labels[..k] + labels[k + 1..];
    forall j | 0 <= j < |rest|
      ensures rest[j] != name
    {
      if j < k {
        assert rest[j] == labels[j];
      } else {
        assert rest[j] == labels[j + 1];
      }
    }
  }

  /**
   * The copy loop of removeSequence: every row but the one labelled name is
   * copied, in order, and the gap counts of the copied rows are summed.
   */
  method CopyAllRowsBut(rows: seq<seq<char>>, labels: seq<string>, name: string, cols: nat)
    returns (newMatrix: seq<seq<char>>, newLabels: seq<string>, counts: seq<int>)
    requires |labels| == |rows| && Uniform(rows, cols) && UniqueLabel(labels, name)
    ensures var k := FirstIndex(labels, name);
      && newMatrix == rows[..k] + rows[k + 1..]
      && newLabels == labels[..k] + labels[k + 1..]
    ensures name !in newLabels
    ensures Uniform(newMatrix, cols)
    ensures counts == GapCounts(newMatrix, cols)
  {
    LabelDropped(labels, name);
    ghost var k := FirstIndex(labels, name);
    var found := false;
    newMatrix := [];
    newLabels := [];
    var shift := 0;
    counts := seq(cols, _ => 0);
    for i := 0 to |labels|
      invariant found <==> i > k
      invariant shift == if found then 1 else 0
      invariant newMatrix == Drop(rows[..i], k) && newLabels == Drop(labels[..i], k)
      invariant Uniform(newMatrix, cols)
      invariant counts == GapCounts(newMatrix, cols)
    {
      OnlyRowWithLabel(labels, name, i);
      DropSnoc(rows, i, k);
      DropSnoc(labels, i, k);
      if labels[i] == name {
        found := true;
        shift := shift + 1;
        continue;
      }
      GapCountsSnoc(newMatrix, rows[i], cols);
      newLabels := newLabels + [labels[i]];
      newMatrix := newMatrix + [rows[i]];
      counts := WithRowGaps(counts, rows[i]);
    }
    assert rows[..|labels|] == rows && labels[..|labels|] == labels;
    assert found;
  }

  class Alignment {
    /** charMatrix[row][column] */
    var charMatrix: seq<seq<char>>
    var rowLabels: seq<string>
    /** The numerators of the gap proportions: gapProportions[j] == gapCounts[j] / |charMatrix|. */
    var gapCounts: seq<int>
    /** gapIntervals[s]: the recorded gap run lengths starting at column s. */
    var gapIntervals: seq<seq<int>>
    var reduced: bool
    var reducedColumnCount: int

    ghost predicate Valid()
      reads this
    {
      && |charMatrix| >= 1
      && |rowLabels| == |charMatrix|
      && Uniform(charMatrix, |charMatrix[0]|)
      && |gapCounts| == |charMatrix[0]|
      && |gapIntervals| == |charMatrix[0]|
      && ListsDistinct(gapIntervals)
    }

    /** Alignment(fastas): the rows in the given order, with their labels. */
    constructor (rows: seq<seq<char>>, labels: seq<string>)
      requires |rows| >= 1 && Uniform(rows, |rows[0]|) && |labels| == |rows|
      ensures Valid()
      ensures charMatrix == rows && rowLabels == labels
      ensures gapCounts == GapCounts(rows, |rows[0]|)
      ensures gapIntervals == FillIntervals(rows, |rows[0]|)
      ensures !reduced && reducedColumnCount == 0
    {
      charMatrix := [];
      rowLabels := [];
      gapCounts := [];
      gapIntervals := [];
      reduced := false;
      reducedColumnCount := 0;
      new;
      FillAlignment(rows, labels);
    }

    /** fillAlignment: copies the rows and labels, counts the gaps and builds the interval table. */
    method FillAlignment(rows: seq<seq<char>>, labels: seq<string>)
      requires |rows| >= 1 && Uniform(rows, |rows[0]|) && |labels| == |rows|
      modifies this`charMatrix, this`rowLabels, this`gapCounts, this`gapIntervals
      ensures Valid()
      ensures charMatrix == rows && rowLabels == labels
      ensures gapCounts == GapCounts(rows, |rows[0]|)
      ensures gapIntervals == FillIntervals(rows, |rows[0]|)
    {
      var cols := |rows[0]|;
      var counts := seq(cols, _ => 0);
      var table: seq<seq<int>> := seq(cols, _ => []);
      var matrix: seq<seq<char>> := [];
      var names: seq<string> := [];
      for i := 0 to |rows|
        invariant matrix == rows[..i] && names == labels[..i]
        invariant counts == GapCounts(rows[..i], cols)
        invariant table == FillIntervals(rows[..i], cols)
      {
        ghost var next := rows[..i + 1];
        assert next[..i] == rows[..i] && next[i] == rows[i];
        assert FillIntervals(next, cols) == FillRow(FillIntervals(rows[..i], cols), rows[i]);
        assert GapCounts(next, cols) == WithRowGaps(GapCounts(rows[..i], cols), rows[i]);
        table := ScanRow(table, rows[i], true);
        counts := WithRowGaps(counts, rows[i]);
        matrix := matrix + [rows[i]];
        names := names + [labels[i]];
      }
      assert rows[..|rows|] == rows && labels[..|labels|] == labels;
      charMatrix := matrix;
      rowLabels := names;
      gapCounts := counts;
      gapIntervals := table;
      FillIntervalsDistinct(rows, cols);
    }

    /** updateGapIntervals: rebuilds the interval table from the current rows, closed runs only. */
    method UpdateGapIntervals()
      requires |charMatrix| >= 1 && Uniform(charMatrix, |charMatrix[0]|)
      modifies this`gapIntervals
      ensures gapIntervals == Intervals(charMatrix, |charMatrix[0]|)
      ensures ListsDistinct(gapIntervals)
    {
      var cols := |charMatrix[0]|;
      var table: seq<seq<int>> := seq(cols, _ => []);
      for i := 0 to |charMatrix|
        invariant table == Intervals(charMatrix[..i], cols)
      {
        assert charMatrix[..i + 1][..i] == charMatrix[..i];
        table := ScanRow(table, charMatrix[i], false);
      }
      assert charMatrix[..|charMatrix|] == charMatrix;
      gapIntervals := table;
      IntervalsDistinct(charMatrix, cols);
    }

    /**
     * reduceAlignment(ratio), with ratio == num / den: drops every column whose
     * gap proportion is at least the ratio, then recounts gaps and rebuilds
     * the interval table.
     */
    method ReduceAlignment(num: int, den: int)
      requires Valid() && den > 0
      modifies this`charMatrix, this`gapCounts, this`gapIntervals, this`reduced, this`reducedColumnCount
      ensures Valid()
      ensures reducedColumnCount == multiset(RemovalMask(old(gapCounts), old(|charMatrix|), num, den))[true]
      ensures |charMatrix| == old(|charMatrix|)
      ensures forall i :: 0 <= i < |charMatrix| ==>
        charMatrix[i] == KeepColumns(old(charMatrix)[i], RemovalMask(old(gapCounts), old(|charMatrix|), num, den))
      ensures |charMatrix[0]| == old(|charMatrix[0]|) - reducedColumnCount
      ensures rowLabels == old(rowLabels)
      ensures gapCounts == GapCounts(charMatrix, |charMatrix[0]|)
      ensures gapIntervals == Intervals(charMatrix, |charMatrix[0]|)
      ensures reduced
    {
      var matrix := charMatrix;
      var rows := |matrix|;
      var cols := |matrix[0]|;
      var toRemove, removed := FlagColumns(gapCounts, rows, num, den);
      reducedColumnCount := removed;
      var newMatrix, counts := CopyAndCount(matrix, toRemove);
      charMatrix := newMatrix;
      gapCounts := counts;
      UpdateGapIntervals();
      reduced := true;
    }

    /**
     * addSequence: appends a row and its label and records the row's closed
     * gap runs. The gap proportions are reset before the update, so the counts
     * afterwards are those of the new row alone.
     */
    method AddSequence(name: string, row: seq<char>)
      requires Valid() && |row| == |charMatrix[0]|
      modifies this`charMatrix, this`rowLabels, this`gapCounts, this`gapIntervals
      ensures Valid()
      ensures charMatrix == old(charMatrix) + [row]
      ensures rowLabels == old(rowLabels) + [name]
      ensures gapCounts == GapCounts([row], |row|)
      ensures gapIntervals == RecordRow(old(gapIntervals), row)
    {
      charMatrix := charMatrix + [row];
      rowLabels := rowLabels + [name];
      var cols := |row|;
      // reset gap proportions, then add the increments of the last row
      var counts := seq(cols, _ => 0);
      counts := WithRowGaps(counts, row);
      assert [row][..0] == [];
      gapCounts := counts;
      RecordRowKeepsDistinct(gapIntervals, row);
      gapIntervals := ScanRow(gapIntervals, row, false);
    }

    /** addAllSequences: appends the rows and labels in order, recounts all gaps and rebuilds the intervals. */
    method AddAllSequences(labels: seq<string>, seqs: seq<seq<char>>)
      requires Valid() && |labels| == |seqs| && Uniform(seqs, |charMatrix[0]|)
      modifies this`charMatrix, this`rowLabels, this`gapCounts, this`gapIntervals
      ensures Valid()
      ensures charMatrix == old(charMatrix) + seqs
      ensures rowLabels == old(rowLabels) + labels
      ensures gapCounts == GapCounts(charMatrix, |charMatrix[0]|)
      ensures gapIntervals == Intervals(charMatrix, |charMatrix[0]|)
    {
      var cols := |charMatrix[0]|;
      var newMatrix := charMatrix + seqs;
      charMatrix := newMatrix;
      var counts := seq(cols, _ => 0);
      for i := 0 to |newMatrix|
        invariant counts == GapCounts(newMatrix[..i], cols)
      {
        assert newMatrix[..i + 1][..i] == newMatrix[..i];
        counts := WithRowGaps(counts, newMatrix[i]);
      }
      assert newMatrix[..|newMatrix|] == newMatrix;
      gapCounts := counts;
      rowLabels := rowLabels + labels;
      UpdateGapIntervals();
    }

    /**
     * removeSequence: deletes the row carrying the label, keeping the order of
     * the others, recounts all gaps and rebuilds the intervals.
     */
    method RemoveSequence(name: string)
      requires Valid() && |charMatrix| >= 2 && UniqueLabel(rowLabels, name)
      modifies this`charMatrix, this`rowLabels, this`gapCounts, this`gapIntervals
      ensures Valid()
      ensures var k := FirstIndex(old(rowLabels), name);
        && charMatrix == old(charMatrix)[..k] + old(charMatrix)[k + 1..]
        && rowLabels == old(rowLabels)[..k] + old(rowLabels)[k + 1..]
      ensures name !in rowLabels
      ensures gapCounts == GapCounts(charMatrix, |charMatrix[0]|)
      ensures gapIntervals == Intervals(charMatrix, |charMatrix[0]|)
    {
      var newMatrix, newLabels, counts := CopyAllRowsBut(charMatrix, rowLabels, name, |charMatrix[0]|);
      rowLabels := newLabels;
      charMatrix := newMatrix;
      gapCounts := counts;
      UpdateGapIntervals();
    }

    /** getLength: the number of columns, the same in every row. */
    function GetLength(): (r: int)
      reads this
      requires Valid()
      ensures forall i :: 0 <= i < |charMatrix| ==> |charMatrix[i]| == r
    {
      |charMatrix[0]|
    }
  }
}
