/** The report is an exact group-by of the surviving records. */
module GroupBy {
  import opened Words
  import opened Kernel
  import opened MapSums
  import opened Sorting
  import opened Conservation
  import opened Report

  /** `frames` are those of the first record of the stack. */
  ghost predicate FirstFrames(recs: seq<AllocInfo>, stackId: S32, frames: ManualStack) {
    exists j :: 0 <= j < |recs| && recs[j].stackId == stackId && recs[j].frames == frames
      && forall i :: 0 <= i < j ==> recs[i].stackId != stackId
  }

  ghost predicate RowExact(row: Row, recs: seq<AllocInfo>) {
    && row.size == Wrap(SeqSum(recs, SizeOf(row.stackId)))
    && row.count == Wrap(SeqSum(recs, CountOf(row.stackId)))
    && FirstFrames(recs, row.stackId, row.frames)
  }

  /** One row per stack that occurs, each with the totals of its records. */
  ghost predicate Grouped(rows: seq<Row>, recs: seq<AllocInfo>) {
    && (forall i, j :: 0 <= i < j < |rows| ==> rows[i].stackId != rows[j].stackId)
    && (forall i :: 0 <= i < |rows| ==> RowExact(rows[i], recs))
    && (forall j :: 0 <= j < |recs| ==> HasRow(rows, recs[j].stackId))
  }

  lemma SeqSumSnoc(recs: seq<AllocInfo>, rec: AllocInfo, w: AllocInfo -> nat)
    ensures SeqSum(recs + [rec], w) == SeqSum(recs, w) + w(rec)
  {
    assert (recs + [rec])[..|recs|] == recs;
  }

  lemma FirstFramesStay(recs: seq<AllocInfo>, rec: AllocInfo, s: S32, frames: ManualStack)
    requires FirstFrames(recs, s, frames)
    ensures FirstFrames(recs + [rec], s, frames)
  {
    var j :| 0 <= j < |recs| && recs[j].stackId == s && recs[j].frames == frames
      && forall i :: 0 <= i < j ==> recs[i].stackId != s;
    var all := recs + [rec];
    assert all[j] == recs[j] && forall i :: 0 <= i < j ==> all[i] == recs[i];
  }

  lemma OtherRowStays(row: Row, recs: seq<AllocInfo>, rec: AllocInfo)
    requires RowExact(row, recs) && rec.stackId != row.stackId
    ensures RowExact(row, recs + [rec])
  {
    SeqSumSnoc(recs, rec, SizeOf(row.stackId));
    SeqSumSnoc(recs, rec, CountOf(row.stackId));
    FirstFramesStay(recs, rec, row.stackId, row.frames);
  }

  lemma GrownRowExact(row: Row, recs: seq<AllocInfo>, rec: AllocInfo)
    requires RowExact(row, recs) && rec.stackId == row.stackId
    ensures RowExact(row.(size := Add(row.size, rec.size), count := Add(row.count, 1)), recs + [rec])
  {
    SeqSumSnoc(recs, rec, SizeOf(row.stackId));
    SeqSumSnoc(recs, rec, CountOf(row.stackId));
    WrapCongruent(SeqSum(recs, SizeOf(row.stackId)), rec.size);
    WrapCongruent(SeqSum(recs, CountOf(row.stackId)), 1);
    FirstFramesStay(recs, rec, row.stackId, row.frames);
  }

  lemma NewRowExact(recs: seq<AllocInfo>, rec: AllocInfo)
    requires !HasStack(recs, rec.stackId)
    ensures RowExact(Row(rec.stackId, rec.size, 1, rec.frames), recs + [rec])
  {
    NoStackNoSum(recs, rec.stackId);
    SeqSumSnoc(recs, rec, SizeOf(rec.stackId));
    SeqSumSnoc(recs, rec, CountOf(rec.stackId));
    var all := recs + [rec];
    assert all[|recs|] == rec;
    forall i | 0 <= i < |recs| ensures all[i].stackId != rec.stackId {
      assert all[i] == recs[i];
    }
  }

  lemma RowsStayDistinct(rows: seq<Row>, recs: seq<AllocInfo>, rec: AllocInfo)
    requires Grouped(rows, recs)
    ensures var rows' := Put(rows, rec);
      && (forall i, j :: 0 <= i < j < |rows'| ==> rows'[i].stackId != rows'[j].stackId)
      && (forall j :: 0 <= j < |recs + [rec]| ==> HasRow(rows', (recs + [rec])[j].stackId))
  {
    var rows' := Put(rows, rec);
    var k := RowOf(rows, rec.stackId);
    assert forall i :: 0 <= i < |rows| ==> rows'[i].stackId == rows[i].stackId;
    assert rows'[k].stackId == rec.stackId;
    forall j | 0 <= j < |recs + [rec]| ensures HasRow(rows', (recs + [rec])[j].stackId) {
      if j < |recs| {
        assert HasRow(rows, recs[j].stackId);
        var i :| 0 <= i < |rows| && rows[i].stackId == recs[j].stackId;
        assert rows'[i].stackId == recs[j].stackId;
      }
    }
  }

  lemma PutKeepsGrouped(rows: seq<Row>, recs: seq<AllocInfo>, rec: AllocInfo)
    requires Grouped(rows, recs)
    ensures Grouped(Put(rows, rec), recs + [rec])
  {
    var rows' := Put(rows, rec);
    var k := RowOf(rows, rec.stackId);
    RowsStayDistinct(rows, recs, rec);
    forall i | 0 <= i < |rows'| ensures RowExact(rows'[i], recs + [rec]) {
      if i < |rows| {
        assert RowExact(rows[i], recs);
        if i == k {
          GrownRowExact(rows[i], recs, rec);
        } else {
          assert k < |rows| ==> rows[i].stackId != rows[k].stackId;
          OtherRowStays(rows[i], recs, rec);
        }
      } else {
        NewRowExact(recs, rec);
      }
    }
  }

  /** Grouping any list of records is exact. */
  lemma {:induction false} GroupIsExact(recs: seq<AllocInfo>)
    ensures Grouped(GroupRows(recs), recs)
  {
    if recs != [] {
      var n := |recs| - 1;
      GroupIsExact(recs[..n]);
      PutKeepsGrouped(GroupRows(recs[..n]), recs[..n], recs[n]);
      assert recs[..n] + [recs[n]] == recs;
    }
  }

  function CountSum(rows: seq<Row>): nat {
    if rows == [] then 0 else CountSum(rows[..|rows| - 1]) + rows[|rows| - 1].count
  }

  lemma {:induction false} CountSumUpdate(rows: seq<Row>, i: nat, row: Row)
    requires i < |rows|
    ensures CountSum(rows[i := row]) == CountSum(rows) - rows[i].count + row.count
    decreases |rows|
  {
    var n := |rows| - 1;
    if i < n {
      CountSumUpdate(rows[..n], i, row);
      assert rows[i := row][..n] == rows[..n][i := row];
    } else {
      assert rows[i := row][..n] == rows[..n];
    }
  }

  lemma {:induction false} CountBelowSum(rows: seq<Row>, i: nat)
    requires i < |rows|
    ensures rows[i].count <= CountSum(rows)
    decreases |rows|
  {
    if i < |rows| - 1 {
      CountBelowSum(rows[..|rows| - 1], i);
    }
  }

  lemma PutCounts(rows: seq<Row>, rec: AllocInfo)
    requires CountSum(rows) < U64_MAX
    ensures CountSum(Put(rows, rec)) == CountSum(rows) + 1
  {
    var k := RowOf(rows, rec.stackId);
    if k < |rows| {
      CountBelowSum(rows, k);
      assert Add(rows[k].count, 1) == rows[k].count + 1;
      CountSumUpdate(rows, k, rows[k].(size := Add(rows[k].size, rec.size), count := Add(rows[k].count, 1)));
    } else {
      CountSumSnoc(rows, Row(rec.stackId, rec.size, 1, rec.frames));
    }
  }

  lemma CountSumSnoc(rows: seq<Row>, row: Row)
    ensures CountSum(rows + [row]) == CountSum(rows) + row.count
  {
    assert (rows + [row])[..|rows|] == rows;
  }

  /** The counts of the rows add up to the number of records. */
  lemma {:induction false} CountsAddUp(recs: seq<AllocInfo>)
    requires |recs| < TWO64
    ensures CountSum(GroupRows(recs)) == |recs|
  {
    if recs != [] {
      CountsAddUp(recs[..|recs| - 1]);
      PutCounts(GroupRows(recs[..|recs| - 1]), recs[|recs| - 1]);
    }
  }

  /** The record has no stack at all, which the report does not count as missing. */
  predicate Unavailable(rec: AllocInfo, now: U64, minAge: U64) {
    !TooYoung(rec, now, minAge) && rec.stackId == -EFAULT
  }

  lemma {:induction false} EveryVisitCounted(recs: seq<AllocInfo>, clock: nat -> U64, minAge: U64)
    ensures |recs| == Count(recs, clock, minAge, TooYoung) + Count(recs, clock, minAge, Unavailable)
                      + Count(recs, clock, minAge, Missing) + |Survivors(recs, clock, minAge)|
    ensures Count(recs, clock, minAge, Collision) <= Count(recs, clock, minAge, Missing)
  {
    if recs != [] {
      EveryVisitCounted(recs[..|recs| - 1], clock, minAge);
    }
  }

  /** Every visited record is accounted for once: too young, without a stack, counted as
      missing, or in exactly one row; collisions are among the missing. */
  lemma {:induction false} ReportAccountsForEveryRecord(recs: seq<AllocInfo>, clock: nat -> U64, minAge: U64)
    requires |recs| < TWO64
    ensures var t := TallyOf(recs, clock, minAge);
      && |recs| == Count(recs, clock, minAge, TooYoung) + Count(recs, clock, minAge, Unavailable) + t.missing + CountSum(t.rows)
      && t.collision <= t.missing
  {
    TallyMeaning(recs, clock, minAge);
    EveryVisitCounted(recs, clock, minAge);
    CountsAddUp(Survivors(recs, clock, minAge));
  }

  /** A permutation of exact rows: one per stack, none for a stack that did not survive. */
  lemma PermutedRowsExact(shown: seq<Row>, rows: seq<Row>, kept: seq<AllocInfo>, row: Row)
    requires multiset(shown) == multiset(rows) && Grouped(rows, kept)
    requires row in shown
    ensures RowExact(row, kept) && multiset(shown)[row] == 1
    ensures forall other :: other in shown && other.stackId == row.stackId ==> other == row
  {
    SameElements(shown, rows);
    assert row in rows;
    OnlyOnce(rows, row);
    forall other | other in shown && other.stackId == row.stackId ensures other == row {
      assert other in rows;
    }
  }

  lemma StackIsShown(shown: seq<Row>, rows: seq<Row>, kept: seq<AllocInfo>, j: nat)
    requires multiset(shown) == multiset(rows) && Grouped(rows, kept)
    requires j < |kept|
    ensures HasRow(shown, kept[j].stackId)
  {
    SameElements(shown, rows);
    assert HasRow(rows, kept[j].stackId);
    var i :| 0 <= i < |rows| && rows[i].stackId == kept[j].stackId;
    assert rows[i] in rows && rows[i] in shown;
  }

  /** The printed report has exactly one exact row per stack of a surviving record. */
  lemma {:induction false} ReportIsGroupBy(recs: seq<AllocInfo>, clock: nat -> U64, minAge: U64, shown: seq<Row>, row: Row, j: nat)
    requires multiset(shown) == multiset(TallyOf(recs, clock, minAge).rows)
    ensures row in shown ==>
      && RowExact(row, Survivors(recs, clock, minAge)) && multiset(shown)[row] == 1
      && forall other :: other in shown && other.stackId == row.stackId ==> other == row
    ensures j < |Survivors(recs, clock, minAge)| ==> HasRow(shown, Survivors(recs, clock, minAge)[j].stackId)
  {
    var kept := Survivors(recs, clock, minAge);
    var rows := GroupRows(kept);
    TallyMeaning(recs, clock, minAge);
    GroupIsExact(kept);
    if row in shown {
      PermutedRowsExact(shown, rows, kept, row);
    }
    if j < |kept| {
      StackIsShown(shown, rows, kept, j);
    }
  }

  lemma {:induction false} OnlyOnce(rows: seq<Row>, row: Row)
    requires forall i, j :: 0 <= i < j < |rows| ==> rows[i].stackId != rows[j].stackId
    requires row in rows
    ensures multiset(rows)[row] == 1
    decreases |rows|
  {
    var n := |rows| - 1;
    assert rows == rows[..n] + [rows[n]];
    if rows[n] == row {
      assert row !in rows[..n];
    } else {
      OnlyOnce(rows[..n], row);
    }
  }
}
