/** The report, a batch computation, against the counters the kernel side keeps incrementally. */
module Batch {
  import opened Words
  import opened Kernel
  import opened MapSums
  import opened Runs
  import opened Conservation
  import opened Report
  import opened GroupBy
  import opened Provenance

  /** On the tracker's own map the walk from cursor 0 visits every record exactly once. */
  lemma {:induction false} WalkSeesEveryRecord(c: Config, ops: seq<Op>, keys: seq<U64>)
    requires Enumerates(keys, Run(c, ops).allocs)
    ensures Visited(keys) == keys
    ensures |GroupRows(ValuesOf(keys, Run(c, ops).allocs))| <= |keys| <= c.allocsCap
  {
    NeverRecordsNull(c, ops);
    assert 0 !in keys;
    SumEnumeration(keys, Run(c, ops).allocs, CountOf(0));
    RowsAtMostRecords(ValuesOf(keys, Run(c, ops).allocs));
  }

  lemma {:induction false} RowsAtMostRecords(recs: seq<AllocInfo>)
    ensures |GroupRows(recs)| <= |recs|
  {
    if recs != [] {
      RowsAtMostRecords(recs[..|recs| - 1]);
    }
  }

  /** The age and stack filters let every record pass. */
  predicate AllKept(recs: seq<AllocInfo>, clock: nat -> U64, minAge: U64) {
    forall p :: 0 <= p < |recs| ==> Kept(recs[p], clock(p), minAge)
  }

  lemma {:induction false} AllSurvive(recs: seq<AllocInfo>, clock: nat -> U64, minAge: U64)
    requires AllKept(recs, clock, minAge)
    ensures Survivors(recs, clock, minAge) == recs
  {
    if recs != [] {
      AllSurvive(recs[..|recs| - 1], clock, minAge);
    }
  }

  /** The row of a stack shows exactly what its incremental counter shows. */
  predicate RowIsCounter(row: Row, counter: Combined) {
    row.size == counter.total && row.count == counter.number
  }

  lemma SmallTotalsUnwrapped(row: Row, counter: Combined, size: nat, count: nat)
    requires size < 0x100_0000_0000 && count < 0x100_0000
    requires row.size == Wrap(size) && row.count == Wrap(count) && Agrees(counter, size, count)
    ensures RowIsCounter(row, counter)
  {
  }

  /** A run in which no record of `s` was overwritten or refused. */
  ghost predicate NoneLost(c: Config, ops: seq<Op>, s: S32) {
    SeqSum(Lost(c, ops), SizeOf(s)) == 0 && SeqSum(Lost(c, ops), CountOf(s)) == 0
  }

  lemma {:induction false} CounterOfLive(c: Config, ops: seq<Op>, keys: seq<U64>, s: S32)
    requires c.combinedOnly && Enumerates(keys, Run(c, ops).allocs)
    requires StackKey(s) in Run(c, ops).combined && NoneLost(c, ops, s)
    ensures var recs := ValuesOf(keys, Run(c, ops).allocs);
      Agrees(Run(c, ops).combined[StackKey(s)], SeqSum(recs, SizeOf(s)), SeqSum(recs, CountOf(s)))
  {
    CountersConserved(c, ops, s);
    SumEnumeration(keys, Run(c, ops).allocs, SizeOf(s));
    SumEnumeration(keys, Run(c, ops).allocs, CountOf(s));
  }

  /** Batch equals incremental: after any run, whatever the counters went through on the way, the
      report row of a counted stack equals its counter, provided nothing of the stack was lost,
      the filters hide nothing, and the true totals fit the counter. */
  lemma {:induction false} BatchEqualsIncremental(c: Config, ops: seq<Op>, st: State, keys: seq<U64>, recs: seq<AllocInfo>,
                                                  clock: nat -> U64, minAge: U64, row: Row)
    requires c.combinedOnly && st == Run(c, ops)
    requires Enumerates(keys, st.allocs) && recs == ValuesOf(keys, st.allocs)
    requires Survivors(recs, clock, minAge) == recs && row in TallyOf(recs, clock, minAge).rows
    requires StackKey(row.stackId) in st.combined && NoneLost(c, ops, row.stackId)
    requires Sum(st.allocs, SizeOf(row.stackId)) < 0x100_0000_0000
    requires Sum(st.allocs, CountOf(row.stackId)) < 0x100_0000
    ensures Visited(keys) == keys
    ensures RowIsCounter(row, st.combined[StackKey(row.stackId)])
  {
    var s := row.stackId;
    WalkSeesEveryRecord(c, ops, keys);
    TallyMeaning(recs, clock, minAge);
    GroupIsExact(recs);
    assert RowExact(row, recs);
    SumEnumeration(keys, st.allocs, SizeOf(s));
    SumEnumeration(keys, st.allocs, CountOf(s));
    CounterOfLive(c, ops, keys, s);
    SmallTotalsUnwrapped(row, st.combined[StackKey(s)], SeqSum(recs, SizeOf(s)), SeqSum(recs, CountOf(s)));
  }

  lemma {:induction false} KeptSurvives(recs: seq<AllocInfo>, clock: nat -> U64, minAge: U64, p: nat)
    requires p < |recs| && Kept(recs[p], clock(p), minAge)
    ensures recs[p] in Survivors(recs, clock, minAge)
  {
    var n := |recs| - 1;
    if p < n {
      KeptSurvives(recs[..n], clock, minAge, p);
      assert recs[..n][p] == recs[p];
    }
  }

  /** The p-th visited record is the first of its stack that the filters keep. */
  predicate FirstKept(recs: seq<AllocInfo>, clock: nat -> U64, minAge: U64, stackId: S32, p: nat) {
    && p < |recs| && recs[p].stackId == stackId && Kept(recs[p], clock(p), minAge)
    && forall q :: 0 <= q < p && Kept(recs[q], clock(q), minAge) ==> recs[q].stackId != stackId
  }

  /** The first survivor of a stack is the first visited record of the stack that is kept. */
  lemma {:induction false} FirstSurvivor(recs: seq<AllocInfo>, clock: nat -> U64, minAge: U64, stackId: S32, j: nat) returns (p: nat)
    requires j < |Survivors(recs, clock, minAge)| && Survivors(recs, clock, minAge)[j].stackId == stackId
    requires forall i :: 0 <= i < j ==> Survivors(recs, clock, minAge)[i].stackId != stackId
    ensures FirstKept(recs, clock, minAge, stackId, p) && recs[p] == Survivors(recs, clock, minAge)[j]
  {
    var n := |recs| - 1;
    var front, before := recs[..n], Survivors(recs[..n], clock, minAge);
    if j < |before| {
      assert forall i :: 0 <= i < |before| ==> Survivors(recs, clock, minAge)[i] == before[i];
      p := FirstSurvivor(front, clock, minAge, stackId, j);
    } else {
      p := n;
      forall q | 0 <= q < p && Kept(recs[q], clock(q), minAge) ensures recs[q].stackId != stackId {
        KeptSurvives(front, clock, minAge, q);
        var i :| 0 <= i < |before| && before[i] == front[q];
        assert Survivors(recs, clock, minAge)[i] == before[i];
      }
    }
  }

  /** The frames printed for a stack are those of its first visited kept record, at the address
      `keys[p]`; the exit at `i` stored that record for the request made by the entry at `j`, whose
      stack it is and whose leading readable non-zero words, each minus one, at most eight, they are. */
  lemma {:induction false} RowFramesCaptured(c: Config, ops: seq<Op>, keys: seq<U64>, clock: nat -> U64, minAge: U64, row: Row)
    returns (p: nat, j: nat, i: nat)
    requires Enumerates(keys, Run(c, ops).allocs)
    requires row in TallyOf(ValuesOf(keys, Run(c, ops).allocs), clock, minAge).rows
    ensures FirstKept(ValuesOf(keys, Run(c, ops).allocs), clock, minAge, row.stackId, p)
    ensures keys[p] in Run(c, ops).allocs && Run(c, ops).allocs[keys[p]].frames == row.frames
    ensures RecordedBy(ops, keys[p], Run(c, ops).allocs[keys[p]], j, i)
    ensures ops[j].req.stackId == row.stackId && IsLeadingRun(ops[j].req.words, row.frames, 8)
  {
    var recs := ValuesOf(keys, Run(c, ops).allocs);
    p := RowComesFrom(recs, clock, minAge, row);
    assert keys[p] in keys;
    j, i := RecordFrames(c, ops, keys[p]);
  }

  lemma RowComesFrom(recs: seq<AllocInfo>, clock: nat -> U64, minAge: U64, row: Row) returns (p: nat)
    requires row in TallyOf(recs, clock, minAge).rows
    ensures FirstKept(recs, clock, minAge, row.stackId, p) && recs[p].frames == row.frames
  {
    var kept := Survivors(recs, clock, minAge);
    TallyMeaning(recs, clock, minAge);
    GroupIsExact(kept);
    assert RowExact(row, kept);
    var n :| 0 <= n < |kept| && kept[n].stackId == row.stackId && kept[n].frames == row.frames
      && forall m :: 0 <= m < n ==> kept[m].stackId != row.stackId;
    p := FirstSurvivor(recs, clock, minAge, row.stackId, n);
  }
}
