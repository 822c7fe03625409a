/** The ends joined: what the counters and the report say about the heap of the traced process. */
module HeapReport {
  import opened Words
  import opened Kernel
  import opened MapSums
  import opened Conservation
  import opened GroupBy
  import opened Batch
  import Runs
  import H = Heap
  import opened HeapSoundness
  import opened HeapCompleteness
  import opened HeapOrigin
  import R = Report

  /** The probe an action fires, if any. */
  function ProbeOf(s: H.Sys, act: H.Action): seq<Runs.Probe> {
    if !H.Enabled(s, act) then []
    else if act.CallAlloc? then
      (if act.kind.Posix? then [Runs.PosixEnterProbe(act.tid, act.kind.memptr, act.req, act.clock)]
       else [Runs.AllocProbe(act.tid, act.req, act.clock)])
    else if act.CallRealloc? then [Runs.ReallocProbe(act.tid, act.ptr, act.req, act.clock)]
    else if act.Return? then
      (if H.Top(s, act.tid).kind.Posix? then [Runs.PosixExitProbe(act.tid, act.slot, act.now)]
       else [Runs.ReturnProbe(act.tid, act.r, act.now)])
    else if act.CallFree? then [Runs.FreeProbe(act.a)]
    else if act.FreeAgain? then [Runs.FreeProbe(H.Top(s, act.tid).address)]
    else []
  }

  function ProbesOf(c: Config, acts: seq<H.Action>): seq<Runs.Probe> {
    if acts == [] then []
    else
      var front := acts[..|acts| - 1];
      ProbesOf(c, front) + ProbeOf(H.After(c, front), acts[|acts| - 1])
  }

  /** The operations of the tracker in a schedule of the process. */
  function OpsIn(c: Config, acts: seq<H.Action>): seq<Runs.Op> {
    Runs.AllOpsOf(c, ProbesOf(c, acts))
  }

  lemma KernelFollows(c: Config, s: H.Sys, act: H.Action)
    ensures var ps := ProbeOf(s, act);
      |ps| <= 1 && H.Apply(c, s, act).k == if ps == [] then s.k else Runs.Fire(c, s.k, ps[0])
  {
    if H.Enabled(s, act) {
      if act.Return? {
        ReturnFires(c, s, act);
      } else if act.CallAlloc? {
        CallFires(c, s, act);
      }
    }
  }

  lemma ReturnFires(c: Config, s: H.Sys, act: H.Action)
    requires H.Enabled(s, act) && act.Return?
    ensures |ProbeOf(s, act)| == 1 && H.Apply(c, s, act).k == Runs.Fire(c, s.k, ProbeOf(s, act)[0])
  {
  }

  lemma CallFires(c: Config, s: H.Sys, act: H.Action)
    requires H.Enabled(s, act) && act.CallAlloc?
    ensures |ProbeOf(s, act)| == 1 && H.Apply(c, s, act).k == Runs.Fire(c, s.k, ProbeOf(s, act)[0])
  {
  }

  /** The tracker's part of any schedule is a run of probes. */
  lemma {:induction false} HeapRunsProbes(c: Config, acts: seq<H.Action>)
    ensures H.After(c, acts).k == Runs.FireAll(c, ProbesOf(c, acts))
  {
    if acts != [] {
      var front, act := acts[..|acts| - 1], acts[|acts| - 1];
      HeapRunsProbes(c, front);
      KernelFollows(c, H.After(c, front), act);
      var ps, p := ProbesOf(c, front), ProbeOf(H.After(c, front), act);
      if p == [] {
        assert ps + p == ps;
      } else {
        assert p == [p[0]] && (ps + p)[..|ps|] == ps;
      }
    }
  }

  /** So it leaves the tracking maps as a run of operations does. */
  lemma {:induction false} HeapRunsOps(c: Config, acts: seq<H.Action>)
    ensures var st, k := Runs.Run(c, OpsIn(c, acts)), H.After(c, acts).k;
      st.sizes == k.sizes && st.allocs == k.allocs && st.combined == k.combined
  {
    HeapRunsProbes(c, acts);
    Runs.ProbesAreOps(c, ProbesOf(c, acts));
  }

  // ----- Nothing is lost in an orderly schedule

  lemma LostNext(c: Config, ops: seq<Runs.Op>, op: Runs.Op)
    ensures Lost(c, ops + [op]) == Lost(c, ops) + LostBy(c, Runs.Run(c, ops), op)
  {
    assert (ops + [op])[..|ops|] == ops;
  }

  /** The exit of an orderly return neither overwrites nor is refused. */
  lemma ReturnLosesNothing(c: Config, s: H.Sys, act: H.Action, st: State)
    requires Inv(s) && InStep(s) && H.Enabled(s, act) && act.Return? && Orderly(c, s, act)
    requires st.sizes == s.k.sizes && st.allocs == s.k.allocs
    ensures var x := H.Reported(s, act.tid, act.r, act.slot);
      x.Some? ==> LostBy(c, st, Runs.Exit(act.tid, x.value, act.now)) == []
  {
    var t := act.tid;
    ReportedIsReturned(s, t, act.r, act.slot);
    assert Backed(s, t, H.Depth(s, t));
    if t in s.k.sizes {
      assert Fresh(s, t) && TopAlloc(H.StackOf(s, t)) == Some(H.Top(s, t));
      if H.Top(s, t).own.Some? {
        FewerRecordsThanLive(s, act.r);
      }
    }
  }

  lemma OpsNext(c: Config, acts: seq<H.Action>)
    requires acts != []
    ensures var front := acts[..|acts| - 1];
      var p := ProbeOf(H.After(c, front), acts[|acts| - 1]);
      OpsIn(c, acts) == if p == [] then OpsIn(c, front) else OpsIn(c, front) + Runs.OpsOf(H.After(c, front).k, p[0])
  {
    var front, act := acts[..|acts| - 1], acts[|acts| - 1];
    var ps, p := ProbesOf(c, front), ProbeOf(H.After(c, front), act);
    HeapRunsProbes(c, front);
    if p == [] {
      assert ps + p == ps;
    } else {
      assert p == [p[0]] && (ps + p)[..|ps|] == ps;
    }
  }

  lemma QuietNext(c: Config, ops: seq<Runs.Op>, op: Runs.Op)
    requires !op.Exit?
    ensures Lost(c, ops + [op]) == Lost(c, ops)
  {
    LostNext(c, ops, op);
  }

  lemma QuietPair(c: Config, ops: seq<Runs.Op>, first: Runs.Op, second: Runs.Op)
    requires !first.Exit? && !second.Exit?
    ensures Lost(c, ops + [first, second]) == Lost(c, ops)
  {
    QuietNext(c, ops, first);
    QuietNext(c, ops + [first], second);
    assert ops + [first] + [second] == ops + [first, second];
  }

  lemma EntryLosesNothing(c: Config, ops: seq<Runs.Op>, more: seq<Runs.Op>)
    requires 1 <= |more| <= 2 && forall i :: 0 <= i < |more| ==> !more[i].Exit?
    ensures Lost(c, ops + more) == Lost(c, ops)
  {
    if |more| == 1 {
      assert more == [more[0]];
      QuietNext(c, ops, more[0]);
    } else {
      assert more == [more[0], more[1]];
      QuietPair(c, ops, more[0], more[1]);
    }
  }

  lemma StepLosesNothing(c: Config, ops: seq<Runs.Op>, s: H.Sys, act: H.Action)
    requires Inv(s) && InStep(s) && Orderly(c, s, act) && ProbeOf(s, act) != []
    requires Runs.Run(c, ops).sizes == s.k.sizes && Runs.Run(c, ops).allocs == s.k.allocs
    ensures Lost(c, ops + Runs.OpsOf(s.k, ProbeOf(s, act)[0])) == Lost(c, ops)
  {
    var more := Runs.OpsOf(s.k, ProbeOf(s, act)[0]);
    if act.Return? {
      ReturnLosesNothing(c, s, act, Runs.Run(c, ops));
      var x := H.Reported(s, act.tid, act.r, act.slot);
      if x.None? {
        assert more == [];
        assert ops + more == ops;
      } else {
        assert more == [Runs.Exit(act.tid, x.value, act.now)];
        LostNext(c, ops, more[0]);
      }
    } else {
      EntryLosesNothing(c, ops, more);
    }
  }

  lemma {:induction false} OrderlyLosesNothing(c: Config, acts: seq<H.Action>)
    requires OrderlyRun(c, acts)
    ensures Lost(c, OpsIn(c, acts)) == []
  {
    if acts != [] {
      var front, act := acts[..|acts| - 1], acts[|acts| - 1];
      OrderlyPrefix(c, acts);
      OrderlyLosesNothing(c, front);
      OpsNext(c, acts);
      var s := H.After(c, front);
      if ProbeOf(s, act) != [] {
        AlwaysInv(c, front);
        MissesNothing(c, front);
        HeapRunsOps(c, front);
        StepLosesNothing(c, OpsIn(c, front), s, act);
      }
    }
  }

  // ----- The counters and the report of an orderly schedule

  /** In an orderly schedule every incremental counter is the modular total of the records of its
      stack, and the records are those of the addresses the program holds. */
  lemma {:induction false} OrderlyCountersExact(c: Config, acts: seq<H.Action>, stackId: S32)
    requires OrderlyRun(c, acts) && c.combinedOnly && StackKey(stackId) in H.After(c, acts).k.combined
    ensures ShowsLive(H.After(c, acts).k, stackId)
    ensures forall a :: a in H.After(c, acts).k.allocs <==> H.IsHeld(H.After(c, acts), a)
  {
    HeapRunsOps(c, acts);
    OrderlyLosesNothing(c, acts);
    CountersConserved(c, OpsIn(c, acts), stackId);
    ConservedNoLoss(Runs.Run(c, OpsIn(c, acts)), H.After(c, acts).k, stackId);
    forall a ensures a in H.After(c, acts).k.allocs <==> H.IsHeld(H.After(c, acts), a) {
      LeakSetIsComplete(c, acts, a);
    }
  }

  lemma ConservedNoLoss(st: State, k: State, s: S32)
    requires Conserved(st, [], s) && st.allocs == k.allocs && st.combined == k.combined
    ensures ShowsLive(k, s)
  {
  }

  function HeldAddresses(s: H.Sys): set<U64> {
    set a | a in s.status && s.status[a].Held?
  }

  lemma HeldAreRecords(c: Config, acts: seq<H.Action>)
    requires OrderlyRun(c, acts)
    ensures H.After(c, acts).k.allocs.Keys == HeldAddresses(H.After(c, acts))
  {
    var s := H.After(c, acts);
    forall a ensures a in s.k.allocs.Keys <==> a in HeldAddresses(s) {
      LeakSetIsComplete(c, acts, a);
    }
  }

  lemma RecordsAreHeldBlocks(c: Config, acts: seq<H.Action>)
    requires OrderlyRun(c, acts)
    ensures |H.After(c, acts).k.allocs| == |HeldAddresses(H.After(c, acts))|
  {
    HeldAreRecords(c, acts);
    assert |H.After(c, acts).k.allocs.Keys| == |H.After(c, acts).k.allocs|;
  }

  lemma AllKeptAllCounted(recs: seq<AllocInfo>, clock: nat -> U64, minAge: U64)
    requires AllKept(recs, clock, minAge) && |recs| < TWO64
    ensures CountSum(R.TallyOf(recs, clock, minAge).rows) == |recs|
  {
    R.TallyMeaning(recs, clock, minAge);
    AllSurvive(recs, clock, minAge);
    CountsAddUp(recs);
  }

  /** The report of an orderly schedule, when its filters hide nothing, counts every block the
      program holds exactly once and counts nothing else. */
  lemma {:induction false} ReportCountsHeldBlocks(c: Config, acts: seq<H.Action>, keys: seq<U64>, clock: nat -> U64, minAge: U64)
    requires OrderlyRun(c, acts) && c.allocsCap < TWO64
    requires Enumerates(keys, H.After(c, acts).k.allocs)
    requires AllKept(ValuesOf(keys, H.After(c, acts).k.allocs), clock, minAge)
    ensures R.Visited(keys) == keys
    ensures CountSum(R.TallyOf(ValuesOf(keys, H.After(c, acts).k.allocs), clock, minAge).rows) == |HeldAddresses(H.After(c, acts))|
  {
    var m := H.After(c, acts).k.allocs;
    HeapRunsOps(c, acts);
    WalkSeesEveryRecord(c, OpsIn(c, acts), keys);
    AllKeptAllCounted(ValuesOf(keys, m), clock, minAge);
    SumEnumeration(keys, m, CountOf(0));
    RecordsAreHeldBlocks(c, acts);
  }

  // ----- The rows of the report, told from the calls

  function AskedSize(s: S32): Request -> nat {
    (req: Request) => if req.stackId == s then req.size else 0
  }

  function AskedCount(s: S32): Request -> nat {
    (req: Request) => if req.stackId == s then 1 else 0
  }

  /** `asked` gives each held block the request of the call that it is charged to. */
  ghost predicate Asked(c: Config, acts: seq<H.Action>, asked: map<U64, Request>) {
    && asked.Keys == HeldAddresses(H.After(c, acts))
    && forall a :: a in asked ==> AskedWith(c, acts, a, asked[a])
  }

  lemma HeldBlocksAsked(c: Config, acts: seq<H.Action>) returns (asked: map<U64, Request>)
    requires OrderlyRun(c, acts)
    ensures Asked(c, acts, asked)
  {
    var held := HeldAddresses(H.After(c, acts));
    var fits := (a: U64, req: Request) => AskedWith(c, acts, a, req);
    forall a | a in held ensures exists req :: fits(a, req) {
      HeldAsked(c, acts, a);
      var req :| AskedWith(c, acts, a, req);
      assert fits(a, req);
    }
    asked := Choice(held, fits);
    assert forall a :: a in asked ==> fits(a, asked[a]);
  }

  /** Records and requests that agree have the same totals. */
  lemma SameSums(m: map<U64, AllocInfo>, asked: map<U64, Request>, s: S32)
    requires m.Keys == asked.Keys && forall a :: a in asked ==> m[a].size == asked[a].size && m[a].stackId == asked[a].stackId
    ensures Sum(m, SizeOf(s)) == Sum(asked, AskedSize(s)) && Sum(m, CountOf(s)) == Sum(asked, AskedCount(s))
  {
    SumAgrees(m, asked, SizeOf(s), AskedSize(s));
    SumAgrees(m, asked, CountOf(s), AskedCount(s));
  }

  lemma AskedSums(c: Config, acts: seq<H.Action>, m: map<U64, AllocInfo>, asked: map<U64, Request>, s: S32)
    requires OrderlyRun(c, acts) && Asked(c, acts, asked) && m == H.After(c, acts).k.allocs
    ensures Sum(m, SizeOf(s)) == Sum(asked, AskedSize(s)) && Sum(m, CountOf(s)) == Sum(asked, AskedCount(s))
  {
    HeldAreRecords(c, acts);
    forall a | a in asked ensures m[a].size == asked[a].size && m[a].stackId == asked[a].stackId {
      AskedRecord(c, acts, a, asked[a]);
    }
    SameSums(m, asked, s);
  }

  /** In an orderly schedule, when the filters hide nothing, the row of a stack shows the total
      size and the number of the held blocks that were asked for from that stack, and every held
      block is in such a row. The size and the stack are those the outermost wrapper asked with. */
  lemma {:induction false} RowsAreHeldBlocks(c: Config, acts: seq<H.Action>, keys: seq<U64>, clock: nat -> U64, minAge: U64,
                                             row: R.Row, asked: map<U64, Request>)
    requires OrderlyRun(c, acts) && Asked(c, acts, asked)
    requires Enumerates(keys, H.After(c, acts).k.allocs)
    requires AllKept(ValuesOf(keys, H.After(c, acts).k.allocs), clock, minAge)
    ensures var rows := R.TallyOf(ValuesOf(keys, H.After(c, acts).k.allocs), clock, minAge).rows;
      && (row in rows ==> row.size == Wrap(Sum(asked, AskedSize(row.stackId))))
      && (row in rows ==> row.count == Wrap(Sum(asked, AskedCount(row.stackId))))
      && forall a :: a in asked ==> R.HasRow(rows, asked[a].stackId)
  {
    var m := H.After(c, acts).k.allocs;
    var recs := ValuesOf(keys, m);
    var rows := R.TallyOf(recs, clock, minAge).rows;
    RowsExact(recs, clock, minAge, row);
    AskedSums(c, acts, m, asked, row.stackId);
    SumEnumeration(keys, m, SizeOf(row.stackId));
    SumEnumeration(keys, m, CountOf(row.stackId));
    forall a | a in asked ensures R.HasRow(rows, asked[a].stackId) {
      AskedRecord(c, acts, a, asked[a]);
      var n :| 0 <= n < |keys| && keys[n] == a;
      assert recs[n].stackId == asked[a].stackId;
    }
  }

  lemma RowsExact(recs: seq<AllocInfo>, clock: nat -> U64, minAge: U64, row: R.Row)
    requires AllKept(recs, clock, minAge)
    ensures var rows := R.TallyOf(recs, clock, minAge).rows;
      (row in rows ==> RowExact(row, recs)) && forall j :: 0 <= j < |recs| ==> R.HasRow(rows, recs[j].stackId)
  {
    AllSurvive(recs, clock, minAge);
    R.TallyMeaning(recs, clock, minAge);
    GroupIsExact(recs);
  }

  /** In an orderly schedule the report row of a counted stack equals its incremental counter,
      once the true totals fit the counter's fields. */
  lemma {:induction false} OrderlyBatchEqualsIncremental(c: Config, acts: seq<H.Action>, k: State, keys: seq<U64>,
                                                         recs: seq<AllocInfo>, clock: nat -> U64, minAge: U64, row: R.Row)
    requires OrderlyRun(c, acts) && c.combinedOnly && k == H.After(c, acts).k
    requires Enumerates(keys, k.allocs) && recs == ValuesOf(keys, k.allocs)
    requires AllKept(recs, clock, minAge) && row in R.TallyOf(recs, clock, minAge).rows
    requires StackKey(row.stackId) in k.combined
    requires Sum(k.allocs, SizeOf(row.stackId)) < 0x100_0000_0000
    requires Sum(k.allocs, CountOf(row.stackId)) < 0x100_0000
    ensures RowIsCounter(row, k.combined[StackKey(row.stackId)])
  {
    HeapRunsOps(c, acts);
    OrderlyLosesNothing(c, acts);
    AllSurvive(recs, clock, minAge);
    BatchEqualsIncremental(c, OpsIn(c, acts), Runs.Run(c, OpsIn(c, acts)), keys, recs, clock, minAge, row);
  }
}
