/** Interleaved runs of the tracker. Every probe of `memleak.bpf.c` is a short sequence of
    three primitive operations, so statements about all operation sequences cover all
    schedules of all threads and all probes, in whatever order they fire. */
module Runs {
  import opened Words
  import opened Kernel

  datatype Op =
    | Enter(tid: Tid, req: Request, clock: U64)
    | Exit(tid: Tid, address: U64, now: U64)
    | Free(address: U64)

  function Step(c: Config, st: State, op: Op): State {
    match op
    case Enter(tid, req, clock) => AllocEnter(c, st, tid, req, clock)
    case Exit(tid, address, now) => AllocExit(c, st, tid, address, now)
    case Free(address) => FreeEnter(c, st, address)
  }

  /** The state after `ops`, from `st`. */
  function RunFrom(c: Config, st: State, ops: seq<Op>): State {
    if ops == [] then st else Step(c, RunFrom(c, st, ops[..|ops| - 1]), ops[|ops| - 1])
  }

  function Run(c: Config, ops: seq<Op>): State {
    RunFrom(c, EMPTY, ops)
  }

  lemma {:induction false} RunAppend(c: Config, st: State, a: seq<Op>, b: seq<Op>)
    ensures RunFrom(c, st, a + b) == RunFrom(c, RunFrom(c, st, a), b)
    decreases |b|
  {
    if b == [] {
      assert a + b == a;
    } else {
      var n := |b| - 1;
      assert (a + b)[..|a| + n] == a + b[..n];
      RunAppend(c, st, a, b[..n]);
    }
  }

  /** The probes attached to the target. */
  datatype Probe =
    | AllocProbe(tid: Tid, req: Request, clock: U64)
    | ReturnProbe(tid: Tid, address: U64, now: U64)
    | FreeProbe(address: U64)
    | ReallocProbe(tid: Tid, ptr: U64, req: Request, clock: U64)
    | PosixEnterProbe(tid: Tid, memptr: U64, req: Request, clock: U64)
    | PosixExitProbe(tid: Tid, slot: Option<U64>, now: U64)
    | TracepointProbe(tid: Tid, ptr: U64, req: Request, missingFree: bool, clock: U64, now: U64)

  function Fire(c: Config, st: State, p: Probe): State {
    match p
    case AllocProbe(tid, req, clock) => AllocEnter(c, st, tid, req, clock)
    case ReturnProbe(tid, address, now) => AllocExit(c, st, tid, address, now)
    case FreeProbe(address) => FreeEnter(c, st, address)
    case ReallocProbe(tid, ptr, req, clock) => ReallocEnter(c, st, tid, ptr, req, clock)
    case PosixEnterProbe(tid, memptr, req, clock) => PosixEnter(c, st, tid, memptr, req, clock)
    case PosixExitProbe(tid, slot, now) => PosixExit(c, st, tid, slot, now)
    case TracepointProbe(tid, ptr, req, missingFree, clock, now) => KernelAlloc(c, st, tid, ptr, req, missingFree, clock, now)
  }

  function FireAll(c: Config, ps: seq<Probe>): State {
    if ps == [] then EMPTY else Fire(c, FireAll(c, ps[..|ps| - 1]), ps[|ps| - 1])
  }

  /** The primitive operations a probe performs in state `st`. */
  function OpsOf(st: State, p: Probe): seq<Op> {
    match p
    case AllocProbe(tid, req, clock) => [Enter(tid, req, clock)]
    case ReturnProbe(tid, address, now) => [Exit(tid, address, now)]
    case FreeProbe(address) => [Free(address)]
    case ReallocProbe(tid, ptr, req, clock) => [Free(ptr), Enter(tid, req, clock)]
    case PosixEnterProbe(tid, _, req, clock) => [Enter(tid, req, clock)]
    case PosixExitProbe(tid, slot, now) => if tid in st.memptrs && slot.Some? then [Exit(tid, slot.value, now)] else []
    case TracepointProbe(tid, ptr, req, missingFree, clock, now) =>
      (if missingFree then [Free(ptr)] else []) + [Enter(tid, req, clock), Exit(tid, ptr, now)]
  }

  function AllOpsOf(c: Config, ps: seq<Probe>): seq<Op> {
    if ps == [] then []
    else AllOpsOf(c, ps[..|ps| - 1]) + OpsOf(FireAll(c, ps[..|ps| - 1]), ps[|ps| - 1])
  }

  lemma StepIgnoresMemptrs(c: Config, st: State, memptrs: map<Tid, U64>, op: Op)
    ensures Step(c, st.(memptrs := memptrs), op) == Step(c, st, op).(memptrs := memptrs)
  {
  }

  /** The operations neither read nor write `memptrs`. */
  lemma {:induction false} MemptrsIrrelevant(c: Config, st: State, memptrs: map<Tid, U64>, ops: seq<Op>)
    ensures RunFrom(c, st.(memptrs := memptrs), ops) == RunFrom(c, st, ops).(memptrs := memptrs)
  {
    if ops != [] {
      var front := ops[..|ops| - 1];
      MemptrsIrrelevant(c, st, memptrs, front);
      StepIgnoresMemptrs(c, RunFrom(c, st, front), memptrs, ops[|ops| - 1]);
    }
  }

  lemma RunOne(c: Config, st: State, a: Op)
    ensures RunFrom(c, st, [a]) == Step(c, st, a)
  {
    assert [a][..0] == [];
  }

  lemma RunTwo(c: Config, st: State, a: Op, b: Op)
    ensures RunFrom(c, st, [a, b]) == Step(c, Step(c, st, a), b)
  {
    assert [a, b][..1] == [a];
    RunOne(c, st, a);
  }

  lemma RunFreeThen(c: Config, st: State, a: U64, ops: seq<Op>)
    ensures RunFrom(c, st, [Free(a)] + ops) == RunFrom(c, FreeEnter(c, st, a), ops)
  {
    RunAppend(c, st, [Free(a)], ops);
    RunOne(c, st, Free(a));
  }

  lemma TracepointIsOps(c: Config, st: State, p: Probe)
    requires p.TracepointProbe?
    ensures Fire(c, st, p) == RunFrom(c, st, OpsOf(st, p))
  {
    var pair := [Enter(p.tid, p.req, p.clock), Exit(p.tid, p.ptr, p.now)];
    if p.missingFree {
      RunFreeThen(c, st, p.ptr, pair);
      RunTwo(c, FreeEnter(c, st, p.ptr), pair[0], pair[1]);
    } else {
      assert [] + pair == pair;
      RunTwo(c, st, pair[0], pair[1]);
    }
  }

  lemma ProbeIsOps(c: Config, st: State, p: Probe)
    ensures Fire(c, st, p) == RunFrom(c, st, OpsOf(st, p)).(memptrs := Fire(c, st, p).memptrs)
  {
    match p
    case AllocProbe(tid, req, clock) => RunOne(c, st, Enter(tid, req, clock));
    case ReturnProbe(tid, address, now) => RunOne(c, st, Exit(tid, address, now));
    case FreeProbe(address) => RunOne(c, st, Free(address));
    case ReallocProbe(tid, ptr, req, clock) => RunTwo(c, st, Free(ptr), Enter(tid, req, clock));
    case PosixEnterProbe(tid, _, req, clock) => RunOne(c, st, Enter(tid, req, clock));
    case PosixExitProbe(tid, slot, now) =>
      if tid in st.memptrs && slot.Some? {
        RunOne(c, st, Exit(tid, slot.value, now));
      }
    case TracepointProbe(_, _, _, _, _, _) => TracepointIsOps(c, st, p);
  }

  /** What one kernel allocation event leaves of the thread's pending request, or of its own if it
      passes the filters and finds room. */
  function TracepointRequest(c: Config, st: State, tid: Tid, req: Request, clock: U64): Option<SizeInfo> {
    if tid in st.sizes then Some(st.sizes[tid])
    else if c.minSize <= req.size <= c.maxSize && (c.sampleRate > 1 ==> clock % c.sampleRate == 0) && |st.sizes| < c.sizesCap
    then Some(Pending(req))
    else None
  }

  predicate TracepointStores(c: Config, st: State, p: Probe)
    requires p.TracepointProbe?
  {
    && TracepointRequest(c, st, p.tid, p.req, p.clock).Some?
    && 0 < p.ptr < 0xFFFF_FFFF_FFFF_FFFF && (p.ptr in st.allocs || |st.allocs| < c.allocsCap)
  }

  lemma EnterLeaves(c: Config, st: State, tid: Tid, req: Request, clock: U64)
    ensures var st', info := AllocEnter(c, st, tid, req, clock), TracepointRequest(c, st, tid, req, clock);
      && st'.allocs == st.allocs && st'.memptrs == st.memptrs && st'.sizes - {tid} == st.sizes - {tid}
      && (tid in st'.sizes <==> info.Some?) && (info.Some? ==> st'.sizes[tid] == info.value)
  {
  }

  lemma ExitLeaves(c: Config, st: State, tid: Tid, a: U64, now: U64)
    ensures var st' := AllocExit(c, st, tid, a, now);
      && st'.sizes == st.sizes - {tid} && st'.memptrs == st.memptrs
      && st'.allocs == if tid in st.sizes && 0 < a < 0xFFFF_FFFF_FFFF_FFFF && (a in st.allocs || |st.allocs| < c.allocsCap)
           then st.allocs[a := Record(st.sizes[tid], now)] else st.allocs
  {
    assert tid !in st.sizes ==> st.sizes - {tid} == st.sizes;
  }

  lemma EnterThenExit(c: Config, st: State, p: Probe)
    requires p.TracepointProbe?
    ensures var st' := AllocExit(c, AllocEnter(c, st, p.tid, p.req, p.clock), p.tid, p.ptr, p.now);
      && st'.sizes == st.sizes - {p.tid} && st'.memptrs == st.memptrs
      && st'.allocs == if TracepointStores(c, st, p)
           then st.allocs[p.ptr := Record(TracepointRequest(c, st, p.tid, p.req, p.clock).value, p.now)] else st.allocs
  {
    EnterLeaves(c, st, p.tid, p.req, p.clock);
    ExitLeaves(c, AllocEnter(c, st, p.tid, p.req, p.clock), p.tid, p.ptr, p.now);
  }

  lemma FreeForgets(c: Config, st: State, a: U64)
    ensures FreeEnter(c, st, a).allocs == st.allocs - {a}
    ensures FreeEnter(c, st, a).sizes == st.sizes && FreeEnter(c, st, a).memptrs == st.memptrs
  {
    if a !in st.allocs {
      assert st.allocs - {a} == st.allocs;
    }
  }

  lemma PutAfterRemove(m: map<U64, AllocInfo>, a: U64, r: AllocInfo)
    ensures (m - {a})[a := r] == m[a := r]
    ensures a in m ==> |m - {a}| < |m|
    ensures a !in m ==> m - {a} == m
  {
    assert a in m ==> (m - {a})[a := m[a]] == m;
  }

  /** A kernel allocation event leaves nothing pending, forgets what the address held if the free was
      missing, and records the address unless there was no request, no block or no room. */
  lemma TracepointRecords(c: Config, st: State, p: Probe)
    requires p.TracepointProbe? && |st.allocs| <= c.allocsCap
    ensures var st' := Fire(c, st, p);
      && st'.sizes == st.sizes - {p.tid} && st'.memptrs == st.memptrs
      && st'.allocs == if TracepointStores(c, st, p)
           then st.allocs[p.ptr := Record(TracepointRequest(c, st, p.tid, p.req, p.clock).value, p.now)]
           else if p.missingFree then st.allocs - {p.ptr} else st.allocs
  {
    if p.missingFree {
      var freed, info := FreeEnter(c, st, p.ptr), TracepointRequest(c, st, p.tid, p.req, p.clock);
      FreeForgets(c, st, p.ptr);
      EnterThenExit(c, freed, p);
      if info.Some? {
        PutAfterRemove(st.allocs, p.ptr, Record(info.value, p.now));
      }
    } else {
      EnterThenExit(c, st, p);
    }
  }

  /** Any run of probes leaves the three tracking maps as some run of operations does. */
  lemma {:induction false} ProbesAreOps(c: Config, ps: seq<Probe>)
    ensures FireAll(c, ps) == Run(c, AllOpsOf(c, ps)).(memptrs := FireAll(c, ps).memptrs)
  {
    if ps != [] {
      var front, p := ps[..|ps| - 1], ps[|ps| - 1];
      ProbesAreOps(c, front);
      var st := FireAll(c, front);
      ProbeIsOps(c, st, p);
      var st' := Run(c, AllOpsOf(c, front));
      MemptrsIrrelevant(c, st', st.memptrs, OpsOf(st, p));
      RunAppend(c, EMPTY, AllOpsOf(c, front), OpsOf(st, p));
    }
  }

  /** The tracker never records the null pointer, and the map stays within its capacity. */
  lemma {:induction false} NeverRecordsNull(c: Config, ops: seq<Op>)
    ensures forall a :: a in Run(c, ops).allocs ==> 0 < a < 0xFFFF_FFFF_FFFF_FFFF
    ensures |Run(c, ops).allocs| <= c.allocsCap
  {
    if ops != [] {
      NeverRecordsNull(c, ops[..|ops| - 1]);
      AllocsStayBounded(c, Run(c, ops[..|ops| - 1]), ops[|ops| - 1]);
    }
  }

  /** The statistics are kept only when the loader asked for them. */
  lemma {:induction false} NoCountersUnlessCombined(c: Config, ops: seq<Op>)
    requires !c.combinedOnly
    ensures Run(c, ops).combined == map[]
  {
    if ops != [] {
      NoCountersUnlessCombined(c, ops[..|ops| - 1]);
    }
  }

  lemma AllocsStayBounded(c: Config, st: State, op: Op)
    requires |st.allocs| <= c.allocsCap
    ensures |Step(c, st, op).allocs| <= c.allocsCap
  {
    if op.Exit? {
      UpdateBounded(st.allocs, c.allocsCap, op.address);
    }
    if op.Free? {
      assert (st.allocs - {op.address}).Keys <= st.allocs.Keys;
      KeysBounded(st.allocs - {op.address}, st.allocs);
    }
  }

  lemma UpdateBounded<V(!new)>(m: map<U64, V>, cap: nat, k: U64)
    requires |m| <= cap
    ensures forall v: V :: |UpdateAny(m, cap, k, v)| <= cap
  {
    forall v: V ensures |UpdateAny(m, cap, k, v)| <= cap {
      assert k in m ==> m[k := v].Keys == m.Keys && |m[k := v].Keys| == |m.Keys|;
      assert k !in m ==> |m[k := v]| == |m| + 1;
    }
  }

  lemma KeysBounded<K, V>(a: map<K, V>, b: map<K, V>)
    requires a.Keys <= b.Keys
    ensures |a| <= |b|
  {
    SubsetSize(a.Keys, b.Keys);
    assert |a.Keys| == |a| && |b.Keys| == |b|;
  }

  lemma {:induction false} SubsetSize<T>(a: set<T>, b: set<T>)
    requires a <= b
    ensures |a| <= |b|
  {
    assert b == a + (b - a);
    assert |b| == |a| + |b - a|;
  }
}
