/** When the tracker overwrites nothing and misses nothing. */
module HeapCompleteness {
  import opened Words
  import opened Kernel
  import opened Runs
  import opened Heap
  import opened HeapSoundness

  function TopAlloc(stack: seq<Frame>): Option<Frame> {
    if stack == [] then None
    else
      var f := stack[|stack| - 1];
      if f.AllocFrame? then Some(f) else TopAlloc(stack[..|stack| - 1])
  }

  /** The innermost allocation call of the thread has seen no inner call return. */
  predicate Fresh(s: Sys, t: Tid) {
    var f := TopAlloc(StackOf(s, t));
    f.Some? && f.value.AllocFrame? && !f.value.nested
  }

  predicate FreshPosix(s: Sys, t: Tid) {
    Fresh(s, t) && TopAlloc(StackOf(s, t)).value.kind.Posix?
  }

  /** Every pending request belongs to a fresh call. */
  ghost predicate NoStale(s: Sys) {
    forall t :: t in s.k.sizes ==> Fresh(s, t)
  }

  ghost predicate SlotsRemembered(s: Sys) {
    forall t: Tid :: FreshPosix(s, t) ==> t in s.k.memptrs
  }

  /** Every fresh call has its request pending. */
  ghost predicate AllPending(s: Sys) {
    forall t: Tid :: Fresh(s, t) ==> t in s.k.sizes
  }

  // ----- How an action moves the freshness of its thread

  lemma {:induction false} MarkedTopAlloc(stack: seq<Frame>)
    ensures var f := TopAlloc(Marked(stack)); f.Some? ==> f.value.AllocFrame? && f.value.nested
    decreases |stack|
  {
    if stack != [] {
      MarkedTopAlloc(stack[..|stack| - 1]);
      assert Marked(stack)[..|stack| - 1] == Marked(stack[..|stack| - 1]);
    }
  }

  lemma PushedTopAlloc(stack: seq<Frame>, f: Frame)
    ensures TopAlloc(stack + [f]) == if f.AllocFrame? then Some(f) else TopAlloc(stack)
  {
    assert (stack + [f])[..|stack|] == stack;
  }

  predicate EntersAlloc(act: Action) {
    act.CallAlloc? || act.CallRealloc?
  }

  lemma EnterIsFresh(c: Config, s: Sys, act: Action)
    requires Enabled(s, act) && EntersAlloc(act)
    ensures var s' := Apply(c, s, act); Fresh(s', act.tid) && (FreshPosix(s', act.tid) <==> EntersPosix(act))
  {
    var f := AllocFrame(if act.CallAlloc? then act.kind else Realloc(act.ptr), None, false);
    PushedTopAlloc(StackOf(s, act.tid), f);
  }

  lemma ReturnIsNotFresh(c: Config, s: Sys, act: Action)
    requires Enabled(s, act) && act.Return?
    ensures !Fresh(Apply(c, s, act), act.tid)
  {
    MarkedTopAlloc(StackOf(s, act.tid)[..Depth(s, act.tid)]);
  }

  lemma OtherwiseAsFresh(c: Config, s: Sys, act: Action)
    requires Enabled(s, act) && !EntersAlloc(act) && !act.Return?
    ensures var s' := Apply(c, s, act);
      (Fresh(s', act.tid) <==> Fresh(s, act.tid)) && (FreshPosix(s', act.tid) <==> FreshPosix(s, act.tid))
  {
    if act.CallFree? || act.FreeAgain? || act.Release? {
      FreeAsFresh(c, s, act);
    } else {
      ObtainAsFresh(c, s, act);
    }
  }

  lemma FreeAsFresh(c: Config, s: Sys, act: Action)
    requires Enabled(s, act) && (act.CallFree? || act.FreeAgain? || act.Release?)
    ensures TopAlloc(StackOf(Apply(c, s, act), act.tid)) == TopAlloc(StackOf(s, act.tid))
  {
    if act.CallFree? {
      PushedTopAlloc(StackOf(s, act.tid), FreeFrame(act.a));
    }
  }

  lemma ObtainAsFresh(c: Config, s: Sys, act: Action)
    requires Enabled(s, act) && (act.Obtain? || act.Resize? || act.ReleaseOld?)
    ensures var f, f' := TopAlloc(StackOf(s, act.tid)), TopAlloc(StackOf(Apply(c, s, act), act.tid));
      && f.Some? && f'.Some? && f.value.AllocFrame? && f'.value.AllocFrame?
      && f'.value.nested == f.value.nested && (f'.value.kind.Posix? <==> f.value.kind.Posix?)
  {
  }

  lemma OthersAsFresh(c: Config, s: Sys, act: Action, t: Tid)
    requires t != act.tid
    ensures var s' := Apply(c, s, act); (Fresh(s', t) <==> Fresh(s, t)) && (FreshPosix(s', t) <==> FreshPosix(s, t))
  {
    OtherStacks(c, s, act, t);
  }

  // ----- How an action moves the pending requests

  /** The exit probe of the returning call reaches the generic handler. */
  predicate Reaches(s: Sys, act: Action)
    requires Enabled(s, act) && act.Return?
  {
    Top(s, act.tid).kind.Posix? ==> act.tid in s.k.memptrs && act.slot.Some?
  }

  lemma NextSizes(c: Config, s: Sys, act: Action)
    requires Enabled(s, act)
    ensures var s' := Apply(c, s, act);
      if EntersAlloc(act) then
        s'.k.sizes.Keys == s.k.sizes.Keys +
          if Accepted(c, act.req, act.clock) && (act.tid in s.k.sizes || |s.k.sizes| < c.sizesCap) then {act.tid} else {}
      else if act.Return? && Reaches(s, act) then s'.k.sizes.Keys == s.k.sizes.Keys - {act.tid}
      else s'.k.sizes == s.k.sizes
  {
    match act
    case CallAlloc(_, _, _, _) => NextSizesEnter(c, s, act);
    case CallRealloc(_, _, _, _) => NextSizesEnter(c, s, act);
    case CallFree(_, a) => FreeKeepsSizes(c, s.k, a);
    case FreeAgain(t) => FreeKeepsSizes(c, s.k, Top(s, t).address);
    case Return(_, _, _, _) => NextSizesReturn(c, s, act);
    case Obtain(_, _) =>
    case Resize(_, _) =>
    case ReleaseOld(_) =>
    case Release(_) =>
  }

  lemma NextSizesEnter(c: Config, s: Sys, act: Action)
    requires Enabled(s, act) && EntersAlloc(act)
    ensures Apply(c, s, act).k.sizes.Keys == s.k.sizes.Keys +
      if Accepted(c, act.req, act.clock) && (act.tid in s.k.sizes || |s.k.sizes| < c.sizesCap) then {act.tid} else {}
  {
    var t := act.tid;
    if act.CallRealloc? {
      FreeKeepsSizes(c, s.k, act.ptr);
      EnterSizes(c, FreeEnter(c, s.k, act.ptr), t, act.req, act.clock);
    } else if act.kind.Posix? {
      EnterSizes(c, s.k.(memptrs := UpdateAny(s.k.memptrs, c.memptrsCap, t, act.kind.memptr)), t, act.req, act.clock);
    } else {
      EnterSizes(c, s.k, t, act.req, act.clock);
    }
  }

  lemma NextSizesReturn(c: Config, s: Sys, act: Action)
    requires Enabled(s, act) && act.Return?
    ensures var s' := Apply(c, s, act);
      if Reaches(s, act) then s'.k.sizes.Keys == s.k.sizes.Keys - {act.tid} else s'.k.sizes == s.k.sizes
  {
    var t := act.tid;
    if !Top(s, t).kind.Posix? {
      ExitSizes(c, s.k, t, act.r, act.now);
    } else if t in s.k.memptrs && act.slot.Some? {
      ExitSizes(c, s.k.(memptrs := s.k.memptrs - {t}), t, act.slot.value, act.now);
    }
  }

  lemma EnterSizes(c: Config, k: State, t: Tid, req: Request, clock: U64)
    ensures AllocEnter(c, k, t, req, clock).sizes.Keys ==
      k.sizes.Keys + if Accepted(c, req, clock) && (t in k.sizes || |k.sizes| < c.sizesCap) then {t} else {}
  {
  }

  lemma ExitSizes(c: Config, k: State, t: Tid, x: U64, now: U64)
    ensures AllocExit(c, k, t, x, now).sizes.Keys == k.sizes.Keys - {t}
  {
  }

  lemma FreeKeepsSizes(c: Config, k: State, a: U64)
    ensures FreeEnter(c, k, a).sizes == k.sizes
  {
  }

  // ----- No stale request, no overwritten record

  /** If the action is the return of posix_memalign, its exit probe can read the result slot. */
  predicate ReadsSlot(s: Sys, act: Action) {
    act.Return? && InAlloc(s, act.tid) && Top(s, act.tid).kind.Posix? ==> act.slot.Some?
  }

  /** The exit of posix_memalign can read its slot, and `memptrs` has room for its entry. */
  predicate Undisturbed(c: Config, s: Sys, act: Action) {
    && ReadsSlot(s, act)
    && (EntersPosix(act) ==> act.tid in s.k.memptrs || |s.k.memptrs| < c.memptrsCap)
  }

  /** No pending request survives the exit of its call. */
  lemma ReturnConsumes(c: Config, s: Sys, act: Action)
    requires NoStale(s) && SlotsRemembered(s) && Enabled(s, act) && Undisturbed(c, s, act) && act.Return?
    ensures act.tid !in Apply(c, s, act).k.sizes.Keys
  {
    var t := act.tid;
    NextSizes(c, s, act);
    if t in s.k.sizes {
      assert Fresh(s, t) && TopAlloc(StackOf(s, t)) == Some(Top(s, t));
      assert Top(s, t).kind.Posix? ==> FreshPosix(s, t);
    }
  }

  lemma KeepsNoStale(c: Config, s: Sys, act: Action)
    requires NoStale(s) && SlotsRemembered(s) && Enabled(s, act) && Undisturbed(c, s, act)
    ensures NoStale(Apply(c, s, act))
  {
    var s' := Apply(c, s, act);
    NextSizes(c, s, act);
    forall t | t in s'.k.sizes ensures Fresh(s', t) {
      if t != act.tid {
        assert t in s'.k.sizes.Keys;
        OthersAsFresh(c, s, act, t);
      } else if EntersAlloc(act) {
        EnterIsFresh(c, s, act);
      } else if act.Return? {
        ReturnConsumes(c, s, act);
      } else {
        OtherwiseAsFresh(c, s, act);
      }
    }
  }

  lemma KeepsSlotsRemembered(c: Config, s: Sys, act: Action)
    requires SlotsRemembered(s) && Enabled(s, act) && Undisturbed(c, s, act)
    ensures SlotsRemembered(Apply(c, s, act))
  {
    var s' := Apply(c, s, act);
    NextMemptrs(c, s, act);
    forall t: Tid | FreshPosix(s', t) ensures t in s'.k.memptrs {
      if t != act.tid {
        OthersAsFresh(c, s, act, t);
        assert t in s.k.memptrs;
      } else if EntersAlloc(act) {
        EnterIsFresh(c, s, act);
      } else if act.Return? {
        ReturnIsNotFresh(c, s, act);
      } else {
        OtherwiseAsFresh(c, s, act);
      }
    }
  }

  /** Every exit of posix_memalign in the schedule reads its slot, and the threads that call it fit in `memptrs`. */
  ghost predicate UndisturbedRun(c: Config, acts: seq<Action>) {
    && (forall n :: 0 <= n < |acts| ==> ReadsSlot(After(c, acts[..n]), acts[n]))
    && |Tids(acts, EntersPosix)| <= c.memptrsCap
  }

  lemma UndisturbedPrefix(c: Config, acts: seq<Action>)
    requires acts != [] && UndisturbedRun(c, acts)
    ensures var n := |acts| - 1; UndisturbedRun(c, acts[..n]) && ReadsSlot(After(c, acts[..n]), acts[n])
  {
    var front := acts[..|acts| - 1];
    TidsGrow(acts, EntersPosix);
    forall n | 0 <= n < |front| ensures ReadsSlot(After(c, front[..n]), front[n]) {
      assert front[..n] == acts[..n];
    }
  }

  /** The threads of the actions that `which` selects. */
  function Tids(acts: seq<Action>, which: Action -> bool): set<Tid> {
    set n | 0 <= n < |acts| && which(acts[n]) :: acts[n].tid
  }

  lemma TidsGrow(acts: seq<Action>, which: Action -> bool)
    requires acts != []
    ensures var n := |acts| - 1; Tids(acts, which) == Tids(acts[..n], which) + if which(acts[n]) then {acts[n].tid} else {}
    ensures |Tids(acts[..|acts| - 1], which)| <= |Tids(acts, which)|
  {
    var front, last := acts[..|acts| - 1], acts[|acts| - 1];
    forall t | t in Tids(acts, which) ensures t in Tids(front, which) + if which(last) then {last.tid} else {} {
      var n :| 0 <= n < |acts| && which(acts[n]) && acts[n].tid == t;
      assert n < |front| ==> front[n] == acts[n];
    }
    forall t | t in Tids(front, which) ensures t in Tids(acts, which) {
      var n :| 0 <= n < |front| && which(front[n]) && front[n].tid == t;
      assert acts[n] == front[n];
    }
    SubsetSize(Tids(front, which), Tids(acts, which));
  }

  lemma {:induction false} KnownThreads(c: Config, acts: seq<Action>)
    ensures After(c, acts).k.memptrs.Keys <= Tids(acts, EntersPosix)
    ensures After(c, acts).k.sizes.Keys <= Tids(acts, EntersAlloc)
  {
    if acts != [] {
      var front, act := acts[..|acts| - 1], acts[|acts| - 1];
      KnownThreads(c, front);
      TidsGrow(acts, EntersPosix);
      TidsGrow(acts, EntersAlloc);
      var s := After(c, front);
      if Enabled(s, act) {
        NextMemptrs(c, s, act);
        NextSizes(c, s, act);
      }
    }
  }

  /** A thread of the schedule always finds room in a map keyed by its threads. */
  lemma RoomFor(keys: set<Tid>, acts: seq<Action>, which: Action -> bool, cap: nat)
    requires acts != [] && keys <= Tids(acts[..|acts| - 1], which) && |Tids(acts, which)| <= cap
    requires which(acts[|acts| - 1])
    ensures acts[|acts| - 1].tid in keys || |keys| < cap
  {
    var t := acts[|acts| - 1].tid;
    TidsGrow(acts, which);
    if t !in keys {
      SubsetSize(keys + {t}, Tids(acts, which));
    }
  }

  lemma {:induction false} StaysUndisturbed(c: Config, acts: seq<Action>)
    requires UndisturbedRun(c, acts)
    ensures NoStale(After(c, acts)) && SlotsRemembered(After(c, acts))
  {
    if acts != [] {
      var front, act := acts[..|acts| - 1], acts[|acts| - 1];
      UndisturbedPrefix(c, acts);
      StaysUndisturbed(c, front);
      KnownThreads(c, front);
      var s := After(c, front);
      if EntersPosix(act) {
        RoomFor(s.k.memptrs.Keys, acts, EntersPosix, c.memptrsCap);
      }
      if Enabled(s, act) {
        KeepsNoStale(c, s, act);
        KeepsSlotsRemembered(c, s, act);
      }
    }
  }

  /** The step stores a record over one that is there. */
  predicate Overwrites(c: Config, s: Sys, act: Action) {
    && Enabled(s, act) && act.Return?
    && var x := Reported(s, act.tid, act.r, act.slot);
       Records(c, s, act.tid, x) && x.value in s.k.allocs
  }

  lemma FreshDoesNotOverwrite(c: Config, s: Sys, act: Action)
    requires Inv(s) && NoStale(s) && Enabled(s, act) && act.Return?
    ensures !Overwrites(c, s, act)
  {
    var t := act.tid;
    ReportedIsReturned(s, t, act.r, act.slot);
    assert Backed(s, t, Depth(s, t));
    if t in s.k.sizes {
      assert Fresh(s, t);
    }
  }

  /** In an undisturbed schedule no record is ever overwritten. */
  lemma {:induction false} NeverOverwrites(c: Config, acts: seq<Action>, act: Action)
    requires UndisturbedRun(c, acts)
    ensures !Overwrites(c, After(c, acts), act)
  {
    AlwaysInv(c, acts);
    StaysUndisturbed(c, acts);
    if Enabled(After(c, acts), act) && act.Return? {
      FreshDoesNotOverwrite(c, After(c, acts), act);
    }
  }

  lemma FreeOnlyRemoves(c: Config, k: State, a: U64)
    ensures forall b :: b in FreeEnter(c, k, a).allocs ==> b in k.allocs && FreeEnter(c, k, a).allocs[b] == k.allocs[b]
  {
  }

  lemma ExitOnlyAdds(c: Config, k: State, t: Tid, x: U64, now: U64)
    requires t in k.sizes && IsRecordable(x) ==> x !in k.allocs
    ensures forall b :: b in k.allocs ==> b in AllocExit(c, k, t, x, now).allocs && AllocExit(c, k, t, x, now).allocs[b] == k.allocs[b]
  {
  }

  lemma ReturnOnlyAdds(c: Config, s: Sys, act: Action)
    requires Enabled(s, act) && act.Return? && !Overwrites(c, s, act)
    ensures var k' := Apply(c, s, act).k; forall b :: b in s.k.allocs ==> b in k'.allocs && k'.allocs[b] == s.k.allocs[b]
  {
    var t := act.tid;
    if !Top(s, t).kind.Posix? {
      ExitOnlyAdds(c, s.k, t, act.r, act.now);
    } else if t in s.k.memptrs && act.slot.Some? {
      ExitOnlyAdds(c, s.k.(memptrs := s.k.memptrs - {t}), t, act.slot.value, act.now);
    }
  }

  /** A record that survives a step is the same record. */
  predicate Preserves(s: Sys, s': Sys) {
    forall b :: b in s.k.allocs && b in s'.k.allocs ==> s'.k.allocs[b] == s.k.allocs[b]
  }

  lemma StepPreserves(c: Config, s: Sys, act: Action)
    requires !Overwrites(c, s, act)
    ensures Preserves(s, Apply(c, s, act))
  {
    if Enabled(s, act) {
      match act
      case Return(_, _, _, _) => ReturnOnlyAdds(c, s, act);
      case CallRealloc(_, ptr, _, _) => FreeOnlyRemoves(c, s.k, ptr);
      case CallFree(_, a) => FreeOnlyRemoves(c, s.k, a);
      case FreeAgain(t) => FreeOnlyRemoves(c, s.k, Top(s, t).address);
      case CallAlloc(_, _, _, _) =>
      case Obtain(_, _) =>
      case Resize(_, _) =>
      case ReleaseOld(_) =>
      case Release(_) =>
    }
  }

  /** From its creation to its removal a record keeps the size, time, stack and frames it was made with. */
  lemma {:induction false} RecordsImmutable(c: Config, acts: seq<Action>, act: Action)
    requires UndisturbedRun(c, acts)
    ensures Preserves(After(c, acts), Apply(c, After(c, acts), act))
  {
    NeverOverwrites(c, acts, act);
    StepPreserves(c, After(c, acts), act);
  }

  // ----- Nothing missed

  /** Conditions under which the tracker can keep up: no filter, a successful realloc, calls
      that either obtain memory or hand on what an inner call returned, and room for the heap. */
  predicate Orderly(c: Config, s: Sys, act: Action) {
    && (EntersAlloc(act) ==> c.minSize <= act.req.size <= c.maxSize && (c.sampleRate > 1 ==> act.clock % c.sampleRate == 0))
    && ReadsSlot(s, act)
    && (act.Return? && InAlloc(s, act.tid) ==>
          var f := Top(s, act.tid);
          && (f.own.Some? ==> !f.nested)
          && (f.kind.Realloc? ==> f.kind.prior == 0)
          && |s.status| <= c.allocsCap)
  }

  ghost predicate OrderlyRun(c: Config, acts: seq<Action>) {
    && (forall n :: 0 <= n < |acts| ==> Orderly(c, After(c, acts[..n]), acts[n]))
    && |Tids(acts, EntersPosix)| <= c.memptrsCap && |Tids(acts, EntersAlloc)| <= c.sizesCap
  }

  lemma KeepsAllPending(c: Config, s: Sys, act: Action)
    requires AllPending(s) && Enabled(s, act) && Orderly(c, s, act)
    requires EntersAlloc(act) ==> act.tid in s.k.sizes || |s.k.sizes| < c.sizesCap
    ensures AllPending(Apply(c, s, act))
  {
    var s' := Apply(c, s, act);
    NextSizes(c, s, act);
    forall t: Tid | Fresh(s', t) ensures t in s'.k.sizes.Keys {
      if t != act.tid {
        OthersAsFresh(c, s, act, t);
        assert t in s.k.sizes.Keys;
      } else if act.Return? {
        ReturnIsNotFresh(c, s, act);
      } else if !EntersAlloc(act) {
        OtherwiseAsFresh(c, s, act);
      }
    }
  }

  lemma FewerRecordsThanLive(s: Sys, own: U64)
    requires Tracked(s) && own in s.status && !IsHeld(s, own)
    ensures |s.k.allocs| < |s.status|
  {
    assert s.k.allocs.Keys + {own} <= s.status.Keys by {
      forall a | a in s.k.allocs ensures a in s.status { assert IsHeld(s, a); }
    }
    assert own !in s.k.allocs.Keys;
    SubsetSize(s.k.allocs.Keys + {own}, s.status.Keys);
  }

  lemma ReturnMissesNothing(c: Config, s: Sys, act: Action)
    requires Inv(s) && AllPending(s) && SlotsRemembered(s) && s.missed == {}
    requires Enabled(s, act) && act.Return? && Orderly(c, s, act)
    ensures Apply(c, s, act).missed == {}
  {
    var t := act.tid;
    var f := Top(s, t);
    ReportedIsReturned(s, t, act.r, act.slot);
    assert Backed(s, t, Depth(s, t));
    if f.own.Some? {
      assert TopAlloc(StackOf(s, t)) == Some(f) && Fresh(s, t);
      assert f.kind.Posix? ==> FreshPosix(s, t);
      FewerRecordsThanLive(s, f.own.value);
      assert Records(c, s, t, Reported(s, t, act.r, act.slot));
    }
  }

  lemma OrderlyPrefix(c: Config, acts: seq<Action>)
    requires acts != [] && OrderlyRun(c, acts)
    ensures var n := |acts| - 1; OrderlyRun(c, acts[..n]) && Orderly(c, After(c, acts[..n]), acts[n])
  {
    var front := acts[..|acts| - 1];
    TidsGrow(acts, EntersPosix);
    TidsGrow(acts, EntersAlloc);
    forall n | 0 <= n < |front| ensures Orderly(c, After(c, front[..n]), front[n]) {
      assert front[..n] == acts[..n];
    }
  }

  /** What an orderly schedule keeps. */
  ghost predicate InStep(s: Sys) {
    NoStale(s) && AllPending(s) && SlotsRemembered(s) && s.missed == {}
  }

  lemma OrderlyStep(c: Config, s: Sys, act: Action)
    requires Inv(s) && InStep(s) && Orderly(c, s, act)
    requires EntersAlloc(act) ==> act.tid in s.k.sizes || |s.k.sizes| < c.sizesCap
    requires EntersPosix(act) ==> act.tid in s.k.memptrs || |s.k.memptrs| < c.memptrsCap
    ensures InStep(Apply(c, s, act))
  {
    if Enabled(s, act) {
      KeepsNoStale(c, s, act);
      KeepsAllPending(c, s, act);
      KeepsSlotsRemembered(c, s, act);
      if act.Return? {
        ReturnMissesNothing(c, s, act);
      }
    }
  }

  lemma {:induction false} MissesNothing(c: Config, acts: seq<Action>)
    requires OrderlyRun(c, acts)
    ensures InStep(After(c, acts))
  {
    if acts != [] {
      var front, act := acts[..|acts| - 1], acts[|acts| - 1];
      OrderlyPrefix(c, acts);
      MissesNothing(c, front);
      AlwaysInv(c, front);
      KnownThreads(c, front);
      if EntersAlloc(act) {
        RoomFor(After(c, front).k.sizes.Keys, acts, EntersAlloc, c.sizesCap);
      }
      if EntersPosix(act) {
        RoomFor(After(c, front).k.memptrs.Keys, acts, EntersPosix, c.memptrsCap);
      }
      OrderlyStep(c, After(c, front), act);
    }
  }

  /** In an orderly schedule the recorded addresses are exactly those the program holds. */
  lemma {:induction false} LeakSetIsComplete(c: Config, acts: seq<Action>, a: U64)
    requires OrderlyRun(c, acts)
    ensures a in After(c, acts).k.allocs <==> IsHeld(After(c, acts), a)
  {
    MissesNothing(c, acts);
    AlwaysInv(c, acts);
  }
}
