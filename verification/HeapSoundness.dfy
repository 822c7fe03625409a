/** What every schedule keeps: the leak set against the ground-truth heap. */
module HeapSoundness {
  import opened Words
  import opened Kernel
  import opened Heap

  predicate HasFrame(s: Sys, t: Tid, d: nat) {
    t in s.stacks && d < |s.stacks[t]|
  }

  /** An address in transit belongs to the frame its status names. */
  predicate Claimed(s: Sys, a: U64)
    requires a in s.status
  {
    match s.status[a]
    case InFlight(t, d) => HasFrame(s, t, d) && s.stacks[t][d].Owns(a)
    case Freeing(t, d) => HasFrame(s, t, d) && s.stacks[t][d].Frees(a)
    case Held => true
  }

  /** The addresses a frame names have the status that names the frame. */
  predicate Backed(s: Sys, t: Tid, d: nat)
    requires HasFrame(s, t, d)
  {
    match s.stacks[t][d]
    case FreeFrame(a) => a != 0 && a in s.status && s.status[a] == Freeing(t, d)
    case AllocFrame(kind, own, _) =>
      && (own.Some? ==> own.value in s.status && s.status[own.value] == InFlight(t, d))
      && (kind.Realloc? && kind.prior != 0 ==>
            own.None? && kind.prior in s.status && s.status[kind.prior] == Freeing(t, d))
  }

  ghost predicate FramesMatch(s: Sys) {
    && (forall a :: a in s.status ==> IsRecordable(a) && Claimed(s, a))
    && (forall t, d: nat :: HasFrame(s, t, d) ==> Backed(s, t, d))
  }

  /** The records are exactly the held addresses that were not missed. */
  ghost predicate Tracked(s: Sys) {
    && (forall a :: a in s.k.allocs <==> IsHeld(s, a) && a !in s.missed)
    && (forall a :: a in s.missed ==> IsHeld(s, a))
  }

  function TopPosix(stack: seq<Frame>): Option<U64> {
    if stack == [] then None
    else
      var f := stack[|stack| - 1];
      if f.AllocFrame? && f.kind.Posix? then Some(f.kind.memptr) else TopPosix(stack[..|stack| - 1])
  }

  /** A remembered result pointer is that of the innermost running posix_memalign. */
  ghost predicate SlotsMatch(s: Sys) {
    forall t :: t in s.k.memptrs ==> TopPosix(StackOf(s, t)) == Some(s.k.memptrs[t])
  }

  ghost predicate Inv(s: Sys) {
    FramesMatch(s) && Tracked(s) && SlotsMatch(s)
  }

  // ----- Stacks

  lemma {:induction false} MarkedTopPosix(stack: seq<Frame>)
    ensures TopPosix(Marked(stack)) == TopPosix(stack)
    decreases |stack|
  {
    if stack != [] {
      var n := |stack| - 1;
      MarkedTopPosix(stack[..n]);
      assert Marked(stack)[..n] == Marked(stack[..n]);
    }
  }

  lemma PushedTopPosix(stack: seq<Frame>, f: Frame)
    ensures TopPosix(stack + [f]) == if f.AllocFrame? && f.kind.Posix? then Some(f.kind.memptr) else TopPosix(stack)
  {
    assert (stack + [f])[..|stack|] == stack;
  }

  lemma SetTopPosix(stack: seq<Frame>, f: Frame)
    requires stack != [] && stack[|stack| - 1].AllocFrame? && f.AllocFrame?
    requires f.kind.Posix? || stack[|stack| - 1].kind.Posix? ==> f.kind == stack[|stack| - 1].kind
    ensures TopPosix(stack[|stack| - 1 := f]) == TopPosix(stack)
  {
    assert stack[|stack| - 1 := f][..|stack| - 1] == stack[..|stack| - 1];
  }

  // ----- FramesMatch, action by action

  lemma CallAllocFrames(c: Config, s: Sys, act: Action)
    requires FramesMatch(s) && Enabled(s, act) && act.CallAlloc?
    ensures FramesMatch(Apply(c, s, act))
  {
    var s' := Apply(c, s, act);
    forall t, d: nat | HasFrame(s', t, d) ensures Backed(s', t, d) {
      if HasFrame(s, t, d) {
        assert Backed(s, t, d);
      }
    }
  }

  lemma CallReallocFrames(c: Config, s: Sys, act: Action)
    requires FramesMatch(s) && Enabled(s, act) && act.CallRealloc?
    ensures FramesMatch(Apply(c, s, act))
  {
    var s' := Apply(c, s, act);
    forall t, d: nat | HasFrame(s', t, d) ensures Backed(s', t, d) {
      if HasFrame(s, t, d) {
        assert Backed(s, t, d);
      }
    }
  }

  lemma CallFreeFrames(c: Config, s: Sys, act: Action)
    requires FramesMatch(s) && Enabled(s, act) && act.CallFree?
    ensures FramesMatch(Apply(c, s, act))
  {
    var s' := Apply(c, s, act);
    forall t, d: nat | HasFrame(s', t, d) ensures Backed(s', t, d) {
      if HasFrame(s, t, d) {
        assert Backed(s, t, d);
      }
    }
  }

  lemma ObtainFrames(c: Config, s: Sys, act: Action)
    requires FramesMatch(s) && Enabled(s, act) && (act.Obtain? || act.Resize? || act.ReleaseOld?)
    ensures FramesMatch(Apply(c, s, act))
  {
    var s' := Apply(c, s, act);
    assert Backed(s, act.tid, Depth(s, act.tid));
    forall t, d: nat | HasFrame(s', t, d) ensures Backed(s', t, d) {
      assert HasFrame(s, t, d) && Backed(s, t, d);
    }
    forall a | a in s'.status ensures IsRecordable(a) && Claimed(s', a) {
      if a in s.status {
        assert Claimed(s, a);
      }
    }
  }

  lemma ReleaseFrames(c: Config, s: Sys, act: Action)
    requires FramesMatch(s) && Enabled(s, act) && act.Release?
    ensures FramesMatch(Apply(c, s, act))
  {
    var s' := Apply(c, s, act);
    assert Backed(s, act.tid, Depth(s, act.tid));
    forall t, d: nat | HasFrame(s', t, d) ensures Backed(s', t, d) {
      assert HasFrame(s, t, d) && Backed(s, t, d);
    }
    forall a | a in s'.status ensures IsRecordable(a) && Claimed(s', a) {
      assert a in s.status && Claimed(s, a);
    }
  }

  /** A return pops its frame and at most marks the others. */
  lemma ReturnedFrame(c: Config, s: Sys, act: Action, t: Tid, d: nat)
    requires Enabled(s, act) && act.Return? && HasFrame(Apply(c, s, act), t, d)
    ensures HasFrame(s, t, d) && (t == act.tid ==> d < Depth(s, t))
    ensures var f, f' := s.stacks[t][d], Apply(c, s, act).stacks[t][d];
      if f.FreeFrame? then f' == f else f'.AllocFrame? && f'.kind == f.kind && f'.own == f.own
  {
  }

  lemma ReturnBacked(c: Config, s: Sys, act: Action, t: Tid, d: nat)
    requires FramesMatch(s) && Enabled(s, act) && act.Return? && HasFrame(Apply(c, s, act), t, d)
    ensures Backed(Apply(c, s, act), t, d)
  {
    ReturnedFrame(c, s, act, t, d);
    assert Backed(s, act.tid, Depth(s, act.tid)) && Backed(s, t, d);
    assert Apply(c, s, act).status == ReturnStatus(s, act.tid);
  }

  lemma ReturnClaimed(c: Config, s: Sys, act: Action, a: U64)
    requires FramesMatch(s) && Enabled(s, act) && act.Return? && a in Apply(c, s, act).status
    ensures IsRecordable(a) && Claimed(Apply(c, s, act), a)
  {
    assert Backed(s, act.tid, Depth(s, act.tid));
    assert a in s.status && Claimed(s, a);
  }

  lemma ReturnFrames(c: Config, s: Sys, act: Action)
    requires FramesMatch(s) && Enabled(s, act) && act.Return?
    ensures FramesMatch(Apply(c, s, act))
  {
    var s' := Apply(c, s, act);
    forall t, d: nat | HasFrame(s', t, d) ensures Backed(s', t, d) {
      ReturnBacked(c, s, act, t, d);
    }
    forall a | a in s'.status ensures IsRecordable(a) && Claimed(s', a) {
      ReturnClaimed(c, s, act, a);
    }
  }

  lemma FreeAgainFrames(c: Config, s: Sys, act: Action)
    requires FramesMatch(s) && Enabled(s, act) && act.FreeAgain?
    ensures FramesMatch(Apply(c, s, act))
  {
    var s' := Apply(c, s, act);
    assert forall a :: a in s.status ==> Claimed(s, a);
    forall t, d: nat | HasFrame(s', t, d) ensures Backed(s', t, d) {
      assert HasFrame(s, t, d) && Backed(s, t, d);
    }
  }

  lemma KeepsFrames(c: Config, s: Sys, act: Action)
    requires FramesMatch(s)
    ensures FramesMatch(Apply(c, s, act))
  {
    if Enabled(s, act) {
      match act
      case CallAlloc(_, _, _, _) => CallAllocFrames(c, s, act);
      case CallRealloc(_, _, _, _) => CallReallocFrames(c, s, act);
      case CallFree(_, _) => CallFreeFrames(c, s, act);
      case Obtain(_, _) => ObtainFrames(c, s, act);
      case Resize(_, _) => ObtainFrames(c, s, act);
      case ReleaseOld(_) => ObtainFrames(c, s, act);
      case Return(_, _, _, _) => ReturnFrames(c, s, act);
      case Release(_) => ReleaseFrames(c, s, act);
      case FreeAgain(_) =>
        FreeAgainFrames(c, s, act);
    }
  }

  // ----- Tracked and SlotsMatch, action by action

  /** The address that an exit reports: the one returned, whenever anything is reported. */
  lemma ReportedIsReturned(s: Sys, t: Tid, r: U64, slot: Option<U64>)
    requires SlotsMatch(s) && InAlloc(s, t) && MayReturn(s, t, r, slot)
    ensures Reported(s, t, r, slot).Some? ==> Reported(s, t, r, slot).value == r
  {
    if Top(s, t).kind.Posix? && t in s.k.memptrs {
      assert TopPosix(StackOf(s, t)) == Some(Top(s, t).kind.memptr);
    }
  }

  lemma ExitKeys(c: Config, k: State, t: Tid, x: U64, now: U64)
    ensures AllocExit(c, k, t, x, now).allocs.Keys == k.allocs.Keys +
      if IsRecordable(x) && t in k.sizes && (x in k.allocs || |k.allocs| < c.allocsCap) then {x} else {}
  {
    if IsRecordable(x) && t in k.sizes {
      var rec := Record(k.sizes[t], now);
      assert AllocExit(c, k, t, x, now).allocs == UpdateAny(k.allocs, c.allocsCap, x, rec);
      UpdateKeys(k.allocs, c.allocsCap, x, rec);
    }
  }

  lemma UpdateKeys<V>(m: map<U64, V>, cap: nat, x: U64, v: V)
    ensures UpdateAny(m, cap, x, v).Keys == m.Keys + if x in m || |m| < cap then {x} else {}
  {
  }

  function Recorded(c: Config, s: Sys, t: Tid, x: Option<U64>): set<U64> {
    if Records(c, s, t, x) then {x.value} else {}
  }

  lemma ReturnKeys(c: Config, s: Sys, t: Tid, r: U64, slot: Option<U64>, now: U64)
    requires InAlloc(s, t)
    ensures ReturnKernel(c, s, t, r, slot, now).allocs.Keys
         == s.k.allocs.Keys + Recorded(c, s, t, Reported(s, t, r, slot))
  {
    if Top(s, t).kind.Posix? {
      if t in s.k.memptrs && slot.Some? {
        ExitKeys(c, s.k.(memptrs := s.k.memptrs - {t}), t, slot.value, now);
      }
    } else {
      ExitKeys(c, s.k, t, r, now);
    }
  }

  function OwnOf(f: Frame): set<U64> {
    if f.AllocFrame? && f.own.Some? then {f.own.value} else {}
  }

  function PriorOf(f: Frame): set<U64> {
    if f.AllocFrame? && f.kind.Realloc? && f.kind.prior != 0 then {f.kind.prior} else {}
  }

  /** A return turns the addresses in transit of its frame into held ones. */
  lemma ReturnHolds(c: Config, s: Sys, act: Action)
    requires FramesMatch(s) && Enabled(s, act) && act.Return?
    ensures var f, s' := Top(s, act.tid), Apply(c, s, act);
      && (forall a :: IsHeld(s', a) <==> IsHeld(s, a) || a in OwnOf(f) || a in PriorOf(f))
      && (forall a :: a in OwnOf(f) + PriorOf(f) ==> !IsHeld(s, a))
      && OwnOf(f) !! PriorOf(f)
  {
    assert Backed(s, act.tid, Depth(s, act.tid));
  }

  lemma TrackedBySets(s: Sys, s': Sys, own: set<U64>, prior: set<U64>, recorded: set<U64>)
    requires Tracked(s)
    requires forall a :: IsHeld(s', a) <==> IsHeld(s, a) || a in own || a in prior
    requires forall a :: a in own + prior ==> !IsHeld(s, a)
    requires own !! prior
    requires forall a :: a in recorded ==> a in own || IsHeld(s, a)
    requires s'.k.allocs.Keys == s.k.allocs.Keys + recorded
    requires s'.missed == s.missed + own - recorded + prior
    ensures Tracked(s')
  {
    forall a ensures a in s'.k.allocs <==> IsHeld(s', a) && a !in s'.missed {
      assert a in s'.k.allocs <==> a in s.k.allocs.Keys + recorded;
    }
  }

  /** What an exit records was obtained by its call, or is held already. */
  lemma RecordsOwnOrHeld(c: Config, s: Sys, act: Action, a: U64)
    requires Inv(s) && Enabled(s, act) && act.Return?
    requires a in Recorded(c, s, act.tid, Reported(s, act.tid, act.r, act.slot))
    ensures a in OwnOf(Top(s, act.tid)) || IsHeld(s, a)
  {
    ReportedIsReturned(s, act.tid, act.r, act.slot);
  }

  lemma ReturnTracked(c: Config, s: Sys, act: Action)
    requires Inv(s) && Enabled(s, act) && act.Return?
    ensures Tracked(Apply(c, s, act))
  {
    var t := act.tid;
    var f, x := Top(s, t), Reported(s, t, act.r, act.slot);
    forall a | a in Recorded(c, s, t, x) ensures a in OwnOf(f) || IsHeld(s, a) {
      RecordsOwnOrHeld(c, s, act, a);
    }
    ReturnKeys(c, s, t, act.r, act.slot, act.now);
    ReturnHolds(c, s, act);
    TrackedBySets(s, Apply(c, s, act), OwnOf(f), PriorOf(f), Recorded(c, s, t, x));
  }

  lemma NullNotRecorded(s: Sys)
    requires FramesMatch(s) && Tracked(s)
    ensures 0 !in s.k.allocs
  {
    assert forall a :: a in s.k.allocs ==> a in s.status && IsRecordable(a);
  }

  lemma CallTracked(c: Config, s: Sys, act: Action)
    requires Tracked(s) && Enabled(s, act) && (act.CallAlloc? || act.CallRealloc? || act.CallFree?)
    requires FramesMatch(s)
    ensures Tracked(Apply(c, s, act))
  {
    NullNotRecorded(s);
  }

  lemma MoveTracked(c: Config, s: Sys, act: Action)
    requires Tracked(s) && FramesMatch(s) && Enabled(s, act)
    requires act.Obtain? || act.Resize? || act.ReleaseOld? || act.FreeAgain? || act.Release?
    ensures Tracked(Apply(c, s, act))
  {
    assert Backed(s, act.tid, Depth(s, act.tid));
  }

  lemma KeepsTracked(c: Config, s: Sys, act: Action)
    requires Inv(s)
    ensures Tracked(Apply(c, s, act))
  {
    if Enabled(s, act) {
      if act.Return? {
        ReturnTracked(c, s, act);
      } else if act.CallAlloc? || act.CallRealloc? || act.CallFree? {
        CallTracked(c, s, act);
      } else {
        MoveTracked(c, s, act);
      }
    }
  }

  predicate EntersPosix(act: Action) {
    act.CallAlloc? && act.kind.Posix?
  }

  predicate LeavesPosix(s: Sys, act: Action) {
    act.Return? && InAlloc(s, act.tid) && Top(s, act.tid).kind.Posix?
  }

  lemma NextMemptrs(c: Config, s: Sys, act: Action)
    requires Enabled(s, act)
    ensures Apply(c, s, act).k.memptrs ==
      if EntersPosix(act) then UpdateAny(s.k.memptrs, c.memptrsCap, act.tid, act.kind.memptr)
      else if LeavesPosix(s, act) then s.k.memptrs - {act.tid}
      else s.k.memptrs
  {
    match act
    case CallAlloc(t, kind, req, clock) =>
    case CallRealloc(t, ptr, req, clock) => FreeKeepsMemptrs(c, s.k, ptr);
    case CallFree(_, a) => FreeKeepsMemptrs(c, s.k, a);
    case Obtain(_, a) =>
    case Resize(_, a) =>
    case ReleaseOld(_) =>
    case Return(t, r, slot, now) =>
      if Top(s, t).kind.Posix? {
        PosixExitMemptrs(c, s.k, t, slot, now);
      } else {
        ExitKeepsMemptrs(c, s.k, t, r, now);
      }
    case FreeAgain(t) => FreeKeepsMemptrs(c, s.k, Top(s, t).address);
    case Release(_) =>
  }

  lemma FreeKeepsMemptrs(c: Config, k: State, a: U64)
    ensures FreeEnter(c, k, a).memptrs == k.memptrs
  {
  }

  lemma ExitKeepsMemptrs(c: Config, k: State, t: Tid, x: U64, now: U64)
    ensures AllocExit(c, k, t, x, now).memptrs == k.memptrs
  {
  }

  lemma PosixExitMemptrs(c: Config, k: State, t: Tid, slot: Option<U64>, now: U64)
    ensures PosixExit(c, k, t, slot, now).memptrs == k.memptrs - {t}
  {
    if t in k.memptrs && slot.Some? {
      ExitKeepsMemptrs(c, k.(memptrs := k.memptrs - {t}), t, slot.value, now);
    }
  }

  lemma OtherStacks(c: Config, s: Sys, act: Action, t: Tid)
    requires t != act.tid
    ensures StackOf(Apply(c, s, act), t) == StackOf(s, t)
  {
  }

  lemma NextTopPosix(c: Config, s: Sys, act: Action)
    requires FramesMatch(s) && Enabled(s, act) && !LeavesPosix(s, act)
    ensures TopPosix(StackOf(Apply(c, s, act), act.tid))
         == if EntersPosix(act) then Some(act.kind.memptr) else TopPosix(StackOf(s, act.tid))
  {
    var t := act.tid;
    var stack := StackOf(s, t);
    match act
    case CallAlloc(_, kind, _, _) => PushedTopPosix(stack, AllocFrame(kind, None, false));
    case CallRealloc(_, ptr, _, _) => PushedTopPosix(stack, AllocFrame(Realloc(ptr), None, false));
    case CallFree(_, a) => PushedTopPosix(stack, FreeFrame(a));
    case Obtain(_, a) => SetTopPosix(stack, Top(s, t).(own := Some(a)));
    case Resize(_, a) => SetTopPosix(stack, Top(s, t).(kind := Realloc(0), own := Some(a)));
    case ReleaseOld(_) => SetTopPosix(stack, Top(s, t).(kind := Realloc(0)));
    case Return(_, _, _, _) => MarkedTopPosix(stack[..|stack| - 1]);
    case FreeAgain(_) =>
    case Release(_) =>
  }

  lemma {:induction false} KeepsSlots(c: Config, s: Sys, act: Action)
    requires FramesMatch(s) && SlotsMatch(s)
    ensures SlotsMatch(Apply(c, s, act))
  {
    if Enabled(s, act) {
      var s' := Apply(c, s, act);
      NextMemptrs(c, s, act);
      forall t | t in s'.k.memptrs ensures TopPosix(StackOf(s', t)) == Some(s'.k.memptrs[t]) {
        if t != act.tid {
          OtherStacks(c, s, act, t);
        } else {
          NextTopPosix(c, s, act);
        }
      }
    }
  }

  lemma KeepsInv(c: Config, s: Sys, act: Action)
    requires Inv(s)
    ensures Inv(Apply(c, s, act))
  {
    KeepsFrames(c, s, act);
    KeepsTracked(c, s, act);
    KeepsSlots(c, s, act);
  }

  lemma {:induction false} AlwaysInv(c: Config, acts: seq<Action>)
    ensures Inv(After(c, acts))
  {
    if acts != [] {
      AlwaysInv(c, acts[..|acts| - 1]);
      KeepsInv(c, After(c, acts[..|acts| - 1]), acts[|acts| - 1]);
    }
  }

  /** The leak set of a state: live addresses the program holds and the tracker did not miss. */
  ghost predicate LeakSetExact(s: Sys) {
    forall a :: a in s.k.allocs <==> IsHeld(s, a) && a !in s.missed
  }

  /** In every state of every schedule, each recorded address is live and held by the program,
      and every held address is recorded or missed. */
  lemma {:induction false} LeakSetIsSound(c: Config, acts: seq<Action>)
    ensures LeakSetExact(After(c, acts))
    ensures forall a :: a in After(c, acts).k.allocs ==> a in After(c, acts).status
    ensures forall a :: a in After(c, acts).missed ==> IsHeld(After(c, acts), a)
  {
    AlwaysInv(c, acts);
  }
}
