/** The traced process against the tracker: threads that call allocation functions from
    within each other, a ground-truth heap, and the probes that fire on the way. */
module Heap {
  import opened Words
  import opened Kernel

  /** What the process is doing with a live address: a call of thread `tid` at stack position
      `depth` got it and has not returned it, the program holds it, or such a call is
      releasing it. */
  datatype Status =
    | InFlight(tid: Tid, depth: nat)
    | Held
    | Freeing(tid: Tid, depth: nat)

  datatype Kind =
    | Plain                  // malloc, calloc, operator new, memalign, ...
    | Posix(memptr: U64)     // posix_memalign, storing its result at memptr
    | Realloc(prior: U64)      // realloc; `prior` still has to be released, 0 for nothing

  /** A running traced call. `own` is the address it obtained itself; `nested` tells that an
      allocation call has returned inside it. */
  datatype Frame =
    | AllocFrame(kind: Kind, own: Option<U64>, nested: bool)
    | FreeFrame(address: U64)
  {
    predicate Owns(a: U64) {
      AllocFrame? && own == Some(a)
    }

    predicate Frees(a: U64) {
      a != 0 && (if FreeFrame? then address == a else kind == Realloc(a))
    }
  }

  /** `status` is the heap: its keys are the live addresses. `missed` are held addresses that
      the tracker does not record; `HeapCauses.MissedIff` tells why. */
  datatype Sys = Sys(k: State, status: map<U64, Status>, stacks: map<Tid, seq<Frame>>, missed: set<U64>)

  const INIT: Sys := Sys(EMPTY, map[], map[], {})

  datatype Action =
    | CallAlloc(tid: Tid, kind: Kind, req: Request, clock: U64)
    | CallRealloc(tid: Tid, ptr: U64, req: Request, clock: U64)
    | Obtain(tid: Tid, a: U64)          // the allocator hands out fresh memory
    | Resize(tid: Tid, a: U64)          // realloc moves or resizes the old block
    | ReleaseOld(tid: Tid)              // realloc to size zero releases the old block
    | Return(tid: Tid, r: U64, slot: Option<U64>, now: U64)
    | CallFree(tid: Tid, a: U64)
    | FreeAgain(tid: Tid)               // operator delete calls free on the same pointer
    | Release(tid: Tid)                 // the block is given back and the call returns

  function StackOf(s: Sys, t: Tid): seq<Frame> {
    if t in s.stacks then s.stacks[t] else []
  }

  predicate InAlloc(s: Sys, t: Tid) {
    var stack := StackOf(s, t);
    stack != [] && stack[|stack| - 1].AllocFrame?
  }

  predicate InFree(s: Sys, t: Tid) {
    var stack := StackOf(s, t);
    stack != [] && stack[|stack| - 1].FreeFrame?
  }

  function Top(s: Sys, t: Tid): Frame
    requires StackOf(s, t) != []
  {
    StackOf(s, t)[|StackOf(s, t)| - 1]
  }

  function Depth(s: Sys, t: Tid): nat
    requires StackOf(s, t) != []
  {
    |StackOf(s, t)| - 1
  }

  predicate IsHeld(s: Sys, a: U64) {
    a in s.status && s.status[a].Held?
  }

  /** Neither of the two values with which an allocation reports a failure. */
  predicate IsBlock(a: U64) {
    0 < a < 0xFFFF_FFFF_FFFF_FFFF
  }

  /** A call that obtained an address returns it; any other call fails, or hands on an address
      that the program holds after an inner call returned. posix_memalign is taken to succeed,
      and its exit reads the result it stored, or faults; a pointer remembered from some other
      call may hold anything. */
  predicate MayReturn(s: Sys, t: Tid, r: U64, slot: Option<U64>)
    requires InAlloc(s, t)
  {
    var f := Top(s, t);
    && (if f.own.Some? then r == f.own.value else !IsBlock(r) || (f.nested && IsHeld(s, r)))
    && (f.kind.Posix? ==> IsBlock(r) && (t in s.k.memptrs && s.k.memptrs[t] == f.kind.memptr && slot.Some? ==> slot.value == r))
  }

  /** The program frees only addresses it holds, and the allocator never hands out a live one. */
  predicate Enabled(s: Sys, act: Action) {
    match act
    case CallAlloc(t, kind, req, clock) => !kind.Realloc?
    case CallRealloc(t, ptr, req, clock) => ptr == 0 || IsHeld(s, ptr)
    case Obtain(t, a) => InAlloc(s, t) && Top(s, t).own.None? && (Top(s, t).kind.Realloc? ==> Top(s, t).kind.prior == 0) &&
      IsBlock(a) && a !in s.status
    case Resize(t, a) => InAlloc(s, t) && Top(s, t).own.None? && Top(s, t).kind.Realloc? && Top(s, t).kind.prior != 0 &&
      IsBlock(a) && (a == Top(s, t).kind.prior || a !in s.status)
    case ReleaseOld(t) => InAlloc(s, t) && Top(s, t).kind.Realloc? && Top(s, t).kind.prior != 0
    case Return(t, r, slot, now) => InAlloc(s, t) && MayReturn(s, t, r, slot)
    case CallFree(t, a) => a == 0 || IsHeld(s, a)
    case FreeAgain(t) => InFree(s, t)
    case Release(t) => InFree(s, t)
  }

  function Push(s: Sys, t: Tid, f: Frame): map<Tid, seq<Frame>> {
    s.stacks[t := StackOf(s, t) + [f]]
  }

  function SetTop(s: Sys, t: Tid, f: Frame): map<Tid, seq<Frame>>
    requires StackOf(s, t) != []
  {
    s.stacks[t := StackOf(s, t)[Depth(s, t) := f]]
  }

  function Marked(stack: seq<Frame>): (r: seq<Frame>)
    ensures |r| == |stack|
    ensures forall i :: 0 <= i < |r| ==> r[i] == if stack[i].AllocFrame? then stack[i].(nested := true) else stack[i]
  {
    seq(|stack|, i requires 0 <= i < |stack| => if stack[i].AllocFrame? then stack[i].(nested := true) else stack[i])
  }

  /** The address the exit probe of the top call hands to the generic handler. */
  function Reported(s: Sys, t: Tid, r: U64, slot: Option<U64>): Option<U64>
    requires InAlloc(s, t)
  {
    if Top(s, t).kind.Posix? then (if t in s.k.memptrs then slot else None) else Some(r)
  }

  /** The exit probe finds a pending request and a place for its record. */
  predicate Records(c: Config, s: Sys, t: Tid, x: Option<U64>) {
    && x.Some? && IsRecordable(x.value) && t in s.k.sizes
    && (x.value in s.k.allocs || |s.k.allocs| < c.allocsCap)
  }

  function ReturnKernel(c: Config, s: Sys, t: Tid, r: U64, slot: Option<U64>, now: U64): State
    requires InAlloc(s, t)
  {
    if Top(s, t).kind.Posix? then PosixExit(c, s.k, t, slot, now) else AllocExit(c, s.k, t, r, now)
  }

  /** The call's own address is now held; so is again the old one of a realloc that failed. */
  function ReturnStatus(s: Sys, t: Tid): map<U64, Status>
    requires InAlloc(s, t)
  {
    var f := Top(s, t);
    var m := if f.own.Some? then s.status[f.own.value := Held] else s.status;
    if f.kind.Realloc? && f.kind.prior != 0 then m[f.kind.prior := Held] else m
  }

  /** Missed from now on: an own address whose exit records nothing, and the old address of a
      failed realloc, whose record its entry probe dropped. */
  function ReturnMissed(c: Config, s: Sys, t: Tid, x: Option<U64>): set<U64>
    requires InAlloc(s, t)
  {
    var f := Top(s, t);
    var recorded := if Records(c, s, t, x) then {x.value} else {};
    var own := if f.own.Some? then {f.own.value} else {};
    var prior := if f.kind.Realloc? && f.kind.prior != 0 then {f.kind.prior} else {};
    s.missed + own - recorded + prior
  }

  /** One action; an action that is not enabled does nothing. */
  function Apply(c: Config, s: Sys, act: Action): Sys {
    if !Enabled(s, act) then s
    else
      match act
      case CallAlloc(t, kind, req, clock) =>
        var k := if kind.Posix? then PosixEnter(c, s.k, t, kind.memptr, req, clock) else AllocEnter(c, s.k, t, req, clock);
        s.(k := k, stacks := Push(s, t, AllocFrame(kind, None, false)))
      case CallRealloc(t, ptr, req, clock) =>
        var k := ReallocEnter(c, s.k, t, ptr, req, clock);
        var stacks := Push(s, t, AllocFrame(Realloc(ptr), None, false));
        if ptr == 0 then s.(k := k, stacks := stacks)
        else Sys(k, s.status[ptr := Freeing(t, |StackOf(s, t)|)], stacks, s.missed - {ptr})
      case Obtain(t, a) =>
        s.(status := s.status[a := InFlight(t, Depth(s, t))], stacks := SetTop(s, t, Top(s, t).(own := Some(a))))
      case Resize(t, a) =>
        s.(status := (s.status - {Top(s, t).kind.prior})[a := InFlight(t, Depth(s, t))],
           stacks := SetTop(s, t, Top(s, t).(kind := Realloc(0), own := Some(a))))
      case ReleaseOld(t) =>
        s.(status := s.status - {Top(s, t).kind.prior}, stacks := SetTop(s, t, Top(s, t).(kind := Realloc(0))))
      case Return(t, r, slot, now) =>
        Sys(ReturnKernel(c, s, t, r, slot, now), ReturnStatus(s, t),
            s.stacks[t := Marked(StackOf(s, t)[..Depth(s, t)])], ReturnMissed(c, s, t, Reported(s, t, r, slot)))
      case CallFree(t, a) =>
        if a == 0 then s.(k := FreeEnter(c, s.k, a))
        else Sys(FreeEnter(c, s.k, a), s.status[a := Freeing(t, |StackOf(s, t)|)], Push(s, t, FreeFrame(a)), s.missed - {a})
      case FreeAgain(t) =>
        s.(k := FreeEnter(c, s.k, Top(s, t).address))
      case Release(t) =>
        s.(status := s.status - {Top(s, t).address}, stacks := s.stacks[t := StackOf(s, t)[..Depth(s, t)]])
  }

  /** The system after a schedule of actions. */
  function After(c: Config, acts: seq<Action>): Sys {
    if acts == [] then INIT else Apply(c, After(c, acts[..|acts| - 1]), acts[|acts| - 1])
  }
}
