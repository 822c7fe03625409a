/** Allocation functions that call each other: which exit consumes the pending request of a
    thread, and whose size and stack the record then carries. */
module NestedCalls {
  import opened Words
  import opened Kernel
  import opened Runs

  /** One traced call: what its entry probe saw, what it returned, and the traced
      allocation calls made while it ran, in order. */
  datatype Call = Call(req: Request, ret: U64, kids: seq<Call>)

  /** Probe firings of one thread. */
  datatype Event = In(req: Request) | Out(address: U64)

  /** What one exit probe of the thread did: the address it saw and the request it consumed. */
  datatype Consumed = Consumed(address: U64, request: Option<SizeInfo>)

  /** The firings of the calls `f[k..]`, in time order. */
  function Events(f: seq<Call>, k: nat): seq<Event>
    requires k <= |f|
    decreases f, |f| - k
  {
    if k == |f| then []
    else [In(f[k].req)] + Events(f[k].kids, 0) + [Out(f[k].ret)] + Events(f, k + 1)
  }

  // ----- Calls named by their position in the forest

  predicate IsPath(f: seq<Call>, path: seq<nat>)
    decreases |path|
  {
    path != [] && path[0] < |f| && (|path| > 1 ==> IsPath(f[path[0]].kids, path[1..]))
  }

  function At(f: seq<Call>, path: seq<nat>): Call
    requires IsPath(f, path)
    decreases |path|
  {
    if |path| == 1 then f[path[0]] else At(f[path[0]].kids, path[1..])
  }

  function Under(k: nat, paths: seq<seq<nat>>): (r: seq<seq<nat>>)
    ensures |r| == |paths|
    ensures forall i :: 0 <= i < |r| ==> r[i] == [k] + paths[i]
  {
    seq(|paths|, i requires 0 <= i < |paths| => [k] + paths[i])
  }

  /** The calls `f[k..]` and all below them, in the order in which they return. */
  function ReturnOrder(f: seq<Call>, k: nat): seq<seq<nat>>
    requires k <= |f|
    decreases f, |f| - k
  {
    if k == |f| then []
    else Under(k, ReturnOrder(f[k].kids, 0)) + [[k]] + ReturnOrder(f, k + 1)
  }

  /** The highest ancestor that reaches the call by first-child links only. */
  function Head(path: seq<nat>): (h: seq<nat>)
    ensures h <= path
    ensures path != [] ==> h != []
    ensures forall i :: |h| <= i < |path| ==> path[i] == 0
    ensures |h| > 1 ==> h[|h| - 1] != 0
    decreases |path|
  {
    if |path| > 1 && path[|path| - 1] == 0 then Head(path[..|path| - 1]) else path
  }

  predicate AllZero(path: seq<nat>) {
    forall i :: 0 <= i < |path| ==> path[i] == 0
  }

  lemma {:induction false} HeadOfZeros(path: seq<nat>)
    requires path != [] && AllZero(path)
    ensures Head(path) == path[..1]
    decreases |path|
  {
    if |path| > 1 {
      HeadOfZeros(path[..|path| - 1]);
    }
  }

  lemma {:induction false} HeadUnder(k: nat, path: seq<nat>)
    requires path != []
    ensures Head([k] + path) == if AllZero(path) then [k] else [k] + Head(path)
    decreases |path|
  {
    var n := |path| - 1;
    var whole := [k] + path;
    assert whole[|whole| - 1] == path[n];
    if path[n] == 0 {
      assert whole[..|whole| - 1] == [k] + path[..n];
      if n == 0 {
        assert path[..n] == [];
        assert whole[..|whole| - 1] == [k];
      } else {
        HeadUnder(k, path[..n]);
      }
    } else {
      assert Head(path) == path;
    }
  }

  lemma {:induction false} PrefixIsPath(f: seq<Call>, path: seq<nat>, h: seq<nat>)
    requires IsPath(f, path) && h != [] && h <= path
    ensures IsPath(f, h)
    decreases |path|
  {
    if |h| > 1 {
      PrefixIsPath(f[path[0]].kids, path[1..], h[1..]);
    }
  }

  // ----- The pending request as a one-cell automaton

  /** The request under which a call runs that finds the cell as `cell`. */
  function Running(cell: Option<SizeInfo>, req: Request): SizeInfo {
    if cell.Some? then cell.value else Pending(req)
  }

  /** Entry fills an empty cell, exit empties it. */
  function Move(cell: Option<SizeInfo>, e: Event): Option<SizeInfo> {
    if e.Out? then None else Some(Running(cell, e.req))
  }

  function Entry(cell: Option<SizeInfo>, e: Event): seq<Consumed> {
    if e.Out? then [Consumed(e.address, cell)] else []
  }

  function CellAfter(cell: Option<SizeInfo>, es: seq<Event>): Option<SizeInfo> {
    if es == [] then cell else Move(CellAfter(cell, es[..|es| - 1]), es[|es| - 1])
  }

  /** One entry per exit. */
  function LogOf(cell: Option<SizeInfo>, es: seq<Event>): seq<Consumed> {
    if es == [] then []
    else LogOf(cell, es[..|es| - 1]) + Entry(CellAfter(cell, es[..|es| - 1]), es[|es| - 1])
  }

  lemma {:induction false} CellAppend(cell: Option<SizeInfo>, a: seq<Event>, b: seq<Event>)
    ensures CellAfter(cell, a + b) == CellAfter(CellAfter(cell, a), b)
    decreases |b|
  {
    if b == [] {
      assert a + b == a;
    } else {
      var n := |b| - 1;
      assert (a + b)[..|a| + n] == a + b[..n];
      CellAppend(cell, a, b[..n]);
    }
  }

  lemma Associative<T>(a: seq<T>, b: seq<T>, c: seq<T>)
    ensures (a + b) + c == a + (b + c)
  {
  }

  lemma LogSnoc(cell: Option<SizeInfo>, es: seq<Event>, e: Event)
    ensures LogOf(cell, es + [e]) == LogOf(cell, es) + Entry(CellAfter(cell, es), e)
  {
    assert (es + [e])[..|es|] == es;
  }

  lemma {:induction false} LogAppend(cell: Option<SizeInfo>, a: seq<Event>, b: seq<Event>)
    ensures LogOf(cell, a + b) == LogOf(cell, a) + LogOf(CellAfter(cell, a), b)
    decreases |b|
  {
    var cell' := CellAfter(cell, a);
    if b == [] {
      assert a + b == a;
      assert LogOf(cell', b) == [];
    } else {
      var front, last := b[..|b| - 1], b[|b| - 1];
      assert a + b == a + front + [last] && b == front + [last];
      LogSnoc(cell, a + front, last);
      LogSnoc(cell', front, last);
      CellAppend(cell, a, front);
      LogAppend(cell, a, front);
      Associative(LogOf(cell, a), LogOf(cell', front), Entry(CellAfter(cell', front), last));
    }
  }

  lemma PlayAppend(cell: Option<SizeInfo>, a: seq<Event>, b: seq<Event>)
    ensures CellAfter(cell, a + b) == CellAfter(CellAfter(cell, a), b)
    ensures LogOf(cell, a + b) == LogOf(cell, a) + LogOf(CellAfter(cell, a), b)
  {
    CellAppend(cell, a, b);
    LogAppend(cell, a, b);
  }

  lemma PlayOne(cell: Option<SizeInfo>, e: Event)
    ensures CellAfter(cell, [e]) == Move(cell, e) && LogOf(cell, [e]) == Entry(cell, e)
  {
    assert [e][..0] == [];
  }

  lemma PlayNext(cell: Option<SizeInfo>, es: seq<Event>, e: Event)
    ensures CellAfter(cell, es + [e]) == Move(CellAfter(cell, es), e)
    ensures LogOf(cell, es + [e]) == LogOf(cell, es) + Entry(CellAfter(cell, es), e)
  {
    PlayAppend(cell, es, [e]);
    PlayOne(CellAfter(cell, es), e);
  }

  /** Expected log of the calls `f[k..]`: a call without inner calls consumes the request it
      runs under, which it inherits from its parent when it is the first child. */
  function Expected(f: seq<Call>, k: nat, cell: Option<SizeInfo>): seq<Consumed>
    requires k <= |f|
    decreases f, |f| - k
  {
    if k == |f| then []
    else
      var info := Running(cell, f[k].req);
      (if f[k].kids == [] then [Consumed(f[k].ret, Some(info))]
       else Expected(f[k].kids, 0, Some(info)) + [Consumed(f[k].ret, None)])
      + Expected(f, k + 1, None)
  }

  /** The firings of one call, given those of its inner calls. */
  function Bracket(call: Call, inner: seq<Event>): seq<Event> {
    [In(call.req)] + inner + [Out(call.ret)]
  }

  /** Playing one call, given what its inner calls do, leaves the cell empty. */
  lemma PlayCall(cell: Option<SizeInfo>, call: Call, inner: seq<Event>)
    requires call.kids == [] ==> inner == []
    requires call.kids != [] ==> CellAfter(Some(Running(cell, call.req)), inner) == None
    ensures var info := Some(Running(cell, call.req));
      && CellAfter(cell, Bracket(call, inner)) == None
      && LogOf(cell, Bracket(call, inner))
           == LogOf(info, inner) + [Consumed(call.ret, if call.kids == [] then info else None)]
  {
    var info := Some(Running(cell, call.req));
    PlayOne(cell, In(call.req));
    PlayAppend(cell, [In(call.req)], inner);
    PlayNext(cell, [In(call.req)] + inner, Out(call.ret));
    assert LogOf(cell, [In(call.req)] + inner) == LogOf(info, inner);
  }

  lemma PlayCallThen(cell: Option<SizeInfo>, call: Call, inner: seq<Event>, rest: seq<Event>)
    requires call.kids == [] ==> inner == []
    requires call.kids != [] ==> CellAfter(Some(Running(cell, call.req)), inner) == None
    ensures var info := Some(Running(cell, call.req));
      && CellAfter(cell, Bracket(call, inner) + rest) == CellAfter(None, rest)
      && LogOf(cell, Bracket(call, inner) + rest)
           == LogOf(info, inner) + [Consumed(call.ret, if call.kids == [] then info else None)] + LogOf(None, rest)
  {
    PlayCall(cell, call, inner);
    PlayAppend(cell, Bracket(call, inner), rest);
  }

  lemma ExpectedFirst(f: seq<Call>, k: nat, cell: Option<SizeInfo>, inner: seq<Consumed>)
    requires k < |f|
    requires inner == Expected(f[k].kids, 0, Some(Running(cell, f[k].req)))
    ensures Expected(f, k, cell)
         == inner + [Consumed(f[k].ret, if f[k].kids == [] then Some(Running(cell, f[k].req)) else None)] + Expected(f, k + 1, None)
  {
  }

  lemma {:induction false} PlayForest(f: seq<Call>, k: nat, cell: Option<SizeInfo>)
    requires k <= |f| && (k == |f| ==> cell.None?)
    ensures CellAfter(cell, Events(f, k)) == None
    ensures LogOf(cell, Events(f, k)) == Expected(f, k, cell)
    decreases f, |f| - k
  {
    if k < |f| {
      var info := Some(Running(cell, f[k].req));
      var inner := Events(f[k].kids, 0);
      if f[k].kids != [] {
        PlayForest(f[k].kids, 0, info);
      }
      PlayForest(f, k + 1, None);
      PlayCallThen(cell, f[k], inner, Events(f, k + 1));
      ExpectedFirst(f, k, cell, LogOf(info, inner));
      assert Events(f, k) == Bracket(f[k], inner) + Events(f, k + 1);
    }
  }

  // ----- The expected log read by positions

  /** What the exit of the call at `path` consumes, the forest starting with cell `cell`. */
  function ConsumedAt(f: seq<Call>, path: seq<nat>, cell: Option<SizeInfo>): Consumed
    requires IsPath(f, path)
  {
    PrefixIsPath(f, path, Head(path));
    var call := At(f, path);
    Consumed(call.ret,
      if call.kids != [] then None
      else if cell.Some? && AllZero(path) then cell
      else Some(Pending(At(f, Head(path)).req)))
  }

  /** Entry by entry, `log` is what the exits of the calls at `paths` consume. */
  ghost predicate Reads(f: seq<Call>, paths: seq<seq<nat>>, log: seq<Consumed>, cell: Option<SizeInfo>) {
    && |log| == |paths|
    && forall i :: 0 <= i < |paths| ==> IsPath(f, paths[i]) && log[i] == ConsumedAt(f, paths[i], cell)
  }

  lemma ReadsAppend(f: seq<Call>, p: seq<seq<nat>>, q: seq<seq<nat>>, a: seq<Consumed>, b: seq<Consumed>, cell: Option<SizeInfo>)
    requires Reads(f, p, a, cell) && Reads(f, q, b, cell)
    ensures Reads(f, p + q, a + b, cell)
  {
  }

  lemma ConsumedBelow(f: seq<Call>, k: nat, path: seq<nat>, cell: Option<SizeInfo>)
    requires k < |f| && IsPath(f[k].kids, path)
    ensures IsPath(f, [k] + path)
    ensures ConsumedAt(f, [k] + path, cell)
         == ConsumedAt(f[k].kids, path, Some(Running(if k == 0 then cell else None, f[k].req)))
  {
    var whole := [k] + path;
    assert whole[1..] == path;
    HeadUnder(k, path);
    PrefixIsPath(f, whole, Head(whole));
    PrefixIsPath(f[k].kids, path, Head(path));
    assert AllZero(whole) <==> k == 0 && AllZero(path) by {
      if k == 0 && AllZero(path) {
        assert forall i :: 1 <= i < |whole| ==> whole[i] == path[i - 1];
      }
      if AllZero(whole) {
        assert whole[0] == 0;
        assert forall i :: 0 <= i < |path| ==> path[i] == whole[i + 1];
      }
    }
    if !AllZero(path) {
      assert ([k] + Head(path))[1..] == Head(path);
    }
  }

  lemma ConsumedHere(f: seq<Call>, k: nat, cell: Option<SizeInfo>)
    requires k < |f|
    ensures IsPath(f, [k])
    ensures ConsumedAt(f, [k], cell)
         == Consumed(f[k].ret, if f[k].kids == [] then Some(Running(if k == 0 then cell else None, f[k].req)) else None)
  {
    assert AllZero([k]) <==> [k][0] == 0;
  }

  lemma ReadsBelow(f: seq<Call>, k: nat, paths: seq<seq<nat>>, log: seq<Consumed>, cell: Option<SizeInfo>)
    requires k < |f|
    requires Reads(f[k].kids, paths, log, Some(Running(if k == 0 then cell else None, f[k].req)))
    ensures Reads(f, Under(k, paths), log, cell)
  {
    forall i | 0 <= i < |paths|
      ensures IsPath(f, Under(k, paths)[i]) && log[i] == ConsumedAt(f, Under(k, paths)[i], cell)
    {
      ConsumedBelow(f, k, paths[i], cell);
    }
  }

  lemma {:induction false} ExpectedByPosition(f: seq<Call>, k: nat, cell: Option<SizeInfo>)
    requires k <= |f|
    ensures Reads(f, ReturnOrder(f, k), Expected(f, k, if k == 0 then cell else None), cell)
    decreases f, |f| - k
  {
    if k < |f| {
      var info := Some(Running(if k == 0 then cell else None, f[k].req));
      ExpectedByPosition(f[k].kids, 0, info);
      ExpectedByPosition(f, k + 1, cell);
      CallByPosition(f, k, cell);
    }
  }

  lemma OrderFirst(f: seq<Call>, k: nat)
    requires k < |f|
    ensures ReturnOrder(f, k) == Under(k, ReturnOrder(f[k].kids, 0)) + [[k]] + ReturnOrder(f, k + 1)
  {
  }

  lemma CallByPosition(f: seq<Call>, k: nat, cell: Option<SizeInfo>)
    requires k < |f|
    requires var info := Some(Running(if k == 0 then cell else None, f[k].req));
      Reads(f[k].kids, ReturnOrder(f[k].kids, 0), Expected(f[k].kids, 0, info), info)
    requires Reads(f, ReturnOrder(f, k + 1), Expected(f, k + 1, None), cell)
    ensures Reads(f, ReturnOrder(f, k), Expected(f, k, if k == 0 then cell else None), cell)
  {
    var now := if k == 0 then cell else None;
    var log := Expected(f[k].kids, 0, Some(Running(now, f[k].req)));
    var below, here := Under(k, ReturnOrder(f[k].kids, 0)), [ConsumedAt(f, [k], cell)];
    ReadsBelow(f, k, ReturnOrder(f[k].kids, 0), log, cell);
    ConsumedHere(f, k, cell);
    assert Reads(f, [[k]], here, cell);
    ReadsAppend(f, below, [[k]], log, here, cell);
    ReadsAppend(f, below + [[k]], ReturnOrder(f, k + 1), log + here, Expected(f, k + 1, None), cell);
    ExpectedFirst(f, k, now, log);
    OrderFirst(f, k);
  }

  // ----- One thread inside an interleaved run

  function EventOf(op: Op, t: Tid): seq<Event> {
    if op.Free? || op.tid != t then []
    else if op.Enter? then [In(op.req)]
    else [Out(op.address)]
  }

  /** The alloc-probe firings of thread `t` in `ops`. */
  function Project(ops: seq<Op>, t: Tid): seq<Event> {
    if ops == [] then [] else Project(ops[..|ops| - 1], t) + EventOf(ops[|ops| - 1], t)
  }

  function Cell(st: State, t: Tid): Option<SizeInfo> {
    if t in st.sizes then Some(st.sizes[t]) else None
  }

  /** What each exit of `t` saw and consumed in the run of all threads. */
  function ExitLog(c: Config, st: State, ops: seq<Op>, t: Tid): seq<Consumed> {
    if ops == [] then []
    else
      var front, op := ops[..|ops| - 1], ops[|ops| - 1];
      var entry := if op.Exit? && op.tid == t then [Consumed(op.address, Cell(RunFrom(c, st, front), t))] else [];
      ExitLog(c, st, front, t) + entry
  }

  function Threads(ops: seq<Op>): set<Tid> {
    set i | 0 <= i < |ops| && !ops[i].Free? :: ops[i].tid
  }

  predicate NothingFiltered(c: Config, ops: seq<Op>, t: Tid) {
    forall i :: 0 <= i < |ops| && ops[i].Enter? && ops[i].tid == t ==>
      c.minSize <= ops[i].req.size <= c.maxSize && (c.sampleRate > 1 ==> ops[i].clock % c.sampleRate == 0)
  }

  lemma {:induction false} PendingThreads(c: Config, st: State, ops: seq<Op>)
    ensures RunFrom(c, st, ops).sizes.Keys <= st.sizes.Keys + Threads(ops)
  {
    if ops != [] {
      var front, op := ops[..|ops| - 1], ops[|ops| - 1];
      PendingThreads(c, st, front);
      ThreadsGrow(ops);
      StepThreads(c, RunFrom(c, st, front), op);
    }
  }

  lemma StepThreads(c: Config, st: State, op: Op)
    ensures Step(c, st, op).sizes.Keys <= st.sizes.Keys + if op.Enter? then {op.tid} else {}
  {
  }

  lemma ThreadsGrow(ops: seq<Op>)
    requires ops != []
    ensures Threads(ops[..|ops| - 1]) <= Threads(ops)
    ensures !ops[|ops| - 1].Free? ==> ops[|ops| - 1].tid in Threads(ops)
  {
    forall t | t in Threads(ops[..|ops| - 1]) ensures t in Threads(ops) {
      var i :| 0 <= i < |ops| - 1 && !ops[i].Free? && ops[i].tid == t;
    }
  }

  /** One step of any thread moves the cell of `t` as its own events say. */
  lemma StepMovesCell(c: Config, st: State, op: Op, t: Tid)
    requires op.Enter? && op.tid == t ==> Accepted(c, op.req, op.clock) && (t in st.sizes || |st.sizes| < c.sizesCap)
    ensures Cell(Step(c, st, op), t) == if EventOf(op, t) == [] then Cell(st, t) else Move(Cell(st, t), EventOf(op, t)[0])
  {
  }

  lemma RoomForThread(c: Config, st: State, ops: seq<Op>, t: Tid)
    requires ops != [] && !ops[|ops| - 1].Free? && ops[|ops| - 1].tid == t
    requires |st.sizes.Keys + Threads(ops)| <= c.sizesCap
    ensures var st' := RunFrom(c, st, ops[..|ops| - 1]); t in st'.sizes || |st'.sizes| < c.sizesCap
  {
    var front := ops[..|ops| - 1];
    var st' := RunFrom(c, st, front);
    PendingThreads(c, st, front);
    ThreadsGrow(ops);
    if t !in st'.sizes {
      SubsetSize(st'.sizes.Keys + {t}, st.sizes.Keys + Threads(ops));
    }
  }

  /** Whatever the other threads do, the thread behaves as its own automaton. */
  lemma {:induction false} Interleaved(c: Config, st: State, ops: seq<Op>, t: Tid)
    requires NothingFiltered(c, ops, t)
    requires |st.sizes.Keys + Threads(ops)| <= c.sizesCap
    ensures CellAfter(Cell(st, t), Project(ops, t)) == Cell(RunFrom(c, st, ops), t)
    ensures LogOf(Cell(st, t), Project(ops, t)) == ExitLog(c, st, ops, t)
  {
    if ops != [] {
      var front, op := ops[..|ops| - 1], ops[|ops| - 1];
      ThreadsGrow(ops);
      SubsetSize(st.sizes.Keys + Threads(front), st.sizes.Keys + Threads(ops));
      Interleaved(c, st, front, t);
      if op.Enter? && op.tid == t {
        RoomForThread(c, st, ops, t);
      }
      StepMovesCell(c, RunFrom(c, st, front), op, t);
      if EventOf(op, t) == [] {
        assert Project(front, t) + [] == Project(front, t);
      } else {
        PlayNext(Cell(st, t), Project(front, t), EventOf(op, t)[0]);
      }
    }
  }

  lemma {:induction false} LogPrefix(c: Config, st: State, ops: seq<Op>, n: nat, t: Tid)
    requires n <= |ops|
    ensures ExitLog(c, st, ops[..n], t) <= ExitLog(c, st, ops, t)
    decreases |ops|
  {
    if n == |ops| {
      assert ops[..n] == ops;
    } else {
      var front := ops[..|ops| - 1];
      LogPrefix(c, st, front, n, t);
      assert front[..n] == ops[..n];
    }
  }

  /** The whole log of a thread whose calls form `forest`, in any interleaving. */
  lemma {:induction false} NestedLog(c: Config, st: State, ops: seq<Op>, t: Tid, forest: seq<Call>)
    requires Project(ops, t) == Events(forest, 0) && t !in st.sizes
    requires NothingFiltered(c, ops, t)
    requires |st.sizes.Keys + Threads(ops)| <= c.sizesCap
    ensures t !in RunFrom(c, st, ops).sizes
    ensures var log, paths := ExitLog(c, st, ops, t), ReturnOrder(forest, 0);
      && |log| == |paths|
      && forall i :: 0 <= i < |log| ==> IsPath(forest, paths[i]) && log[i] == ConsumedAt(forest, paths[i], None)
  {
    Interleaved(c, st, ops, t);
    PlayForest(forest, 0, None);
    ExpectedByPosition(forest, 0, None);
  }

  /** The exit at `ops[n]` of the call at `path`: when the call made no inner call, its exit
      records its own returned address with the size, stack and frames of the highest ancestor
      reaching it by first-child links; any other exit changes nothing at all. */
  lemma {:induction false} NestedExit(c: Config, st: State, ops: seq<Op>, n: nat, t: Tid, forest: seq<Call>)
    returns (path: seq<nat>)
    requires Project(ops, t) == Events(forest, 0) && t !in st.sizes
    requires NothingFiltered(c, ops, t)
    requires |st.sizes.Keys + Threads(ops)| <= c.sizesCap
    requires n < |ops| && ops[n].Exit? && ops[n].tid == t
    ensures var i := |ExitLog(c, st, ops[..n], t)|;
      i < |ReturnOrder(forest, 0)| && path == ReturnOrder(forest, 0)[i]
    ensures IsPath(forest, path) && IsPath(forest, Head(path)) && ops[n].address == At(forest, path).ret
    ensures var before := RunFrom(c, st, ops[..n]);
      var after := Step(c, before, ops[n]);
      if At(forest, path).kids != [] then after == before
      else
        && after.sizes == before.sizes - {t}
        && after.allocs == if !IsRecordable(ops[n].address) then before.allocs
             else UpdateAny(before.allocs, c.allocsCap, ops[n].address,
                            Record(Pending(At(forest, Head(path)).req), ops[n].now))
  {
    NestedLog(c, st, ops, t, forest);
    var i := |ExitLog(c, st, ops[..n], t)|;
    LogPrefix(c, st, ops, n + 1, t);
    assert ops[..n + 1][..n] == ops[..n];
    path := ReturnOrder(forest, 0)[i];
    PrefixIsPath(forest, path, Head(path));
    ExitByCell(c, RunFrom(c, st, ops[..n]), ops[n]);
  }

  lemma ExitByCell(c: Config, st: State, op: Op)
    requires op.Exit?
    ensures Cell(st, op.tid).None? ==> Step(c, st, op) == st
    ensures Cell(st, op.tid).Some? ==>
      && Step(c, st, op).sizes == st.sizes - {op.tid}
      && Step(c, st, op).allocs == if !IsRecordable(op.address) then st.allocs
           else UpdateAny(st.allocs, c.allocsCap, op.address, Record(Cell(st, op.tid).value, op.now))
  {
  }
}
