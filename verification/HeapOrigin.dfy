/** Which call a live record describes: the entry that asked, the return that recorded. */
module HeapOrigin {
  import opened Words
  import opened Kernel
  import opened Heap
  import opened HeapSoundness
  import opened HeapCompleteness
  import opened HeapCauses

  /** The return stores a record of `a` for the pending request of its thread. */
  predicate Stores(c: Config, s: Sys, act: Action, a: U64) {
    act.Return? && Enabled(s, act) && Reported(s, act.tid, act.r, act.slot) == Some(a) && act.tid in s.k.sizes
  }

  lemma ExitRecord(c: Config, k: State, t: Tid, x: U64, now: U64, a: U64)
    requires a in AllocExit(c, k, t, x, now).allocs
    ensures var rec := AllocExit(c, k, t, x, now).allocs[a];
      (a in k.allocs && rec == k.allocs[a]) || (x == a && t in k.sizes && rec == Record(k.sizes[t], now))
  {
  }

  lemma FreeRecord(c: Config, k: State, x: U64, a: U64)
    requires a in FreeEnter(c, k, x).allocs
    ensures a in k.allocs && FreeEnter(c, k, x).allocs[a] == k.allocs[a]
  {
  }

  lemma ReturnRecord(c: Config, s: Sys, act: Action, a: U64)
    requires Enabled(s, act) && act.Return? && a in Apply(c, s, act).k.allocs
    ensures var rec := Apply(c, s, act).k.allocs[a];
      (a in s.k.allocs && rec == s.k.allocs[a]) || (Stores(c, s, act, a) && rec == Record(s.k.sizes[act.tid], act.now))
  {
    var t := act.tid;
    if !Top(s, t).kind.Posix? {
      ExitRecord(c, s.k, t, act.r, act.now, a);
    } else if t in s.k.memptrs && act.slot.Some? {
      ExitRecord(c, s.k.(memptrs := s.k.memptrs - {t}), t, act.slot.value, act.now, a);
    }
  }

  /** A record after an action was there before, or the return stored it. */
  lemma NextRecord(c: Config, s: Sys, act: Action, a: U64)
    requires Enabled(s, act) && a in Apply(c, s, act).k.allocs
    ensures var rec := Apply(c, s, act).k.allocs[a];
      (a in s.k.allocs && rec == s.k.allocs[a]) || (Stores(c, s, act, a) && rec == Record(s.k.sizes[act.tid], act.now))
  {
    match act
    case Return(_, _, _, _) => ReturnRecord(c, s, act, a);
    case CallFree(_, x) => FreeRecord(c, s.k, x, a);
    case FreeAgain(t) => FreeRecord(c, s.k, Top(s, t).address, a);
    case CallRealloc(_, x, _, _) => FreeRecord(c, s.k, x, a);
    case CallAlloc(_, _, _, _) =>
    case Obtain(_, _) =>
    case Resize(_, _) =>
    case ReleaseOld(_) =>
    case Release(_) =>
  }

  /** The record of `a` was asked for by the entry at `j`, whose request was still pending when the
      return at `i` of the same thread stored it, and has stood unchanged since. */
  ghost predicate BornAt(c: Config, acts: seq<Action>, a: U64, j: nat, i: nat) {
    && j < i < |acts| && Stores(c, After(c, acts[..i]), acts[i], a)
    && MadeAt(c, acts[..i], acts[i].tid, j)
    && StandsSince(c, acts, a, i, Record(Pending(acts[j].req), acts[i].now))
  }

  ghost predicate StandsSince(c: Config, acts: seq<Action>, a: U64, i: nat, rec: AllocInfo) {
    forall k :: i < k <= |acts| ==> a in After(c, acts[..k]).k.allocs && After(c, acts[..k]).k.allocs[a] == rec
  }

  lemma StandsOn(c: Config, acts: seq<Action>, a: U64, i: nat, rec: AllocInfo)
    requires i < |acts| && (i < |acts| - 1 ==> StandsSince(c, acts[..|acts| - 1], a, i, rec))
    requires a in After(c, acts).k.allocs && After(c, acts).k.allocs[a] == rec
    ensures StandsSince(c, acts, a, i, rec)
  {
    var n := |acts| - 1;
    forall k | i < k <= |acts| ensures a in After(c, acts[..k]).k.allocs && After(c, acts[..k]).k.allocs[a] == rec {
      if k == |acts| {
        assert acts[..k] == acts;
      } else {
        assert acts[..n][..k] == acts[..k];
      }
    }
  }

  lemma BornStays(c: Config, acts: seq<Action>, a: U64, j: nat, i: nat)
    requires acts != [] && BornAt(c, acts[..|acts| - 1], a, j, i)
    requires a in After(c, acts).k.allocs && After(c, acts).k.allocs[a] == Record(Pending(acts[j].req), acts[i].now)
    ensures BornAt(c, acts, a, j, i)
  {
    var front := acts[..|acts| - 1];
    assert front[..i] == acts[..i] && front[i] == acts[i] && front[j] == acts[j];
    StandsOn(c, acts, a, i, Record(Pending(acts[j].req), acts[i].now));
  }

  /** What a record says now is what it said when it was stored. */
  lemma BornSays(c: Config, acts: seq<Action>, a: U64, j: nat, i: nat)
    requires BornAt(c, acts, a, j, i)
    ensures a in After(c, acts).k.allocs && After(c, acts).k.allocs[a] == Record(Pending(acts[j].req), acts[i].now)
  {
    assert acts[..|acts|] == acts;
  }

  /** In every schedule a record tells the size, stack and frames that one accepted entry of the
      thread asked with, and the time of the return that stored it. */
  lemma {:induction false} BlockOrigin(c: Config, acts: seq<Action>, a: U64) returns (j: nat, i: nat)
    requires a in After(c, acts).k.allocs
    ensures BornAt(c, acts, a, j, i)
  {
    var n := |acts| - 1;
    var s, act := After(c, acts[..n]), acts[n];
    if Enabled(s, act) {
      NextRecord(c, s, act, a);
    }
    if a in s.k.allocs && After(c, acts).k.allocs[a] == s.k.allocs[a] {
      j, i := BlockOrigin(c, acts[..n], a);
      BornSays(c, acts[..n], a, j, i);
      BornStays(c, acts, a, j, i);
    } else {
      i := n;
      j := MadeBy(c, acts[..n], act.tid);
      SamePrefix(acts, n);
      StandsOn(c, acts, a, i, Record(Pending(acts[j].req), act.now));
    }
  }

  // ----- Orderly schedules

  lemma {:induction false} OrderlyTake(c: Config, acts: seq<Action>, k: nat)
    requires k <= |acts| && OrderlyRun(c, acts)
    ensures OrderlyRun(c, acts[..k])
    decreases |acts|
  {
    if k == |acts| {
      assert acts[..k] == acts;
    } else {
      OrderlyPrefix(c, acts);
      OrderlyTake(c, acts[..|acts| - 1], k);
      assert acts[..|acts| - 1][..k] == acts[..k];
    }
  }

  /** The entry at `j` starts a chain of first inner calls: the thread had no fresh call then, and
      until the return at `i`, the innermost of the chain, none of its calls returned. */
  ghost predicate HeadOfChain(c: Config, acts: seq<Action>, j: nat, i: nat) {
    && j < i < |acts| && acts[j].tid == acts[i].tid && !Fresh(After(c, acts[..j]), acts[i].tid)
    && forall m :: j < m < i ==> !ReturnsAt(c, acts, acts[i].tid, m)
  }

  lemma OrderlyReturnsReach(c: Config, acts: seq<Action>, t: Tid, m: nat)
    requires OrderlyRun(c, acts) && ReturnsAt(c, acts, t, m)
    ensures ReachesAt(c, acts, t, m) || t !in After(c, acts[..m]).k.sizes
  {
    OrderlyTake(c, acts, m);
    MissesNothing(c, acts[..m]);
    var s := After(c, acts[..m]);
    assert Orderly(c, s, acts[m]);
    if t in s.k.sizes && Top(s, t).kind.Posix? {
      assert Fresh(s, t) && TopAlloc(StackOf(s, t)) == Some(Top(s, t));
      assert FreshPosix(s, t);
    }
  }

  lemma StoresOwn(c: Config, s: Sys, act: Action, a: U64)
    requires Inv(s) && NoStale(s) && Stores(c, s, act, a) && IsRecordable(a)
    ensures Top(s, act.tid).own == Some(a)
  {
    ReportedIsReturned(s, act.tid, act.r, act.slot);
    assert Fresh(s, act.tid) && TopAlloc(StackOf(s, act.tid)) == Some(Top(s, act.tid));
  }

  lemma NoReturnBetween(c: Config, acts: seq<Action>, t: Tid, j: nat, m: nat)
    requires OrderlyRun(c, acts) && MadeAt(c, acts, t, j) && j < m < |acts|
    ensures !ReturnsAt(c, acts, t, m)
  {
    StaysPending(c, acts, t, j, m);
    assert !ReachesOf(c, acts, t)(m);
    if ReturnsAt(c, acts, t, m) {
      OrderlyReturnsReach(c, acts, t, m);
    }
  }

  lemma OrderlyHead(c: Config, acts: seq<Action>, j: nat, i: nat)
    requires OrderlyRun(c, acts) && i < |acts| && MadeAt(c, acts[..i], acts[i].tid, j)
    ensures HeadOfChain(c, acts, j, i)
  {
    var t := acts[i].tid;
    SamePrefix(acts, i);
    OrderlyTake(c, acts, j);
    MissesNothing(c, acts[..j]);
    OrderlyTake(c, acts, i);
    forall m | j < m < i ensures !ReturnsAt(c, acts, t, m) {
      NoReturnBetween(c, acts[..i], t, j, m);
    }
  }

  /** In an orderly schedule the block `a` that the program holds is described by the call that
      started the chain of first inner calls whose last one obtained it. */
  lemma {:induction false} HeldBlockRecord(c: Config, acts: seq<Action>, a: U64) returns (j: nat, i: nat)
    requires OrderlyRun(c, acts) && IsHeld(After(c, acts), a)
    ensures BornAt(c, acts, a, j, i) && HeadOfChain(c, acts, j, i)
    ensures Top(After(c, acts[..i]), acts[i].tid).own == Some(a)
  {
    LeakSetIsComplete(c, acts, a);
    j, i := BlockOrigin(c, acts, a);
    OrderlyHead(c, acts, j, i);
    OrderlyTake(c, acts, i);
    MissesNothing(c, acts[..i]);
    AlwaysInv(c, acts[..i]);
    AlwaysInv(c, acts);
    StoresOwn(c, After(c, acts[..i]), acts[i], a);
  }

  /** The block was asked for with `req`, by the head of its chain of first inner calls. */
  ghost predicate AskedWith(c: Config, acts: seq<Action>, a: U64, req: Request) {
    exists j: nat, i: nat :: BornAt(c, acts, a, j, i) && HeadOfChain(c, acts, j, i) && acts[j].req == req
  }

  lemma HeldAsked(c: Config, acts: seq<Action>, a: U64)
    requires OrderlyRun(c, acts) && IsHeld(After(c, acts), a)
    ensures exists req :: AskedWith(c, acts, a, req)
  {
    var j, i := HeldBlockRecord(c, acts, a);
    assert AskedWith(c, acts, a, acts[j].req);
  }

  lemma AskedRecord(c: Config, acts: seq<Action>, a: U64, req: Request)
    requires AskedWith(c, acts, a, req)
    ensures a in After(c, acts).k.allocs
    ensures After(c, acts).k.allocs[a].size == req.size && After(c, acts).k.allocs[a].stackId == req.stackId
  {
    var j: nat, i: nat :| BornAt(c, acts, a, j, i) && HeadOfChain(c, acts, j, i) && acts[j].req == req;
    BornSays(c, acts, a, j, i);
  }
}
