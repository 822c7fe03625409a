/** Why the tracker misses or overwrites what it does: the causes, told from the history of the
    schedule alone, for all schedules, filters and full maps included. */
module HeapCauses {
  import opened Words
  import opened Kernel
  import opened Heap
  import opened HeapSoundness
  import opened HeapCompleteness

  // ----- What happened at one point of a schedule

  /** At `n` an allocation call of `t` returns. */
  predicate ReturnsAt(c: Config, acts: seq<Action>, t: Tid, n: nat) {
    n < |acts| && acts[n].Return? && acts[n].tid == t && Enabled(After(c, acts[..n]), acts[n])
  }

  /** At `n` a call of `t` returns and its exit probe gets past the checks of posix_memalign. */
  predicate ReachesAt(c: Config, acts: seq<Action>, t: Tid, n: nat) {
    ReturnsAt(c, acts, t, n) && Reaches(After(c, acts[..n]), acts[n])
  }

  /** At `n` a call of `t` enters, passes the filters and finds room for a pending request. */
  predicate AsksAt(c: Config, acts: seq<Action>, t: Tid, n: nat) {
    && n < |acts| && EntersAlloc(acts[n]) && acts[n].tid == t
    && var s := After(c, acts[..n]);
       && Enabled(s, acts[n]) && c.minSize <= acts[n].req.size <= c.maxSize
       && (c.sampleRate > 1 ==> acts[n].clock % c.sampleRate == 0)
       && (t in s.k.sizes || |s.k.sizes| < c.sizesCap)
  }

  lemma SamePrefix(acts: seq<Action>, k: nat)
    requires k <= |acts|
    ensures forall n :: 0 <= n < k ==> acts[..k][..n] == acts[..n] && acts[..k][n] == acts[n]
  {
  }

  /** Among the first `len` moments there is one with `start` after which no `stop` comes. */
  ghost predicate Since(len: nat, start: nat -> bool, stop: nat -> bool) {
    exists n: nat :: n < len && start(n) && NoneBetween(n, len, stop)
  }

  ghost predicate NoneBetween(n: nat, len: nat, stop: nat -> bool) {
    forall m: nat :: n < m < len ==> !stop(m)
  }

  lemma SinceNext(len: nat, start: nat -> bool, stop: nat -> bool)
    ensures Since(len + 1, start, stop) <==> start(len) || (Since(len, start, stop) && !stop(len))
  {
    if Since(len + 1, start, stop) && !start(len) {
      var n: nat :| n < len + 1 && start(n) && NoneBetween(n, len + 1, stop);
      assert NoneBetween(n, len, stop);
    }
    if start(len) {
      assert NoneBetween(len, len + 1, stop);
    } else if Since(len, start, stop) && !stop(len) {
      var n: nat :| n < len && start(n) && NoneBetween(n, len, stop);
      assert NoneBetween(n, len + 1, stop);
    }
  }

  lemma SinceSame(len: nat, start: nat -> bool, stop: nat -> bool, start': nat -> bool, stop': nat -> bool)
    requires forall n: nat :: n < len ==> start(n) == start'(n) && stop(n) == stop'(n)
    ensures Since(len, start, stop) ==> Since(len, start', stop')
  {
    if Since(len, start, stop) {
      var n: nat :| n < len && start(n) && NoneBetween(n, len, stop);
      assert start'(n) && NoneBetween(n, len, stop');
    }
  }

  // ----- Pending requests

  ghost function Asks(c: Config, acts: seq<Action>, t: Tid): nat -> bool {
    (n: nat) => AsksAt(c, acts, t, n)
  }

  ghost function ReachesOf(c: Config, acts: seq<Action>, t: Tid): nat -> bool {
    (n: nat) => ReachesAt(c, acts, t, n)
  }

  /** Some accepted entry of `t` was not followed by an exit that reached the handler. */
  ghost predicate Awaiting(c: Config, acts: seq<Action>, t: Tid) {
    Since(|acts|, Asks(c, acts, t), ReachesOf(c, acts, t))
  }

  lemma AwaitingNext(c: Config, acts: seq<Action>, t: Tid)
    requires acts != []
    ensures var n := |acts| - 1;
      Awaiting(c, acts, t) <==> AsksAt(c, acts, t, n) || (Awaiting(c, acts[..n], t) && !ReachesAt(c, acts, t, n))
  {
    var n := |acts| - 1;
    var asks, reaches := Asks(c, acts, t), ReachesOf(c, acts, t);
    var asks', reaches' := Asks(c, acts[..n], t), ReachesOf(c, acts[..n], t);
    SamePrefix(acts, n);
    SinceNext(n, asks, reaches);
    SinceSame(n, asks, reaches, asks', reaches');
    SinceSame(n, asks', reaches', asks, reaches);
  }

  /** In every schedule a request of the thread is pending exactly when some accepted entry of
      the thread that found room was followed by no exit that reached the handler. */
  lemma {:induction false} PendingIff(c: Config, acts: seq<Action>, t: Tid)
    ensures t in After(c, acts).k.sizes <==> Awaiting(c, acts, t)
  {
    if acts == [] {
    } else {
      var last := |acts| - 1;
      var s, act := After(c, acts[..last]), acts[last];
      PendingIff(c, acts[..last], t);
      AwaitingNext(c, acts, t);
      if Enabled(s, act) {
        NextSizes(c, s, act);
        assert t in After(c, acts).k.sizes <==> t in After(c, acts).k.sizes.Keys;
      }
    }
  }

  // ----- Stale requests

  /** At `n` the exit probe of posix_memalign gives up while a request of `t` is pending. */
  predicate GivesUpSlotAt(c: Config, acts: seq<Action>, t: Tid, n: nat) {
    ReturnsAt(c, acts, t, n) && !ReachesAt(c, acts, t, n) && t in After(c, acts[..n]).k.sizes
  }

  ghost function GivesUpSlot(c: Config, acts: seq<Action>, t: Tid): nat -> bool {
    (n: nat) => GivesUpSlotAt(c, acts, t, n)
  }

  ghost function Returns(c: Config, acts: seq<Action>, t: Tid): nat -> bool {
    (n: nat) => ReturnsAt(c, acts, t, n)
  }

  /** The last return of `t` was one of posix_memalign whose exit gave up on a pending request. */
  ghost predicate LeftBehind(c: Config, acts: seq<Action>, t: Tid) {
    Since(|acts|, GivesUpSlot(c, acts, t), Returns(c, acts, t))
  }

  /** The pending request of `t` has outlived a return: it was made at `j`, before some return at `n`. */
  ghost predicate Stale(c: Config, acts: seq<Action>, t: Tid) {
    exists j: nat, n: nat :: j < n && MadeAt(c, acts, t, j) && ReturnsAt(c, acts, t, n)
  }

  /** The entry at `j` made the request of `t` that is still pending. */
  ghost predicate MadeAt(c: Config, acts: seq<Action>, t: Tid, j: nat) {
    && AsksAt(c, acts, t, j) && t !in After(c, acts[..j]).k.sizes
    && NoneBetween(j, |acts|, ReachesOf(c, acts, t))
  }

  lemma {:induction false} LastReturn(c: Config, acts: seq<Action>, t: Tid, n: nat, k: nat) returns (l: nat)
    requires ReturnsAt(c, acts, t, n) && n < k <= |acts|
    ensures n <= l < k && ReturnsAt(c, acts, t, l) && forall m :: l < m < k ==> !ReturnsAt(c, acts, t, m)
    decreases k
  {
    if ReturnsAt(c, acts, t, k - 1) {
      l := k - 1;
    } else {
      l := LastReturn(c, acts, t, n, k - 1);
    }
  }

  lemma EnterRequest(c: Config, k: State, tid: Tid, req: Request, clock: U64, t: Tid)
    requires t in AllocEnter(c, k, tid, req, clock).sizes
    ensures AllocEnter(c, k, tid, req, clock).sizes[t] == if t in k.sizes then k.sizes[t] else Pending(req)
  {
  }

  /** A pending request does not change while it is pending, and a new one is that of the entry. */
  lemma NextRequest(c: Config, s: Sys, act: Action, t: Tid)
    requires Enabled(s, act) && t in Apply(c, s, act).k.sizes
    ensures t in s.k.sizes || EntersAlloc(act)
    ensures Apply(c, s, act).k.sizes[t] == if t in s.k.sizes then s.k.sizes[t] else Pending(act.req)
  {
    NextSizes(c, s, act);
    assert t in Apply(c, s, act).k.sizes.Keys;
    if act.CallRealloc? {
      EnterRequest(c, FreeEnter(c, s.k, act.ptr), act.tid, act.req, act.clock, t);
    } else if act.CallAlloc? {
      if act.kind.Posix? {
        var memptrs := UpdateAny(s.k.memptrs, c.memptrsCap, act.tid, act.kind.memptr);
        EnterRequest(c, s.k.(memptrs := memptrs), act.tid, act.req, act.clock, t);
      } else {
        EnterRequest(c, s.k, act.tid, act.req, act.clock, t);
      }
    } else if act.Return? {
      ReturnRequest(c, s, act, t);
    }
  }

  lemma ReturnRequest(c: Config, s: Sys, act: Action, t: Tid)
    requires Enabled(s, act) && act.Return? && t in Apply(c, s, act).k.sizes
    ensures t in s.k.sizes && Apply(c, s, act).k.sizes[t] == s.k.sizes[t]
  {
  }

  /** A pending request was made by exactly such an entry, and is that entry's. */
  lemma {:induction false} MadeBy(c: Config, acts: seq<Action>, t: Tid) returns (j: nat)
    requires t in After(c, acts).k.sizes
    ensures MadeAt(c, acts, t, j) && After(c, acts).k.sizes[t] == Pending(acts[j].req)
  {
    var last := |acts| - 1;
    var front := acts[..last];
    var s, act := After(c, front), acts[last];
    SamePrefix(acts, last);
    if Enabled(s, act) {
      NextSizes(c, s, act);
      NextRequest(c, s, act, t);
      assert t in After(c, acts).k.sizes.Keys;
    }
    if t in s.k.sizes {
      j := MadeBy(c, front, t);
      MadeAtNext(c, acts, t, j);
    } else {
      j := last;
    }
  }

  lemma MadeAtNext(c: Config, acts: seq<Action>, t: Tid, j: nat)
    requires acts != [] && MadeAt(c, acts[..|acts| - 1], t, j) && !ReachesAt(c, acts, t, |acts| - 1)
    ensures MadeAt(c, acts, t, j)
  {
    var last := |acts| - 1;
    SamePrefix(acts, last);
    forall m: nat | j < m < |acts| ensures !ReachesAt(c, acts, t, m) {
      assert m < last ==> (ReachesOf(c, acts[..last], t)(m) <==> ReachesAt(c, acts, t, m));
    }
  }

  /** Between its making and the end a request stays pending. */
  lemma StaysPending(c: Config, acts: seq<Action>, t: Tid, j: nat, k: nat)
    requires MadeAt(c, acts, t, j) && j < k <= |acts|
    ensures t in After(c, acts[..k]).k.sizes
  {
    SamePrefix(acts, k);
    var reaches := ReachesOf(c, acts[..k], t);
    forall m: nat | j < m < k ensures !reaches(m) {
      assert !ReachesOf(c, acts, t)(m);
    }
    assert Asks(c, acts[..k], t)(j) && NoneBetween(j, k, reaches);
    PendingIff(c, acts[..k], t);
  }

  lemma StaleIsLeftBehind(c: Config, acts: seq<Action>, t: Tid)
    requires Stale(c, acts, t)
    ensures LeftBehind(c, acts, t)
  {
    var j: nat, n: nat :| j < n && MadeAt(c, acts, t, j) && ReturnsAt(c, acts, t, n);
    var l := LastReturn(c, acts, t, n, |acts|);
    StaysPending(c, acts, t, j, l);
    assert !ReachesOf(c, acts, t)(l);
    assert GivesUpSlot(c, acts, t)(l) && NoneBetween(l, |acts|, Returns(c, acts, t));
  }

  lemma MadeStays(c: Config, acts: seq<Action>, t: Tid, j: nat, n: nat)
    requires n < |acts| && MadeAt(c, acts[..n], t, j)
    requires !ReachesAt(c, acts, t, n) && NoneBetween(n, |acts|, Returns(c, acts, t))
    ensures MadeAt(c, acts, t, j)
  {
    SamePrefix(acts, n);
    forall m: nat | j < m < |acts| ensures !ReachesOf(c, acts, t)(m) {
      if m < n {
        assert !ReachesOf(c, acts[..n], t)(m);
      } else if m > n {
        assert !Returns(c, acts, t)(m);
      }
    }
  }

  lemma LeftBehindIsStale(c: Config, acts: seq<Action>, t: Tid)
    requires LeftBehind(c, acts, t)
    ensures Stale(c, acts, t)
  {
    var n: nat :| n < |acts| && GivesUpSlot(c, acts, t)(n) && NoneBetween(n, |acts|, Returns(c, acts, t));
    var j := MadeBy(c, acts[..n], t);
    MadeStays(c, acts, t, j, n);
    assert MadeAt(c, acts, t, j) && ReturnsAt(c, acts, t, n);
  }

  /** In every schedule the pending request of a thread is stale exactly when the thread's last
      return was that of a posix_memalign whose exit probe gave up (no remembered pointer, or an
      unreadable slot) while a request was pending. */
  lemma {:induction false} StaleIff(c: Config, acts: seq<Action>, t: Tid)
    ensures Stale(c, acts, t) <==> LeftBehind(c, acts, t)
    ensures Stale(c, acts, t) ==> t in After(c, acts).k.sizes
  {
    if Stale(c, acts, t) {
      StaleIsLeftBehind(c, acts, t);
      var j: nat, n: nat :| j < n && MadeAt(c, acts, t, j) && ReturnsAt(c, acts, t, n);
      StaysPending(c, acts, t, j, |acts|);
      assert acts[..|acts|] == acts;
    }
    if LeftBehind(c, acts, t) {
      LeftBehindIsStale(c, acts, t);
    }
  }

  // ----- Overwritten records

  lemma LeftBehindNext(c: Config, acts: seq<Action>, t: Tid)
    requires acts != []
    ensures var n := |acts| - 1;
      LeftBehind(c, acts, t) <==> GivesUpSlotAt(c, acts, t, n) || (LeftBehind(c, acts[..n], t) && !ReturnsAt(c, acts, t, n))
  {
    var n := |acts| - 1;
    var gives, leaves := GivesUpSlot(c, acts, t), Returns(c, acts, t);
    var gives', leaves' := GivesUpSlot(c, acts[..n], t), Returns(c, acts[..n], t);
    SamePrefix(acts, n);
    SinceNext(n, gives, leaves);
    SinceSame(n, gives, leaves, gives', leaves');
    SinceSame(n, gives', leaves', gives, leaves);
  }

  /** A pending request belongs to a fresh call, or was left behind. */
  lemma {:induction false} FreshOrLeftBehind(c: Config, acts: seq<Action>, t: Tid)
    requires t in After(c, acts).k.sizes
    ensures Fresh(After(c, acts), t) || LeftBehind(c, acts, t)
  {
    var last := |acts| - 1;
    var s, act := After(c, acts[..last]), acts[last];
    LeftBehindNext(c, acts, t);
    if !Enabled(s, act) {
      FreshOrLeftBehind(c, acts[..last], t);
    } else {
      NextSizes(c, s, act);
      assert t in After(c, acts).k.sizes.Keys;
      if act.tid != t {
        FreshOrLeftBehind(c, acts[..last], t);
        OthersAsFresh(c, s, act, t);
      } else if EntersAlloc(act) {
        EnterIsFresh(c, s, act);
      } else if act.Return? {
        assert GivesUpSlotAt(c, acts, t, last);
      } else {
        FreshOrLeftBehind(c, acts[..last], t);
        OtherwiseAsFresh(c, s, act);
      }
    }
  }

  /** The call of the returning thread got nothing itself and hands on an address that an inner
      call returned, that the program holds, and that the tracker did not miss. */
  predicate HandsOnRecorded(s: Sys, act: Action) {
    && InAlloc(s, act.tid) && act.Return?
    && Top(s, act.tid).own.None? && Top(s, act.tid).nested
    && IsHeld(s, act.r) && act.r !in s.missed
  }

  lemma OverwritesByState(c: Config, s: Sys, act: Action)
    requires Inv(s) && Enabled(s, act) && act.Return?
    ensures Overwrites(c, s, act) <==> HandsOnRecorded(s, act) && Reaches(s, act) && act.tid in s.k.sizes
  {
    ReportedIsReturned(s, act.tid, act.r, act.slot);
    assert Backed(s, act.tid, Depth(s, act.tid));
    assert act.r in s.k.allocs <==> IsHeld(s, act.r) && act.r !in s.missed;
  }

  /** In every schedule and for every kind of call, a returning call overwrites a record exactly
      when the thread's last return was a posix_memalign exit that gave up on a pending request,
      the call hands on a recorded address, and its own exit probe reaches the handler. */
  lemma {:induction false} OverwritesIff(c: Config, acts: seq<Action>, act: Action)
    requires Enabled(After(c, acts), act) && act.Return?
    ensures var s := After(c, acts);
      Overwrites(c, s, act) <==> LeftBehind(c, acts, act.tid) && HandsOnRecorded(s, act) && Reaches(s, act)
  {
    var s, t := After(c, acts), act.tid;
    AlwaysInv(c, acts);
    OverwritesByState(c, s, act);
    StaleIff(c, acts, t);
    if t in s.k.sizes && HandsOnRecorded(s, act) {
      FreshOrLeftBehind(c, acts, t);
      assert TopAlloc(StackOf(s, t)) == Some(Top(s, t));
    }
  }

  // ----- Missed addresses

  /** Nothing comes of the exit of the returning call: no accepted entry is waiting for it, its
      probe gives up, or `allocs` is full. */
  ghost predicate Unrecorded(c: Config, before: seq<Action>, act: Action)
    requires Enabled(After(c, before), act) && act.Return?
  {
    var s := After(c, before);
    !Awaiting(c, before, act.tid) || !Reaches(s, act) || |s.k.allocs| >= c.allocsCap
  }

  /** At `n` the tracker loses `a`: the call that obtained it returns unrecorded, or a realloc,
      whose entry dropped the record, fails and leaves `a` to the program. */
  ghost predicate GivesUpAt(c: Config, acts: seq<Action>, a: U64, n: nat) {
    && n < |acts| && ReturnsAt(c, acts, acts[n].tid, n)
    && var f := Top(After(c, acts[..n]), acts[n].tid);
       (f.own == Some(a) && Unrecorded(c, acts[..n], acts[n])) || (a != 0 && f.kind == Realloc(a))
  }

  /** At `n` the address leaves the missed ones: it is freed or reallocated, or a call that hands
      it on returns with a request waiting and room for a record. */
  ghost predicate TakesBackAt(c: Config, acts: seq<Action>, a: U64, n: nat) {
    && n < |acts| && Enabled(After(c, acts[..n]), acts[n])
    && match acts[n]
       case CallFree(_, p) => a != 0 && p == a
       case CallRealloc(_, p, _, _) => a != 0 && p == a
       case Return(t, r, _, _) =>
         r == a && IsRecordable(a) && Top(After(c, acts[..n]), t).own.None? && !Unrecorded(c, acts[..n], acts[n])
       case _ => false
  }

  ghost function GivesUp(c: Config, acts: seq<Action>, a: U64): nat -> bool {
    (n: nat) => GivesUpAt(c, acts, a, n)
  }

  ghost function TakesBack(c: Config, acts: seq<Action>, a: U64): nat -> bool {
    (n: nat) => TakesBackAt(c, acts, a, n)
  }

  ghost predicate GivenUp(c: Config, acts: seq<Action>, a: U64) {
    Since(|acts|, GivesUp(c, acts, a), TakesBack(c, acts, a))
  }

  lemma GivenUpNext(c: Config, acts: seq<Action>, a: U64)
    requires acts != []
    ensures var n := |acts| - 1;
      GivenUp(c, acts, a) <==> GivesUpAt(c, acts, a, n) || (GivenUp(c, acts[..n], a) && !TakesBackAt(c, acts, a, n))
  {
    var n := |acts| - 1;
    var gives, takes := GivesUp(c, acts, a), TakesBack(c, acts, a);
    var gives', takes' := GivesUp(c, acts[..n], a), TakesBack(c, acts[..n], a);
    SamePrefix(acts, n);
    SinceNext(n, gives, takes);
    SinceSame(n, gives, takes, gives', takes');
    SinceSame(n, gives', takes', gives, takes);
  }

  /** The call that obtained `a` returns: `a` is missed exactly when no accepted entry is waiting,
      the exit probe gives up, or the map is full. */
  lemma {:induction false} ReturnMissesIff(c: Config, acts: seq<Action>, act: Action, a: U64)
    requires Enabled(After(c, acts), act) && act.Return? && Top(After(c, acts), act.tid).own == Some(a)
    ensures a in Apply(c, After(c, acts), act).missed <==> Unrecorded(c, acts, act)
  {
    AlwaysInv(c, acts);
    PendingIff(c, acts, act.tid);
    ReturnMissesByState(c, After(c, acts), act, a);
  }

  lemma ReturnMissesByState(c: Config, s: Sys, act: Action, a: U64)
    requires Inv(s) && Enabled(s, act) && act.Return? && Top(s, act.tid).own == Some(a)
    ensures a in Apply(c, s, act).missed <==> act.tid !in s.k.sizes || !Reaches(s, act) || |s.k.allocs| >= c.allocsCap
  {
    ReportedIsReturned(s, act.tid, act.r, act.slot);
    assert Backed(s, act.tid, Depth(s, act.tid));
  }

  /** A return moves another address out of the missed ones exactly when it records it. */
  lemma ReturnTakesBack(c: Config, acts: seq<Action>, act: Action, a: U64)
    requires Enabled(After(c, acts), act) && act.Return? && Top(After(c, acts), act.tid).own != Some(a)
    ensures var s := After(c, acts);
      var f := Top(s, act.tid);
      a in Apply(c, s, act).missed <==>
        || (a != 0 && f.kind == Realloc(a))
        || (a in s.missed && !(act.r == a && IsRecordable(a) && f.own.None? && !Unrecorded(c, acts, act)))
  {
    AlwaysInv(c, acts);
    var s := After(c, acts);
    ReportedIsReturned(s, act.tid, act.r, act.slot);
    PendingIff(c, acts, act.tid);
    assert Backed(s, act.tid, Depth(s, act.tid));
    if a in s.missed {
      assert IsHeld(s, a);
    }
  }

  lemma NextMissed(c: Config, acts: seq<Action>, a: U64)
    requires acts != []
    ensures var n := |acts| - 1;
      a in After(c, acts).missed <==> GivesUpAt(c, acts, a, n) || (a in After(c, acts[..n]).missed && !TakesBackAt(c, acts, a, n))
  {
    var last := |acts| - 1;
    var s, act := After(c, acts[..last]), acts[last];
    if Enabled(s, act) && act.Return? {
      if Top(s, act.tid).own == Some(a) {
        ReturnMissesIff(c, acts[..last], act, a);
        AlwaysInv(c, acts[..last]);
        assert Backed(s, act.tid, Depth(s, act.tid));
      } else {
        ReturnTakesBack(c, acts[..last], act, a);
      }
    }
  }

  /** In every schedule an address is missed exactly when the tracker gave it up for one of these
      causes (filtered, sampled out or refused at entry; request already consumed by an inner call;
      result slot forgotten or unreadable; `allocs` full; failed realloc) and it was not taken back. */
  lemma {:induction false} MissedIff(c: Config, acts: seq<Action>, a: U64)
    ensures a in After(c, acts).missed <==> GivenUp(c, acts, a)
  {
    if acts != [] {
      MissedIff(c, acts[..|acts| - 1], a);
      GivenUpNext(c, acts, a);
      NextMissed(c, acts, a);
    }
  }

  /** The leak set of every schedule, by its causes: an address is recorded exactly when the
      program holds it and the tracker did not give it up. */
  lemma {:induction false} LeakSetIff(c: Config, acts: seq<Action>, a: U64)
    ensures a in After(c, acts).k.allocs <==> IsHeld(After(c, acts), a) && !GivenUp(c, acts, a)
  {
    AlwaysInv(c, acts);
    MissedIff(c, acts, a);
  }
}
