/** Two ways in which the exit probe of posix_memalign breaks the leak set. */
module HeapExamples {
  import opened Words
  import opened Kernel
  import opened Runs
  import opened Heap
  import opened HeapSoundness
  import opened HeapCompleteness

  /** The constants and capacities of the shipped tool. */
  const SHIPPED: Config := Config(0, U64_MAX, 1, false, 10240, 1000000, 1, 10240)

  function Ask(size: U64): Request {
    Request(size, 7, [])
  }

  const BLOCK: U64 := 4096
  const OTHER: U64 := 8192

  /** operator new calls malloc, which gets BLOCK; operator new then also calls posix_memalign,
      whose result slot cannot be read when its exit probe fires. */
  const DISTURBED: seq<Action> := [
    CallAlloc(1, Plain, Ask(100), 0),
    CallAlloc(1, Plain, Ask(100), 0),
    Obtain(1, BLOCK),
    Return(1, BLOCK, None, 0),
    CallAlloc(1, Posix(16), Ask(5), 0),
    Obtain(1, OTHER),
    Return(1, OTHER, None, 0)]

  function Calling(own: Option<U64>, nested: bool): Frame {
    AllocFrame(Plain, own, nested)
  }

  /** A state with thread 1 only. */
  function Sys1(sizes: map<Tid, SizeInfo>, allocs: map<U64, AllocInfo>, memptrs: map<Tid, U64>,
                status: map<U64, Status>, stack: seq<Frame>, missed: set<U64>): Sys
  {
    Sys(State(sizes, allocs, map[], memptrs), status, map[1 := stack], missed)
  }

  const ASKED: SizeInfo := SizeInfo(100, 7, [])
  const LATER: SizeInfo := SizeInfo(5, 7, [])
  const RECORD: AllocInfo := AllocInfo(100, 0, 7, [])

  /** The states on the way. */
  function At(n: nat): Sys {
    if n == 0 then INIT
    else if n == 1 then Sys1(map[1 := ASKED], map[], map[], map[], [Calling(None, false)], {})
    else if n == 2 then Sys1(map[1 := ASKED], map[], map[], map[], [Calling(None, false), Calling(None, false)], {})
    else if n == 3 then Sys1(map[1 := ASKED], map[], map[], map[BLOCK := InFlight(1, 1)],
                             [Calling(None, false), Calling(Some(BLOCK), false)], {})
    else if n == 4 then Sys1(map[], map[BLOCK := RECORD], map[], map[BLOCK := Held], [Calling(None, true)], {})
    else if n == 5 then Sys1(map[1 := LATER], map[BLOCK := RECORD], map[1 := 16], map[BLOCK := Held],
                             [Calling(None, true), AllocFrame(Posix(16), None, false)], {})
    else if n == 6 then Sys1(map[1 := LATER], map[BLOCK := RECORD], map[1 := 16], map[BLOCK := Held, OTHER := InFlight(1, 1)],
                             [Calling(None, true), AllocFrame(Posix(16), Some(OTHER), false)], {})
    else Sys1(map[1 := LATER], map[BLOCK := RECORD], map[], map[BLOCK := Held, OTHER := Held], [Calling(None, true)], {OTHER})
  }

  lemma SameSys(a: Sys, b: Sys)
    requires a.k.sizes == b.k.sizes && a.k.allocs == b.k.allocs && a.k.combined == b.k.combined && a.k.memptrs == b.k.memptrs
    requires a.status == b.status && a.missed == b.missed
    requires a.stacks.Keys == b.stacks.Keys && forall t :: t in a.stacks ==> a.stacks[t] == b.stacks[t]
    ensures a == b
  {
    assert a.stacks == b.stacks;
  }

  /** Each action of the schedule leads from one listed state to the next. */
  lemma CallsLead(n: nat)
    requires n == 0 || n == 1 || n == 4
    ensures Apply(SHIPPED, At(n), DISTURBED[n]) == At(n + 1)
  {
    SameSys(Apply(SHIPPED, At(n), DISTURBED[n]), At(n + 1));
  }

  lemma ObtainsLead(n: nat)
    requires n == 2 || n == 5
    ensures Apply(SHIPPED, At(n), DISTURBED[n]) == At(n + 1)
  {
    SameSys(Apply(SHIPPED, At(n), DISTURBED[n]), At(n + 1));
  }

  lemma RecordingReturnLeads()
    ensures Apply(SHIPPED, At(3), DISTURBED[3]) == At(4)
  {
    SameSys(Apply(SHIPPED, At(3), DISTURBED[3]), At(4));
  }

  /** The exit gives up: only the remembered pointer goes. */
  lemma UnreadableReturnKernel()
    ensures ReturnKernel(SHIPPED, At(6), 1, OTHER, None, 0) == At(7).k
  {
    assert At(6).k.memptrs - {1} == map[];
  }

  lemma UnreadableReturnHeap()
    ensures Enabled(At(6), Return(1, OTHER, None, 0))
    ensures ReturnStatus(At(6), 1) == At(7).status
    ensures ReturnMissed(SHIPPED, At(6), 1, Reported(At(6), 1, OTHER, None)) == At(7).missed
  {
    assert StackOf(At(6), 1)[1] == AllocFrame(Posix(16), Some(OTHER), false);
  }

  lemma UnreadableReturnStack()
    ensures InAlloc(At(6), 1) && At(6).stacks[1 := Marked(StackOf(At(6), 1)[..Depth(At(6), 1)])] == At(7).stacks
  {
    assert StackOf(At(6), 1)[..1] == [Calling(None, true)];
    assert Marked([Calling(None, true)]) == [Calling(None, true)];
  }

  /** A return, told field by field. */
  lemma ReturnFields(c: Config, s: Sys, t: Tid, r: U64, slot: Option<U64>, now: U64, s': Sys)
    requires Enabled(s, Return(t, r, slot, now))
    requires ReturnKernel(c, s, t, r, slot, now) == s'.k && ReturnStatus(s, t) == s'.status
    requires s.stacks[t := Marked(StackOf(s, t)[..Depth(s, t)])] == s'.stacks
    requires ReturnMissed(c, s, t, Reported(s, t, r, slot)) == s'.missed
    ensures Apply(c, s, Return(t, r, slot, now)) == s'
  {
  }

  lemma UnreadableReturnLeads()
    ensures Apply(SHIPPED, At(6), DISTURBED[6]) == At(7)
  {
    UnreadableReturnKernel();
    UnreadableReturnHeap();
    UnreadableReturnStack();
    ReturnFields(SHIPPED, At(6), 1, OTHER, None, 0, At(7));
  }

  lemma {:induction false} Passes(n: nat)
    requires n <= 7
    ensures After(SHIPPED, DISTURBED[..n]) == At(n)
  {
    if n > 0 {
      Passes(n - 1);
      assert DISTURBED[..n][..n - 1] == DISTURBED[..n - 1];
      if n - 1 == 3 {
        RecordingReturnLeads();
      } else if n - 1 == 6 {
        UnreadableReturnLeads();
      } else if n - 1 == 2 || n - 1 == 5 {
        ObtainsLead(n - 1);
      } else {
        CallsLead(n - 1);
      }
    }
  }

  lemma OrderlySoFar(n: nat)
    requires n < 4
    ensures Orderly(SHIPPED, At(n), DISTURBED[n])
  {
  }

  /** Up to the return of malloc the schedule is orderly, and operator new's block is recorded. */
  lemma FirstCallsAreOrderly()
    ensures OrderlyRun(SHIPPED, DISTURBED[..4])
    ensures BLOCK in After(SHIPPED, DISTURBED[..4]).k.allocs
  {
    var acts := DISTURBED[..4];
    forall n | 0 <= n < 4 ensures Orderly(SHIPPED, After(SHIPPED, acts[..n]), acts[n]) {
      assert acts[..n] == DISTURBED[..n];
      Passes(n);
      OrderlySoFar(n);
    }
    Passes(4);
    FewThreads(acts, EntersPosix);
    FewThreads(acts, EntersAlloc);
  }

  lemma FewThreads(acts: seq<Action>, which: Action -> bool)
    requires forall n :: 0 <= n < |acts| ==> acts[n].tid == 1
    ensures |Tids(acts, which)| <= 1
  {
    assert Tids(acts, which) <= {1};
    SubsetSize(Tids(acts, which), {1});
  }

  /** Returning BLOCK from operator new then replaces its record: 100 bytes become 5. */
  lemma UnreadableSlotOverwrites()
    ensures var s := After(SHIPPED, DISTURBED);
      var act := Return(1, BLOCK, None, 0);
      && Overwrites(SHIPPED, s, act)
      && s.k.allocs[BLOCK].size == 100
      && BLOCK in Apply(SHIPPED, s, act).k.allocs && Apply(SHIPPED, s, act).k.allocs[BLOCK].size == 5
  {
    Passes(7);
    assert DISTURBED[..7] == DISTURBED;
  }

  /** A posix_memalign call that fails leaves its slot unspecified, and the exit probe records the
      address `v` it finds there. Every record stays live exactly when `v` is held or no address, or
      nothing comes of the exit: no remembered pointer, no pending request, or a full map. */
  lemma {:induction false} FailedPosixMemalignSoundIff(c: Config, acts: seq<Action>, t: Tid, v: U64, now: U64)
    ensures var s := After(c, acts);
      (forall a :: a in PosixExit(c, s.k, t, Some(v), now).allocs ==> IsHeld(s, a)) <==>
        !IsRecordable(v) || IsHeld(s, v) || t !in s.k.memptrs || t !in s.k.sizes || |s.k.allocs| >= c.allocsCap
  {
    AlwaysInv(c, acts);
    var s := After(c, acts);
    var k' := PosixExit(c, s.k, t, Some(v), now);
    if t in s.k.memptrs {
      ExitKeys(c, s.k.(memptrs := s.k.memptrs - {t}), t, v, now);
    }
    assert forall a :: a in k'.allocs <==> a in k'.allocs.Keys;
    assert forall a :: a in s.k.allocs <==> a in s.k.allocs.Keys;
    AllHeldIff(s, k'.allocs.Keys, v);
  }

  lemma AllHeldIff(s: Sys, keys: set<U64>, v: U64)
    requires Tracked(s) && s.k.allocs.Keys <= keys <= s.k.allocs.Keys + {v}
    ensures (forall a :: a in keys ==> IsHeld(s, a)) <==> v !in keys || IsHeld(s, v)
  {
    assert forall a :: a in s.k.allocs.Keys ==> a in s.k.allocs;
  }

  /** Had posix_memalign failed with a stale address in its slot, that address would be recorded
      although nothing lives there. */
  lemma FailedPosixMemalignRecordsDead()
    ensures var s := After(SHIPPED, DISTURBED[..5]);
      && OTHER in PosixExit(SHIPPED, s.k, 1, Some(OTHER), 0).allocs
      && OTHER !in s.status
  {
    Passes(5);
  }
}
