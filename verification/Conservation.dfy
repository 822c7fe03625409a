/** Conservation of the incremental statistics over every run. */
module Conservation {
  import opened Words
  import opened Kernel
  import opened MapSums
  import opened Runs

  function SizeOf(s: S32): AllocInfo -> nat {
    (r: AllocInfo) => if r.stackId == s then r.size else 0
  }

  function CountOf(s: S32): AllocInfo -> nat {
    (r: AllocInfo) => if r.stackId == s then 1 else 0
  }

  /** The records an operation makes the live set forget although no free removed them:
      one that is overwritten, or one that a full map refuses. */
  function LostBy(c: Config, st: State, op: Op): seq<AllocInfo> {
    if !op.Exit? || op.tid !in st.sizes || !IsRecordable(op.address) then []
    else if op.address in st.allocs then [st.allocs[op.address]]
    else if |st.allocs| < c.allocsCap then []
    else [Record(st.sizes[op.tid], op.now)]
  }

  function Lost(c: Config, ops: seq<Op>): seq<AllocInfo> {
    if ops == [] then []
    else Lost(c, ops[..|ops| - 1]) + LostBy(c, Run(c, ops[..|ops| - 1]), ops[|ops| - 1])
  }

  /** Total size and number of everything ever charged to `s` and not yet given back. */
  ghost function Charged(st: State, lost: seq<AllocInfo>, w: AllocInfo -> nat): nat {
    Sum(st.allocs, w) + SeqSum(lost, w)
  }

  /** The counters of `s` are the modular totals of the live records of `s` plus those lost. */
  ghost predicate Conserved(st: State, lost: seq<AllocInfo>, s: S32) {
    && StackKey(s) in st.combined
    && Agrees(st.combined[StackKey(s)], Charged(st, lost, SizeOf(s)), Charged(st, lost, CountOf(s)))
  }

  predicate Agrees(counter: Combined, size: nat, count: nat) {
    counter.total == size % 0x100_0000_0000 && counter.number == count % 0x100_0000
  }

  /** A stack without a counter was never charged, or found no room. */
  ghost predicate Balanced(c: Config, st: State, lost: seq<AllocInfo>, s: S32) {
    CounterFits(c, st.combined, StackKey(s), Charged(st, lost, SizeOf(s)), Charged(st, lost, CountOf(s)))
  }

  predicate CounterFits(c: Config, m: map<U64, Combined>, key: U64, size: nat, count: nat) {
    if key in m then Agrees(m[key], size, count) else |m| >= c.combinedCap || (size == 0 && count == 0)
  }

  lemma {:induction false} SeqSumAppend<V>(a: seq<V>, b: seq<V>, w: V -> nat)
    ensures SeqSum(a + b, w) == SeqSum(a, w) + SeqSum(b, w)
    decreases |b|
  {
    if b == [] {
      assert a + b == a;
    } else {
      var n := |b| - 1;
      assert (a + b)[..|a| + n] == a + b[..n];
      SeqSumAppend(a, b[..n], w);
    }
  }

  lemma SeqSumOne<V>(v: V, w: V -> nat)
    ensures SeqSum([v], w) == w(v)
  {
    assert [v][..0] == [];
  }

  /** An exit charges exactly the consumed request, whether or not `allocs` took the record. */
  lemma ExitCharges(c: Config, st: State, lost: seq<AllocInfo>, op: Op, w: AllocInfo -> nat)
    requires op.Exit? && op.tid in st.sizes && IsRecordable(op.address)
    ensures Charged(Step(c, st, op), lost + LostBy(c, st, op), w)
         == Charged(st, lost, w) + w(Record(st.sizes[op.tid], op.now))
  {
    var info := Record(st.sizes[op.tid], op.now);
    SeqSumAppend(lost, LostBy(c, st, op), w);
    SumPut(st.allocs, op.address, info, w);
    if op.address in st.allocs {
      SeqSumOne(st.allocs[op.address], w);
    } else {
      SeqSumOne(info, w);
    }
  }

  lemma AddedAgrees(counter: Combined, size: nat, count: nat, sz: U64)
    requires Agrees(counter, size, count)
    ensures Agrees(counter.Plus(sz), size + sz, count + 1)
  {
  }

  lemma RemovedAgrees(counter: Combined, size: nat, count: nat, sz: U64)
    requires Agrees(counter, size, count) && sz <= size && 1 <= count
    ensures Agrees(counter.Minus(sz), size - sz, count - 1)
  {
  }

  lemma AddKeepsFit(c: Config, m: Counters, info: AllocInfo, s: S32, size: nat, count: nat)
    requires CounterFits(c, m, StackKey(s), size, count)
    ensures CounterFits(c, StatisticsAdd(c, m, info.stackId, info.size), StackKey(s),
                        size + SizeOf(s)(info), count + CountOf(s)(info))
  {
    KeysBounded(m, StatisticsAdd(c, m, info.stackId, info.size));
    if info.stackId == s {
      var counter := if StackKey(s) in m then m[StackKey(s)] else Combined(0, 0);
      if Agrees(counter, size, count) {
        AddedAgrees(counter, size, count, info.size);
      }
    } else if StackKey(info.stackId) == StackKey(s) {
      StackKeyInjective(info.stackId, s);
    }
  }

  lemma DelKeepsFit(c: Config, m: Counters, info: AllocInfo, s: S32, size: nat, count: nat)
    requires CounterFits(c, m, StackKey(s), size + SizeOf(s)(info), count + CountOf(s)(info))
    ensures CounterFits(c, StatisticsDel(m, info.stackId, info.size), StackKey(s), size, count)
  {
    KeysBounded(m, StatisticsDel(m, info.stackId, info.size));
    if info.stackId == s {
      if StackKey(s) in m {
        RemovedAgrees(m[StackKey(s)], size + info.size, count + 1, info.size);
      }
    } else if StackKey(info.stackId) == StackKey(s) {
      StackKeyInjective(info.stackId, s);
    }
  }

  lemma ChargedKeepsBalance(c: Config, st: State, st': State, lost: seq<AllocInfo>, lost': seq<AllocInfo>, info: AllocInfo, s: S32)
    requires Balanced(c, st, lost, s)
    requires st'.combined == StatisticsAdd(c, st.combined, info.stackId, info.size)
    requires Charged(st', lost', SizeOf(s)) == Charged(st, lost, SizeOf(s)) + SizeOf(s)(info)
    requires Charged(st', lost', CountOf(s)) == Charged(st, lost, CountOf(s)) + CountOf(s)(info)
    ensures Balanced(c, st', lost', s)
  {
    AddKeepsFit(c, st.combined, info, s, Charged(st, lost, SizeOf(s)), Charged(st, lost, CountOf(s)));
  }

  lemma DischargedKeepsBalance(c: Config, st: State, st': State, lost: seq<AllocInfo>, info: AllocInfo, s: S32)
    requires Balanced(c, st, lost, s)
    requires st'.combined == StatisticsDel(st.combined, info.stackId, info.size)
    requires Charged(st', lost, SizeOf(s)) + SizeOf(s)(info) == Charged(st, lost, SizeOf(s))
    requires Charged(st', lost, CountOf(s)) + CountOf(s)(info) == Charged(st, lost, CountOf(s))
    ensures Balanced(c, st', lost, s)
  {
    DelKeepsFit(c, st.combined, info, s, Charged(st', lost, SizeOf(s)), Charged(st', lost, CountOf(s)));
  }

  lemma FreeDischarges(c: Config, st: State, lost: seq<AllocInfo>, a: U64, w: AllocInfo -> nat)
    requires a in st.allocs
    ensures Charged(FreeEnter(c, st, a), lost, w) + w(st.allocs[a]) == Charged(st, lost, w)
  {
    SumRemove(st.allocs, a, w);
  }

  lemma ExitKeepsBalance(c: Config, st: State, lost: seq<AllocInfo>, op: Op, s: S32)
    requires c.combinedOnly && Balanced(c, st, lost, s)
    requires op.Exit? && op.tid in st.sizes && IsRecordable(op.address)
    ensures Balanced(c, Step(c, st, op), lost + LostBy(c, st, op), s)
  {
    var st', lost' := Step(c, st, op), lost + LostBy(c, st, op);
    ExitCharges(c, st, lost, op, SizeOf(s));
    ExitCharges(c, st, lost, op, CountOf(s));
    ChargedKeepsBalance(c, st, st', lost, lost', Record(st.sizes[op.tid], op.now), s);
  }

  lemma FreeKeepsBalance(c: Config, st: State, lost: seq<AllocInfo>, a: U64, s: S32)
    requires c.combinedOnly && Balanced(c, st, lost, s) && a in st.allocs
    ensures Balanced(c, FreeEnter(c, st, a), lost, s)
  {
    FreeDischarges(c, st, lost, a, SizeOf(s));
    FreeDischarges(c, st, lost, a, CountOf(s));
    DischargedKeepsBalance(c, st, FreeEnter(c, st, a), lost, st.allocs[a], s);
  }

  /** The operation changes neither the records nor the counters. */
  predicate IsIdle(st: State, op: Op) {
    match op
    case Enter(_, _, _) => true
    case Exit(tid, address, _) => tid !in st.sizes || !IsRecordable(address)
    case Free(address) => address !in st.allocs
  }

  lemma IdleStep(c: Config, st: State, op: Op)
    requires IsIdle(st, op)
    ensures Step(c, st, op).allocs == st.allocs && Step(c, st, op).combined == st.combined
    ensures LostBy(c, st, op) == []
  {
  }

  lemma IdleKeepsBalance(c: Config, st: State, st': State, lost: seq<AllocInfo>, s: S32)
    requires Balanced(c, st, lost, s)
    requires st'.allocs == st.allocs && st'.combined == st.combined
    ensures Balanced(c, st', lost + [], s)
  {
    assert lost + [] == lost;
  }

  lemma StepKeepsBalance(c: Config, st: State, lost: seq<AllocInfo>, op: Op, s: S32)
    requires c.combinedOnly && Balanced(c, st, lost, s)
    ensures Balanced(c, Step(c, st, op), lost + LostBy(c, st, op), s)
  {
    if IsIdle(st, op) {
      IdleStep(c, st, op);
      IdleKeepsBalance(c, st, Step(c, st, op), lost, s);
    } else if op.Exit? {
      ExitKeepsBalance(c, st, lost, op, s);
    } else {
      FreeKeepsBalance(c, st, lost, op.address, s);
      assert lost + [] == lost;
    }
  }

  lemma {:induction false} EveryRunBalances(c: Config, ops: seq<Op>, s: S32)
    requires c.combinedOnly
    ensures Balanced(c, Run(c, ops), Lost(c, ops), s)
  {
    if ops != [] {
      EveryRunBalances(c, ops[..|ops| - 1], s);
      StepKeepsBalance(c, Run(c, ops[..|ops| - 1]), Lost(c, ops[..|ops| - 1]), ops[|ops| - 1], s);
    }
  }

  lemma BalancedIsConserved(c: Config, st: State, lost: seq<AllocInfo>, s: S32)
    requires Balanced(c, st, lost, s)
    ensures StackKey(s) in st.combined ==> Conserved(st, lost, s)
  {
  }

  /** In every run, every counter that exists is conserved. */
  lemma {:induction false} CountersConserved(c: Config, ops: seq<Op>, s: S32)
    requires c.combinedOnly
    ensures StackKey(s) in Run(c, ops).combined ==> Conserved(Run(c, ops), Lost(c, ops), s)
  {
    EveryRunBalances(c, ops, s);
    BalancedIsConserved(c, Run(c, ops), Lost(c, ops), s);
  }

  /** The live records alone: what the counters are meant to show. */
  ghost predicate ShowsLive(st: State, s: S32) {
    && StackKey(s) in st.combined
    && Agrees(st.combined[StackKey(s)], Sum(st.allocs, SizeOf(s)), Sum(st.allocs, CountOf(s)))
  }

  /** What was lost vanishes modulo the widths of the counters. */
  ghost predicate LossVanishes(lost: seq<AllocInfo>, s: S32) {
    SeqSum(lost, SizeOf(s)) % 0x100_0000_0000 == 0 && SeqSum(lost, CountOf(s)) % 0x100_0000 == 0
  }

  lemma ConservedShowsLiveIff(st: State, lost: seq<AllocInfo>, s: S32)
    requires Conserved(st, lost, s)
    ensures ShowsLive(st, s) <==> LossVanishes(lost, s)
  {
  }

  /** The map of counters is full and has none for `key`. */
  predicate Refused(c: Config, st: State, key: U64) {
    key !in st.combined && |st.combined| >= c.combinedCap
  }

  lemma StepKeepsCounters(c: Config, st: State, op: Op, key: U64)
    ensures st.combined.Keys <= Step(c, st, op).combined.Keys
    ensures Refused(c, st, key) ==> Refused(c, Step(c, st, op), key)
  {
    var st' := Step(c, st, op);
    assert st.combined.Keys <= st'.combined.Keys;
    KeysBounded(st.combined, st'.combined);
  }

  /** Counters are never deleted, and a stack once refused for lack of room is never counted later. */
  lemma {:induction false} RefusedStaysAbsent(c: Config, st: State, ops: seq<Op>, key: U64)
    ensures st.combined.Keys <= RunFrom(c, st, ops).combined.Keys
    ensures Refused(c, st, key) ==> Refused(c, RunFrom(c, st, ops), key)
  {
    if ops != [] {
      RefusedStaysAbsent(c, st, ops[..|ops| - 1], key);
      StepKeepsCounters(c, RunFrom(c, st, ops[..|ops| - 1]), ops[|ops| - 1], key);
    }
  }

  // ----- When the counters stop showing the live records

  ghost predicate HasStack(recs: seq<AllocInfo>, stackId: S32) {
    exists j :: 0 <= j < |recs| && recs[j].stackId == stackId
  }

  lemma {:induction false} NoStackNoSum(recs: seq<AllocInfo>, s: S32)
    requires !HasStack(recs, s)
    ensures SeqSum(recs, SizeOf(s)) == 0 && SeqSum(recs, CountOf(s)) == 0
  {
    if recs != [] {
      var n := |recs| - 1;
      assert recs[n].stackId != s;
      NoStackNoSum(recs[..n], s);
    }
  }

  /** The exit finds its address recorded or `allocs` full. */
  predicate Disturbs(c: Config, st: State, op: Op) {
    && op.Exit? && op.tid in st.sizes && IsRecordable(op.address)
    && (op.address in st.allocs || |st.allocs| >= c.allocsCap)
  }

  /** The record that is then overwritten or refused. */
  function Victim(st: State, op: Op): AllocInfo
    requires op.Exit? && op.tid in st.sizes
  {
    if op.address in st.allocs then st.allocs[op.address] else Record(st.sizes[op.tid], op.now)
  }

  /** The exit disturbs a stack that has a counter. */
  predicate Breaks(c: Config, st: State, op: Op) {
    Disturbs(c, st, op) && StackKey(Victim(st, op).stackId) in Step(c, st, op).combined
  }

  /** At every moment every counter shows the live records of its stack. */
  ghost predicate AlwaysExact(c: Config, ops: seq<Op>) {
    forall n, s: S32 :: 0 <= n <= |ops| && StackKey(s) in Run(c, ops[..n]).combined ==> ShowsLive(Run(c, ops[..n]), s)
  }

  ghost predicate NeverBreaks(c: Config, ops: seq<Op>) {
    forall n :: 0 <= n < |ops| ==> !Breaks(c, Run(c, ops[..n]), ops[n])
  }

  /** Everything lost belongs to stacks without a counter, for which there is no room either. */
  ghost predicate LostUncounted(c: Config, st: State, lost: seq<AllocInfo>) {
    forall i :: 0 <= i < |lost| ==> Refused(c, st, StackKey(lost[i].stackId))
  }

  lemma LostByIsVictim(c: Config, st: State, op: Op)
    ensures LostBy(c, st, op) == if Disturbs(c, st, op) then [Victim(st, op)] else []
  {
  }

  /** The last record of `lost` is charged to its stack. */
  lemma LastIsCharged(st: State, lost: seq<AllocInfo>, r: AllocInfo)
    ensures Charged(st, lost + [r], CountOf(r.stackId)) >= 1
    ensures SeqSum(lost + [r], CountOf(r.stackId)) == SeqSum(lost, CountOf(r.stackId)) + 1
  {
    SeqSumAppend(lost, [r], CountOf(r.stackId));
    SeqSumOne(r, CountOf(r.stackId));
  }

  lemma StepKeepsUncounted(c: Config, st: State, lost: seq<AllocInfo>, op: Op)
    requires LostUncounted(c, st, lost) && !Breaks(c, st, op)
    requires forall s: S32 :: Balanced(c, Step(c, st, op), lost + LostBy(c, st, op), s)
    ensures LostUncounted(c, Step(c, st, op), lost + LostBy(c, st, op))
  {
    var st', all := Step(c, st, op), lost + LostBy(c, st, op);
    LostByIsVictim(c, st, op);
    forall i | 0 <= i < |all| ensures Refused(c, st', StackKey(all[i].stackId)) {
      if i < |lost| {
        StepKeepsCounters(c, st, op, StackKey(lost[i].stackId));
      } else {
        LastIsCharged(st', lost, all[i]);
        assert Balanced(c, st', all, all[i].stackId);
      }
    }
  }

  lemma NeverBreaksPrefix(c: Config, ops: seq<Op>, k: nat)
    requires k <= |ops| && NeverBreaks(c, ops)
    ensures NeverBreaks(c, ops[..k])
  {
    forall n | 0 <= n < k ensures !Breaks(c, Run(c, ops[..k][..n]), ops[..k][n]) {
      assert ops[..k][..n] == ops[..n];
    }
  }

  lemma {:induction false} NeverBreaksUncounted(c: Config, ops: seq<Op>)
    requires c.combinedOnly && NeverBreaks(c, ops)
    ensures LostUncounted(c, Run(c, ops), Lost(c, ops))
  {
    if ops != [] {
      var front, op := ops[..|ops| - 1], ops[|ops| - 1];
      NeverBreaksPrefix(c, ops, |ops| - 1);
      NeverBreaksUncounted(c, front);
      var st, lost := Run(c, front), Lost(c, front);
      forall s: S32 ensures Balanced(c, Step(c, st, op), lost + LostBy(c, st, op), s) {
        EveryRunBalances(c, front, s);
        StepKeepsBalance(c, st, lost, op, s);
      }
      StepKeepsUncounted(c, st, lost, op);
    }
  }

  lemma UncountedShowsLive(c: Config, st: State, lost: seq<AllocInfo>, s: S32)
    requires LostUncounted(c, st, lost) && Conserved(st, lost, s)
    ensures ShowsLive(st, s)
  {
    assert !HasStack(lost, s);
    NoStackNoSum(lost, s);
    ConservedShowsLiveIff(st, lost, s);
  }

  /** One more record than vanishes no longer vanishes. */
  lemma OneMoreStays(lost: seq<AllocInfo>, r: AllocInfo)
    requires SeqSum(lost, CountOf(r.stackId)) % 0x100_0000 == 0
    ensures !LossVanishes(lost + [r], r.stackId)
  {
    LastIsCharged(EMPTY, lost, r);
  }

  /** What was lost before vanished, or there was no counter yet and nothing was lost. */
  lemma ShownBefore(c: Config, st: State, lost: seq<AllocInfo>, op: Op, s: S32)
    requires Balanced(c, st, lost, s) && StackKey(s) in Step(c, st, op).combined
    requires StackKey(s) in st.combined ==> ShowsLive(st, s)
    ensures SeqSum(lost, CountOf(s)) % 0x100_0000 == 0
  {
    if StackKey(s) in st.combined {
      BalancedIsConserved(c, st, lost, s);
      ConservedShowsLiveIff(st, lost, s);
    } else {
      NewCounterNothingLost(c, st, lost, op, s);
    }
  }

  /** The first exit that disturbs a counted stack makes its counter wrong at once. */
  lemma BreakShows(c: Config, st: State, lost: seq<AllocInfo>, op: Op, s: S32)
    requires c.combinedOnly && Breaks(c, st, op) && s == Victim(st, op).stackId
    requires Balanced(c, st, lost, s)
    requires StackKey(s) in st.combined ==> ShowsLive(st, s)
    ensures !ShowsLive(Step(c, st, op), s)
  {
    var st', r := Step(c, st, op), Victim(st, op);
    LostByIsVictim(c, st, op);
    StepKeepsBalance(c, st, lost, op, s);
    ShownBefore(c, st, lost, op, s);
    OneMoreStays(lost, r);
    BrokenNow(c, st', lost + [r], s);
  }

  lemma BrokenNow(c: Config, st: State, lost: seq<AllocInfo>, s: S32)
    requires Balanced(c, st, lost, s) && StackKey(s) in st.combined && !LossVanishes(lost, s)
    ensures !ShowsLive(st, s)
  {
    BalancedIsConserved(c, st, lost, s);
    ConservedShowsLiveIff(st, lost, s);
  }

  /** A counter that is created had nothing charged to its stack before. */
  lemma NewCounterNothingLost(c: Config, st: State, lost: seq<AllocInfo>, op: Op, s: S32)
    requires Balanced(c, st, lost, s) && StackKey(s) !in st.combined && StackKey(s) in Step(c, st, op).combined
    ensures SeqSum(lost, CountOf(s)) == 0
  {
    StepKeepsCounters(c, st, op, StackKey(s));
  }

  lemma NextState(c: Config, ops: seq<Op>, n: nat)
    requires n < |ops|
    ensures Run(c, ops[..n + 1]) == Step(c, Run(c, ops[..n]), ops[n])
  {
    assert ops[..n + 1][..n] == ops[..n];
  }

  /** Every counter shows the live records at every moment of a run if and only if no exit of the
      run found its address recorded, or `allocs` full, to the cost of a stack that has a counter. */
  lemma {:induction false} CountersExactIff(c: Config, ops: seq<Op>)
    requires c.combinedOnly
    ensures AlwaysExact(c, ops) <==> NeverBreaks(c, ops)
  {
    if NeverBreaks(c, ops) {
      forall n, s: S32 | 0 <= n <= |ops| && StackKey(s) in Run(c, ops[..n]).combined ensures ShowsLive(Run(c, ops[..n]), s) {
        NeverBreaksPrefix(c, ops, n);
        NeverBreaksUncounted(c, ops[..n]);
        CountersConserved(c, ops[..n], s);
        UncountedShowsLive(c, Run(c, ops[..n]), Lost(c, ops[..n]), s);
      }
    } else {
      var n :| 0 <= n < |ops| && Breaks(c, Run(c, ops[..n]), ops[n]);
      BreakIsSeen(c, ops, n);
    }
  }

  lemma BreakIsSeen(c: Config, ops: seq<Op>, n: nat)
    requires c.combinedOnly && n < |ops| && Breaks(c, Run(c, ops[..n]), ops[n])
    ensures !AlwaysExact(c, ops)
  {
    var st := Run(c, ops[..n]);
    var s := Victim(st, ops[n]).stackId;
    NextState(c, ops, n);
    EveryRunBalances(c, ops[..n], s);
    if StackKey(s) in st.combined ==> ShowsLive(st, s) {
      BreakShows(c, st, Lost(c, ops[..n]), ops[n], s);
    }
  }

  // ----- A run with a full map

  const TINY: Config := Config(0, U64_MAX, 1, true, 10, 1, 10, 10)

  const REFUSING: seq<Op> := [
    Enter(1, Request(100, 7, []), 0), Exit(1, 4096, 0),
    Enter(1, Request(50, 7, []), 0), Exit(1, 8192, 0)]

  /** The states of that run: the second block finds `allocs` full, but is counted. */
  function Moment(n: nat): State {
    var record := map[4096 := AllocInfo(100, 0, 7, [])];
    if n == 0 then EMPTY
    else if n == 1 then State(map[1 := SizeInfo(100, 7, [])], map[], map[], map[])
    else if n == 2 then State(map[], record, map[7 := Combined(100, 1)], map[])
    else if n == 3 then State(map[1 := SizeInfo(50, 7, [])], record, map[7 := Combined(100, 1)], map[])
    else State(map[], record, map[7 := Combined(150, 2)], map[])
  }

  lemma SameState(a: State, b: State)
    requires a.sizes == b.sizes && a.allocs == b.allocs && a.combined == b.combined && a.memptrs == b.memptrs
    ensures a == b
  {
  }

  lemma EnterNext(n: nat)
    requires n == 0 || n == 2
    ensures Step(TINY, Moment(n), REFUSING[n]) == Moment(n + 1)
  {
    var st := Step(TINY, Moment(n), REFUSING[n]);
    assert REFUSING[n].req.words == [] && Pending(REFUSING[n].req).frames == [];
    assert st.sizes == Moment(n + 1).sizes;
    SameState(st, Moment(n + 1));
  }

  lemma FirstExitNext()
    ensures Step(TINY, Moment(1), REFUSING[1]) == Moment(2)
  {
    var st := Moment(1);
    assert StatisticsAdd(TINY, st.combined, 7, 100) == map[7 := Combined(100, 1)];
    assert st.sizes - {1} == map[];
    SameState(Step(TINY, st, REFUSING[1]), Moment(2));
  }

  lemma FullRefuses(r: AllocInfo)
    ensures UpdateAny(Moment(3).allocs, 1, 8192, r) == Moment(3).allocs
  {
    assert |Moment(3).allocs| == 1;
  }

  lemma SecondCharge()
    ensures StatisticsAdd(TINY, Moment(3).combined, 7, 50) == Moment(4).combined
  {
    assert Combined(100, 1).Plus(50) == Combined(150, 2);
  }

  lemma SecondExitNext()
    ensures Step(TINY, Moment(3), REFUSING[3]) == Moment(4)
  {
    var st := Moment(3);
    SecondCharge();
    assert st.sizes - {1} == map[];
    FullRefuses(Record(st.sizes[1], 0));
    SameState(Step(TINY, st, REFUSING[3]), Moment(4));
  }

  lemma MomentNext(n: nat)
    requires n < 4
    ensures Step(TINY, Moment(n), REFUSING[n]) == Moment(n + 1)
  {
    if n == 1 {
      FirstExitNext();
    } else if n == 3 {
      SecondExitNext();
    } else {
      EnterNext(n);
    }
  }

  lemma {:induction false} RunMoment(n: nat)
    requires n <= 4
    ensures Run(TINY, REFUSING[..n]) == Moment(n)
  {
    if n > 0 {
      RunMoment(n - 1);
      NextState(TINY, REFUSING, n - 1);
      MomentNext(n - 1);
    }
  }

  lemma OneRecordSums(r: AllocInfo, w: AllocInfo -> nat)
    ensures Sum(map[4096 := r], w) == w(r)
  {
    SumRemove(map[4096 := r], 4096, w);
    assert map[4096 := r] - {4096} == map[];
  }

  lemma LastMomentDrifts(st: State)
    requires st == Moment(4)
    ensures st.combined == map[7 := Combined(150, 2)]
    ensures Sum(st.allocs, SizeOf(7)) == 100 && Sum(st.allocs, CountOf(7)) == 1
    ensures !ShowsLive(st, 7)
  {
    OneRecordSums(AllocInfo(100, 0, 7, []), SizeOf(7));
    OneRecordSums(AllocInfo(100, 0, 7, []), CountOf(7));
  }

  /** With room for one record, two allocations of 100 and 50 bytes leave one record of 100 bytes
      and a counter of 150 bytes in two allocations. */
  lemma {:induction false} FullMapDrifts()
    ensures var st := Run(TINY, REFUSING);
      && st.combined == map[7 := Combined(150, 2)]
      && Sum(st.allocs, SizeOf(7)) == 100 && Sum(st.allocs, CountOf(7)) == 1
      && !ShowsLive(st, 7)
  {
    RunMoment(4);
    assert REFUSING[..4] == REFUSING;
    LastMomentDrifts(Run(TINY, REFUSING));
  }
}
