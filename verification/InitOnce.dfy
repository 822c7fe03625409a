/** `bpf_map_lookup_or_try_init` as update_statistics_add uses it, with any number of CPUs
    interleaving its three map accesses and the final counter update. */
module InitOnce {
  import opened Words
  import opened Kernel
  import opened MapSums
  import opened Runs
  import Conservation

  type Cpu = nat

  /** Where a CPU stands in a call for `key`. */
  datatype Pc =
    | Idle
    | Looking(key: U64, size: U64)        // before the first lookup
    | Missed(key: U64, size: U64)         // before the BPF_NOEXIST insert
    | Again(key: U64, size: U64)          // the insert succeeded or found the key; before the second lookup
    | Got(key: U64, size: U64)            // holds the entry; before the counter update
    | NoEntry(key: U64)

  /** The shared map and where the CPUs stand. */
  datatype Proto = Proto(m: Counters, cpus: map<Cpu, Pc>)

  datatype Act =
    | Begin(cpu: Cpu, key: U64, size: U64)
    | Lookup(cpu: Cpu)
    | Insert(cpu: Cpu, memory: bool)      // `memory`: the kernel could allocate the element
    | LookupAgain(cpu: Cpu)
    | Update(cpu: Cpu)

  const START: Proto := Proto(map[], map[])

  function PcOf(p: Proto, cpu: Cpu): Pc {
    if cpu in p.cpus then p.cpus[cpu] else Idle
  }

  function Goto(p: Proto, cpu: Cpu, pc: Pc): Proto {
    p.(cpus := p.cpus[cpu := pc])
  }

  /** One atomic step; a step the CPU is not ready for does nothing. */
  function Do(cap: nat, p: Proto, act: Act): Proto {
    var pc := PcOf(p, act.cpu);
    if act.Begin? && (pc.Idle? || pc.NoEntry?) then Goto(p, act.cpu, Looking(act.key, act.size))
    else if act.Lookup? && pc.Looking? then
      Goto(p, act.cpu, if pc.key in p.m then Got(pc.key, pc.size) else Missed(pc.key, pc.size))
    else if act.Insert? && pc.Missed? then
      if pc.key in p.m then Goto(p, act.cpu, Again(pc.key, pc.size))
      else if |p.m| >= cap || !act.memory then Goto(p, act.cpu, NoEntry(pc.key))
      else Goto(p, act.cpu, Again(pc.key, pc.size)).(m := p.m[pc.key := Combined(0, 0)])
    else if act.LookupAgain? && pc.Again? then
      Goto(p, act.cpu, if pc.key in p.m then Got(pc.key, pc.size) else NoEntry(pc.key))
    else if act.Update? && pc.Got? && pc.key in p.m then
      Goto(p, act.cpu, Idle).(m := p.m[pc.key := p.m[pc.key].Plus(pc.size)])
    else p
  }

  function DoAll(cap: nat, acts: seq<Act>): Proto {
    if acts == [] then START else Do(cap, DoAll(cap, acts[..|acts| - 1]), acts[|acts| - 1])
  }

  /** The CPU is past the insert and before the update of `key`. */
  predicate HasEntry(p: Proto, cpu: Cpu, key: U64) {
    var pc := PcOf(p, cpu);
    (pc.Again? || pc.Got?) && pc.key == key
  }

  ghost predicate EntriesExist(p: Proto) {
    forall cpu: Cpu, key :: HasEntry(p, cpu, key) ==> key in p.m
  }

  lemma KeepsEntries(cap: nat, p: Proto, act: Act)
    requires EntriesExist(p)
    ensures EntriesExist(Do(cap, p, act))
  {
    var p' := Do(cap, p, act);
    assert p.m.Keys <= p'.m.Keys;
    forall cpu: Cpu, key | HasEntry(p', cpu, key) ensures key in p'.m {
      if cpu != act.cpu || p' == p {
        assert HasEntry(p, cpu, key);
      } else if PcOf(p, cpu).Again? {
        assert HasEntry(p, cpu, PcOf(p, cpu).key);
      }
    }
  }

  lemma {:induction false} EntriesAlwaysExist(cap: nat, acts: seq<Act>)
    ensures EntriesExist(DoAll(cap, acts))
  {
    if acts != [] {
      EntriesAlwaysExist(cap, acts[..|acts| - 1]);
      KeepsEntries(cap, DoAll(cap, acts[..|acts| - 1]), acts[|acts| - 1]);
    }
  }

  // ----- What the map holds, told from the acts

  /** At `n` a CPU that holds the entry of `key` updates its counter. */
  predicate UpdatesAt(cap: nat, acts: seq<Act>, key: U64, n: nat) {
    && n < |acts| && acts[n].Update?
    && var pc := PcOf(DoAll(cap, acts[..n]), acts[n].cpu);
       pc.Got? && pc.key == key
  }

  /** The sizes of all updates of `key`, by the moment of the update. */
  function Updates(cap: nat, acts: seq<Act>, key: U64): map<nat, U64> {
    map n | 0 <= n < |acts| && UpdatesAt(cap, acts, key, n) :: PcOf(DoAll(cap, acts[..n]), acts[n].cpu).size
  }

  lemma SameUpdate(cap: nat, acts: seq<Act>, key: U64, last: nat, n: nat)
    requires n < last <= |acts|
    ensures UpdatesAt(cap, acts[..last], key, n) <==> UpdatesAt(cap, acts, key, n)
    ensures acts[..last][..n] == acts[..n] && acts[..last][n] == acts[n]
  {
    assert acts[..last][..n] == acts[..n] && acts[..last][n] == acts[n];
  }

  lemma UpdatesNext(cap: nat, acts: seq<Act>, key: U64)
    requires acts != []
    ensures var n := |acts| - 1;
      Updates(cap, acts, key) == if UpdatesAt(cap, acts, key, n)
        then Updates(cap, acts[..n], key)[n := PcOf(DoAll(cap, acts[..n]), acts[n].cpu).size] else Updates(cap, acts[..n], key)
  {
    var n := |acts| - 1;
    var before, after := Updates(cap, acts[..n], key), Updates(cap, acts, key);
    forall k | 0 <= k < n ensures (k in before <==> k in after) && (k in before ==> before[k] == after[k]) {
      SameUpdate(cap, acts, key, n, k);
    }
    SameButLast(before, after, n);
  }

  lemma SameButLast(before: map<nat, U64>, after: map<nat, U64>, n: nat)
    requires (forall k :: k in before ==> k < n) && forall k :: k in after ==> k <= n
    requires forall k: nat :: k < n ==> (k in before <==> k in after) && (k in before ==> before[k] == after[k])
    ensures after == if n in after then before[n := after[n]] else before
  {
  }

  function SizeItself(): U64 -> nat {
    (size: U64) => size
  }

  /** The counter of that many updates of that total size, modulo its field widths. */
  predicate Shows(counter: Combined, count: nat, total: nat) {
    counter.number == count % 0x100_0000 && counter.total == total % 0x100_0000_0000
  }

  /** The entry shows those updates; a key without an entry has had none. */
  ghost predicate HoldsUpdates(m: Counters, key: U64, updates: map<nat, U64>) {
    if key in m then Shows(m[key], |updates|, Sum(updates, SizeItself())) else updates == map[]
  }

  lemma UpdateHolds(m: Counters, key: U64, updates: map<nat, U64>, n: nat, size: U64)
    requires key in m && HoldsUpdates(m, key, updates) && n !in updates
    ensures HoldsUpdates(m[key := m[key].Plus(size)], key, updates[n := size])
  {
    SumPut(updates, n, size, SizeItself());
    OneMoreShown(m[key], |updates|, Sum(updates, SizeItself()), size, |updates[n := size]|, Sum(updates[n := size], SizeItself()));
  }

  lemma OneMoreShown(counter: Combined, count: nat, total: nat, size: U64, count': nat, total': nat)
    requires Shows(counter, count, total) && count' == count + 1 && total' == total + size
    ensures Shows(counter.Plus(size), count', total')
  {
    Conservation.AddedAgrees(counter, total, count, size);
  }

  /** How one act moves the entry of `key`. */
  lemma EntryNext(cap: nat, p: Proto, act: Act, key: U64)
    requires EntriesExist(p)
    ensures var m, m', pc := p.m, Do(cap, p, act).m, PcOf(p, act.cpu);
      if act.Update? && pc.Got? && pc.key == key then key in m && key in m' && m'[key] == m[key].Plus(pc.size)
      else if key in m then key in m' && m'[key] == m[key]
      else key in m' ==> m'[key] == Combined(0, 0) && act.Insert? && act.memory && pc.Missed? && pc.key == key && |m| < cap
  {
    var pc := PcOf(p, act.cpu);
    if pc.Got? {
      assert HasEntry(p, act.cpu, pc.key);
    }
  }

  lemma HoldsNext(cap: nat, p: Proto, act: Act, key: U64, updates: map<nat, U64>, n: nat)
    requires EntriesExist(p) && HoldsUpdates(p.m, key, updates) && n !in updates
    ensures var pc := PcOf(p, act.cpu);
      HoldsUpdates(Do(cap, p, act).m, key, if act.Update? && pc.Got? && pc.key == key then updates[n := pc.size] else updates)
  {
    var pc := PcOf(p, act.cpu);
    EntryNext(cap, p, act, key);
    if act.Update? && pc.Got? && pc.key == key {
      UpdateHolds(p.m, key, updates, n, pc.size);
    }
  }

  /** At any moment of any interleaving an entry holds exactly the updates of its key made so far:
      their number modulo 2^24 and the sum of their sizes modulo 2^40. */
  lemma {:induction false} NeverReset(cap: nat, acts: seq<Act>, key: U64)
    ensures HoldsUpdates(DoAll(cap, acts).m, key, Updates(cap, acts, key))
  {
    if acts != [] {
      var n := |acts| - 1;
      NeverReset(cap, acts[..n], key);
      EntriesAlwaysExist(cap, acts[..n]);
      UpdatesNext(cap, acts, key);
      HoldsNext(cap, DoAll(cap, acts[..n]), acts[n], key, Updates(cap, acts[..n], key), n);
    }
  }

  // ----- What a CPU works on

  /** At `n` a CPU that is not in a call begins one. */
  predicate BeginsAt(cap: nat, acts: seq<Act>, cpu: Cpu, n: nat) {
    && n < |acts| && acts[n].Begin? && acts[n].cpu == cpu
    && var pc := PcOf(DoAll(cap, acts[..n]), cpu);
       pc.Idle? || pc.NoEntry?
  }

  /** At `n` an insert of `key` by the CPU fails: the key is absent, and the map full or memory short. */
  predicate FailsAt(cap: nat, acts: seq<Act>, cpu: Cpu, key: U64, n: nat) {
    && n < |acts| && acts[n].Insert? && acts[n].cpu == cpu
    && var p := DoAll(cap, acts[..n]);
       PcOf(p, cpu).Missed? && PcOf(p, cpu).key == key && key !in p.m && (|p.m| >= cap || !acts[n].memory)
  }

  /** The call the CPU is in is the one it began at `b`, and it began none since. */
  ghost predicate InCallSince(cap: nat, acts: seq<Act>, cpu: Cpu, b: nat) {
    && BeginsAt(cap, acts, cpu, b)
    && (forall n :: b < n < |acts| ==> !BeginsAt(cap, acts, cpu, n))
    && var pc := PcOf(DoAll(cap, acts), cpu);
       !pc.Idle? && pc.key == acts[b].key && (pc.NoEntry? || pc.size == acts[b].size)
  }

  lemma CallNext(cap: nat, p: Proto, act: Act, cpu: Cpu)
    requires EntriesExist(p)
    ensures var pc, pc' := PcOf(p, cpu), PcOf(Do(cap, p, act), cpu);
      if act.Begin? && act.cpu == cpu && (pc.Idle? || pc.NoEntry?) then pc' == Looking(act.key, act.size)
      else if pc.Idle? || pc.NoEntry? then pc' == pc
      else if pc'.Idle? then act.Update? && act.cpu == cpu && pc.Got?
      else pc'.key == pc.key && (pc'.NoEntry? || pc'.size == pc.size)
  {
    assert PcOf(p, cpu).Got? ==> HasEntry(p, cpu, PcOf(p, cpu).key);
  }

  /** A CPU in a call works for the key and the size with which it began that call. */
  lemma {:induction false} CallIsLatest(cap: nat, acts: seq<Act>, cpu: Cpu) returns (b: nat)
    requires !PcOf(DoAll(cap, acts), cpu).Idle?
    ensures InCallSince(cap, acts, cpu, b)
  {
    var last := |acts| - 1;
    var front := acts[..last];
    var pc := PcOf(DoAll(cap, front), cpu);
    EntriesAlwaysExist(cap, front);
    CallNext(cap, DoAll(cap, front), acts[last], cpu);
    assert forall n :: 0 <= n < last ==> front[..n] == acts[..n] && front[n] == acts[n];
    if BeginsAt(cap, acts, cpu, last) {
      b := last;
    } else {
      b := CallIsLatest(cap, front, cpu);
      assert BeginsAt(cap, front, cpu, b) && BeginsAt(cap, acts, cpu, b);
      forall n | b < n < |acts| ensures !BeginsAt(cap, acts, cpu, n) {
        assert n < last ==> (BeginsAt(cap, front, cpu, n) <==> BeginsAt(cap, acts, cpu, n));
      }
    }
  }

  ghost predicate NoneBegunSince(cap: nat, acts: seq<Act>, cpu: Cpu, n: nat) {
    forall k :: n < k < |acts| ==> !BeginsAt(cap, acts, cpu, k)
  }

  lemma BegunNext(cap: nat, acts: seq<Act>, cpu: Cpu, n: nat)
    requires acts != [] && !BeginsAt(cap, acts, cpu, |acts| - 1)
    requires n < |acts| - 1 ==> NoneBegunSince(cap, acts[..|acts| - 1], cpu, n)
    ensures NoneBegunSince(cap, acts, cpu, n)
  {
    var front := acts[..|acts| - 1];
    forall k | n < k < |acts| ensures !BeginsAt(cap, acts, cpu, k) {
      if k < |front| {
        assert front[..k] == acts[..k] && front[k] == acts[k];
        assert !BeginsAt(cap, front, cpu, k);
      }
    }
  }

  /** How a CPU comes to be without an entry. */
  lemma LosesEntry(cap: nat, p: Proto, act: Act, cpu: Cpu)
    requires EntriesExist(p) && PcOf(Do(cap, p, act), cpu).NoEntry?
    ensures var pc, pc' := PcOf(p, cpu), PcOf(Do(cap, p, act), cpu);
      || pc == pc'
      || (act.Insert? && act.cpu == cpu && pc.Missed? && pc.key == pc'.key && pc.key !in p.m && (|p.m| >= cap || !act.memory))
  {
    assert PcOf(p, cpu).Again? ==> HasEntry(p, cpu, PcOf(p, cpu).key);
  }

  lemma {:induction false} FailedInsert(cap: nat, acts: seq<Act>, cpu: Cpu) returns (n: nat)
    requires PcOf(DoAll(cap, acts), cpu).NoEntry?
    ensures FailsAt(cap, acts, cpu, PcOf(DoAll(cap, acts), cpu).key, n) && NoneBegunSince(cap, acts, cpu, n)
  {
    var last := |acts| - 1;
    var front := acts[..last];
    EntriesAlwaysExist(cap, front);
    LosesEntry(cap, DoAll(cap, front), acts[last], cpu);
    CallNext(cap, DoAll(cap, front), acts[last], cpu);
    if PcOf(DoAll(cap, front), cpu).NoEntry? {
      n := FailedInsert(cap, front, cpu);
      assert front[..n] == acts[..n] && front[n] == acts[n];
    } else {
      n := last;
    }
    BegunNext(cap, acts, cpu, n);
  }

  /** A caller ends without an entry only when its own insert found the key absent and failed, later
      than its latest begin; past the insert its entry is there. */
  lemma {:induction false} NoEntryOnlyAfterFailedInsert(cap: nat, acts: seq<Act>, cpu: Cpu)
    ensures var pc := PcOf(DoAll(cap, acts), cpu);
      && (pc.NoEntry? ==> exists n :: FailsAt(cap, acts, cpu, pc.key, n) && NoneBegunSince(cap, acts, cpu, n))
      && (pc.Again? || pc.Got? ==> pc.key in DoAll(cap, acts).m)
  {
    EntriesAlwaysExist(cap, acts);
    var pc := PcOf(DoAll(cap, acts), cpu);
    assert pc.Again? || pc.Got? ==> HasEntry(DoAll(cap, acts), cpu, pc.key);
    if pc.NoEntry? {
      var n := FailedInsert(cap, acts, cpu);
    }
  }

  /** The remaining steps of the CPU, with nobody else in between. */
  function FinishAlone(cap: nat, p: Proto, cpu: Cpu, memory: bool): Proto {
    Do(cap, Do(cap, Do(cap, Do(cap, p, Lookup(cpu)), Insert(cpu, memory)), LookupAgain(cpu)), Update(cpu))
  }

  /** A lookup that finds the key has its entry at once. From whatever point of its call, a CPU left
      alone finishes it: it counts its own size under
      its own key, in a new entry where there is none and there is room and memory, and ends idle;
      without the key and without room or memory it ends without an entry. */
  lemma FinishesCall(cap: nat, p: Proto, cpu: Cpu, memory: bool)
    requires EntriesExist(p) && !PcOf(p, cpu).Idle? && !PcOf(p, cpu).NoEntry?
    ensures PcOf(p, cpu).Looking? && PcOf(p, cpu).key in p.m ==> PcOf(Do(cap, p, Lookup(cpu)), cpu).Got?
    ensures var pc, p' := PcOf(p, cpu), FinishAlone(cap, p, cpu, memory);
      if pc.key in p.m then p'.m == p.m[pc.key := p.m[pc.key].Plus(pc.size)] && PcOf(p', cpu).Idle?
      else if |p.m| < cap && memory then p'.m == p.m[pc.key := Combined(0, 0).Plus(pc.size)] && PcOf(p', cpu).Idle?
      else p'.m == p.m && PcOf(p', cpu) == NoEntry(pc.key)
  {
    assert PcOf(p, cpu).Again? || PcOf(p, cpu).Got? ==> HasEntry(p, cpu, PcOf(p, cpu).key);
  }

  // ----- Initialised once

  /** At `n` a CPU that missed `key` creates its entry, at zero. */
  predicate CreatesAt(cap: nat, acts: seq<Act>, key: U64, n: nat) {
    && n < |acts| && acts[n].Insert? && PcOf(DoAll(cap, acts[..n]), acts[n].cpu).Missed?
    && PcOf(DoAll(cap, acts[..n]), acts[n].cpu).key == key && key !in DoAll(cap, acts[..n]).m
    && var m' := DoAll(cap, acts[..n + 1]).m;
       key in m' && m'[key] == Combined(0, 0)
  }

  ghost predicate PresentSince(cap: nat, acts: seq<Act>, key: U64, n: nat) {
    forall k :: n < k <= |acts| ==> key in DoAll(cap, acts[..k]).m
  }

  lemma PresentNext(cap: nat, acts: seq<Act>, key: U64, n: nat)
    requires acts != [] && key in DoAll(cap, acts).m && (n < |acts| - 1 ==> PresentSince(cap, acts[..|acts| - 1], key, n))
    ensures PresentSince(cap, acts, key, n)
  {
    var front := acts[..|acts| - 1];
    forall k | n < k <= |acts| ensures key in DoAll(cap, acts[..k]).m {
      if k == |acts| {
        assert acts[..k] == acts;
      } else {
        assert front[..k] == acts[..k];
      }
    }
  }

  /** However the CPUs race for it, a key is created by one insert only, found absent then and
      present ever after. */
  lemma {:induction false} InitialisedAtMostOnce(cap: nat, acts: seq<Act>, key: U64) returns (n: nat)
    requires key in DoAll(cap, acts).m
    ensures CreatesAt(cap, acts, key, n) && PresentSince(cap, acts, key, n)
    ensures forall k: nat :: CreatesAt(cap, acts, key, k) ==> k == n
  {
    n := CreatedSomewhere(cap, acts, key);
    forall k: nat | CreatesAt(cap, acts, key, k) ensures k == n {
      if k < n {
        assert acts[..n][..k + 1] == acts[..k + 1];
        KeyRemains(cap, acts[..n], key, k + 1);
      }
    }
  }

  lemma KeysStay(cap: nat, p: Proto, act: Act, key: U64)
    ensures key in p.m ==> key in Do(cap, p, act).m
  {
  }

  lemma {:induction false} KeyRemains(cap: nat, acts: seq<Act>, key: U64, k: nat)
    requires k <= |acts| && key in DoAll(cap, acts[..k]).m
    ensures key in DoAll(cap, acts).m
    decreases |acts|
  {
    if k == |acts| {
      assert acts[..k] == acts;
    } else {
      var front := acts[..|acts| - 1];
      assert front[..k] == acts[..k];
      KeyRemains(cap, front, key, k);
      KeysStay(cap, DoAll(cap, front), acts[|acts| - 1], key);
    }
  }

  lemma {:induction false} CreatedSomewhere(cap: nat, acts: seq<Act>, key: U64) returns (n: nat)
    requires key in DoAll(cap, acts).m
    ensures CreatesAt(cap, acts, key, n) && PresentSince(cap, acts, key, n)
  {
    var last := |acts| - 1;
    var front := acts[..last];
    EntriesAlwaysExist(cap, front);
    EntryNext(cap, DoAll(cap, front), acts[last], key);
    if key in DoAll(cap, front).m {
      n := CreatedSomewhere(cap, front, key);
      assert front[..n] == acts[..n] && front[..n + 1] == acts[..n + 1] && front[n] == acts[n];
    } else {
      n := last;
      assert acts[..n + 1] == acts;
    }
    PresentNext(cap, acts, key, n);
  }

  // ----- The map is the serial one

  /** The same updates made one after the other, each in one indivisible step. */
  function Serial(cap: nat, log: seq<(U64, U64)>): Counters {
    if log == [] then map[]
    else
      var last := log[|log| - 1];
      CountIn(Serial(cap, log[..|log| - 1]), cap, last.0, last.1)
  }

  /** The updates of all keys in the order in which the CPUs made them. */
  function UpdateLog(cap: nat, acts: seq<Act>): seq<(U64, U64)> {
    if acts == [] then []
    else
      var n := |acts| - 1;
      var pc := PcOf(DoAll(cap, acts[..n]), acts[n].cpu);
      UpdateLog(cap, acts[..n]) + if acts[n].Update? && pc.Got? then [(pc.key, pc.size)] else []
  }

  /** Up to entries still at zero whose creator is on its way, the map is the serial one. */
  ghost predicate MatchesSerial(cap: nat, p: Proto, log: seq<(U64, U64)>) {
    var serial := Serial(cap, log);
    && |p.m| <= cap
    && serial.Keys <= p.m.Keys
    && (forall key :: key in serial ==> p.m[key] == serial[key])
    && (forall key :: key in p.m && key !in serial ==> p.m[key] == Combined(0, 0) && exists cpu: Cpu :: HasEntry(p, cpu, key))
  }

  lemma OthersKeepEntries(cap: nat, p: Proto, act: Act, cpu: Cpu, key: U64)
    requires HasEntry(p, cpu, key) && EntriesExist(p)
    ensures HasEntry(Do(cap, p, act), cpu, key) || (act.Update? && act.cpu == cpu)
  {
  }

  lemma CountingKeepsSerial(cap: nat, p: Proto, log: seq<(U64, U64)>, act: Act)
    requires MatchesSerial(cap, p, log) && EntriesExist(p)
    requires act.Update? && PcOf(p, act.cpu).Got? && PcOf(p, act.cpu).key in p.m
    ensures var pc := PcOf(p, act.cpu); MatchesSerial(cap, Do(cap, p, act), log + [(pc.key, pc.size)])
  {
    var p' := Do(cap, p, act);
    var key, size := PcOf(p, act.cpu).key, PcOf(p, act.cpu).size;
    var serial, log' := Serial(cap, log), log + [(key, size)];
    assert log'[..|log|] == log;
    assert Serial(cap, log') == CountIn(serial, cap, key, size);
    if key !in serial {
      SubsetSize(serial.Keys + {key}, p.m.Keys);
      assert |serial.Keys + {key}| == |serial| + 1;
    }
    assert p'.m.Keys == p.m.Keys && |p'.m.Keys| == |p'.m|;
    forall k | k in p'.m && k !in Serial(cap, log')
      ensures p'.m[k] == Combined(0, 0) && exists cpu: Cpu :: HasEntry(p', cpu, k)
    {
      var cpu: Cpu :| HasEntry(p, cpu, k);
      assert cpu != act.cpu;
      OthersKeepEntries(cap, p, act, cpu, k);
    }
  }

  lemma InsertKeepsSerial(cap: nat, p: Proto, log: seq<(U64, U64)>, act: Act)
    requires MatchesSerial(cap, p, log) && EntriesExist(p)
    requires !(act.Update? && PcOf(p, act.cpu).Got?)
    ensures MatchesSerial(cap, Do(cap, p, act), log)
  {
    var p' := Do(cap, p, act);
    var serial := Serial(cap, log);
    forall k | k in p'.m && k !in serial
      ensures p'.m[k] == Combined(0, 0) && exists cpu: Cpu :: HasEntry(p', cpu, k)
    {
      if k in p.m {
        var cpu: Cpu :| HasEntry(p, cpu, k);
        OthersKeepEntries(cap, p, act, cpu, k);
      } else {
        assert HasEntry(p', act.cpu, k);
      }
    }
  }

  lemma {:induction false} AlwaysSerial(cap: nat, acts: seq<Act>)
    ensures MatchesSerial(cap, DoAll(cap, acts), UpdateLog(cap, acts))
  {
    if acts != [] {
      var front, act := acts[..|acts| - 1], acts[|acts| - 1];
      AlwaysSerial(cap, front);
      EntriesAlwaysExist(cap, front);
      SerialNext(cap, DoAll(cap, front), UpdateLog(cap, front), act);
    }
  }

  lemma SerialNext(cap: nat, p: Proto, log: seq<(U64, U64)>, act: Act)
    requires MatchesSerial(cap, p, log) && EntriesExist(p)
    ensures var pc := PcOf(p, act.cpu);
      MatchesSerial(cap, Do(cap, p, act), log + if act.Update? && pc.Got? then [(pc.key, pc.size)] else [])
  {
    if act.Update? && PcOf(p, act.cpu).Got? {
      assert HasEntry(p, act.cpu, PcOf(p, act.cpu).key);
      CountingKeepsSerial(cap, p, log, act);
    } else {
      InsertKeepsSerial(cap, p, log, act);
      assert log + [] == log;
    }
  }

  /** No update is lost and no entry is reset: once no CPU holds an entry it has not updated, the map
      is what the same updates give when each call runs alone, in the order in which they were made. */
  lemma {:induction false} Serializable(cap: nat, acts: seq<Act>)
    requires forall cpu: Cpu, key :: !HasEntry(DoAll(cap, acts), cpu, key)
    ensures DoAll(cap, acts).m == Serial(cap, UpdateLog(cap, acts))
  {
    AlwaysSerial(cap, acts);
  }
}
