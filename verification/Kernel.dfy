/** The kernel-side maps of the leak tracker and the effect of its handlers on them. */
module Kernel {
  import opened Words

  type Tid = U32

  const MAP_FAILED: U64 := 0xFFFF_FFFF_FFFF_FFFF
  const MAX_MANUAL_STACK_DEPTH: nat := 8

  type U40 = x: int | 0 <= x < 0x100_0000_0000
  type U24 = x: int | 0 <= x < 0x100_0000

  /** The used part of a `manual_stack` buffer. */
  type ManualStack = s: seq<U64> | |s| <= 8

  /** The read-only constants the loader sets, and the capacities of the four maps. */
  datatype Config = Config(
    minSize: U64,
    maxSize: U64,
    sampleRate: U64,
    combinedOnly: bool,
    sizesCap: nat,
    allocsCap: nat,
    combinedCap: nat,
    memptrsCap: nat)

  /** What an entry probe sees: the requested size, the stack id the kernel gave
      (negative for an error), and the user stack words read upwards from the stack
      pointer, None for a word that could not be read. */
  datatype Request = Request(size: U64, stackId: S32, words: seq<Option<U64>>)

  /** A pending request (`struct size_info`): the used part of its frame buffer is `frames`. */
  datatype SizeInfo = SizeInfo(size: U64, stackId: S32, frames: ManualStack)

  /** A live record (`struct alloc_info`). */
  datatype AllocInfo = AllocInfo(size: U64, timestamp: U64, stackId: S32, frames: ManualStack)

  /** The packed counters of one stack: 40 bits of bytes, 24 bits of allocations. */
  datatype Combined = Combined(total: U40, number: U24) {
    function Plus(size: U64): Combined {
      Combined((total + size) % 0x100_0000_0000, (number + 1) % 0x100_0000)
    }

    function Minus(size: U64): Combined {
      Combined((total - size) % 0x100_0000_0000, (number - 1) % 0x100_0000)
    }
  }

  datatype State = State(
    sizes: map<Tid, SizeInfo>,
    allocs: map<U64, AllocInfo>,
    combined: Counters,
    memptrs: map<Tid, U64>)

  const EMPTY: State := State(map[], map[], map[], map[])

  /** `bpf_map_update_elem(..., BPF_ANY)`: refused only for a new key of a full map. */
  function UpdateAny<K, V>(m: map<K, V>, cap: nat, k: K, v: V): map<K, V> {
    if k in m || |m| < cap then m[k := v] else m
  }

  /** The leading readable non-zero words, each minus one, at most `room` of them. */
  function Frames(words: seq<Option<U64>>, room: nat): (frames: seq<U64>)
    ensures |frames| <= room
    decreases room
  {
    if room == 0 || words == [] || words[0].None? || words[0].value == 0 then []
    else [words[0].value - 1] + Frames(words[1..], room - 1)
  }

  function Pending(req: Request): SizeInfo {
    SizeInfo(req.size, req.stackId, Frames(req.words, MAX_MANUAL_STACK_DEPTH))
  }

  function Record(info: SizeInfo, now: U64): AllocInfo {
    AllocInfo(info.size, now, info.stackId, info.frames)
  }

  /** Stack ids are `int` in the records and `u64` as keys of `combined_allocs`. */
  function StackKey(stackId: S32): U64 {
    ToU64(stackId)
  }

  type Counters = map<U64, Combined>

  /** Look the counter up, or create it at zero if there is room, and count one allocation. */
  function CountIn(m: Counters, cap: nat, key: U64, size: U64): Counters {
    if key in m then m[key := m[key].Plus(size)]
    else if |m| < cap then m[key := Combined(0, 0).Plus(size)]
    else m
  }

  function StatisticsAdd(c: Config, m: Counters, stackId: S32, size: U64): Counters {
    CountIn(m, c.combinedCap, StackKey(stackId), size)
  }

  function StatisticsDel(m: Counters, stackId: S32, size: U64): Counters {
    var key := StackKey(stackId);
    if key in m then m[key := m[key].Minus(size)] else m
  }

  /** The size filter and the sampling filter let the request through. */
  predicate Accepted(c: Config, req: Request, clock: U64) {
    && c.minSize <= req.size <= c.maxSize
    && (c.sampleRate > 1 ==> clock % c.sampleRate == 0)
  }

  function AllocEnter(c: Config, st: State, tid: Tid, req: Request, clock: U64): State {
    if !Accepted(c, req, clock) || tid in st.sizes then st
    else st.(sizes := UpdateAny(st.sizes, c.sizesCap, tid, Pending(req)))
  }

  predicate IsRecordable(address: U64) {
    address != 0 && address != MAP_FAILED
  }

  function AllocExit(c: Config, st: State, tid: Tid, address: U64, now: U64): State {
    if tid !in st.sizes then st
    else
      var st' := st.(sizes := st.sizes - {tid});
      if !IsRecordable(address) then st'
      else
        var info := Record(st.sizes[tid], now);
        st'.(allocs := UpdateAny(st.allocs, c.allocsCap, address, info),
             combined := if c.combinedOnly then StatisticsAdd(c, st.combined, info.stackId, info.size) else st.combined)
  }

  function FreeEnter(c: Config, st: State, address: U64): State {
    if address !in st.allocs then st
    else
      var info := st.allocs[address];
      st.(allocs := st.allocs - {address},
          combined := if c.combinedOnly then StatisticsDel(st.combined, info.stackId, info.size) else st.combined)
  }

  function ReallocEnter(c: Config, st: State, tid: Tid, ptr: U64, req: Request, clock: U64): State {
    AllocEnter(c, FreeEnter(c, st, ptr), tid, req, clock)
  }

  function PosixEnter(c: Config, st: State, tid: Tid, memptr: U64, req: Request, clock: U64): State {
    AllocEnter(c, st.(memptrs := UpdateAny(st.memptrs, c.memptrsCap, tid, memptr)), tid, req, clock)
  }

  /** `slot` is what reading the remembered result pointer gives, None for a fault. */
  function PosixExit(c: Config, st: State, tid: Tid, slot: Option<U64>, now: U64): State {
    if tid !in st.memptrs then st
    else
      var st1 := st.(memptrs := st.memptrs - {tid});
      if slot.None? then st1 else AllocExit(c, st1, tid, slot.value, now)
  }

  /** A kernel tracepoint reports an allocation that already happened in one event. */
  function KernelAlloc(c: Config, st: State, tid: Tid, ptr: U64, req: Request, missingFree: bool, clock: U64, now: U64): State {
    var st1 := if missingFree then FreeEnter(c, st, ptr) else st;
    AllocExit(c, AllocEnter(c, st1, tid, req, clock), tid, ptr, now)
  }

  /** `f` is the longest run of leading non-zero readable words that fits, each minus one. */
  predicate IsLeadingRun(words: seq<Option<U64>>, f: seq<U64>, room: nat) {
    && |f| <= room && |f| <= |words|
    && (forall i :: 0 <= i < |f| ==> words[i].Some? && words[i].value != 0 && f[i] == words[i].value - 1)
    && (|f| == room || |f| == |words| || words[|f|].None? || words[|f|].value == 0)
  }

  lemma {:induction false} FramesAreLeadingWords(words: seq<Option<U64>>, room: nat)
    ensures IsLeadingRun(words, Frames(words, room), room)
    decreases room
  {
    if room == 0 || words == [] || words[0].None? || words[0].value == 0 {
    } else {
      FramesAreLeadingWords(words[1..], room - 1);
      var f := Frames(words, room);
      assert forall i :: 1 <= i < |words| ==> words[i] == words[1..][i - 1];
      assert forall i :: 1 <= i < |f| ==> f[i] == Frames(words[1..], room - 1)[i - 1];
    }
  }

  lemma LeadingWordsAreFrames(words: seq<Option<U64>>, f: seq<U64>, room: nat)
    requires IsLeadingRun(words, f, room)
    ensures f == Frames(words, room)
  {
    FramesAreLeadingWords(words, room);
  }

  /** A stack id is its own key; an error code wraps around to the top of the key range. */
  lemma StackKeyIs(s: S32)
    ensures StackKey(s) == if s >= 0 then s else 0x1_0000_0000_0000_0000 + s
  {
  }

  /** Different stack ids never share a counter. */
  lemma StackKeyInjective(a: S32, b: S32)
    requires StackKey(a) == StackKey(b)
    ensures a == b
  {
  }
}
