/** Where the contents of a record come from: the size, stack and frames captured by one
    entry probe reach the record unchanged through the pending request. */
module Provenance {
  import opened Words
  import opened Kernel
  import opened Runs

  /** `ops[j]` is the entry that made the pending request of `tid`, and no exit of `tid` follows it. */
  predicate PendingSince(ops: seq<Op>, tid: Tid, info: SizeInfo, j: nat) {
    && j < |ops| && ops[j].Enter? && ops[j].tid == tid && info == Pending(ops[j].req)
    && forall k :: j < k < |ops| ==> !(ops[k].Exit? && ops[k].tid == tid)
  }

  /** The size lies between the limits and the clock is sampled. */
  predicate PassedFilters(c: Config, op: Op) {
    op.Enter? && c.minSize <= op.req.size <= c.maxSize && (c.sampleRate > 1 ==> op.clock % c.sampleRate == 0)
  }

  lemma {:induction false} PendingOrigin(c: Config, ops: seq<Op>, tid: Tid) returns (j: nat)
    requires tid in Run(c, ops).sizes
    ensures PendingSince(ops, tid, Run(c, ops).sizes[tid], j)
    ensures tid !in Run(c, ops[..j]).sizes && PassedFilters(c, ops[j])
  {
    var n := |ops| - 1;
    var front := ops[..n];
    SizesStep(c, Run(c, front), ops[n], tid);
    if tid in Run(c, front).sizes {
      j := PendingOrigin(c, front, tid);
      assert ops[..j] == front[..j];
    } else {
      j := n;
    }
  }

  lemma SizesStep(c: Config, st: State, op: Op, tid: Tid)
    requires tid in Step(c, st, op).sizes
    ensures !(op.Exit? && op.tid == tid) || tid !in st.sizes
    ensures tid in st.sizes ==> Step(c, st, op).sizes[tid] == st.sizes[tid] && !(op.Exit? && op.tid == tid)
    ensures tid !in st.sizes ==>
      op.Enter? && op.tid == tid && PassedFilters(c, op) && Step(c, st, op).sizes[tid] == Pending(op.req)
  {
  }

  /** `ops[i]` is the exit that stored `rec` under `a` for the request made by `ops[j]`;
      later nothing freed `a`. */
  predicate RecordedBy(ops: seq<Op>, a: U64, rec: AllocInfo, j: nat, i: nat) {
    && j < i < |ops| && ops[i].Exit? && ops[i].address == a
    && PendingSince(ops[..i], ops[i].tid, SizeInfo(rec.size, rec.stackId, rec.frames), j)
    && rec.timestamp == ops[i].now
    && forall k :: i < k < |ops| ==> ops[k] != Free(a)
  }

  lemma AllocsStep(c: Config, st: State, op: Op, a: U64)
    requires a in Step(c, st, op).allocs
    ensures var rec := Step(c, st, op).allocs[a];
      || (a in st.allocs && rec == st.allocs[a] && op != Free(a))
      || (op.Exit? && op.address == a && op.tid in st.sizes && rec == Record(st.sizes[op.tid], op.now))
  {
  }

  /** Every record of every reachable state was captured by one accepted entry probe and
      stored by the next exit of the same thread. */
  lemma {:induction false} RecordOrigin(c: Config, ops: seq<Op>, a: U64) returns (j: nat, i: nat)
    requires a in Run(c, ops).allocs
    ensures RecordedBy(ops, a, Run(c, ops).allocs[a], j, i)
    ensures PassedFilters(c, ops[j]) && FoundNothing(c, ops, j)
  {
    var n := |ops| - 1;
    var front := ops[..n];
    var st := Run(c, front);
    AllocsStep(c, st, ops[n], a);
    if a in st.allocs && Run(c, ops).allocs[a] == st.allocs[a] && ops[n] != Free(a) {
      j, i := RecordOrigin(c, front, a);
      assert ops[..i] == front[..i] && ops[..j] == front[..j];
    } else {
      i := n;
      j := PendingOrigin(c, front, ops[n].tid);
      assert ops[..i] == front && ops[..j] == front[..j];
    }
  }

  /** The entry `ops[j]` found no pending request of its thread. */
  predicate FoundNothing(c: Config, ops: seq<Op>, j: nat) {
    j < |ops| && ops[j].Enter? && ops[j].tid !in Run(c, ops[..j]).sizes
  }

  /** In every run no record is smaller or larger than the limits allow, and the entry it comes from
      had a clock that is a multiple of a sampling rate above 1. */
  lemma {:induction false} RecordsPassFilters(c: Config, ops: seq<Op>, a: U64) returns (j: nat, i: nat)
    requires a in Run(c, ops).allocs
    ensures c.minSize <= Run(c, ops).allocs[a].size <= c.maxSize
    ensures RecordedBy(ops, a, Run(c, ops).allocs[a], j, i)
    ensures ops[j].Enter? && (c.sampleRate > 1 ==> ops[j].clock % c.sampleRate == 0)
  {
    j, i := RecordOrigin(c, ops, a);
    assert ops[..i][j] == ops[j];
  }

  /** A record carries the size, stack and frames seen by the very entry that made its request:
      the frames are the leading readable non-zero stack words, each minus one, at most eight. */
  lemma {:induction false} RecordFrames(c: Config, ops: seq<Op>, a: U64) returns (j: nat, i: nat)
    requires a in Run(c, ops).allocs
    ensures RecordedBy(ops, a, Run(c, ops).allocs[a], j, i)
    ensures ops[j].req.size == Run(c, ops).allocs[a].size && ops[j].req.stackId == Run(c, ops).allocs[a].stackId
    ensures IsLeadingRun(ops[j].req.words, Run(c, ops).allocs[a].frames, 8)
  {
    j, i := RecordOrigin(c, ops, a);
    assert ops[..i][j] == ops[j];
    FramesAreLeadingWords(ops[j].req.words, MAX_MANUAL_STACK_DEPTH);
  }
}
