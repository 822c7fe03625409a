/** The handlers of `memleak.bpf.c` as methods that update the maps in place. */
module Tracker {
  import opened Words
  import opened Kernel

  class Memleak {
    const c: Config
    var sizes: map<Tid, SizeInfo>
    var allocs: map<U64, AllocInfo>
    var combinedAllocs: Counters
    var memptrs: map<Tid, U64>

    constructor (c: Config)
      ensures this.c == c && St() == EMPTY
    {
      this.c := c;
      sizes, allocs, combinedAllocs, memptrs := map[], map[], map[], map[];
    }

    ghost function St(): State
      reads this
    {
      State(sizes, allocs, combinedAllocs, memptrs)
    }

    /** Returns whether the key has an entry afterwards. */
    method LookupOrTryInit(key: U64) returns (found: bool)
      modifies this`combinedAllocs
      ensures combinedAllocs == if key in old(combinedAllocs) then old(combinedAllocs)
                                else UpdateAny(old(combinedAllocs), c.combinedCap, key, Combined(0, 0))
      ensures found <==> key in combinedAllocs
    {
      if key in combinedAllocs {
        return true;
      }
      if |combinedAllocs| >= c.combinedCap {
        return false;
      }
      combinedAllocs := combinedAllocs[key := Combined(0, 0)];
      return true;
    }

    method UpdateStatisticsAdd(stackId: S32, size: U64)
      modifies this`combinedAllocs
      ensures combinedAllocs == StatisticsAdd(c, old(combinedAllocs), stackId, size)
    {
      var key := StackKey(stackId);
      var found := LookupOrTryInit(key);
      if !found {
        return;
      }
      combinedAllocs := combinedAllocs[key := combinedAllocs[key].Plus(size)];
    }

    method UpdateStatisticsDel(stackId: S32, size: U64)
      modifies this`combinedAllocs
      ensures combinedAllocs == StatisticsDel(old(combinedAllocs), stackId, size)
    {
      var key := StackKey(stackId);
      if key !in combinedAllocs {
        return;
      }
      combinedAllocs := combinedAllocs[key := combinedAllocs[key].Minus(size)];
    }

    /** Fills the frame buffer from the stack words; the unused slots stay zero. */
    method CaptureFrames(words: seq<Option<U64>>) returns (slots: array<U64>, cnt: nat)
      ensures fresh(slots) && slots.Length == MAX_MANUAL_STACK_DEPTH && cnt <= slots.Length
      ensures slots[..cnt] == Frames(words, MAX_MANUAL_STACK_DEPTH)
      ensures forall k :: cnt <= k < slots.Length ==> slots[k] == 0
    {
      slots := new U64[MAX_MANUAL_STACK_DEPTH](_ => 0);
      cnt := 0;
      while cnt < slots.Length && cnt < |words| && words[cnt].Some? && words[cnt].value != 0
        invariant cnt <= slots.Length && cnt <= |words|
        invariant forall k :: 0 <= k < cnt ==> words[k].Some? && words[k].value != 0 && slots[k] == words[k].value - 1
        invariant forall k :: cnt <= k < slots.Length ==> slots[k] == 0
      {
        slots[cnt] := words[cnt].value - 1;
        cnt := cnt + 1;
      }
      LeadingWordsAreFrames(words, slots[..cnt], MAX_MANUAL_STACK_DEPTH);
    }

    method GenAllocEnter(tid: Tid, req: Request, clock: U64)
      modifies this`sizes
      ensures St() == AllocEnter(c, old(St()), tid, req, clock)
      ensures old(tid !in sizes && |sizes| < c.sizesCap) ==>
        (tid in sizes <==> req.size >= c.minSize && req.size <= c.maxSize && (c.sampleRate <= 1 || clock % c.sampleRate == 0))
    {
      if req.size < c.minSize || req.size > c.maxSize {
        return;
      }
      if c.sampleRate > 1 {
        if clock % c.sampleRate != 0 {
          return;
        }
      }
      if tid in sizes {
        return;
      }
      var slots, cnt := CaptureFrames(req.words);
      var info := SizeInfo(req.size, req.stackId, slots[..cnt]);
      if |sizes| < c.sizesCap {
        sizes := sizes[tid := info];
      }
    }

    method GenAllocExit2(tid: Tid, address: U64, now: U64)
      modifies this`sizes, this`allocs, this`combinedAllocs
      ensures St() == AllocExit(c, old(St()), tid, address, now)
      ensures old(tid in sizes && |allocs| < c.allocsCap && address !in allocs) ==>
        (address in allocs <==> address != 0 && address != 0xFFFF_FFFF_FFFF_FFFF)
      ensures !c.combinedOnly ==> combinedAllocs == old(combinedAllocs)
    {
      if tid !in sizes {
        return;
      }
      var sinfo := sizes[tid];
      var frames: ManualStack := [];
      for i := 0 to |sinfo.frames|
        invariant frames == sinfo.frames[..i]
      {
        frames := frames + [sinfo.frames[i]];
      }
      assert frames == sinfo.frames;
      sizes := sizes - {tid};
      if address != 0 && address != MAP_FAILED {
        var info := AllocInfo(sinfo.size, now, sinfo.stackId, frames);
        if address in allocs || |allocs| < c.allocsCap {
          allocs := allocs[address := info];
        }
        if c.combinedOnly {
          UpdateStatisticsAdd(info.stackId, info.size);
        }
      }
    }

    method GenFreeEnter(address: U64)
      modifies this`allocs, this`combinedAllocs
      ensures St() == FreeEnter(c, old(St()), address)
      ensures !c.combinedOnly ==> combinedAllocs == old(combinedAllocs)
    {
      if address !in allocs {
        return;
      }
      var info := allocs[address];
      allocs := allocs - {address};
      if c.combinedOnly {
        UpdateStatisticsDel(info.stackId, info.size);
      }
    }

    method CallocEnter(tid: Tid, nmemb: U64, req: Request, clock: U64)
      modifies this
      ensures St() == AllocEnter(c, old(St()), tid, req.(size := Wrap(nmemb * req.size)), clock)
    {
      GenAllocEnter(tid, req.(size := Wrap(nmemb * req.size)), clock);
    }

    method ReallocProbe(tid: Tid, ptr: U64, req: Request, clock: U64)
      modifies this
      ensures St() == ReallocEnter(c, old(St()), tid, ptr, req, clock)
    {
      GenFreeEnter(ptr);
      GenAllocEnter(tid, req, clock);
    }

    method PosixMemalignEnter(tid: Tid, memptr: U64, req: Request, clock: U64)
      modifies this
      ensures St() == PosixEnter(c, old(St()), tid, memptr, req, clock)
    {
      if tid in memptrs || |memptrs| < c.memptrsCap {
        memptrs := memptrs[tid := memptr];
      }
      GenAllocEnter(tid, req, clock);
    }

    method PosixMemalignExit(tid: Tid, slot: Option<U64>, now: U64)
      modifies this
      ensures St() == PosixExit(c, old(St()), tid, slot, now)
    {
      if tid !in memptrs {
        return;
      }
      memptrs := memptrs - {tid};
      if slot.None? {
        return;
      }
      GenAllocExit2(tid, slot.value, now);
    }

    method KernelAllocTracepoint(tid: Tid, ptr: U64, req: Request, missingFree: bool, clock: U64, now: U64)
      modifies this
      ensures St() == KernelAlloc(c, old(St()), tid, ptr, req, missingFree, clock, now)
    {
      if missingFree {
        GenFreeEnter(ptr);
      }
      GenAllocEnter(tid, req, clock);
      GenAllocExit2(tid, ptr, now);
    }
  }
}
