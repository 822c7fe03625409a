/** From a function name to a file offset, to a runtime address, and back to the name. */
module RoundTrip {
  import opened Words
  import opened CStrings
  import opened Sorting
  import opened Elf
  import opened Selection
  import opened SymTable
  import opened DsoMaps

  /** Where the file offset `off` is found in a process that maps it by the line `m`. */
  function Runtime(m: Line, off: U64): U64 {
    Add(m.start, Sub(off, m.fileOff))
  }

  /** The address-minus-offset distance of the .text section and of a segment. */
  function TextDelta(d: Dso): U64 {
    Sub(d.shAddr, d.shOffset)
  }

  function SegmentDelta(p: Segment): U64 {
    Sub(p.vaddr, p.offset)
  }

  /** The 64-bit sums on the way there and back cancel exactly when the deltas agree. */
  lemma {:induction false} OffsetsCancel(d: Dso, m: Line, p: Segment, v: U64)
    requires d.kind.Dyn?
    ensures OffsetIn(d, RangeOf(m), Runtime(m, Translate(p, v))) == v <==> TextDelta(d) == SegmentDelta(p)
  {
    var off := Translate(p, v);
    var a := Runtime(m, off);
    BackToFile(m, off);
    assert OffsetIn(d, RangeOf(m), a) == Add(off, TextDelta(d));
    TranslateIs(p, v);
    AddCancels(v, SegmentDelta(p), TextDelta(d), off, p);
  }

  lemma TranslateIs(p: Segment, v: U64)
    ensures Translate(p, v) == Wrap(v - p.vaddr + p.offset)
  {
    WrapCongruent(v - p.vaddr, p.offset);
  }

  lemma BackToFile(m: Line, off: U64)
    ensures Add(Sub(Runtime(m, off), m.start), m.fileOff) == off
  {
    AddThenSub(m.start, Sub(off, m.fileOff));
    SubThenAdd(off, m.fileOff);
  }

  lemma AddCancels(v: U64, segment: U64, text: U64, off: U64, p: Segment)
    requires off == Wrap(v - p.vaddr + p.offset) && segment == Sub(p.vaddr, p.offset)
    ensures Add(off, text) == v <==> text == segment
  {
  }

  /** For a shared object mapped by disjoint lines: the file offset of virtual address `v`,
      mapped strictly inside a line, leads back to that file; the offset found there is `v`
      itself exactly when .text has the same delta as the segment that `v` went through. */
  lemma {:induction false} DynRoundTrip(info: string -> FileInfo, ms: seq<Line>, k: nat, p: Segment, v: U64, i: nat, j: nat)
    requires DisjointLines(ms) && k < |ms| && KindOf(info, ms[k].name).Dyn?
    requires Inside(RangeOf(ms[k]), Runtime(ms[k], Translate(p, v)))
    requires Locates(DsosOf(info, ms), Runtime(ms[k], Translate(p, v)), i, j)
    ensures var d := DsosOf(info, ms)[i];
      && d.name == ms[k].name
      && (OffsetIn(d, d.ranges[j], Runtime(ms[k], Translate(p, v))) == v <==> TextDelta(d) == SegmentDelta(p))
  {
    GroupedSearchIsDirect(info, ms, Runtime(ms[k], Translate(p, v)), i, j, k);
    OffsetsCancel(DsosOf(info, ms)[i], ms[k], p, v);
  }

  /** For an executable the search returns the runtime address itself. */
  lemma ExecRoundTrip(info: string -> FileInfo, ms: seq<Line>, k: nat, off: U64, i: nat, j: nat)
    requires DisjointLines(ms) && k < |ms| && KindOf(info, ms[k].name).Exec?
    requires Inside(RangeOf(ms[k]), Runtime(ms[k], off))
    requires Locates(DsosOf(info, ms), Runtime(ms[k], off), i, j)
    ensures var d := DsosOf(info, ms)[i];
      d.name == ms[k].name && OffsetIn(d, d.ranges[j], Runtime(ms[k], off)) == Runtime(ms[k], off)
  {
    GroupedSearchIsDirect(info, ms, Runtime(ms[k], off), i, j, k);
  }

  /** An address exactly at the start of a line is not found by any search. */
  lemma LineStartNotFound(info: string -> FileInfo, ms: seq<Line>, k: nat)
    requires DisjointLines(ms) && k < |ms| && forall l :: 0 <= l < |ms| ==> ms[l].start < ms[l].end
    ensures OutsideAll(DsosOf(info, ms), ms[k].start)
  {
    GroupedSearchFailsIff(info, ms, ms[k].start);
  }

  /** What dso__add_syms makes of a usable symbol. */
  function Made(s: ElfSym): Sym
    requires IsUsable(s)
  {
    Sym(s.name.value, s.value, s.size, 0)
  }

  lemma UsableKept(syms: seq<ElfSym>, s: Sym)
    ensures s in Usable(syms) <==> exists i: nat :: i < |syms| && IsUsable(syms[i]) && Made(syms[i]) == s
  {
    var idx := UsableInOrder(syms);
    PickedIff(syms, KeepsSym(), SymOf(), idx, Usable(syms), s);
    forall i: nat | i < |syms| ensures KeepsSym()(syms[i], i) <==> IsUsable(syms[i]) {}
    forall i: nat | i < |syms| && IsUsable(syms[i]) ensures SymOf()(syms[i]) == Made(syms[i]) {}
  }

  lemma MatchKept(syms: seq<ElfSym>, func: CStr, sym: ElfSym)
    requires FirstMatch(syms, func, sym) && IsUsable(sym)
    ensures Made(sym) in Usable(syms)
  {
    UsableKept(syms, Made(sym));
  }

  /** Every usable symbol at `v` is the function `func`, non-empty and within the address space. */
  ghost predicate OnlyFunctionAt(syms: seq<ElfSym>, v: U64, func: CStr) {
    forall i :: 0 <= i < |syms| && IsUsable(syms[i]) && syms[i].value == v ==>
      syms[i].name == Some(func) && syms[i].size > 0 && v + syms[i].size < TWO64
  }

  /** In the sorted table of the file, the search for the address of the function finds the function. */
  lemma SymbolFoundAgain(syms: seq<ElfSym>, func: CStr, sym: ElfSym, t: seq<Sym>, i: int)
    requires FirstMatch(syms, func, sym) && IsUsable(sym) && OnlyFunctionAt(syms, sym.value, func)
    requires IsSorted(t) && multiset(t) == multiset(Usable(syms)) && IsLast(t, sym.value, i)
    ensures i >= 0 && Contains(t[i], sym.value) && t[i].name == func && t[i].start == sym.value
  {
    var s := Made(sym);
    MatchKept(syms, func, sym);
    SameElements(t, Usable(syms));
    assert s in t;
    var k :| 0 <= k < |t| && t[k] == s;
    StartsOrdered(t);
    assert k <= i;
    assert t[i].start == sym.value;
    assert t[i] in t;
    UsableKept(syms, t[i]);
  }

  /** The whole way round: take the first function symbol of that name, translate it to its file
      offset through the segment that covers it, find that offset in the running process, and
      symbolize the address: the file, the function and distance 0 come back. */
  lemma {:induction false} FunctionRoundTrip(f: File, syms: seq<ElfSym>, func: CStr, sym: ElfSym, p: Segment, ret: S64,
                                             info: string -> FileInfo, ms: seq<Line>, k: nat, a: U64,
                                             i: nat, j: nat, d: Dso, offset: U64, t: seq<Sym>, n: int)
    requires f.ftype == EtDyn && f.segments.Some? && syms == AllSymbols(f.sections)
    requires FirstMatch(syms, func, sym) && FirstSegment(f.segments.value, sym.value, p)
    requires ResultFor(f, Some(sym.value), ret)
    requires DisjointLines(ms) && k < |ms| && KindOf(info, ms[k].name).Dyn?
    requires a == Runtime(ms[k], ToU64(ret)) && Inside(RangeOf(ms[k]), a)
    requires Locates(DsosOf(info, ms), a, i, j) && d == DsosOf(info, ms)[i] && offset == OffsetIn(d, d.ranges[j], a)
    requires TextDelta(d) == SegmentDelta(p)
    requires IsUsable(sym) && OnlyFunctionAt(syms, sym.value, func)
    requires IsSorted(t) && multiset(t) == multiset(Usable(syms)) && IsLast(t, offset, n)
    ensures d.name == ms[k].name && offset == sym.value
    ensures n >= 0 && Contains(t[n], offset) && t[n].name == func && offset - t[n].start == 0
  {
    OffsetIsTranslation(f, sym.value, p, ret);
    DynRoundTrip(info, ms, k, p, sym.value, i, j);
    SymbolFoundAgain(syms, func, sym, t, n);
  }

  lemma OffsetIsTranslation(f: File, v: U64, p: Segment, ret: S64)
    requires f.ftype != EtOther && f.segments.Some?
    requires FirstSegment(f.segments.value, v, p) && ResultFor(f, Some(v), ret)
    ensures ToU64(ret) == Translate(p, v)
  {
    FirstSegmentUnique(f.segments.value, v, p, p);
    var q :| FirstSegment(f.segments.value, v, q) && ret == ToS64(Translate(q, v));
    FirstSegmentUnique(f.segments.value, v, p, q);
    SignedRoundTrip(Translate(p, v));
  }
}
