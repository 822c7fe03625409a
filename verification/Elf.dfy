/** The parts of an ELF file that symbol lookup reads, as libelf delivers them, and the
    translation of a function name to its file offset. */
module Elf {
  import opened Words
  import opened CStrings

  datatype FileType = EtExec | EtDyn | EtOther

  /** A symbol; `name` is None when its string cannot be read. */
  datatype ElfSym = ElfSym(name: Option<CStr>, isFunc: bool, value: U64, size: U64)

  datatype SectionType = Symtab | Dynsym | OtherSection

  /** A section with its data blocks, each the symbols up to the first unreadable one. */
  datatype Section = Section(stype: SectionType, blocks: seq<seq<ElfSym>>)

  datatype Segment = Segment(load: bool, exec: bool, vaddr: U64, memsz: U64, offset: U64)

  /** None stands for a header that libelf fails to deliver. */
  datatype File = File(
    headerOk: bool,
    shstrndxOk: bool,
    ftype: FileType,
    sections: seq<Option<Section>>,
    segments: Option<seq<Option<Segment>>>)

  predicate IsSymbolSection(s: Option<Section>) {
    s.Some? && !s.value.stype.OtherSection?
  }

  predicate Matches(sym: ElfSym, func: CStr) {
    sym.isFunc && sym.name == Some(func)
  }

  /** The segment test in 64-bit unsigned arithmetic; the end may wrap around. */
  predicate Covers(p: Option<Segment>, v: U64) {
    p.Some? && p.value.load && p.value.exec && p.value.vaddr <= v < Add(p.value.vaddr, p.value.memsz)
  }

  function Translate(p: Segment, v: U64): U64 {
    Add(Sub(v, p.vaddr), p.offset)
  }

  // ----- What get_elf_func_offset computes

  function Flatten<T>(ss: seq<seq<T>>): seq<T> {
    if ss == [] then [] else Flatten(ss[..|ss| - 1]) + ss[|ss| - 1]
  }

  /** All symbols of the symbol sections, in file order. */
  function AllSymbols(sections: seq<Option<Section>>): seq<ElfSym> {
    if sections == [] then []
    else
      var s := sections[|sections| - 1];
      AllSymbols(sections[..|sections| - 1]) + if IsSymbolSection(s) then Flatten(s.value.blocks) else []
  }

  ghost predicate NoMatch(syms: seq<ElfSym>, func: CStr) {
    forall i :: 0 <= i < |syms| ==> !Matches(syms[i], func)
  }

  ghost predicate FirstMatch(syms: seq<ElfSym>, func: CStr, sym: ElfSym) {
    exists i :: 0 <= i < |syms| && syms[i] == sym && Matches(sym, func) && NoMatch(syms[..i], func)
  }

  ghost predicate NoSegment(ps: seq<Option<Segment>>, v: U64) {
    forall i :: 0 <= i < |ps| ==> !Covers(ps[i], v)
  }

  ghost predicate FirstSegment(ps: seq<Option<Segment>>, v: U64, p: Segment) {
    exists i :: 0 <= i < |ps| && ps[i] == Some(p) && Covers(ps[i], v) && NoSegment(ps[..i], v)
  }

  /** The result for a file whose symbol search ended with the address `v`, None for no symbol. */
  ghost predicate ResultFor(f: File, v: Option<U64>, ret: S64) {
    if f.ftype == EtOther then ret == if v.Some? then ToS64(v.value) else -1
    else if v.None? || f.segments.None? then ret == -1
    else
      || (NoSegment(f.segments.value, v.value) && ret == -1)
      || exists p :: FirstSegment(f.segments.value, v.value, p) && ret == ToS64(Translate(p, v.value))
  }

  lemma NoMatchAppend(a: seq<ElfSym>, b: seq<ElfSym>, func: CStr)
    ensures NoMatch(a + b, func) <==> NoMatch(a, func) && NoMatch(b, func)
  {
    if NoMatch(a + b, func) {
      forall i | 0 <= i < |a| ensures !Matches(a[i], func) { assert (a + b)[i] == a[i]; }
      forall i | 0 <= i < |b| ensures !Matches(b[i], func) { assert (a + b)[|a| + i] == b[i]; }
    }
  }

  lemma FirstMatchAppend(a: seq<ElfSym>, b: seq<ElfSym>, func: CStr, sym: ElfSym)
    ensures FirstMatch(a, func, sym) ==> FirstMatch(a + b, func, sym)
    ensures NoMatch(a, func) && FirstMatch(b, func, sym) ==> FirstMatch(a + b, func, sym)
  {
    if FirstMatch(a, func, sym) {
      var i :| 0 <= i < |a| && a[i] == sym && Matches(sym, func) && NoMatch(a[..i], func);
      assert (a + b)[i] == sym && (a + b)[..i] == a[..i];
    }
    if NoMatch(a, func) && FirstMatch(b, func, sym) {
      var i :| 0 <= i < |b| && b[i] == sym && Matches(sym, func) && NoMatch(b[..i], func);
      assert (a + b)[|a| + i] == sym && (a + b)[..|a| + i] == a + b[..i];
      NoMatchAppend(a, b[..i], func);
    }
  }

  /** A function symbol of that name, in a section of a symbol table or of dynamic symbols. */
  predicate NamedAt(sections: seq<Option<Section>>, func: CStr, i: nat, b: nat, k: nat) {
    && i < |sections| && sections[i].Some? && (sections[i].value.stype == Symtab || sections[i].value.stype == Dynsym)
    && NamedIn(sections[i].value.blocks, func, b, k)
  }

  predicate NamedIn(blocks: seq<seq<ElfSym>>, func: CStr, b: nat, k: nat) {
    b < |blocks| && k < |blocks[b]| && blocks[b][k].isFunc && blocks[b][k].name == Some(func)
  }

  /** It is the first one in the order of sections, blocks and symbols. */
  ghost predicate FirstNamedAt(sections: seq<Option<Section>>, func: CStr, i: nat, b: nat, k: nat) {
    && NamedAt(sections, func, i, b, k)
    && FirstNamedIn(sections[i].value.blocks, func, b, k)
    && forall i': nat, b': nat, k': nat :: i' < i ==> !NamedAt(sections, func, i', b', k')
  }

  ghost predicate FirstNamedIn(blocks: seq<seq<ElfSym>>, func: CStr, b: nat, k: nat) {
    && NamedIn(blocks, func, b, k)
    && forall b': nat, k': nat :: b' < b || (b' == b && k' < k) ==> !NamedIn(blocks, func, b', k')
  }

  /** Scans one block: the value of its first match. */
  method ScanBlock(block: seq<ElfSym>, func: CStr) returns (found: Option<ElfSym>)
    ensures found.None? ==> NoMatch(block, func)
    ensures found.Some? ==> FirstMatch(block, func, found.value)
  {
    for i := 0 to |block|
      invariant NoMatch(block[..i], func)
    {
      var sym := block[i];
      if sym.name.Some? && sym.isFunc && sym.name.value == func {
        return Some(sym);
      }
    }
    return None;
  }

  method ScanSection(s: Section, func: CStr) returns (found: Option<ElfSym>)
    ensures found.None? ==> forall b: nat, k: nat :: !NamedIn(s.blocks, func, b, k)
    ensures found.Some? ==> exists b: nat, k: nat :: FirstNamedIn(s.blocks, func, b, k) && s.blocks[b][k] == found.value
    ensures found.None? ==> NoMatch(Flatten(s.blocks), func)
    ensures found.Some? ==> FirstMatch(Flatten(s.blocks), func, found.value)
  {
    for i := 0 to |s.blocks|
      invariant NoMatch(Flatten(s.blocks[..i]), func)
      invariant forall b: nat, k: nat :: b < i ==> !NamedIn(s.blocks, func, b, k)
    {
      assert s.blocks[..i + 1][..i] == s.blocks[..i];
      found := ScanBlock(s.blocks[i], func);
      NoMatchAppend(Flatten(s.blocks[..i]), s.blocks[i], func);
      if found.Some? {
        FirstMatchAppend(Flatten(s.blocks[..i]), s.blocks[i], func, found.value);
        FlattenPrefix(s.blocks, i + 1, func, found.value);
        ghost var k :| 0 <= k < |s.blocks[i]| && s.blocks[i][k] == found.value && Matches(found.value, func)
          && NoMatch(s.blocks[i][..k], func);
        assert forall l :: 0 <= l < k ==> s.blocks[i][..k][l] == s.blocks[i][l];
        assert FirstNamedIn(s.blocks, func, i, k);
        return;
      }
    }
    assert s.blocks[..|s.blocks|] == s.blocks;
    return None;
  }

  lemma {:induction false} FlattenPrefix(ss: seq<seq<ElfSym>>, n: nat, func: CStr, sym: ElfSym)
    requires n <= |ss| && FirstMatch(Flatten(ss[..n]), func, sym)
    ensures FirstMatch(Flatten(ss), func, sym)
    decreases |ss|
  {
    if n == |ss| {
      assert ss[..n] == ss;
    } else {
      var m := |ss| - 1;
      assert ss[..m][..n] == ss[..n];
      FlattenPrefix(ss[..m], n, func, sym);
      FirstMatchAppend(Flatten(ss[..m]), ss[m], func, sym);
    }
  }

  lemma {:induction false} SymbolsPrefix(ss: seq<Option<Section>>, n: nat, func: CStr, sym: ElfSym)
    requires n <= |ss| && FirstMatch(AllSymbols(ss[..n]), func, sym)
    ensures FirstMatch(AllSymbols(ss), func, sym)
    decreases |ss|
  {
    if n == |ss| {
      assert ss[..n] == ss;
    } else {
      var m := |ss| - 1;
      assert ss[..m][..n] == ss[..n];
      SymbolsPrefix(ss[..m], n, func, sym);
      FirstMatchAppend(AllSymbols(ss[..m]), if IsSymbolSection(ss[m]) then Flatten(ss[m].value.blocks) else [], func, sym);
    }
  }

  /** The symbol scan over all sections. */
  method FindSymbol(sections: seq<Option<Section>>, func: CStr) returns (found: Option<ElfSym>)
    ensures found.None? ==> NoMatch(AllSymbols(sections), func)
    ensures found.Some? ==> FirstMatch(AllSymbols(sections), func, found.value)
    ensures found.None? ==> forall i: nat, b: nat, k: nat :: !NamedAt(sections, func, i, b, k)
    ensures found.Some? ==> exists i: nat, b: nat, k: nat ::
      FirstNamedAt(sections, func, i, b, k) && sections[i].value.blocks[b][k] == found.value
  {
    for i := 0 to |sections|
      invariant NoMatch(AllSymbols(sections[..i]), func)
      invariant forall i': nat, b: nat, k: nat :: i' < i ==> !NamedAt(sections, func, i', b, k)
    {
      assert sections[..i + 1][..i] == sections[..i];
      if !IsSymbolSection(sections[i]) {
        assert AllSymbols(sections[..i + 1]) == AllSymbols(sections[..i]);
        continue;
      }
      var here := sections[i].value;
      found := ScanSection(here, func);
      NoMatchAppend(AllSymbols(sections[..i]), Flatten(here.blocks), func);
      if found.Some? {
        FirstMatchAppend(AllSymbols(sections[..i]), Flatten(here.blocks), func, found.value);
        SymbolsPrefix(sections, i + 1, func, found.value);
        ghost var b: nat, k: nat :| FirstNamedIn(here.blocks, func, b, k) && here.blocks[b][k] == found.value;
        assert FirstNamedAt(sections, func, i, b, k);
        return;
      }
    }
    assert sections[..|sections|] == sections;
    return None;
  }

  /** From the start of the segment up to its end as the code computes it, in 64 bits. */
  predicate Within(p: Segment, v: U64) {
    p.vaddr <= v < (p.vaddr + p.memsz) % 0x1_0000_0000_0000_0000
  }

  lemma FoundThrough(ps: seq<Option<Segment>>, v: U64, n: nat)
    requires n < |ps| && ps[n].Some? && ps[n].value.load && ps[n].value.exec && Within(ps[n].value, v)
    requires forall m :: 0 <= m < n && ps[m].Some? && ps[m].value.load && ps[m].value.exec ==> !Within(ps[m].value, v)
    ensures ThroughFirst(ps, v, ToS64(Translate(ps[n].value, v)))
  {
    WrapCongruent(v - ps[n].value.vaddr, ps[n].value.offset);
  }

  /** The translation loop; `ret` is the signed variable that the C code compares as unsigned. */
  method ThroughSegments(ps: seq<Option<Segment>>, ret: S64) returns (r: S64)
    ensures || (NoSegment(ps, ToU64(ret)) && r == -1)
            || exists p :: FirstSegment(ps, ToU64(ret), p) && r == ToS64(Translate(p, ToU64(ret)))
    ensures ThroughFirst(ps, ToU64(ret), r)
  {
    var v := ToU64(ret);
    for i := 0 to |ps|
      invariant NoSegment(ps[..i], v)
      invariant forall m :: 0 <= m < i && ps[m].Some? && ps[m].value.load && ps[m].value.exec ==> !Within(ps[m].value, v)
    {
      if ps[i].None? {
        continue;
      }
      var p := ps[i].value;
      if !p.load || !p.exec {
        continue;
      }
      if p.vaddr <= v && v < Add(p.vaddr, p.memsz) {
        assert FirstSegment(ps, v, p);
        FoundThrough(ps, v, i);
        return ToS64(Add(Sub(v, p.vaddr), p.offset));
      }
    }
    return -1;
  }

  /** No segment covers the unsigned value of -1, so a missing symbol ends as -1. */
  lemma MissingSymbolIsNowhere(ps: seq<Option<Segment>>)
    ensures NoSegment(ps, ToU64(-1))
  {
  }

  /** The address the symbol scan ends with. */
  ghost predicate ScanResult(f: File, func: CStr, v: Option<U64>) {
    if v.None? then NoMatch(AllSymbols(f.sections), func)
    else exists sym :: FirstMatch(AllSymbols(f.sections), func, sym) && v == Some(sym.value)
  }

  method GetElfFuncOffset(f: File, func: CStr) returns (ret: S64)
    ensures !f.headerOk || !f.shstrndxOk ==> ret == -1
    ensures f.headerOk && f.shstrndxOk ==> exists v :: ScanResult(f, func, v) && ResultFor(f, v, ret)
    ensures (forall i: nat, b: nat, k: nat :: !NamedAt(f.sections, func, i, b, k)) ==> ret == -1
    ensures f.headerOk && f.shstrndxOk ==> forall i: nat, b: nat, k: nat :: FirstNamedAt(f.sections, func, i, b, k) ==>
      Ends(f, f.sections[i].value.blocks[b][k].value, ret)
  {
    ret := -1;
    if !f.headerOk {
      return;
    }
    if !f.shstrndxOk {
      return;
    }
    var sym := FindSymbol(f.sections, func);
    ghost var v := if sym.Some? then Some(sym.value.value) else None;
    if sym.Some? {
      ret := ToS64(sym.value.value);
      SignedRoundTrip(sym.value.value);
    }
    assert ScanResult(f, func, v);
    if f.ftype.EtExec? || f.ftype.EtDyn? {
      if f.segments.None? {
        assert ResultFor(f, v, -1);
        FirstNamedEnds(f, func, sym, -1);
        return -1;
      }
      MissingSymbolIsNowhere(f.segments.value);
      ret := ThroughSegments(f.segments.value, ret);
    }
    assert ResultFor(f, v, ret);
    FirstNamedEnds(f, func, sym, ret);
  }

  /** What becomes of the address of the symbol: translated through the first loaded executable segment
      around it in an executable or a shared object, -1 without one, unchanged in any other file. */
  ghost predicate Ends(f: File, v: U64, ret: S64) {
    if f.ftype == EtOther then ret == ToS64(v)
    else if f.segments.None? then ret == -1
    else ThroughFirst(f.segments.value, v, ret)
  }

  ghost predicate ThroughFirst(ps: seq<Option<Segment>>, v: U64, r: S64) {
    || (r == -1 && forall n :: 0 <= n < |ps| && ps[n].Some? && ps[n].value.load && ps[n].value.exec ==> !Within(ps[n].value, v))
    || exists n :: 0 <= n < |ps| && ps[n].Some? && ps[n].value.load && ps[n].value.exec && Within(ps[n].value, v)
         && (forall m :: 0 <= m < n && ps[m].Some? && ps[m].value.load && ps[m].value.exec ==> !Within(ps[m].value, v))
         && r == ToS64((v - ps[n].value.vaddr + ps[n].value.offset) % 0x1_0000_0000_0000_0000)
  }

  lemma FirstNamedUnique(sections: seq<Option<Section>>, func: CStr, i: nat, b: nat, k: nat, i': nat, b': nat, k': nat)
    requires FirstNamedAt(sections, func, i, b, k) && FirstNamedAt(sections, func, i', b', k')
    ensures i == i' && b == b' && k == k'
  {
    assert i < i' ==> !NamedAt(sections, func, i, b, k);
    assert i' < i ==> !NamedAt(sections, func, i', b', k');
  }

  /** Whatever holds of the end of the found symbol holds of that of the first named one. */
  lemma FirstNamedEnds(f: File, func: CStr, sym: Option<ElfSym>, ret: S64)
    requires sym.None? ==> forall i: nat, b: nat, k: nat :: !NamedAt(f.sections, func, i, b, k)
    requires sym.Some? ==> Ends(f, sym.value.value, ret)
    requires sym.Some? ==> exists i: nat, b: nat, k: nat ::
      FirstNamedAt(f.sections, func, i, b, k) && f.sections[i].value.blocks[b][k] == sym.value
    ensures forall i: nat, b: nat, k: nat :: FirstNamedAt(f.sections, func, i, b, k) ==>
      Ends(f, f.sections[i].value.blocks[b][k].value, ret)
  {
    if sym.Some? {
      var i: nat, b: nat, k: nat :| FirstNamedAt(f.sections, func, i, b, k) && f.sections[i].value.blocks[b][k] == sym.value;
      forall i': nat, b': nat, k': nat | FirstNamedAt(f.sections, func, i', b', k')
        ensures Ends(f, f.sections[i'].value.blocks[b'][k'].value, ret)
      {
        FirstNamedUnique(f.sections, func, i, b, k, i', b', k');
      }
    }
  }

  lemma FirstMatchUnique(syms: seq<ElfSym>, func: CStr, a: ElfSym, b: ElfSym)
    requires FirstMatch(syms, func, a) && FirstMatch(syms, func, b)
    ensures a == b
  {
    var i :| 0 <= i < |syms| && syms[i] == a && Matches(a, func) && NoMatch(syms[..i], func);
    var j :| 0 <= j < |syms| && syms[j] == b && Matches(b, func) && NoMatch(syms[..j], func);
    assert forall m, n :: 0 <= m < n < |syms| ==> syms[..n][m] == syms[m];
  }

  lemma FirstSegmentUnique(ps: seq<Option<Segment>>, v: U64, p: Segment, q: Segment)
    requires FirstSegment(ps, v, p) && FirstSegment(ps, v, q)
    ensures p == q && !NoSegment(ps, v)
  {
    var i :| 0 <= i < |ps| && ps[i] == Some(p) && Covers(ps[i], v) && NoSegment(ps[..i], v);
    var j :| 0 <= j < |ps| && ps[j] == Some(q) && Covers(ps[j], v) && NoSegment(ps[..j], v);
    assert forall m, n :: 0 <= m < n < |ps| ==> ps[..n][m] == ps[m];
  }

  /** The two specifications leave one possible answer. */
  lemma {:induction false} OffsetDetermined(f: File, func: CStr, v: Option<U64>, r: S64, v': Option<U64>, r': S64)
    requires ScanResult(f, func, v) && ResultFor(f, v, r)
    requires ScanResult(f, func, v') && ResultFor(f, v', r')
    ensures v == v' && r == r'
  {
    var syms := AllSymbols(f.sections);
    if v.Some? && v'.Some? {
      var a :| FirstMatch(syms, func, a) && v == Some(a.value);
      var b :| FirstMatch(syms, func, b) && v' == Some(b.value);
      FirstMatchUnique(syms, func, a, b);
    }
    if v == v' && v.Some? && f.ftype != EtOther && f.segments.Some? {
      if r != -1 || r' != -1 {
        forall p, q | FirstSegment(f.segments.value, v.value, p) && FirstSegment(f.segments.value, v.value, q)
          ensures p == q && !NoSegment(f.segments.value, v.value)
        {
          FirstSegmentUnique(f.segments.value, v.value, p, q);
        }
      }
    }
  }
}
