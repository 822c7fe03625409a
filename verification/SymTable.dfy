/** The symbols of one DSO: loading, sorting, and the search for the symbol of an offset. */
module SymTable {
  import opened Words
  import opened CStrings
  import opened Sorting
  import opened Growth
  import opened Search
  import opened Selection
  import opened Elf
  import Ksyms

  datatype Sym = Sym(name: CStr, start: U64, size: U64, offset: U64)

  datatype DsoType = Exec | Dyn | PerfMap | Vdso | Unknown

  /** sym_cmp: by start, then by name. */
  predicate NotAfter(x: Sym, y: Sym) {
    Ksyms.NotAfter(Ksyms.Added(x.name, x.start), Ksyms.Added(y.name, y.start))
  }

  function SymLeq(): (Sym, Sym) -> bool {
    (x: Sym, y: Sym) => NotAfter(x, y)
  }

  lemma SymLeqIsTotal()
    ensures TotalPreorder(SymLeq())
  {
    forall x, y ensures SymLeq()(x, y) || SymLeq()(y, x) {
      Ksyms.NotAfterTotal(Ksyms.Added(x.name, x.start), Ksyms.Added(y.name, y.start));
    }
    forall x, y, z | SymLeq()(x, y) && SymLeq()(y, z) ensures SymLeq()(x, z) {
      Ksyms.NotAfterTransitive(Ksyms.Added(x.name, x.start), Ksyms.Added(y.name, y.start), Ksyms.Added(z.name, z.start));
    }
  }

  /** dso__add_syms keeps symbols with a non-empty name and a non-zero value. */
  predicate IsUsable(s: ElfSym) {
    s.name.Some? && s.name.value != [] && s.value != 0
  }

  function Usable(input: seq<ElfSym>): seq<Sym> {
    if input == [] then []
    else
      var s := input[|input| - 1];
      Usable(input[..|input| - 1]) + if IsUsable(s) then [Sym(s.name.value, s.value, s.size, 0)] else []
  }

  // ----- What the search finds

  /** The interval test in 64-bit unsigned arithmetic. */
  predicate Contains(s: Sym, q: U64) {
    s.start <= q < Add(s.start, s.size)
  }

  /** `i` is the last symbol that starts at or below `q`, -1 if all start above it. */
  ghost predicate IsLast(t: seq<Sym>, q: U64, i: int) {
    && -1 <= i < |t|
    && (i >= 0 ==> t[i].start <= q)
    && forall j :: i < j < |t| ==> t[j].start > q
  }

  ghost predicate IsSorted(t: seq<Sym>) {
    forall i, j :: 0 <= i < j < |t| ==> NotAfter(t[i], t[j])
  }

  /** The search for `q` succeeds: the last symbol starting at or below `q` contains it. */
  ghost predicate Finds(t: seq<Sym>, q: U64) {
    exists i :: 0 <= i && IsLast(t, q, i) && Contains(t[i], q)
  }

  ghost predicate SomeContains(t: seq<Sym>, q: U64) {
    exists k :: 0 <= k < |t| && Contains(t[k], q)
  }

  /** The end of a symbol as the code computes it, wrapped to 64 bits. */
  function End(s: Sym): U64 {
    Add(s.start, s.size)
  }

  /** The first offset at or above the start of the symbol that the symbol does not contain. */
  function Past(s: Sym): U64 {
    if End(s) > s.start then End(s) else s.start
  }

  /** Symbol `j` reaches as far as symbol `i`, or at least up to the next start. */
  predicate Reaches(t: seq<Sym>, i: nat, j: nat)
    requires i < |t| && j < |t|
  {
    Past(t[j]) >= End(t[i]) || (j + 1 < |t| && Past(t[j]) >= t[j + 1].start)
  }

  /** Where a symbol sticks out beyond the start of a later one, the later one reaches as far. */
  ghost predicate Shadowless(t: seq<Sym>) {
    forall i, j :: 0 <= i < j < |t| && End(t[i]) > t[j].start ==> Reaches(t, i, j)
  }

  /** The search misses no containing symbol, for any offset, exactly when the table is shadowless. */
  lemma {:induction false} CompleteIff(t: seq<Sym>)
    requires IsSorted(t)
    ensures (forall q: U64 :: SomeContains(t, q) ==> Finds(t, q)) <==> Shadowless(t)
  {
    if Shadowless(t) {
      forall q: U64 | SomeContains(t, q) ensures Finds(t, q) {
        ShadowlessFinds(t, q);
      }
    } else {
      var i, j :| 0 <= i < j < |t| && End(t[i]) > t[j].start && !Reaches(t, i, j);
      ShadowHides(t, i, j);
    }
  }

  lemma {:induction false} LastExists(t: seq<Sym>, q: U64) returns (i: int)
    requires IsSorted(t)
    ensures IsLast(t, q, i)
  {
    if t == [] {
      i := -1;
    } else if t[|t| - 1].start <= q {
      i := |t| - 1;
    } else {
      i := LastExists(t[..|t| - 1], q);
      assert forall j :: 0 <= j < |t| - 1 ==> t[..|t| - 1][j] == t[j];
    }
  }

  lemma ShadowlessFinds(t: seq<Sym>, q: U64)
    requires IsSorted(t) && Shadowless(t) && SomeContains(t, q)
    ensures Finds(t, q)
  {
    var k :| 0 <= k < |t| && Contains(t[k], q);
    var i := LastExists(t, q);
    StartsOrdered(t);
    LastReaches(t, q, k, i);
  }

  lemma LastReaches(t: seq<Sym>, q: U64, k: int, i: int)
    requires Shadowless(t) && 0 <= k < |t| && Contains(t[k], q) && IsLast(t, q, i)
    ensures 0 <= i && Contains(t[i], q)
  {
    assert k <= i;
    if k < i {
      assert End(t[k]) > t[i].start;
      assert Reaches(t, k, i);
    }
  }

  lemma StartsOrdered(t: seq<Sym>)
    requires IsSorted(t)
    ensures forall i, j :: 0 <= i < j < |t| ==> t[i].start <= t[j].start
  {
    forall i, j | 0 <= i < j < |t| ensures t[i].start <= t[j].start {
      assert NotAfter(t[i], t[j]);
    }
  }

  lemma OffsetKeepsOrder(t: seq<Sym>, i: nat, offset: U64)
    requires IsSorted(t) && i < |t|
    ensures IsSorted(t[i := t[i].(offset := offset)])
  {
    var t' := t[i := t[i].(offset := offset)];
    forall j, k | 0 <= j < k < |t'| ensures NotAfter(t'[j], t'[k]) {
      assert NotAfter(t[j], t[k]);
    }
  }

  lemma ShadowHides(t: seq<Sym>, i: int, j: int)
    requires IsSorted(t) && 0 <= i < j < |t|
    requires End(t[i]) > t[j].start && !Reaches(t, i, j)
    ensures exists q: U64 :: SomeContains(t, q) && !Finds(t, q)
  {
    var q := Past(t[j]);
    assert NotAfter(t[i], t[j]);
    assert Contains(t[i], q);
    forall l | j < l < |t| ensures t[l].start > q {
      if l > j + 1 {
        assert NotAfter(t[j + 1], t[l]);
      }
    }
    assert IsLast(t, q, j);
    assert SomeContains(t, q) && !Finds(t, q);
  }

  ghost predicate NoWrap(t: seq<Sym>) {
    forall i :: 0 <= i < |t| ==> t[i].start + t[i].size < TWO64
  }

  /** `s` starts last among those that start at or below `q`, with the last name in byte order there. */
  ghost predicate LastNamed(t: seq<Sym>, q: U64, s: Sym) {
    && (forall k :: 0 <= k < |t| && t[k].start <= q ==> t[k].start <= s.start)
    && (forall k :: 0 <= k < |t| && t[k].start == s.start ==> t[k].name == s.name || Before(t[k].name, s.name))
  }

  lemma LastIsLastNamed(t: seq<Sym>, q: U64, i: nat)
    requires IsSorted(t) && IsLast(t, q, i)
    ensures LastNamed(t, q, t[i])
  {
    StartsOrdered(t);
    forall k | 0 <= k < |t| && t[k].start == t[i].start ensures t[k].name == t[i].name || Before(t[k].name, t[i].name) {
      if k < i {
        assert NotAfter(t[k], t[i]);
        StrcmpAntisymmetric(t[k].name, t[i].name);
        StrcmpIsByteOrder(t[k].name, t[i].name);
      }
    }
  }

  // ----- The symbols that are kept

  function KeepsSym(): (ElfSym, nat) -> bool {
    (s: ElfSym, p: nat) => s.name.Some? && s.name.value != [] && s.value != 0
  }

  function SymOf(): ElfSym -> Sym {
    (s: ElfSym) => Sym(if s.name.Some? then s.name.value else [], s.value, s.size, 0)
  }

  /** The table receives the symbols with a non-empty name and a non-zero value, each once and in
      the order of the file, with start and size as they are and offset 0. */
  lemma {:induction false} UsableInOrder(input: seq<ElfSym>) returns (idx: seq<nat>)
    ensures Selects(input, KeepsSym(), idx) && Picks(input, SymOf(), idx, Usable(input))
  {
    if input == [] {
      idx := [];
    } else {
      var n := |input| - 1;
      var before := UsableInOrder(input[..n]);
      UsableNext(input);
      idx := PickedNext(input, KeepsSym(), SymOf(), before, Usable(input[..n]), Usable(input));
    }
  }

  lemma UsableNext(input: seq<ElfSym>)
    requires input != []
    ensures var n := |input| - 1;
      Usable(input) == if KeepsSym()(input[n], n) then Usable(input[..n]) + [SymOf()(input[n])] else Usable(input[..n])
  {
  }

  /** Non-empty intervals that do not overlap. */
  ghost predicate DisjointSyms(t: seq<Sym>) {
    && NoWrap(t)
    && (forall i :: 0 <= i < |t| ==> t[i].size > 0)
    && (forall i, j :: 0 <= i < j < |t| ==> End(t[i]) <= t[j].start || End(t[j]) <= t[i].start)
  }

  /** On disjoint symbols the search returns the one that contains the offset whenever there is one. */
  lemma {:induction false} DisjointFindsTheOne(t: seq<Sym>, q: U64, k: int, i: int)
    requires IsSorted(t) && DisjointSyms(t) && 0 <= k < |t| && Contains(t[k], q) && IsLast(t, q, i)
    ensures i == k
  {
    StartsOrdered(t);
  }

  /** An empty symbol inside a larger one hides the rest of it. */
  lemma EmptySymbolHides()
    ensures var t := [Sym([102], 16, 16, 0), Sym([103], 20, 0, 0)];
      IsSorted(t) && NoWrap(t) && Contains(t[0], 24) && !Finds(t, 24)
  {
    var t := [Sym([102], 16, 16, 0), Sym([103], 20, 0, 0)];
    assert IsLast(t, 24, 1);
  }

  // ----- The table

  class Table {
    const kind: DsoType
    var syms: array<Sym>        // of length 0: not loaded
    var symsSz: nat
    ghost var copied: nat       // elements that reallocations have copied

    constructor (kind: DsoType)
      ensures this.kind == kind && Valid() && syms.Length == 0 && fresh(syms)
    {
      this.kind := kind;
      syms, symsSz, copied := new Sym[0], 0, 0;
    }

    ghost predicate Valid()
      reads this
    {
      symsSz <= syms.Length && Buffer(syms.Length, symsSz, copied) == Singles(symsSz)
    }

    ghost function Syms(): seq<Sym>
      requires Valid()
      reads this, syms
    {
      syms[..symsSz]
    }

    /** Makes room for one more symbol. */
    method Reserve()
      requires symsSz <= syms.Length && (syms.Length == 0 || syms.Length >= 1024)
      modifies this`syms, this`copied
      ensures Buffer(syms.Length, symsSz + 1, copied) == Append(old(Buffer(syms.Length, symsSz, copied)), 1)
      ensures symsSz < syms.Length && (syms == old(syms) || fresh(syms))
      ensures syms[..symsSz] == old(syms[..symsSz])
    {
      var tmp := ReserveOne(syms, symsSz, Sym([], 0, 0, 0));
      copied := copied + if tmp.Length == syms.Length then 0 else syms.Length;
      syms := tmp;
    }

    method Put(x: Sym)
      requires symsSz < syms.Length
      modifies this`symsSz, syms
      ensures symsSz == old(symsSz) + 1 && syms[..symsSz] == old(syms[..symsSz]) + [x]
    {
      syms[symsSz] := x;
      symsSz := symsSz + 1;
    }

    /** dso__add_sym. */
    method AddSym(name: CStr, start: U64, size: U64)
      requires Valid()
      modifies this, syms
      ensures Valid() && (syms == old(syms) || fresh(syms))
      ensures Syms() == old(Syms()) + [Sym(name, start, size, 0)]
    {
      SinglesAmortised(symsSz);
      Reserve();
      Put(Sym(name, start, size, 0));
    }

    method AddSyms(input: seq<ElfSym>)
      requires Valid()
      modifies this, syms
      ensures Valid() && (syms == old(syms) || fresh(syms))
      ensures Syms() == old(Syms()) + Usable(input)
    {
      ghost var before := Syms();
      var i := 0;
      while i < |input|
        invariant i <= |input| && Valid() && (syms == old(syms) || fresh(syms))
        invariant Syms() == before + Usable(input[..i])
      {
        assert input[..i + 1][..i] == input[..i];
        var s := input[i];
        if s.name.Some? && s.name.value != [] && s.value != 0 {
          AddSym(s.name.value, s.value, s.size);
        }
        i := i + 1;
      }
      assert input[..i] == input;
    }

    /** dso__load_sym_table on a file whose symbol sections hold `image`, None if it cannot be read. */
    method LoadSymTable(image: Option<seq<ElfSym>>) returns (ok: bool)
      requires Valid() && symsSz == 0
      modifies this, syms
      ensures Valid() && (syms == old(syms) || fresh(syms))
      ensures ok <==> (kind.Exec? || kind.Dyn? || kind.Vdso?) && image.Some?
      ensures ok ==> multiset(Syms()) == multiset(Usable(image.value)) && IsSorted(Syms())
      ensures !ok ==> Syms() == []
      ensures Amortised(Buffer(syms.Length, symsSz, copied))
    {
      SinglesAmortised(symsSz);
      if kind.Unknown? || kind.PerfMap? || image.None? {
        return false;
      }
      AddSyms(image.value);
      SinglesAmortised(symsSz);
      assert Syms() == Usable(image.value);
      SymLeqIsTotal();
      Qsort(syms, symsSz, SymLeq());
      ghost var t := Syms();
      forall i, j | 0 <= i < j < |t| ensures NotAfter(t[i], t[j]) {
        assert SymLeq()(t[i], t[j]);
      }
      return true;
    }

    /** The search of dso__find_sym on a sorted table; it writes the found symbol's offset field. */
    method Search(offset: U64) returns (i: int)
      requires Valid() && IsSorted(Syms())
      modifies syms
      ensures -1 <= i < symsSz && IsSorted(Syms())
      ensures i >= 0 <==> Finds(old(Syms()), offset)
      ensures i >= 0 ==> IsLast(old(Syms()), offset, i) && Contains(old(Syms()[i]), offset)
      ensures Syms() == if i < 0 then old(Syms()) else old(Syms())[i := old(Syms()[i]).(offset := offset - old(Syms()[i]).start)]
    {
      ghost var t := Syms();
      forall j, k | 0 <= j < k < symsSz ensures syms[j].start <= syms[k].start {
        assert NotAfter(t[j], t[k]);
      }
      i := FloorIndex(syms, symsSz, (s: Sym) => s.start, offset);
      assert IsLast(t, offset, i);
      if i >= 0 && offset < Add(syms[i].start, syms[i].size) {
        syms[i] := syms[i].(offset := offset - syms[i].start);
        assert Syms() == t[i := syms[i]];
        OffsetKeepsOrder(t, i, offset - t[i].start);
        return;
      }
      return -1;
    }

    /** dso__find_sym: loads the symbols on first use; `t` is the table that is searched. */
    method FindSym(offset: U64, image: Option<seq<ElfSym>>) returns (i: int, ghost t: seq<Sym>)
      requires Valid() && IsSorted(Syms())
      modifies this, syms
      ensures Valid() && IsSorted(Syms()) && (syms == old(syms) || fresh(syms))
      ensures old(syms.Length) > 0 ==> t == old(Syms())
      ensures old(syms.Length) == 0 ==>
        if kind.Unknown? || kind.PerfMap? || image.None? then t == [] && i == -1
        else IsSorted(t) && multiset(t) == multiset(Usable(image.value))
      ensures -1 <= i < |t| && (i >= 0 <==> Finds(t, offset))
      ensures i >= 0 ==> IsLast(t, offset, i) && t[i].start <= offset < Add(t[i].start, t[i].size)
      ensures i >= 0 ==> LastNamed(t, offset, t[i])
      ensures i < 0 ==> forall j :: 0 <= j && IsLast(t, offset, j) ==> offset >= Add(t[j].start, t[j].size)
      ensures Syms() == if i < 0 then t else t[i := t[i].(offset := offset - t[i].start)]
    {
      var ok := EnsureLoaded(image);
      t := Syms();
      if !ok {
        return -1, t;
      }
      i := Search(offset);
      if i >= 0 {
        LastIsLastNamed(t, offset, i);
      }
    }

    /** Loads the symbols unless that was done; `ok` is false when it fails. */
    method EnsureLoaded(image: Option<seq<ElfSym>>) returns (ok: bool)
      requires Valid() && IsSorted(Syms())
      modifies this, syms
      ensures Valid() && IsSorted(Syms()) && (syms == old(syms) || fresh(syms))
      ensures old(syms.Length) > 0 ==> ok && Syms() == old(Syms())
      ensures old(syms.Length) == 0 ==> (ok <==> (kind.Exec? || kind.Dyn? || kind.Vdso?) && image.Some?)
      ensures old(syms.Length) == 0 && ok ==> multiset(Syms()) == multiset(Usable(image.value))
      ensures !ok ==> Syms() == []
    {
      ok := true;
      if syms.Length == 0 {
        ok := LoadSymTable(image);
      }
    }
  }
}
