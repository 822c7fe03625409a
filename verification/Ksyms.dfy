/** The kernel symbol table: names packed in a growing arena as offsets, turned into pointers
    when loading ends, then sorted by address and searched. */
module Ksyms {
  import opened Words
  import opened CStrings
  import opened Sorting
  import opened Growth
  import opened Search

  const INT_MAX: int := 0x7FFF_FFFF

  /** `name` is an offset into the arena while loading, and a pointer afterwards. */
  datatype KSym = KSym(name: U64, addr: U64)

  /** A symbol as it was added. */
  datatype Added = Added(name: CStr, addr: U64)

  // ----- The order of ksym_cmp

  predicate NotAfter(x: Added, y: Added) {
    if x.addr == y.addr then Strcmp(x.name, y.name) <= 0 else x.addr < y.addr
  }

  lemma NotAfterTotal(x: Added, y: Added)
    ensures NotAfter(x, y) || NotAfter(y, x)
    ensures NotAfter(x, y) && NotAfter(y, x) ==> x == y
  {
    StrcmpAntisymmetric(x.name, y.name);
  }

  lemma NotAfterTransitive(x: Added, y: Added, z: Added)
    requires NotAfter(x, y) && NotAfter(y, z)
    ensures NotAfter(x, z)
  {
    if x.addr == y.addr == z.addr {
      StrcmpTransitive(x.name, y.name, z.name);
    }
  }

  /** What a loaded symbol stands for, its name read through the pointer. */
  function EntryOf(arena: seq<Byte>, base: U64): KSym -> Added {
    (k: KSym) => Added(StringAt(arena, Sub(k.name, base)), k.addr)
  }

  function SymLeq(arena: seq<Byte>, base: U64): (KSym, KSym) -> bool {
    (x: KSym, y: KSym) => NotAfter(EntryOf(arena, base)(x), EntryOf(arena, base)(y))
  }

  lemma SymLeqIsTotal(arena: seq<Byte>, base: U64)
    ensures TotalPreorder(SymLeq(arena, base))
  {
    var leq, entry := SymLeq(arena, base), EntryOf(arena, base);
    forall x, y ensures leq(x, y) || leq(y, x) {
      NotAfterTotal(entry(x), entry(y));
    }
    forall x, y, z | leq(x, y) && leq(y, z) ensures leq(x, z) {
      NotAfterTransitive(entry(x), entry(y), entry(z));
    }
  }

  // ----- The floor of an address

  /** `r` is the greatest added pair at or below the address, None if there is none. */
  ghost predicate IsFloor(added: seq<Added>, addr: U64, r: Option<Added>) {
    if r.None? then forall e :: e in added ==> e.addr > addr
    else r.value in added && r.value.addr <= addr && forall e :: e in added && e.addr <= addr ==> NotAfter(e, r.value)
  }

  /** `r` has the greatest address not above `addr` and, at that address, the last name in byte order. */
  ghost predicate LastNamed(added: seq<Added>, addr: U64, r: Added) {
    && r in added && r.addr <= addr
    && (forall e :: e in added && e.addr <= addr ==> e.addr <= r.addr)
    && (forall e :: e in added && e.addr == r.addr ==> e.name == r.name || Before(e.name, r.name))
  }

  lemma FloorIsLastNamed(added: seq<Added>, addr: U64, r: Added)
    requires IsFloor(added, addr, Some(r))
    ensures LastNamed(added, addr, r)
  {
    forall e | e in added && e.addr == r.addr ensures e.name == r.name || Before(e.name, r.name) {
      assert NotAfter(e, r);
      StrcmpAntisymmetric(e.name, r.name);
      StrcmpIsByteOrder(e.name, r.name);
    }
  }

  /** The same by a linear scan. */
  function LinearFloor(added: seq<Added>, addr: U64): Option<Added> {
    if added == [] then None
    else
      var best, e := LinearFloor(added[..|added| - 1], addr), added[|added| - 1];
      if e.addr <= addr && (best.None? || NotAfter(best.value, e)) then Some(e) else best
  }

  lemma {:induction false} LinearFloorIsFloor(added: seq<Added>, addr: U64)
    ensures IsFloor(added, addr, LinearFloor(added, addr))
  {
    if added != [] {
      var front, e := added[..|added| - 1], added[|added| - 1];
      LinearFloorIsFloor(front, addr);
      var best, r := LinearFloor(front, addr), LinearFloor(added, addr);
      forall x | x in added && x.addr <= addr ensures r.Some? && NotAfter(x, r.value) {
        NotAfterTotal(x, e);
        if x in front {
          assert best.Some? && NotAfter(x, best.value);
          NotAfterTotal(best.value, e);
          if r == Some(e) {
            NotAfterTransitive(x, best.value, e);
          }
        } else {
          assert x == e;
          if best.Some? {
            NotAfterTotal(best.value, e);
          }
        }
      }
    }
  }

  /** The floor is unique, so any search that finds one agrees with the linear scan. */
  lemma FloorIsLinear(added: seq<Added>, addr: U64, r: Option<Added>)
    ensures IsFloor(added, addr, r) <==> r == LinearFloor(added, addr)
  {
    LinearFloorIsFloor(added, addr);
    var best := LinearFloor(added, addr);
    if IsFloor(added, addr, r) && r.Some? && best.Some? {
      NotAfterTotal(r.value, best.value);
    }
  }

  // ----- The table

  /** The arena after the names, each with its terminator. */
  function NamesBuffer(added: seq<Added>): Buffer {
    if added == [] then EMPTY else Append(NamesBuffer(added[..|added| - 1]), |added[|added| - 1].name| + 1)
  }

  function NameLens(added: seq<Added>): seq<nat> {
    Map((e: Added) => |e.name| + 1, added)
  }

  /** Sizes and capacities are C ints, and a capacity is multiplied by four when it grows. */
  predicate FitsInt(b: Buffer, b': Buffer) {
    b'.used <= INT_MAX && b'.cap <= INT_MAX && (b'.cap != b.cap ==> b.cap * 4 <= INT_MAX)
  }

  /** Adding the pair overflows no C int. */
  predicate CanAdd(added: seq<Added>, e: Added) {
    && FitsInt(NamesBuffer(added), NamesBuffer(added + [e]))
    && FitsInt(Singles(|added|), Singles(|added| + 1))
  }

  ghost predicate NeverOverflows(input: seq<Added>) {
    forall n: nat :: n < |input| ==> CanAddAt(input, n)
  }

  predicate CanAddAt(input: seq<Added>, n: nat)
    requires n < |input|
  {
    CanAdd(input[..n], input[n])
  }

  lemma CanAddNth(input: seq<Added>, n: nat, before: seq<Added>, e: Added)
    requires n < |input| && NeverOverflows(input) && before == input[..n] && e == input[n]
    ensures CanAdd(before, e)
  {
    assert CanAddAt(input, n);
  }

  lemma PrefixNext(input: seq<Added>, n: nat)
    requires n < |input|
    ensures input[..n] + [input[n]] == input[..n + 1]
  {
  }

  /** How one pair moves the two buffers. */
  lemma NextBuffers(added: seq<Added>, e: Added)
    ensures NamesBuffer(added + [e]) == Append(NamesBuffer(added), |e.name| + 1)
    ensures Singles(|added| + 1) == Append(Singles(|added|), 1)
  {
    assert (added + [e])[..|added|] == added;
  }

  lemma CanAddFits(added: seq<Added>, e: Added)
    requires CanAdd(added, e)
    ensures NamesBuffer(added).used + |e.name| + 1 <= INT_MAX
  {
    assert (added + [e])[..|added|] == added;
  }

  /** The arena after the names of `added` is what appends of their lengths give. */
  lemma {:induction false} NamesAreAppends(added: seq<Added>)
    ensures NamesBuffer(added) == AppendAll(NameLens(added))
  {
    if added != [] {
      var front, last := added[..|added| - 1], added[|added| - 1];
      NamesAreAppends(front);
      assert NameLens(added) == NameLens(front) + [|last.name| + 1];
      AppendAllSnoc(NameLens(front), |last.name| + 1);
    }
  }

  /** Each symbol holds the address of its pair and the offset of its name. */
  predicate Stored(syms: seq<KSym>, arena: seq<Byte>, used: nat, added: seq<Added>) {
    && |syms| == |added|
    && forall i :: 0 <= i < |syms| ==> StoredNth(arena, used, syms, added, i)
  }

  predicate StoredNth(arena: seq<Byte>, used: nat, syms: seq<KSym>, added: seq<Added>, i: int)
    requires 0 <= i < |syms| == |added|
  {
    syms[i].addr == added[i].addr && StoredAt(arena, used, syms[i].name, added[i].name)
  }

  lemma StoredMoves(syms: seq<KSym>, arena: seq<Byte>, used: nat, arena': seq<Byte>, used': nat, added: seq<Added>)
    requires Stored(syms, arena, used, added)
    requires used <= used' <= |arena'| && used <= |arena| && arena'[..used] == arena[..used]
    ensures Stored(syms, arena', used', added)
  {
    forall i | 0 <= i < |syms| ensures StoredNth(arena', used', syms, added, i) {
      assert StoredNth(arena, used, syms, added, i);
      StoredStays(arena, used, arena', used', syms[i].name, added[i].name);
    }
  }

  lemma StoredNext(syms: seq<KSym>, arena: seq<Byte>, used: nat, added: seq<Added>, k: KSym, e: Added)
    requires Stored(syms, arena, used, added)
    requires k.addr == e.addr && StoredAt(arena, used, k.name, e.name)
    ensures Stored(syms + [k], arena, used, added + [e])
  {
    forall i | 0 <= i <= |syms| ensures StoredNth(arena, used, syms + [k], added + [e], i) {
      assert i < |syms| ==> StoredNth(arena, used, syms, added, i);
    }
  }

  /** Turning its offset into a pointer makes a symbol stand for its pair. */
  lemma FixedName(arena: seq<Byte>, used: nat, base: U64, k: KSym, e: Added)
    requires k.addr == e.addr && StoredAt(arena, used, k.name, e.name)
    ensures EntryOf(arena, base)(KSym(Wrap(k.name + base), k.addr)) == e
  {
    PointerToOffset(k.name, base);
    StoredIsRead(arena, used, k.name, e.name);
  }

  lemma PointerToOffset(off: U64, base: U64)
    ensures Sub(Wrap(off + base), base) == off
  {
  }

  class Table {
    var syms: array<KSym>
    var symsSz: nat
    var strs: array<Byte>
    var strsSz: nat
    var base: U64                 // address of the block `strs`
    ghost var added: seq<Added>
    ghost var symsCopied: nat
    ghost var strsCopied: nat

    constructor ()
      ensures Building() && added == [] && fresh(syms) && fresh(strs)
    {
      syms, symsSz, symsCopied := new KSym[0], 0, 0;
      strs, strsSz, strsCopied := new Byte[0], 0, 0;
      base := 0;
      added := [];
    }

    ghost predicate Sized()
      reads this
    {
      && symsSz == |added| && symsSz <= syms.Length && strsSz <= strs.Length
      && HasBuffers(added)
    }

    /** The buffers are what appending the names and symbols of `pairs` gives. */
    ghost predicate HasBuffers(pairs: seq<Added>)
      reads this
    {
      && Buffer(syms.Length, symsSz, symsCopied) == Singles(|pairs|)
      && Buffer(strs.Length, strsSz, strsCopied) == NamesBuffer(pairs)
    }

    /** While loading, every symbol holds its address and the offset of its name. */
    ghost predicate Building()
      reads this, syms, strs
    {
      Sized() && Stored(syms[..symsSz], strs[..], strsSz, added)
    }

    /** After loading, the symbols are the added ones, sorted. */
    ghost predicate Loaded()
      reads this, syms, strs
    {
      && symsSz <= syms.Length
      && multiset(Map(EntryOf(strs[..], base), syms[..symsSz])) == multiset(added)
      && SortedBy(syms[..symsSz], SymLeq(strs[..], base))
    }

    /** Makes room for `len` more bytes; the block moves to `newBase` when it is reallocated. */
    method ReserveStrs(len: nat, newBase: U64)
      requires strsSz <= strs.Length
      modifies this`strs, this`base, this`strsCopied
      ensures Buffer(strs.Length, strsSz + len, strsCopied) == Append(old(Buffer(strs.Length, strsSz, strsCopied)), len)
      ensures strs == old(strs) || fresh(strs)
      ensures strsSz + len <= strs.Length && strs[..][..strsSz] == old(strs[..])[..strsSz]
    {
      if strsSz + len > strs.Length {
        var newCap := strs.Length * 4 / 3;
        if newCap < strsSz + len {
          newCap := strsSz + len;
        }
        if newCap < 1024 {
          newCap := 1024;
        }
        var tmp := new Byte[newCap];
        forall i | 0 <= i < strs.Length {
          tmp[i] := strs[i];
        }
        strsCopied := strsCopied + strs.Length;
        strs, base := tmp, newBase;
      }
    }

    method ReserveSyms()
      requires symsSz <= syms.Length && (syms.Length == 0 || syms.Length >= 1024)
      modifies this`syms, this`symsCopied
      ensures Buffer(syms.Length, symsSz + 1, symsCopied) == Append(old(Buffer(syms.Length, symsSz, symsCopied)), 1)
      ensures syms == old(syms) || fresh(syms)
      ensures symsSz + 1 <= syms.Length && syms[..symsSz] == old(syms[..symsSz])
    {
      var tmp := ReserveOne(syms, symsSz, KSym(0, 0));
      symsCopied := symsCopied + if tmp.Length == syms.Length then 0 else syms.Length;
      syms := tmp;
    }

    method CopyName(name: CStr)
      requires strsSz + |name| + 1 <= strs.Length
      modifies strs
      ensures strs[..strsSz] == old(strs[..strsSz])
      ensures StoredAt(strs[..], strsSz + |name| + 1, strsSz, name)
    {
      forall i | 0 <= i < |name| {
        strs[strsSz + i] := name[i];
      }
      strs[strsSz + |name|] := 0;
      assert strs[..][strsSz..strsSz + |name|] == name;
    }

    /** Grows both buffers as needed; what is stored stays stored. */
    method Reserve(len: nat, newBase: U64)
      requires symsSz <= syms.Length && strsSz <= strs.Length && (syms.Length == 0 || syms.Length >= 1024)
      requires Stored(syms[..symsSz], strs[..], strsSz, added)
      modifies this`strs, this`base, this`strsCopied, this`syms, this`symsCopied
      ensures symsSz + 1 <= syms.Length && strsSz + len <= strs.Length
      ensures Buffer(syms.Length, symsSz + 1, symsCopied) == Append(old(Buffer(syms.Length, symsSz, symsCopied)), 1)
      ensures Buffer(strs.Length, strsSz + len, strsCopied) == Append(old(Buffer(strs.Length, strsSz, strsCopied)), len)
      ensures Stored(syms[..symsSz], strs[..], strsSz, added)
      ensures (syms == old(syms) || fresh(syms)) && (strs == old(strs) || fresh(strs))
    {
      ReserveStrs(len, newBase);
      ReserveSyms();
      StoredMoves(syms[..symsSz], old(strs[..]), strsSz, strs[..], strsSz, added);
    }

    /** ksyms__add_symbol. */
    method AddSymbol(e: Added, newBase: U64)
      requires Building() && CanAdd(added, e)
      modifies this, syms, strs
      ensures Building() && added == old(added) + [e]
      ensures (syms == old(syms) || fresh(syms)) && (strs == old(strs) || fresh(strs))
    {
      CanAddFits(added, e);
      StoreSymbol(e, newBase);
    }

    method StoreSymbol(e: Added, newBase: U64)
      requires Building() && strsSz + |e.name| + 1 <= INT_MAX
      modifies this, syms, strs
      ensures Building() && added == old(added) + [e]
      ensures (syms == old(syms) || fresh(syms)) && (strs == old(strs) || fresh(strs))
    {
      NextBuffers(added, e);
      SinglesAmortised(|added|);
      StoreAs(e, newBase, Singles(|added| + 1), NamesBuffer(added + [e]));
    }

    /** Stores one pair; the buffers become those given. */
    method StoreAs(e: Added, newBase: U64, ghost symsBuffer: Buffer, ghost strsBuffer: Buffer)
      requires symsSz <= syms.Length && strsSz <= strs.Length && (syms.Length == 0 || syms.Length >= 1024)
      requires Stored(syms[..symsSz], strs[..], strsSz, added) && strsSz + |e.name| + 1 <= INT_MAX
      requires symsBuffer == Append(Buffer(syms.Length, symsSz, symsCopied), 1)
      requires strsBuffer == Append(Buffer(strs.Length, strsSz, strsCopied), |e.name| + 1)
      modifies this, syms, strs
      ensures symsSz <= syms.Length && strsSz <= strs.Length && added == old(added) + [e] && symsSz == old(symsSz) + 1
      ensures Stored(syms[..symsSz], strs[..], strsSz, added)
      ensures Buffer(syms.Length, symsSz, symsCopied) == symsBuffer && Buffer(strs.Length, strsSz, strsCopied) == strsBuffer
      ensures (syms == old(syms) || fresh(syms)) && (strs == old(strs) || fresh(strs))
    {
      Reserve(|e.name| + 1, newBase);
      FillSymbol(e.name, e.addr);
    }

    method FillSymbol(name: CStr, addr: U64)
      requires symsSz + 1 <= syms.Length && strsSz + |name| + 1 <= strs.Length && strsSz + |name| + 1 < TWO64
      requires Stored(syms[..symsSz], strs[..], strsSz, added)
      modifies this`symsSz, this`strsSz, this`added, syms, strs
      ensures symsSz == old(symsSz) + 1 && strsSz == old(strsSz) + |name| + 1 && added == old(added) + [Added(name, addr)]
      ensures symsSz <= syms.Length && strsSz <= strs.Length
      ensures Stored(syms[..symsSz], strs[..], strsSz, added)
    {
      var k := KSym(strsSz, addr);
      ghost var before, arena := syms[..symsSz], strs[..];
      syms[symsSz] := k;
      CopyName(name);
      assert strs[..][..strsSz] == arena[..strsSz];
      StoredMoves(before, arena, strsSz, strs[..], strsSz + |name| + 1, added);
      StoredNext(before, strs[..], strsSz + |name| + 1, added, k, Added(name, addr));
      assert syms[..symsSz + 1] == before + [k];
      strsSz := strsSz + |name| + 1;
      symsSz := symsSz + 1;
      added := added + [Added(name, addr)];
    }

    /** Turns the offsets into pointers. */
    method FixNames()
      requires symsSz <= syms.Length && Stored(syms[..symsSz], strs[..], strsSz, added)
      modifies syms
      ensures Map(EntryOf(strs[..], base), syms[..symsSz]) == added
    {
      ghost var before, arena := syms[..symsSz], strs[..];
      for i := 0 to symsSz
        invariant strs[..] == arena
        invariant forall j :: i <= j < symsSz ==> syms[j] == before[j]
        invariant forall j :: 0 <= j < i ==> EntryOf(arena, base)(syms[j]) == added[j]
      {
        assert StoredNth(arena, strsSz, before, added, i);
        FixedName(arena, strsSz, base, before[i], added[i]);
        syms[i] := KSym(Wrap(syms[i].name + base), syms[i].addr);
      }
    }

    method SortSyms()
      requires symsSz <= syms.Length
      requires Map(EntryOf(strs[..], base), syms[..symsSz]) == added
      modifies syms
      ensures Loaded()
    {
      SymLeqIsTotal(strs[..], base);
      ghost var before := syms[..symsSz];
      Qsort(syms, symsSz, SymLeq(strs[..], base));
      PermutedImage(EntryOf(strs[..], base), syms[..symsSz], before);
    }

    method AddNth(input: seq<Added>, n: nat, newBase: U64)
      requires Building() && n < |input| && added == input[..n] && NeverOverflows(input)
      modifies this, syms, strs
      ensures Building() && added == input[..n + 1]
      ensures (syms == old(syms) || fresh(syms)) && (strs == old(strs) || fresh(strs))
    {
      CanAddNth(input, n, added, input[n]);
      PrefixNext(input, n);
      AddSymbol(input[n], newBase);
    }

    method AddAll(input: seq<Added>, bases: nat -> U64)
      requires Building() && added == [] && NeverOverflows(input)
      modifies this, syms, strs
      ensures Building() && added == input
      ensures (syms == old(syms) || fresh(syms)) && (strs == old(strs) || fresh(strs))
    {
      for i := 0 to |input|
        invariant Building() && added == input[..i]
        invariant (syms == old(syms) || fresh(syms)) && (strs == old(strs) || fresh(strs))
      {
        AddNth(input, i, bases(i));
      }
      assert input[..|input|] == input;
    }

    /** The in-memory part of ksyms__load: the symbols read, one after the other, with the
        address each reallocation of the arena would return. */
    method Load(input: seq<Added>, bases: nat -> U64)
      requires Building() && added == [] && NeverOverflows(input)
      modifies this, syms, strs
      ensures Loaded() && added == input
      ensures Amortised(Buffer(syms.Length, symsSz, symsCopied)) && Amortised(Buffer(strs.Length, strsSz, strsCopied))
    {
      AddAll(input, bases);
      SinglesAmortised(|added|);
      NamesAreAppends(added);
      AlwaysAmortised(NameLens(added));
      FixNames();
      SortSyms();
    }

    /** ksyms__map_addr: the index of the symbol at or below the address, -1 for NULL. */
    method MapAddr(addr: U64) returns (i: int)
      requires Loaded()
      ensures -1 <= i < symsSz
      ensures IsFloor(added, addr, if i == -1 then None else Some(EntryOf(strs[..], base)(syms[i])))
      ensures i == -1 ==> forall e :: e in added ==> e.addr > addr
      ensures i >= 0 ==> LastNamed(added, addr, EntryOf(strs[..], base)(syms[i]))
    {
      ghost var entry, s := EntryOf(strs[..], base), syms[..symsSz];
      forall j, k | 0 <= j < k < symsSz ensures syms[j].addr <= syms[k].addr {
        assert SymLeq(strs[..], base)(s[j], s[k]);
      }
      i := FloorIndex(syms, symsSz, (k: KSym) => k.addr, addr);
      SameElements(Map(entry, s), added);
      FloorOfSorted(s, i, addr);
      if i >= 0 {
        FloorIsLastNamed(added, addr, entry(syms[i]));
      }
    }

    /** In the sorted table the last symbol at or below the address is the greatest such pair. */
    lemma FloorOfSorted(s: seq<KSym>, i: int, addr: U64)
      requires SortedBy(s, SymLeq(strs[..], base)) && -1 <= i < |s|
      requires forall e :: e in Map(EntryOf(strs[..], base), s) <==> e in added
      requires forall j :: 0 <= j <= i ==> s[j].addr <= addr
      requires forall j :: i < j < |s| ==> s[j].addr > addr
      ensures IsFloor(added, addr, if i == -1 then None else Some(EntryOf(strs[..], base)(s[i])))
    {
      var entry := EntryOf(strs[..], base);
      var es := Map(entry, s);
      forall e | e in added && e.addr <= addr ensures i != -1 && NotAfter(e, entry(s[i])) {
        var j :| 0 <= j < |s| && es[j] == e;
        if j < i {
          assert SymLeq(strs[..], base)(s[j], s[i]);
        } else {
          NotAfterTotal(e, e);
        }
      }
      if i >= 0 {
        assert es[i] in es;
      }
    }
  }
}
