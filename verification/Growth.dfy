/** The growable buffers: capacity, used part, and how many elements reallocation has copied. */
module Growth {
  datatype Buffer = Buffer(cap: nat, used: nat, copied: nat)

  const EMPTY: Buffer := Buffer(0, 0, 0)

  function Max(a: int, b: int): int {
    if a >= b then a else b
  }

  /** The capacity after making room for `need` elements: a third more, at least what is
      needed, at least 1024. */
  function Capacity(cap: nat, need: nat): nat {
    if need > cap then Max(Max(cap * 4 / 3, need), 1024) else cap
  }

  /** Appends `len` elements; a reallocation copies the old capacity. */
  function Append(b: Buffer, len: nat): Buffer {
    var cap := Capacity(b.cap, b.used + len);
    Buffer(cap, b.used + len, if cap == b.cap then b.copied else b.copied + b.cap)
  }

  function AppendAll(lens: seq<nat>): Buffer {
    if lens == [] then EMPTY else Append(AppendAll(lens[..|lens| - 1]), lens[|lens| - 1])
  }

  /** The amortised bounds: never more than a third of slack beyond 1024 elements, and all
      reallocations together copied at most four times the present capacity. */
  predicate Amortised(b: Buffer) {
    && b.used <= b.cap
    && (b.cap == 0 || b.cap >= 1024)
    && (b.cap <= 1024 || 3 * b.cap <= 4 * b.used)
    && b.copied <= 4 * b.cap
  }

  lemma AppendAmortised(b: Buffer, len: nat)
    requires Amortised(b)
    ensures Amortised(Append(b, len))
  {
  }

  /** The bounds hold after any sequence of appends. */
  lemma {:induction false} AlwaysAmortised(lens: seq<nat>)
    ensures Amortised(AppendAll(lens))
  {
    if lens != [] {
      AlwaysAmortised(lens[..|lens| - 1]);
      AppendAmortised(AppendAll(lens[..|lens| - 1]), lens[|lens| - 1]);
    }
  }

  lemma AppendAllSnoc(lens: seq<nat>, len: nat)
    ensures AppendAll(lens + [len]) == Append(AppendAll(lens), len)
  {
    assert (lens + [len])[..|lens|] == lens;
  }

  /** The buffer after `n` appends of one element each. */
  function Singles(n: nat): Buffer {
    if n == 0 then EMPTY else Append(Singles(n - 1), 1)
  }

  lemma {:induction false} SinglesAmortised(n: nat)
    ensures Amortised(Singles(n)) && Singles(n).used == n
  {
    if n > 0 {
      SinglesAmortised(n - 1);
      AppendAmortised(Singles(n - 1), 1);
    }
  }

  /** Makes room for one more element behind the first `used`, reallocating if the array is full. */
  method ReserveOne<T>(a: array<T>, used: nat, zero: T) returns (b: array<T>)
    requires used <= a.Length && (a.Length == 0 || a.Length >= 1024)
    ensures b == a || fresh(b)
    ensures used < b.Length == Capacity(a.Length, used + 1)
    ensures b[..used] == old(a[..used])
  {
    b := a;
    if used + 1 > a.Length {
      var newCap := a.Length * 4 / 3;
      if newCap < 1024 {
        newCap := 1024;
      }
      b := new T[newCap](_ => zero);
      forall i | 0 <= i < a.Length {
        b[i] := a[i];
      }
    }
  }
}
