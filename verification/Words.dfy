/** Fixed-width machine integers of the C sources, as ranges of `int` with the wrap-around written out. */
module Words {
  const TWO64: int := 0x1_0000_0000_0000_0000
  const U64_MAX: int := 0xFFFF_FFFF_FFFF_FFFF

  type U64 = x: int | 0 <= x < 0x1_0000_0000_0000_0000
  type U32 = x: int | 0 <= x < 0x1_0000_0000
  type S32 = x: int | -0x8000_0000 <= x < 0x8000_0000
  type S64 = x: int | -0x8000_0000_0000_0000 <= x < 0x8000_0000_0000_0000
  type Byte = x: int | 0 <= x < 256

  datatype Option<+T> = None | Some(value: T)

  /** Reduction of a mathematical integer to 64 unsigned bits. */
  function Wrap(x: int): U64 {
    x % 0x1_0000_0000_0000_0000
  }

  function Add(a: U64, b: U64): U64 {
    Wrap(a + b)
  }

  function Sub(a: U64, b: U64): U64 {
    Wrap(a - b)
  }

  /** Conversion of a signed value to unsigned 64 bits (sign extension). */
  function ToU64(x: S64): U64 {
    Wrap(x)
  }

  /** Conversion of an unsigned 64-bit value to signed, as gcc and clang do it. */
  function ToS64(x: U64): S64 {
    if x < 0x8000_0000_0000_0000 then x else x - 0x1_0000_0000_0000_0000
  }

  lemma SignedRoundTrip(x: U64)
    ensures ToU64(ToS64(x)) == x
  {
  }

  lemma AddThenSub(x: U64, y: U64)
    ensures Sub(Add(x, y), x) == y
  {
  }

  lemma SubThenAdd(x: U64, y: U64)
    ensures Add(Sub(x, y), y) == x
  {
  }

  lemma WrapCongruent(x: int, y: int)
    ensures Wrap(Wrap(x) + y) == Wrap(x + y)
    ensures Wrap(x + Wrap(y)) == Wrap(x + y)
  {
  }

  /** Wrapping at every step of a sum is wrapping once. */
  lemma SumWraps(a: int, f: U64, b: int)
    ensures Add(Add(Wrap(a), f), Wrap(b)) == Wrap(a + f + b)
  {
    WrapCongruent(a, f);
    var s := a + f;
    WrapCongruent(s, Wrap(b));
    WrapCongruent(s, b);
  }
}
