/** NUL-terminated strings, strcmp, and strings packed into one byte arena. */
module CStrings {
  import opened Words

  /** The bytes of a C string, without its terminator. */
  type CStr = s: seq<Byte> | 0 !in s

  /** The sign of strcmp. */
  function Strcmp(a: seq<Byte>, b: seq<Byte>): int {
    if a == [] then (if b == [] then 0 else -1)
    else if b == [] then 1
    else if a[0] != b[0] then (if a[0] < b[0] then -1 else 1)
    else Strcmp(a[1..], b[1..])
  }

  lemma {:induction false} StrcmpAntisymmetric(a: seq<Byte>, b: seq<Byte>)
    ensures Strcmp(a, b) == -Strcmp(b, a)
    ensures Strcmp(a, b) == 0 <==> a == b
  {
    if a != [] && b != [] && a[0] == b[0] {
      StrcmpAntisymmetric(a[1..], b[1..]);
      assert a == [a[0]] + a[1..] && b == [b[0]] + b[1..];
    }
  }

  lemma {:induction false} StrcmpTransitive(a: seq<Byte>, b: seq<Byte>, c: seq<Byte>)
    requires Strcmp(a, b) <= 0 && Strcmp(b, c) <= 0
    ensures Strcmp(a, c) <= 0
  {
    if a != [] && b != [] && c != [] && a[0] == b[0] == c[0] {
      StrcmpTransitive(a[1..], b[1..], c[1..]);
    }
  }

  /** The order of dictionaries, byte by byte: a proper prefix, or smaller at the first difference. */
  ghost predicate Before(a: seq<Byte>, b: seq<Byte>) {
    a < b || exists n: nat :: DiffersAt(a, b, n) && a[n] < b[n]
  }

  ghost predicate DiffersAt(a: seq<Byte>, b: seq<Byte>, n: nat) {
    n < |a| && n < |b| && a[..n] == b[..n] && a[n] != b[n]
  }

  lemma DiffersLater(a: seq<Byte>, b: seq<Byte>, n: nat)
    requires a != [] && b != [] && a[0] == b[0]
    ensures DiffersAt(a[1..], b[1..], n) <==> DiffersAt(a, b, n + 1)
  {
    if n < |a| - 1 && n < |b| - 1 {
      assert a[..n + 1] == [a[0]] + a[1..][..n] && b[..n + 1] == [b[0]] + b[1..][..n];
      assert a[1..][..n] == a[..n + 1][1..] && b[1..][..n] == b[..n + 1][1..];
    }
  }

  lemma BeforeLater(a: seq<Byte>, b: seq<Byte>)
    requires a != [] && b != [] && a[0] == b[0]
    ensures Before(a, b) <==> Before(a[1..], b[1..])
  {
    assert a == [a[0]] + a[1..] && b == [b[0]] + b[1..];
    if n: nat :| DiffersAt(a, b, n) && a[n] < b[n] {
      DiffersLater(a, b, n - 1);
    }
    if n: nat :| DiffersAt(a[1..], b[1..], n) && a[1..][n] < b[1..][n] {
      DiffersLater(a, b, n);
    }
  }

  /** strcmp is negative exactly when the first string comes first in that order. */
  lemma {:induction false} StrcmpIsByteOrder(a: seq<Byte>, b: seq<Byte>)
    ensures Strcmp(a, b) < 0 <==> Before(a, b)
  {
    if a != [] && b != [] {
      if a[0] == b[0] {
        StrcmpIsByteOrder(a[1..], b[1..]);
        BeforeLater(a, b);
      } else {
        assert DiffersAt(a, b, 0);
        assert forall n: nat :: DiffersAt(a, b, n) && n > 0 ==> a[..n][0] == a[0] && b[..n][0] == b[0];
      }
    }
  }

  /** The string that starts at `off`. */
  function StringAt(arena: seq<Byte>, off: nat): CStr
    decreases |arena| - off
  {
    if off >= |arena| || arena[off] == 0 then [] else [arena[off]] + StringAt(arena, off + 1)
  }

  /** `name` and its terminator lie at `off`, within the first `used` bytes. */
  predicate StoredAt(arena: seq<Byte>, used: nat, off: nat, name: CStr) {
    && off + |name| < used <= |arena|
    && arena[off..off + |name|] == name
    && arena[off + |name|] == 0
  }

  lemma {:induction false} StoredIsRead(arena: seq<Byte>, used: nat, off: nat, name: CStr)
    requires StoredAt(arena, used, off, name)
    ensures StringAt(arena, off) == name
    decreases |name|
  {
    if name != [] {
      assert name[0] == arena[off..off + |name|][0] == arena[off];
      var rest: CStr := name[1..];
      assert arena[off + 1..off + 1 + |rest|] == rest;
      StoredIsRead(arena, used, off + 1, rest);
      assert name == [name[0]] + rest;
    }
  }

  /** Strings stay put when the arena is extended or reallocated with its used part kept. */
  lemma StoredStays(arena: seq<Byte>, used: nat, arena': seq<Byte>, used': nat, off: nat, name: CStr)
    requires StoredAt(arena, used, off, name)
    requires used <= used' <= |arena'| && arena'[..used] == arena[..used]
    ensures StoredAt(arena', used', off, name)
  {
    assert forall i :: off <= i <= off + |name| ==> arena'[i] == arena'[..used][i] == arena[i];
    assert arena'[off..off + |name|] == arena[off..off + |name|];
  }
}
