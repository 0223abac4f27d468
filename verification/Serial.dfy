/** 32-bit unsigned arithmetic and the serial-number comparison of the KCP engine.

    The C code keeps every sequence number and clock in an unsigned 32-bit integer
    and compares two of them by the sign of their 32-bit difference, which is the
    serial-number arithmetic of section 3.2 of RFC 1982. The engine is written once,
    over an `Arith`: `Wrapping` is what the C code does, `Unbounded` is the same
    engine on sequence numbers that never wrap. */
module Serial {

  const TWO31: int := 0x8000_0000
  const TWO32: int := 0x1_0000_0000

  /** Conversion to an unsigned 32-bit integer. */
  function U32(x: int): (r: nat) {
    x % TWO32
  }

  /** Conversion to a signed 32-bit integer (two's complement). */
  function I32(x: int): (r: int) {
    var u := U32(x);
    if u < TWO31 then u else u - TWO32
  }

  /** `_itimediff`. */
  function Diff(later: int, earlier: int): int {
    I32(later - earlier)
  }

  function Min(a: int, b: int): int { if a <= b then a else b }

  function Max(a: int, b: int): int { if a >= b then a else b }

  /** `_ibound_`: note that the upper bound wins over the lower one. */
  function Bound(lower: int, middle: int, upper: int): int {
    Min(Max(lower, middle), upper)
  }

  /** How sequence numbers are compared and advanced. */
  datatype Arith = Wrapping | Unbounded {
    function Cmp(a: int, b: int): int {
      if Wrapping? then Diff(a, b) else a - b
    }

    function Plus(a: nat, n: nat): nat {
      if Wrapping? then U32(a + n) else a + n
    }
  }

  /** The wrapped comparison is the true one exactly while the two numbers are
      less than 2^31 apart. */
  lemma DiffIsExact(a: int, b: int)
    ensures Diff(U32(a), U32(b)) == a - b <==> -TWO31 <= a - b < TWO31
  {
    U32Congruent(U32(a) - U32(b), a - b, b / TWO32 - a / TWO32);
    U32Small(a - b);
  }

  /** On numbers less than 2^31 apart the two arithmetics agree. */
  lemma CmpAgrees(a: int, b: int)
    requires -TWO31 <= a - b < TWO31
    ensures Wrapping.Cmp(U32(a), U32(b)) == Unbounded.Cmp(a, b)
  {
    DiffIsExact(a, b);
  }

  /** Two numbers less than 2^32 apart are equal exactly when their wrapped forms are. */
  lemma WrapInjective(a: int, b: int)
    requires -TWO32 < a - b < TWO32
    ensures U32(a) == U32(b) <==> a == b
  {
    if U32(a) == U32(b) {
      assert a - b == (a / TWO32 - b / TWO32) * TWO32;
    }
  }

  lemma PlusWraps(a: nat, n: nat)
    ensures Wrapping.Plus(U32(a), n) == U32(Unbounded.Plus(a, n))
  {
    U32Congruent(U32(a) + n, a + n, - (a / TWO32));
  }

  lemma SubWraps(a: nat, b: nat)
    ensures U32(U32(a) - U32(b)) == U32(a - b)
  {
    U32Congruent(U32(a) - U32(b), a - b, b / TWO32 - a / TWO32);
  }

  /** Adding a multiple of 2^32 changes nothing. */
  lemma U32Congruent(x: int, y: int, k: int)
    requires x == y + k * TWO32
    ensures U32(x) == U32(y)
  {
    var q := y / TWO32;
    assert x == (q + k) * TWO32 + U32(y);
    DivModUnique(x, q + k, U32(y));
  }

  lemma DivModUnique(x: int, q: int, r: int)
    requires x == q * TWO32 + r && 0 <= r < TWO32
    ensures x / TWO32 == q && x % TWO32 == r
  {
    var q', r' := x / TWO32, x % TWO32;
    assert (q - q') * TWO32 == r' - r;
  }

  lemma U32Small(x: int)
    ensures 0 <= x < TWO32 ==> U32(x) == x
    ensures -TWO32 <= x < 0 ==> U32(x) == x + TWO32
  {
    if 0 <= x < TWO32 { DivModUnique(x, 0, x); }
    if -TWO32 <= x < 0 { DivModUnique(x, -1, x + TWO32); }
  }

  lemma MulMono(a: int, b: int, m: int)
    requires a <= b && 0 <= m
    ensures a * m <= b * m
  {
    assert (b - a) * m >= 0;
    assert (b - a) * m == b * m - a * m;
  }
}
