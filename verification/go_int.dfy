/**
 * Go's fixed-width integer types and operators, written out over Dafny's
 * unbounded integers, with the facts about division the rest of the model needs.
 */
module GoInt {

  /** A Go `byte` (uint8). */
  type Byte = b: int | 0 <= b < 0x100

  /** A Go `uint32`. */
  type Uint32 = n: int | 0 <= n < 0x1_0000_0000

  /** A Go `int` on a 64-bit platform. */
  type Int64 = n: int | -0x8000_0000_0000_0000 <= n < 0x8000_0000_0000_0000

  /** Go's `uint32` arithmetic: every result is taken modulo 2^32. */
  function Wrap32(n: int): (r: Uint32)
    ensures 0 <= n < 0x1_0000_0000 ==> r == n
    ensures (n - r) % 0x1_0000_0000 == 0
  {
    n % 0x1_0000_0000
  }

  /** Go's `int` arithmetic: two's-complement wrap-around at 64 bits. */
  function Wrap64(n: int): (r: Int64)
    ensures -0x8000_0000_0000_0000 <= n < 0x8000_0000_0000_0000 ==> r == n
    ensures (n - r) % 0x1_0000_0000_0000_0000 == 0
  {
    (n + 0x8000_0000_0000_0000) % 0x1_0000_0000_0000_0000 - 0x8000_0000_0000_0000
  }

  function Abs(n: int): nat
  {
    if n < 0 then -n else n
  }

  /**
   * Go's integer `/`: the quotient truncated toward zero, so that the
   * remainder is smaller than the divisor and has the sign of the dividend.
   */
  function TruncDiv(a: int, b: int): (q: int)
    requires b != 0
    ensures Abs(q) * Abs(b) <= Abs(a) < (Abs(q) + 1) * Abs(b)
    ensures Abs(q) <= Abs(a)
    ensures (a < 0) == (b < 0) ==> q >= 0
    ensures (a < 0) != (b < 0) ==> q <= 0
  {
    TruncDivBounds(a, b);
    if (a < 0) == (b < 0) then Abs(a) / Abs(b) else -(Abs(a) / Abs(b))
  }

  lemma TruncDivBounds(a: int, b: int)
    requires b != 0
    ensures var m := Abs(a) / Abs(b);
            m * Abs(b) <= Abs(a) < (m + 1) * Abs(b) && m <= Abs(a) && Abs(m) == m && Abs(-m) == m
  {
    DivBounds(Abs(a), Abs(b));
  }

  /**
   * The quotient of naturals is at most the dividend, and brackets it between
   * two consecutive multiples of the divisor.
   */
  lemma DivBounds(a: nat, d: nat)
    requires d > 0
    ensures a / d <= a
    ensures (a / d) * d <= a < (a / d + 1) * d
  {
    DivAtMost(a, d);
    assert a == (a / d) * d + a % d;
  }

  /** A quotient of naturals never exceeds the dividend. */
  lemma DivAtMost(a: nat, d: nat)
    requires d > 0
    ensures a / d <= a
  {
    if a / d > a {
      MulAtLeast(a / d, d);
    }
  }

  lemma MulAtLeast(k: nat, d: nat)
    requires d > 0
    ensures k * d >= k
  {
  }

  /** Euclidean division is determined by the remainder's range. */
  lemma {:induction false} DivUnique(a: int, d: int, q: int, r: int)
    requires 0 < d && 0 <= r < d && a == q * d + r
    ensures a / d == q
  {
    var q', r' := a / d, a % d;
    assert a == q' * d + r' && 0 <= r' < d;
    assert (q - q') * d == r' - r;
    if q > q' {
      MulAtLeast(q - q' - 1, d);
    } else if q < q' {
      MulAtLeast(q' - q - 1, d);
    }
  }

  /** Dividing both operands by a common positive factor does not change a quotient. */
  lemma {:induction false} DivCancel(k: nat, m: nat, n: nat)
    requires k > 0 && n > 0
    ensures (k * m) / (k * n) == m / n
  {
    var q, r := m / n, m % n;
    assert k * m == q * (k * n) + k * r by {
      assert m == q * n + r;
    }
    assert k * r < k * n by {
      MulAtLeast(k, n - r);
      assert k * n - k * r == k * (n - r);
    }
    DivUnique(k * m, k * n, q, k * r);
  }

  /** Integer division is monotone in the dividend. */
  lemma {:induction false} DivMonotone(a: int, b: int, d: int)
    requires 0 < d && a <= b
    ensures a / d <= b / d
  {
    var qa, qb := a / d, b / d;
    assert a == qa * d + a % d && b == qb * d + b % d;
    if qa > qb {
      MulAtLeast(qa - qb - 1, d);
    }
  }

  /** Go's `/` on ints: a common positive factor cancels. */
  lemma {:induction false} TruncDivCancel(k: int, a: int, b: int)
    requires k > 0 && b != 0
    ensures TruncDiv(k * a, k * b) == TruncDiv(a, b)
  {
    assert Abs(k * a) == k * Abs(a) && Abs(k * b) == k * Abs(b);
    assert (k * a < 0) == (a < 0) && (k * b < 0) == (b < 0);
    DivCancel(k, Abs(a), Abs(b));
  }

  /** Go's `[]byte(s)` for an ASCII string: one byte per character, the character's code. */
  function Bytes(s: string): (bs: seq<Byte>)
    requires forall i :: 0 <= i < |s| ==> s[i] as int < 0x80
    ensures |bs| == |s|
    ensures forall i :: 0 <= i < |s| ==> bs[i] == s[i] as int
  {
    seq(|s|, i requires 0 <= i < |s| => s[i] as int)
  }
}
