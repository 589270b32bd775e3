// The C integer semantics the decoder relies on: fixed-width stores,
// truncating division, and powers of two for shifts.

module CInt {

  /** 2^n, the value of `1 << n`. */
  function Pow2(n: nat): (r: nat)
    ensures r >= 1
  {
    if n == 0 then 1 else 2 * Pow2(n - 1)
  }

  lemma {:induction false} Pow2Add(a: nat, b: nat)
    ensures Pow2(a + b) == Pow2(a) * Pow2(b)
  {
    if b > 0 {
      Pow2Add(a, b - 1);
      assert Pow2(a + b) == 2 * Pow2(a + b - 1);
    }
  }

  lemma {:induction false} Pow2Monotone(a: nat, b: nat)
    requires a <= b
    ensures Pow2(a) <= Pow2(b)
  {
    if a < b {
      Pow2Monotone(a, b - 1);
    }
  }

  /** `v << k` on an unbounded value. */
  function Shl(v: nat, k: nat): nat
  {
    if k == 0 then v else 2 * Shl(v, k - 1)
  }

  /** `v >> k`. */
  function Shr(v: nat, k: nat): nat
  {
    if k == 0 then v else Shr(v, k - 1) / 2
  }

  /** `v & ((1 << k) - 1)`: the k low bits of v. */
  function LowBits(v: nat, k: nat): (r: nat)
    ensures r < Pow2(k)
  {
    if k == 0 then 0 else 2 * LowBits(v / 2, k - 1) + v % 2
  }

  lemma {:induction false} ShlIsMul(v: nat, k: nat)
    ensures Shl(v, k) == v * Pow2(k)
  {
    if k > 0 {
      ShlIsMul(v, k - 1);
      MulAssoc2(v, Pow2(k - 1));
    }
  }

  lemma MulAssoc2(v: int, p: int)
    ensures 2 * (v * p) == v * (2 * p)
  {
  }

  lemma {:induction false} ShrIsDiv(v: nat, k: nat)
    ensures Shr(v, k) == v / Pow2(k)
  {
    if k > 0 {
      ShrIsDiv(v, k - 1);
      DivDivPow2(v, k - 1);
    }
  }

  lemma {:induction false} LowBitsIsMod(v: nat, k: nat)
    ensures LowBits(v, k) == v % Pow2(k)
  {
    if k > 0 {
      LowBitsIsMod(v / 2, k - 1);
      ModPow2Step(v, k - 1);
    }
  }

  lemma DivPos(x: nat, d: int)
    requires d > 0
    ensures x / d >= 0
  {
  }

  lemma DivUnique(x: int, d: int, q: int, r: int)
    requires d > 0 && x == d * q + r && 0 <= r < d
    ensures x / d == q && x % d == r
  {
    var q', r' := x / d, x % d;
    assert x == d * q' + r';
    MulSub(d, q, q');
    assert d * (q - q') == r' - r;
    if q != q' {
      MulAtLeast(d, q - q');
    }
  }

  lemma MulSub(d: int, a: int, b: int)
    ensures d * (a - b) == d * a - d * b
  {
  }

  lemma MulAtLeast(d: int, k: int)
    requires d > 0 && k != 0
    ensures d * k >= d || d * k <= -d
  {
  }

  /** Shifting right by L+1 is shifting by L, then by one. */
  lemma DivDivPow2(x: nat, L: nat)
    ensures x / Pow2(L + 1) == (x / Pow2(L)) / 2
  {
    var a := Pow2(L);
    var q := x / a;
    var r := x % a;
    var q2 := q / 2;
    var r2 := q % 2;
    assert x == a * q + r;
    assert q == 2 * q2 + r2;
    assert x == (2 * a) * q2 + (a * r2 + r);
    assert a * r2 <= a;
    DivUnique(x, 2 * a, q2, a * r2 + r);
  }

  lemma ModPow2Step(y: nat, k: nat)
    ensures y % Pow2(k + 1) == 2 * ((y / 2) % Pow2(k)) + y % 2
  {
    var m := Pow2(k);
    var h := y / 2;
    var q := h / m;
    var r := h % m;
    assert y == 2 * h + y % 2;
    assert h == m * q + r;
    assert y == (2 * m) * q + (2 * r + y % 2);
    DivUnique(y, 2 * m, q, 2 * r + y % 2);
  }

  /** The values of an `int8_t`. */
  type int8 = x: int | -128 <= x < 128

  /** The values of an `int16_t`. */
  type int16 = x: int | -32768 <= x < 32768

  /** The value an `int8_t` holds after a store of `x` (two's complement wrap). */
  function Wrap8(x: int): (r: int8)
    ensures (x - r) % 256 == 0
  {
    var m := x % 256;
    if m >= 128 then m - 256 else m
  }

  /** The value an `int16_t` holds after a store of `x`. */
  function Wrap16(x: int): (r: int16)
    ensures (x - r) % 65536 == 0
  {
    var m := x % 65536;
    if m >= 32768 then m - 65536 else m
  }

  /** A store of an in-range value leaves it unchanged. */
  lemma Wrap16InRange(x: int)
    requires -32768 <= x < 32768
    ensures Wrap16(x) == x
  {
  }

  lemma Wrap8InRange(x: int)
    requires -128 <= x < 128
    ensures Wrap8(x) == x
  {
  }

  /** C's `/` on a positive divisor: the quotient truncated toward zero. */
  function TruncDiv(a: int, b: int): (q: int)
    requires b > 0
    ensures a >= 0 ==> q >= 0 && q * b <= a < q * b + b
    ensures a < 0 ==> q <= 0 && q * b - b < a <= q * b
  {
    if a >= 0 then
      EuclidBounds(a, b);
      a / b
    else
      EuclidBounds(-a, b);
      -((-a) / b)
  }

  lemma EuclidBounds(a: nat, b: int)
    requires b > 0
    ensures a / b >= 0 && (a / b) * b <= a < (a / b) * b + b
  {
    var q, r := a / b, a % b;
    assert a == q * b + r;
  }
}
