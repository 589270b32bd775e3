// Coefficient reconstruction: `get_sign` and the two dequantisers of
// codec/mpeg1dec.c (section 2.4.4 of ISO/IEC 11172-2).  Each coefficient
// is a function of its quantised value, the quantiser scale and the matrix
// entry; the methods run the loops of the C over the two arrays.

module Mpeg1Quant {
  import opened MmfUtil
  import opened CInt
  import opened Mpeg1Tables

  /** `get_sign`. */
  function Sign(i: int): (r: int)
    ensures r == 1 <==> i > 0
    ensures r == -1 <==> i < 0
    ensures r == 0 <==> i == 0
  {
    if i > 0 then 1 else if i < 0 then -1 else 0
  }

  /** The two tests that clamp a coefficient to [-2048, 2047]. */
  function Clamp2048(c: int): (r: int)
    ensures -2048 <= r <= 2047
    ensures -2048 <= c <= 2047 ==> r == c
    ensures c > 2047 ==> r == 2047
    ensures c < -2048 ==> r == -2048
  {
    if c > 2047 then 2047 else if c < -2048 then -2048 else c
  }

  /** `(coeff & 1) == 0`: a two's complement value is even. */
  predicate Even(c: int)
  {
    c % 2 == 0
  }

  /**
   * One intra coefficient: `2 * q * scale * m / 16` with C's truncating
   * division, moved toward zero by the sign of q when even, then clamped.
   */
  function IntraCoeff(q: int16, scale: int8, m: int8): (r: int16)
    ensures -2048 <= r <= 2047
    ensures Abs(2 * q * scale * m) < 16 ==> r == -Sign(q)
  {
    var c := TruncDiv(2 * q * scale * m, 16);
    var c' := if Even(c) then c - Sign(q) else c;
    Clamp2048(c')
  }

  /**
   * One non-intra coefficient: `(2 * q + sign(q)) * scale * m / 16`, made odd
   * by subtracting the sign when even, clamped, and 0 whenever q is 0.
   */
  function NonIntraCoeff(q: int16, scale: int8, m: int8): (r: int16)
    ensures -2048 <= r <= 2047
    ensures r == 0 <==> q == 0
  {
    var s := Sign(q);
    var c := TruncDiv((2 * q + s) * scale * m, 16);
    var c' := if Even(c) then c - s else c;
    if q == 0 then 0 else Clamp2048(c')
  }

  // ---------------------------------------------------------------------
  // Properties of the reconstruction
  // ---------------------------------------------------------------------

  function Abs(x: int): nat
  {
    if x < 0 then -x else x
  }

  lemma AbsMul(x: int, y: int)
    ensures Abs(x * y) == Abs(x) * Abs(y)
  {
    if x < 0 && y < 0 {
      assert x * y == (-x) * (-y);
    } else if x < 0 {
      assert x * y == -((-x) * y);
    } else if y < 0 {
      assert x * y == -(x * (-y));
    }
  }

  lemma MulMono(a: nat, b: nat, A: nat, B: nat)
    requires a <= A && b <= B
    ensures a * b <= A * B
  {
    assert a * b <= A * b;
    assert A * b <= A * B;
  }

  /** The products fit the `int` of the C: no intermediate overflows 32 bits. */
  lemma NoOverflow(q: int16, scale: int8, m: int8)
    ensures Abs(2 * q * scale * m) < 0x8000_0000
    ensures Abs((2 * q + Sign(q)) * scale * m) < 0x8000_0000
  {
    var a := 2 * (q as int);
    var b := a + Sign(q);
    AbsMul(a, scale);
    AbsMul(a * scale, m);
    AbsMul(b, scale);
    AbsMul(b * scale, m);
    MulMono(Abs(a), Abs(scale), 65537, 128);
    MulMono(Abs(a) * Abs(scale), Abs(m), 65537 * 128, 128);
    MulMono(Abs(b), Abs(scale), 65537, 128);
    MulMono(Abs(b) * Abs(scale), Abs(m), 65537 * 128, 128);
  }

  /**
   * Intra reconstruction makes every coefficient odd, except where the
   * clamp gives -2048, so only q = 0 gives 0, and it stays in [-2048, 2047].
   */
  lemma IntraOdd(q: int16, scale: int8, m: int8)
    ensures var r := IntraCoeff(q, scale, m);
      && -2048 <= r <= 2047
      && (r == 0 <==> q == 0)
      && (q != 0 ==> !Even(r) || r == -2048)
  {
    if q == 0 {
      assert 2 * q * scale * m == 0;
    }
  }

  /** The same for non-intra reconstruction, where q = 0 is forced to 0. */
  lemma NonIntraOdd(q: int16, scale: int8, m: int8)
    ensures var r := NonIntraCoeff(q, scale, m);
      && -2048 <= r <= 2047
      && (r == 0 <==> q == 0)
      && (q != 0 ==> !Even(r) || r == -2048)
  {
  }

  /**
   * With a positive scale and matrix entry, a coefficient whose product
   * reaches 16 keeps the sign of q; below that, the truncated product is 0
   * and the even-fix gives -sign(q) instead.
   */
  lemma IntraSign(q: int16, scale: int8, m: int8)
    requires scale > 0 && m > 0 && q != 0
    ensures var r := IntraCoeff(q, scale, m);
      && (Abs(2 * q * scale * m) >= 16 ==> Sign(r) == Sign(q))
      && (Abs(2 * q * scale * m) < 16 ==> r == -Sign(q))
  {
    var p := 2 * q * scale * m;
    if q > 0 {
      PositiveProduct(2 * q, scale, m);
    } else {
      PositiveProduct(-2 * q, scale, m);
      assert p == -((-2 * q) * scale * m);
    }
  }

  lemma PositiveProduct(a: int, b: int, c: int)
    requires a > 0 && b > 0 && c > 0
    ensures a * b * c > 0
  {
    assert a * b > 0;
  }

  /**
   * Away from the clamp, non-intra reconstruction is odd-symmetric: the
   * coefficient of -q is minus that of q.  (At the clamp it is not, since
   * the range [-2048, 2047] is not symmetric.)
   */
  lemma NonIntraSymmetric(q: int16, scale: int8, m: int8)
    requires q != -32768
    requires -2047 <= NonIntraCoeff(q, scale, m) < 2047
    ensures NonIntraCoeff((-q) as int16, scale, m) == -NonIntraCoeff(q, scale, m)
  {
    var n: int16 := (-q) as int16;
    var p := (2 * q + Sign(q)) * scale * m;
    assert (2 * n + Sign(n)) * scale * m == -p by {
      assert 2 * n + Sign(n) == -(2 * q + Sign(q));
      NegMul(2 * q + Sign(q), scale, m);
    }
    var c := TruncDiv(p, 16);
    TruncDivNeg(p, 16);
    EvenNeg(c);
  }

  lemma EvenNeg(c: int)
    ensures Even(-c) == Even(c)
  {
    if Even(c) {
      assert -c == 2 * (-(c / 2));
    } else {
      assert -c == 2 * (-(c / 2) - 1) + 1;
    }
  }

  lemma NegMul(a: int, b: int, c: int)
    ensures (-a) * b * c == -(a * b * c)
  {
  }

  /** C's division truncates toward zero, so it commutes with negation. */
  lemma TruncDivNeg(a: int, b: int)
    requires b > 0
    ensures TruncDiv(-a, b) == -TruncDiv(a, b)
  {
  }

  // ---------------------------------------------------------------------
  // The loops over the block
  // ---------------------------------------------------------------------

  /**
   * `mpg1_dequantize_intra`: the loops visit every coefficient through the
   * zig-zag table; then the DC coefficient is overwritten with `in[0] * 8`,
   * stored as an `int16_t`.
   */
  method DequantizeIntra(inp: array<int16>, out: array<int16>, qm: seq<int8>, scale: int8, zz: seq<int>)
      returns (rc: Rc)
    requires inp.Length == 64 && out.Length == 64 && inp != out
    requires |qm| == 64 && ZigzagOk(zz)
    modifies out
    ensures rc == Ok
    ensures out[0] == Wrap16(inp[0] as int * 8)
    ensures forall p | 1 <= p < 64 :: out[p] == IntraCoeff(inp[p], scale, qm[p])
  {
    var x := 0;
    while x < 8
      invariant 0 <= x <= 8
      invariant forall k | 0 <= k < 64 && k % 8 < x :: out[zz[k]] == IntraCoeff(inp[zz[k]], scale, qm[zz[k]])
    {
      var y := 0;
      while y < 8
        invariant 0 <= y <= 8
        invariant forall k | 0 <= k < 64 && (k % 8 < x || (k % 8 == x && k / 8 < y)) ::
          out[zz[k]] == IntraCoeff(inp[zz[k]], scale, qm[zz[k]])
      {
        var ind := y * 8 + x;
        DivUnique(ind, 8, y, x);
        var z := zz[ind];
        NoOverflow(inp[z], scale, qm[z]);
        var coeff: int := TruncDiv(2 * inp[z] * scale * qm[z], 16);
        if coeff % 2 == 0 {
          coeff := coeff - Sign(inp[z]);
        }
        if coeff > 2047 {
          coeff := 2047;
        }
        if coeff < -2048 {
          coeff := -2048;
        }
        assert coeff == IntraCoeff(inp[z], scale, qm[z]);
        out[z] := coeff;
        y := y + 1;
      }
      x := x + 1;
    }
    forall p | 0 <= p < 64
      ensures out[p] == IntraCoeff(inp[p], scale, qm[p])
    {
      assert p in zz;
      var k :| 0 <= k < 64 && zz[k] == p;
      assert k % 8 < x;
    }
    out[0] := Wrap16(inp[0] as int * 8);
    return Ok;
  }

  /** `mpg1_dequantize_non_intra`: every coefficient, index 0 included. */
  method DequantizeNonIntra(inp: array<int16>, out: array<int16>, qm: seq<int8>, scale: int8, zz: seq<int>)
      returns (rc: Rc)
    requires inp.Length == 64 && out.Length == 64 && inp != out
    requires |qm| == 64 && ZigzagOk(zz)
    modifies out
    ensures rc == Ok
    ensures forall p | 0 <= p < 64 :: out[p] == NonIntraCoeff(inp[p], scale, qm[p])
  {
    var i := 0;
    while i < 8
      invariant 0 <= i <= 8
      invariant forall k | 0 <= k < 64 && k % 8 < i :: out[zz[k]] == NonIntraCoeff(inp[zz[k]], scale, qm[zz[k]])
    {
      var j := 0;
      while j < 8
        invariant 0 <= j <= 8
        invariant forall k | 0 <= k < 64 && (k % 8 < i || (k % 8 == i && k / 8 < j)) ::
          out[zz[k]] == NonIntraCoeff(inp[zz[k]], scale, qm[zz[k]])
      {
        var ind := j * 8 + i;
        DivUnique(ind, 8, j, i);
        var z := zz[ind];
        NoOverflow(inp[z], scale, qm[z]);
        var sign := Sign(inp[z]);
        var coeff: int := TruncDiv((2 * inp[z] + sign) * scale * qm[z], 16);
        if coeff % 2 == 0 {
          coeff := coeff - sign;
        }
        if coeff > 2047 {
          coeff := 2047;
        }
        if coeff < -2048 {
          coeff := -2048;
        }
        if inp[z] == 0 {
          coeff := 0;
        }
        assert coeff == NonIntraCoeff(inp[z], scale, qm[z]);
        out[z] := coeff;
        j := j + 1;
      }
      i := i + 1;
    }
    forall p | 0 <= p < 64
      ensures out[p] == NonIntraCoeff(inp[p], scale, qm[p])
    {
      assert p in zz;
      var k :| 0 <= k < 64 && zz[k] == p;
      assert k % 8 < i;
    }
    return Ok;
  }
}
