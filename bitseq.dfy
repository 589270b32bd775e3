// The bit-level view of a byte buffer that the bit reader walks: bits are
// numbered from the most significant bit of the first byte.

module BitSeq {
  import opened MmfUtil
  import opened CInt

  /** The n low bits of v, most significant first. */
  function Digits(v: nat, n: nat): (bs: seq<bool>)
    ensures |bs| == n
  {
    if n == 0 then [] else Digits(v / 2, n - 1) + [v % 2 == 1]
  }

  /** The eight bits of a byte, most significant first. */
  function ByteBits(x: byte): (bs: seq<bool>)
    ensures |bs| == 8
  {
    Digits(x, 8)
  }

  /** The buffer as a sequence of bits, byte after byte. */
  function BitView(data: seq<byte>): (bs: seq<bool>)
    ensures |bs| == |data| * 8
  {
    seq(|data| * 8, i requires 0 <= i < |data| * 8 => ByteBits(data[i / 8])[i % 8])
  }

  /** The unsigned number a sequence of bits spells, most significant first. */
  function Val(bs: seq<bool>): nat
  {
    if |bs| == 0 then 0 else 2 * Val(bs[..|bs| - 1]) + (if bs[|bs| - 1] then 1 else 0)
  }

  /** The n bits from bit `start` on, read most significant first. */
  function Bits(data: seq<byte>, start: nat, n: nat): nat
    requires start + n <= |data| * 8
  {
    Val(BitView(data)[start..start + n])
  }

  /** n bits spell a number below 2^n. */
  lemma {:induction false} ValBound(bs: seq<bool>)
    ensures Val(bs) < Pow2(|bs|)
    decreases |bs|
  {
    if |bs| > 0 {
      ValBound(bs[..|bs| - 1]);
    }
  }

  lemma BitsBound(data: seq<byte>, start: nat, n: nat)
    requires start + n <= |data| * 8
    ensures Bits(data, start, n) < Pow2(n)
  {
    ValBound(BitView(data)[start..start + n]);
  }

  /** The number of x ++ y is that of x shifted left past y, plus that of y. */
  lemma {:induction false} ValSplit(x: seq<bool>, y: seq<bool>)
    ensures Val(x + y) == Shl(Val(x), |y|) + Val(y)
    decreases |y|
  {
    if |y| > 0 {
      var y1 := y[..|y| - 1];
      assert (x + y)[..|x + y| - 1] == x + y1;
      assert (x + y)[|x + y| - 1] == y[|y| - 1];
      ValSplit(x, y1);
      assert Shl(Val(x), |y|) == 2 * Shl(Val(x), |y1|);
    } else {
      assert x + y == x;
    }
  }

  /** Reading a+b bits is reading a bits, then b bits, and concatenating. */
  lemma BitsSplit(data: seq<byte>, start: nat, a: nat, b: nat)
    requires start + a + b <= |data| * 8
    ensures Bits(data, start, a + b) == Shl(Bits(data, start, a), b) + Bits(data, start + a, b)
  {
    var v := BitView(data);
    assert v[start..start + a + b] == v[start..start + a] + v[start + a..start + a + b];
    ValSplit(v[start..start + a], v[start + a..start + a + b]);
  }

  /** The bit view of a concatenation is the concatenation of the views. */
  lemma ViewAppend(a: seq<byte>, b: seq<byte>)
    ensures BitView(a + b) == BitView(a) + BitView(b)
  {
    var v, w := BitView(a + b), BitView(a) + BitView(b);
    forall i | 0 <= i < |v|
      ensures v[i] == w[i]
    {
      var q, r := i / 8, i % 8;
      if q >= |a| {
        DivUnique(i - |a| * 8, 8, q - |a|, r);
      }
    }
  }

  /** Appending bytes does not change bits that were already there. */
  lemma BitsAppend(data: seq<byte>, more: seq<byte>, start: nat, n: nat)
    requires start + n <= |data| * 8
    ensures Bits(data + more, start, n) == Bits(data, start, n)
  {
    ViewAppend(data, more);
    assert BitView(data + more)[start..start + n] == BitView(data)[start..start + n];
  }

  /** The n low bits of v spell `v & ((1 << n) - 1)`. */
  lemma {:induction false} ValDigits(v: nat, n: nat)
    ensures Val(Digits(v, n)) == LowBits(v, n)
    decreases n
  {
    if n > 0 {
      ValDigits(v / 2, n - 1);
      var d := Digits(v, n);
      assert d[..n - 1] == Digits(v / 2, n - 1);
    }
  }

  /** Shifting right by a, then by b, is shifting right by a + b. */
  lemma {:induction false} ShrShr(v: nat, a: nat, b: nat)
    ensures Shr(Shr(v, a), b) == Shr(v, a + b)
    decreases b
  {
    if b > 0 {
      ShrShr(v, a, b - 1);
    }
  }

  /** The a + b low bits of v are its next a bits above b, then its b low bits. */
  lemma {:induction false} DigitsSplit(v: nat, a: nat, b: nat)
    ensures Digits(v, a + b) == Digits(Shr(v, b), a) + Digits(v, b)
    decreases b
  {
    if b > 0 {
      DigitsSplit(v / 2, a, b - 1);
      ShrShr(v, 1, b - 1);
      assert Shr(v, 1) == v / 2;
      assert Digits(v, a + b) == Digits(v / 2, a + (b - 1)) + [v % 2 == 1];
    } else {
      assert Digits(v, a + b) == Digits(v, a) + [];
    }
  }

  /** Byte q of the buffer occupies bits 8q to 8q + 8 of the view. */
  lemma ViewByte(data: seq<byte>, q: nat)
    requires q < |data|
    ensures BitView(data)[8 * q..8 * q + 8] == ByteBits(data[q])
  {
    var v := BitView(data)[8 * q..8 * q + 8];
    forall j | 0 <= j < 8
      ensures v[j] == ByteBits(data[q])[j]
    {
      DivUnique(8 * q + j, 8, q, j);
    }
  }

  /** Bits inside one byte of the view are bits of that byte. */
  lemma ViewInByte(data: seq<byte>, q: nat, off: nat, k: nat)
    requires q < |data| && off + k <= 8
    ensures 8 * q + off + k <= |data| * 8
    ensures BitView(data)[8 * q + off..8 * q + off + k] == ByteBits(data[q])[off..off + k]
  {
    ViewByte(data, q);
    SliceOfSlice(BitView(data), ByteBits(data[q]), 8 * q, 8 * q + 8, off, k);
  }

  /** A slice of a slice of s is a slice of s. */
  lemma SliceOfSlice(s: seq<bool>, t: seq<bool>, a: nat, b: nat, c: nat, len: nat)
    requires a <= b <= |s| && c + len <= b - a && s[a..b] == t
    ensures t[c..c + len] == s[a + c..a + c + len]
  {
    var y := s[a + c..a + c + len];
    assert |t[c..c + len]| == |y|;
    forall j | 0 <= j < len
      ensures t[c..c + len][j] == y[j]
    {
      assert t[c..c + len][j] == s[a..b][c + j] == s[a + c + j];
    }
  }

  /**
   * k bits of a byte from offset `off` are the C expression
   * `(x >> (8 - off - k)) & ((1 << k) - 1)`.
   */
  lemma ValInByte(x: byte, off: nat, k: nat)
    requires off + k <= 8
    ensures Val(ByteBits(x)[off..off + k]) == LowBits(Shr(x, 8 - off - k), k)
  {
    var L := 8 - off - k;
    assert ByteBits(x) == Digits(x, off + k + L);
    DigitsMiddle(x, off, k, L);
  }

  /** Bits off to off + k of the off + k + L low bits of v, as a number. */
  lemma DigitsMiddle(v: nat, off: nat, k: nat, L: nat)
    ensures Val(Digits(v, off + k + L)[off..off + k]) == LowBits(Shr(v, L), k)
  {
    var hi, mid, lo := Digits(Shr(v, k + L), off), Digits(Shr(v, L), k), Digits(v, L);
    assert Digits(v, off + k + L) == hi + (mid + lo) by {
      DigitsSplit(v, off, k + L);
      DigitsSplit(v, k, L);
    }
    MiddleSlice(hi, mid, lo);
    ValDigits(Shr(v, L), k);
  }

  lemma MiddleSlice(hi: seq<bool>, mid: seq<bool>, lo: seq<bool>)
    ensures (hi + (mid + lo))[|hi|..|hi| + |mid|] == mid
  {
    assert (hi + (mid + lo))[|hi|..] == mid + lo;
  }

  /**
   * Within one byte, reading k bits at bit offset p is the C expression
   * `(byte >> (8 - p % 8 - k)) & ((1 << k) - 1)`.
   */
  lemma BitsInByte(data: seq<byte>, p: nat, k: nat)
    requires p < |data| * 8 && p % 8 + k <= 8
    ensures p + k <= |data| * 8
    ensures Bits(data, p, k) == LowBits(Shr(data[p / 8], 8 - p % 8 - k), k)
  {
    var q, off := p / 8, p % 8;
    assert p == 8 * q + off && q < |data|;
    ViewInByte(data, q, off, k);
    ValInByte(data[q], off, k);
  }

  /** Spelling out the number a bit sequence spells gives the sequence back. */
  lemma {:induction false} DigitsVal(bs: seq<bool>)
    ensures Digits(Val(bs), |bs|) == bs
    decreases |bs|
  {
    if |bs| > 0 {
      var init := bs[..|bs| - 1];
      DigitsVal(init);
      assert bs == init + [bs[|bs| - 1]];
    }
  }

  /** The k low bits of v are all that `Digits(v, k)` looks at. */
  lemma {:induction false} DigitsLow(v: nat, k: nat)
    ensures Digits(LowBits(v, k), k) == Digits(v, k)
    decreases k
  {
    if k > 0 {
      DigitsLow(v / 2, k - 1);
      var l := LowBits(v, k);
      assert l / 2 == LowBits(v / 2, k - 1) && l % 2 == v % 2;
    }
  }

  /**
   * For a value of k + 1 bits, its first digit is the bit `v >> k` and the
   * rest are the digits of `v & ((1 << k) - 1)`.
   */
  lemma DigitsTop(v: nat, k: nat)
    requires v < Pow2(k + 1)
    ensures Shr(v, k) < 2
    ensures Digits(v, k + 1) == [Shr(v, k) == 1] + Digits(LowBits(v, k), k)
  {
    ShrIsDiv(v, k);
    DivBelow(v, Pow2(k));
    DigitsSplit(v, 1, k);
    DigitsLow(v, k);
    var d := Shr(v, k);
    assert Digits(d, 1) == Digits(d / 2, 0) + [d % 2 == 1];
  }

  lemma DivBelow(v: nat, m: nat)
    requires m > 0 && v < 2 * m
    ensures v / m < 2
  {
  }
}
