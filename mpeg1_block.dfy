// One coded block of codec/mpeg1dec.c, `mpg1_read_coded_block` (section
// 2.4.3.7 of ISO/IEC 11172-2): the DC differential of an intra block, the
// coefficients, dequantisation, DC prediction in I pictures, the inverse
// DCT, and the clamped store of the 64 samples into the picture plane.

module Mpeg1Block {
  import opened MmfUtil
  import opened CInt
  import opened Bitstream
  import opened Vlc
  import opened Mpeg1Tables
  import opened Mpeg1Quant
  import opened Mpeg1Headers
  import opened Mpeg1Stream
  import opened Mpeg1Coeffs

  /** `MPEG1MacroblockMotionVector`: the motion codes as the prefix decoder stores them. */
  datatype MotionVector = MotionVector(horiz: byte, vert: byte)

  /**
   * `MPEG1MacroblockHeader`: the address increment, the quantiser scale,
   * the coded block pattern, the five flags of the macroblock type (each
   * set when its bit is) and the two motion vectors.
   */
  datatype MbHeader = MbHeader(
    addressIncrement: int8,
    quantScale: int8,
    codedBlockPattern: byte,
    quant: bool,
    motionForward: bool,
    motionBackward: bool,
    pattern: bool,
    intra: bool,
    mvFwd: MotionVector,
    mvBwd: MotionVector)

  /** The header of a slice's first macroblock, whose fields are indeterminate before it is read. */
  const BlankMbHeader := MbHeader(0, 0, 0, false, false, false, false, false, MotionVector(0, 0), MotionVector(0, 0))

  // ---------------------------------------------------------------------
  // The DC differential
  // ---------------------------------------------------------------------

  /**
   * The DC differential read as `size` bits: when the top bit is clear the
   * value is negative, `diff + 1` with every bit from `size` up set
   * (`__bit_test` and `__bit_mask_r` are taken as the one-bit and high-bit
   * masks their names say).
   */
  function DcDiff(diff: nat, size: nat): (v: int)
    requires 1 <= size <= 31 && diff < Pow2(size)
    ensures v < 0 <==> diff < Pow2(size - 1)
    ensures v != 0
  {
    if diff < Pow2(size - 1) then diff + 1 - Pow2(size) else diff
  }

  /** The bits an encoder writes for a differential of magnitude in [2^(size-1), 2^size). */
  function DcBits(v: int, size: nat): int
  {
    if v < 0 then v + Pow2(size) - 1 else v
  }

  /** Every size-bit pattern stands for a differential whose magnitude needs exactly `size` bits. */
  lemma DcDiffRange(diff: nat, size: nat)
    requires 1 <= size <= 31 && diff < Pow2(size)
    ensures var v := DcDiff(diff, size);
      if v < 0 then Pow2(size - 1) <= -v < Pow2(size) else Pow2(size - 1) <= v < Pow2(size)
  {
    Pow2Add(size - 1, 1);
  }

  /** Reading back the bits written for a differential gives that differential. */
  lemma DcRoundTrip(v: int, size: nat)
    requires 1 <= size <= 31
    requires Pow2(size - 1) <= v < Pow2(size) || Pow2(size - 1) <= -v < Pow2(size)
    ensures 0 <= DcBits(v, size) < Pow2(size)
    ensures DcDiff(DcBits(v, size), size) == v
  {
    Pow2Add(size - 1, 1);
  }

  /** The DC value of an intra block, how many size symbols were decoded, the stream after. */
  datatype Dc = Dc(rc: Rc, value: int16, count: nat, next: ReaderState)

  /**
   * The DC part of `mpg1_read_coded_block`: the size, decoded into an
   * `int8_t`, then that many bits of differential.  A size outside 1..31
   * would index the bit tables out of range.
   */
  function DcSpec(s: ReaderState, env: Env, luma: bool): (d: Dc)
    requires Good(s)
    ensures Advances(s, d.next)
    ensures d.rc == Ok || d.rc == Undefined
  {
    var sz := DecodeSymbolSpec(s, if luma then env.dcSizeLuma else env.dcSizeChroma, 0);
    var size := Wrap8(sz.code);
    if sz.rc != Ok then Dc(sz.rc, 0, sz.count, sz.next)
    else if size == 0 then Dc(Ok, 0, sz.count, sz.next)
    else if size < 0 || size > 31 then Dc(Undefined, 0, sz.count, sz.next)
    else
      var diff := ReadSpec(sz.next, size);
      ReadBound(sz.next, size);
      StepAdvances(sz.next, size);
      AdvancesTrans(s, sz.next, diff.next);
      Dc(Ok, Wrap16(DcDiff(diff.value, size)), sz.count, diff.next)
  }

  method ReadDc(bs: BitReader, env: Env, luma: bool) returns (rc: Rc, value: int16, count: nat)
    requires bs.Valid()
    modifies bs, bs.buffer
    ensures bs.Valid()
    ensures Dc(rc, value, count, bs.St()) == DcSpec(old(bs.St()), env, luma)
  {
    var code;
    rc, code, count := DecodeSymbol(bs, if luma then env.dcSizeLuma else env.dcSizeChroma, 0);
    var size := Wrap8(code);
    if rc != Ok {
      return rc, 0, count;
    }
    if size == 0 {
      return Ok, 0, count;
    }
    if size < 0 || size > 31 {
      return Undefined, 0, count;
    }
    bs.ValidGood();
    ReadBound(bs.St(), size);
    var diff, _ := bs.ReadBits(size);
    value := Wrap16(DcDiff(diff, size));
  }

  // ---------------------------------------------------------------------
  // Reconstruction
  // ---------------------------------------------------------------------

  /** The block `mpg1_dequantize_intra` writes. */
  function IntraBlock(q: seq<int16>, qm: seq<int8>, scale: int8): (r: Block)
    requires |q| == 64 && |qm| == 64
    ensures (r[0] as int - 8 * q[0] as int) % 65536 == 0
    ensures forall p | 1 <= p < 64 :: -2048 <= r[p] <= 2047 && (q[p] == 0 ==> r[p] == 0)
  {
    seq(64, p requires 0 <= p < 64 => if p == 0 then Wrap16(q[0] as int * 8) else IntraCoeff(q[p], scale, qm[p]))
  }

  /** The block `mpg1_dequantize_non_intra` writes. */
  function NonIntraBlock(q: seq<int16>, qm: seq<int8>, scale: int8): (r: Block)
    requires |q| == 64 && |qm| == 64
    ensures forall p | 0 <= p < 64 :: -2048 <= r[p] <= 2047 && (r[p] == 0 <==> q[p] == 0)
  {
    seq(64, p requires 0 <= p < 64 => NonIntraCoeff(q[p], scale, qm[p]))
  }

  /** A block with the slice header after it. */
  datatype Predicted = Predicted(block: Block, slice: SliceHeader)

  /**
   * DC prediction: the block's DC value is added (in `int16_t`) to the last
   * DC value of its component (blocks 0 to 3 luminance, 4 Cb, 5 Cr), and
   * the sum becomes the new last value.
   */
  function PredictDcSpec(b: Block, slice: SliceHeader, blockType: int): (r: Predicted)
    ensures r.block[1..] == b[1..]
    ensures 0 <= blockType <= 3 ==> r.slice == slice.(lastDcY := r.block[0]) && (r.block[0] - b[0] - slice.lastDcY) % 65536 == 0
    ensures blockType == 4 ==> r.slice == slice.(lastDcCb := r.block[0]) && (r.block[0] - b[0] - slice.lastDcCb) % 65536 == 0
    ensures blockType == 5 ==> r.slice == slice.(lastDcCr := r.block[0]) && (r.block[0] - b[0] - slice.lastDcCr) % 65536 == 0
    ensures !(0 <= blockType <= 5) ==> r == Predicted(b, slice)
  {
    if 0 <= blockType <= 3 then
      var v := Wrap16(b[0] + slice.lastDcY);
      Predicted(b[0 := v], slice.(lastDcY := v))
    else if blockType == 4 then
      var v := Wrap16(b[0] + slice.lastDcCb);
      Predicted(b[0 := v], slice.(lastDcCb := v))
    else if blockType == 5 then
      var v := Wrap16(b[0] + slice.lastDcCr);
      Predicted(b[0 := v], slice.(lastDcCr := v))
    else Predicted(b, slice)
  }

  /** The tests of the copy-back loop: a sample clamped to [0, 255]. */
  function ClampPixel(x: int16): (r: byte)
    ensures 0 <= x <= 255 ==> r == x
    ensures x > 255 ==> r == 255
    ensures x < 0 ==> r == 0
  {
    if x > 255 then 255 else if x < 0 then 0 else x
  }

  /** Clamping keeps the order of the samples. */
  lemma ClampMonotone(x: int16, y: int16)
    requires x <= y
    ensures ClampPixel(x) <= ClampPixel(y)
  {
  }

  function Pixels(b: Block): (r: seq<byte>)
    ensures |r| == 64 && forall i | 0 <= i < 64 :: r[i] == ClampPixel(b[i])
  {
    seq(64, i requires 0 <= i < 64 => ClampPixel(b[i]))
  }

  /**
   * The coefficients turned into a block of the inverse transform's input:
   * dequantised with the intra or the inter matrix, with DC prediction for
   * intra blocks of I pictures.
   */
  function Reconstruct(coeffs: seq<int16>, env: Env, mb: MbHeader, slice: SliceHeader, picType: int, blockType: int): (r: Predicted)
    requires |coeffs| == 64 && EnvOk(env)
    ensures !mb.intra || picType != FrameTypeI ==> r.slice == slice
    ensures forall p | 1 <= p < 64 :: -2048 <= r.block[p] <= 2047
  {
    if mb.intra then
      var d := IntraBlock(coeffs, env.qmIntra, mb.quantScale);
      if picType == FrameTypeI then PredictDcSpec(d, slice, blockType) else Predicted(d, slice)
    else Predicted(NonIntraBlock(coeffs, env.qmInter, mb.quantScale), slice)
  }

  /** 64 bytes stored at `off`. */
  function Store(plane: seq<byte>, off: nat, pix: seq<byte>): (r: seq<byte>)
    requires |pix| == 64 && off + 64 <= |plane|
    ensures |r| == |plane|
    ensures forall i | 0 <= i < |plane| :: r[i] == if off <= i < off + 64 then pix[i - off] else plane[i]
  {
    plane[..off] + pix + plane[off + 64..]
  }

  // ---------------------------------------------------------------------
  // mpg1_read_coded_block
  // ---------------------------------------------------------------------

  /** The code, the slice header, the plane and the stream after a block. */
  datatype BlockOut = BlockOut(rc: Rc, slice: SliceHeader, plane: seq<byte>, next: ReaderState)

  /** The 64 coefficients a block starts from: indeterminate in the C, 0 here, with the DC value first. */
  function Start(dc: int16): Block
  {
    seq(64, i => if i == 0 then dc else 0)
  }

  /**
   * `mpg1_read_coded_block(dec, mb, slice, pic_type, block_type, plane + off)`.
   * Intra blocks start with their DC value, and must decode exactly one
   * size symbol.  D pictures stop there.
   */
  function BlockSpec(s: ReaderState, env: Env, mb: MbHeader, slice: SliceHeader, picType: int, blockType: int,
                     plane: seq<byte>, off: int): (r: BlockOut)
    requires Good(s) && EnvOk(env)
    ensures Advances(s, r.next) && |r.plane| == |plane|
  {
    var dc := if mb.intra then DcSpec(s, env, blockType <= 3) else Dc(Ok, 0, 1, s);
    if dc.rc != Ok then BlockOut(dc.rc, slice, plane, dc.next)
    else if mb.intra && dc.count != 1 then BlockOut(InvalidData, slice, plane, dc.next)
    else if picType == FrameTypeD then BlockOut(Ok, slice, plane, dc.next)
    else
      var r := CodedSpec(dc.next, env, mb, slice, picType, blockType, dc.value, plane, off);
      AdvancesTrans(s, dc.next, r.next);
      r
  }

  /**
   * The rest of the block once the DC value is known: the coefficients are
   * decoded and the samples stored whatever the code of the coefficient
   * decoder, which is the code returned; a store outside the plane is
   * undefined behaviour.
   */
  function CodedSpec(s: ReaderState, env: Env, mb: MbHeader, slice: SliceHeader, picType: int, blockType: int,
                     dc: int16, plane: seq<byte>, off: int): (r: BlockOut)
    requires Good(s) && EnvOk(env)
    ensures Advances(s, r.next) && |r.plane| == |plane|
  {
    var c := CoeffsSpec(s, env, Start(dc), !mb.intra);
    if c.rc == Undefined then BlockOut(Undefined, slice, plane, c.next)
    else
      var rec := Reconstruct(c.dct, env, mb, slice, picType, blockType);
      if off < 0 || off + 64 > |plane| then BlockOut(Undefined, rec.slice, plane, c.next)
      else BlockOut(c.rc, rec.slice, Store(plane, off, Pixels(env.idct(rec.block))), c.next)
  }

  /** A block whose coefficients are undefined is undefined. */
  lemma CodedUndefined(s: ReaderState, env: Env, mb: MbHeader, slice: SliceHeader, picType: int, blockType: int,
                       dc: int16, plane: seq<byte>, off: int)
    requires Good(s) && EnvOk(env) && CoeffsSpec(s, env, Start(dc), !mb.intra).rc == Undefined
    ensures CodedSpec(s, env, mb, slice, picType, blockType, dc, plane, off).rc == Undefined
  {
  }

  /** `CodedSpec` from its coefficients `c` and their reconstruction `rec`. */
  lemma CodedOf(s: ReaderState, env: Env, mb: MbHeader, slice: SliceHeader, picType: int, blockType: int,
                dc: int16, plane: seq<byte>, off: int, c: Coeffs, rec: Predicted)
    requires Good(s) && EnvOk(env)
    requires c.rc != Undefined && c == CoeffsSpec(s, env, Start(dc), !mb.intra)
    requires rec == Reconstruct(c.dct, env, mb, slice, picType, blockType)
    ensures var r := CodedSpec(s, env, mb, slice, picType, blockType, dc, plane, off);
      && r.slice == rec.slice && r.next == c.next
      && (off < 0 || off + 64 > |plane| ==> r.rc == Undefined)
      && (0 <= off && off + 64 <= |plane| ==> r.rc == c.rc && r.plane == Store(plane, off, Pixels(env.idct(rec.block))))
  {
  }

  /** The copy-back loop: the clamped samples stored at `off`. */
  method CopyBack(plane: array<byte>, off: nat, b: Block)
    requires off + 64 <= plane.Length
    modifies plane
    ensures plane[..] == Store(old(plane[..]), off, Pixels(b))
  {
    for i := 0 to 64
      invariant forall k | 0 <= k < plane.Length :: plane[k] == if off <= k < off + i then ClampPixel(b[k - off]) else old(plane[k])
    {
      if b[i] > 255 {
        plane[off + i] := 255;
      } else if b[i] < 0 {
        plane[off + i] := 0;
      } else {
        plane[off + i] := b[i];
      }
    }
  }

  /** The dequantisation and DC prediction on the two temporary blocks. */
  method Dequantize(temp: array<int16>, env: Env, mb: MbHeader, slice: SliceHeader, picType: int, blockType: int)
      returns (b: Block, slice': SliceHeader)
    requires temp.Length == 64 && EnvOk(env)
    ensures Predicted(b, slice') == Reconstruct(temp[..], env, mb, slice, picType, blockType)
  {
    var temp2 := new int16[64];
    slice' := slice;
    if mb.intra {
      var _ := DequantizeIntra(temp, temp2, env.qmIntra, mb.quantScale, env.zigzag);
      assert temp2[..] == IntraBlock(temp[..], env.qmIntra, mb.quantScale);
      if picType == FrameTypeI {
        if 0 <= blockType <= 3 {
          temp2[0] := Wrap16(temp2[0] + slice'.lastDcY);
          slice' := slice'.(lastDcY := temp2[0]);
        } else if blockType == 4 {
          temp2[0] := Wrap16(temp2[0] + slice'.lastDcCb);
          slice' := slice'.(lastDcCb := temp2[0]);
        } else if blockType == 5 {
          temp2[0] := Wrap16(temp2[0] + slice'.lastDcCr);
          slice' := slice'.(lastDcCr := temp2[0]);
        }
      }
    } else {
      var _ := DequantizeNonIntra(temp, temp2, env.qmInter, mb.quantScale, env.zigzag);
      assert temp2[..] == NonIntraBlock(temp[..], env.qmInter, mb.quantScale);
    }
    b := temp2[..];
  }

  method ReadCodedBlock(bs: BitReader, env: Env, mb: MbHeader, slice: SliceHeader, picType: int, blockType: int,
                        plane: array<byte>, off: int) returns (rc: Rc, slice': SliceHeader)
    requires bs.Valid() && EnvOk(env) && plane != bs.buffer
    modifies bs, bs.buffer, plane
    ensures bs.Valid()
    ensures var r := BlockSpec(old(bs.St()), env, mb, slice, picType, blockType, old(plane[..]), off);
      && (rc == Undefined <==> r.rc == Undefined)
      && (rc != Undefined ==> BlockOut(rc, slice', plane[..], bs.St()) == r)
  {
    var dc: int16 := 0;
    slice' := slice;
    if mb.intra {
      var count;
      rc, dc, count := ReadDc(bs, env, blockType <= 3);
      if rc != Ok {
        return;
      }
      if count != 1 {
        return InvalidData, slice;
      }
    }
    if picType == FrameTypeD {
      return Ok, slice;
    }
    rc, slice' := ReadCoded(bs, env, mb, slice, picType, blockType, dc, plane, off);
  }

  method ReadCoded(bs: BitReader, env: Env, mb: MbHeader, slice: SliceHeader, picType: int, blockType: int,
                   dc: int16, plane: array<byte>, off: int) returns (rc: Rc, slice': SliceHeader)
    requires bs.Valid() && EnvOk(env) && plane != bs.buffer
    modifies bs, bs.buffer, plane
    ensures bs.Valid()
    ensures var r := CodedSpec(old(bs.St()), env, mb, slice, picType, blockType, dc, old(plane[..]), off);
      && (rc == Undefined <==> r.rc == Undefined)
      && (rc != Undefined ==> BlockOut(rc, slice', plane[..], bs.St()) == r)
  {
    ghost var s, p := bs.St(), plane[..];
    var temp := new int16[64](i => if i == 0 then dc else 0);
    assert temp[..] == Start(dc);
    slice' := slice;
    rc := DecodeCoeffs(bs, env, temp, !mb.intra);
    if rc == Undefined {
      CodedUndefined(s, env, mb, slice, picType, blockType, dc, p, off);
      return;
    }
    var b;
    b, slice' := Dequantize(temp, env, mb, slice, picType, blockType);
    CodedOf(s, env, mb, slice, picType, blockType, dc, p, off, Coeffs(rc, temp[..], bs.St()), Predicted(b, slice'));
    var pix := env.idct(b);
    if off < 0 || off + 64 > plane.Length {
      return Undefined, slice';
    }
    CopyBack(plane, off, pix);
  }
}
