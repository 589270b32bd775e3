// One macroblock of codec/mpeg1dec.c, `mpg1_read_mb` and
// `mpg1_read_mb_motion_vector` (section 2.4.3.6 of ISO/IEC 11172-2): the
// stuffing and escape codes, the address increment, the macroblock type
// and its flags, the quantiser scale, the motion codes, the coded block
// pattern, the coded blocks, and the end bit of D pictures.

module Mpeg1Macroblock {
  import opened MmfUtil
  import opened CInt
  import opened Bitstream
  import opened Vlc
  import opened Mpeg1Tables
  import opened Mpeg1Headers
  import opened Mpeg1Stream
  import opened Mpeg1Block
  import opened Mpeg1Frame

  // ---------------------------------------------------------------------
  // Stuffing and escape codes
  // ---------------------------------------------------------------------

  /** How many 11-bit codes were skipped, and the stream after them. */
  datatype Skipped = Skipped(count: nat, next: ReaderState)

  /** The 11-bit macroblock stuffing code `0000 0001 111`. */
  const StuffingCode := 0x0F
  /** The 11-bit macroblock escape code `0000 0001 000`. */
  const EscapeCode := 0x08

  /**
   * `while (bitstream_peek_bits(bs, 11, &rc) == code) bitstream_discard_bits(bs, 11)`:
   * each copy of the code is skipped, 11 bits at a time.  A peek that
   * fails gives 0, which is not a code, so the loop ends there.
   */
  function SkipSpec(s: ReaderState, code: nat): (r: Skipped)
    requires Good(s) && 0 < code
    ensures Advances(s, r.next)
    ensures r.next.readBitIndex == s.readBitIndex + 11 * r.count
    ensures r.count > 0 ==> PeekSpec(s, 11).value == code
    decreases Left(s)
  {
    Keeps(s, 11);
    StepAdvances(s, 11);
    var p := PeekSpec(s, 11);
    if p.value != code then Skipped(0, p.next)
    else
      PeekedProgress(s, 11);
      var d := DiscardSpec(p.next, 11).next;
      var r := SkipSpec(d, code);
      AdvancesTrans(s, d, r.next);
      Skipped(r.count + 1, r.next)
  }

  /** One turn of the loop: a peeked code is skipped and counted, anything else ends it. */
  lemma SkipStep(s: ReaderState, code: nat)
    requires Good(s) && 0 < code
    ensures Left(s) >= 0
    ensures var p := PeekSpec(s, 11);
      && (p.value != code ==> SkipSpec(s, code) == Skipped(0, p.next))
      && (p.value == code ==>
            var d := DiscardSpec(p.next, 11).next;
            Good(d) && Left(d) < Left(s) && SkipSpec(s, code) == Skipped(SkipSpec(d, code).count + 1, SkipSpec(d, code).next))
  {
    Keeps(s, 11);
    if PeekSpec(s, 11).value == code {
      PeekedProgress(s, 11);
    }
  }

  method SkipCodes(bs: BitReader, code: nat) returns (count: nat)
    requires bs.Valid() && 0 < code
    modifies bs, bs.buffer
    ensures bs.Valid()
    ensures Skipped(count, bs.St()) == SkipSpec(old(bs.St()), code)
  {
    count := 0;
    ghost var target := SkipOf(bs.St(), code);
    ghost var rest := target;
    while true
      invariant bs.Valid()
      invariant SkipIs(bs.St(), code, rest)
      invariant target == Skipped(count + rest.count, rest.next)
      decreases Left(bs.St())
    {
      var hit;
      hit, rest := SkipOne(bs, code, rest);
      if !hit {
        return;
      }
      count := count + 1;
    }
  }

  /** One turn of the loop of `SkipCodes`: a peeked code is skipped, anything else is left. */
  method SkipOne(bs: BitReader, code: nat, ghost rest: Skipped) returns (hit: bool, ghost rest': Skipped)
    requires bs.Valid() && 0 < code && SkipIs(bs.St(), code, rest)
    modifies bs, bs.buffer
    ensures bs.Valid()
    ensures !hit ==> rest == Skipped(0, bs.St())
    ensures hit ==> Left(bs.St()) < Left(old(bs.St())) && SkipIs(bs.St(), code, rest')
    ensures hit ==> rest == Skipped(rest'.count + 1, rest'.next)
  {
    ghost var s := bs.St();
    bs.ValidGood();
    assert rest == SkipSpec(s, code);
    SkipStep(s, code);
    rest' := rest;
    var v, _ := bs.PeekBits(11);
    hit := v == code;
    if hit {
      var _ := bs.DiscardBits(11);
      rest' := SkipOf(bs.St(), code);
    }
  }

  /** `r` is `SkipSpec(s, code)`, in a form that does not expand it. */
  ghost predicate SkipIs(s: ReaderState, code: nat, r: Skipped)
  {
    forall c {:trigger SkipSpec(s, c)} :: Same(c, code) && Good(s) && 0 < c ==> r == SkipSpec(s, c)
  }

  /** The skipped codes from `s`, as a value for `SkipIs`. */
  lemma SkipOf(s: ReaderState, code: nat) returns (r: Skipped)
    requires Good(s) && 0 < code
    ensures SkipIs(s, code, r) && r == SkipSpec(s, code)
  {
    r := SkipSpec(s, code);
  }

  // ---------------------------------------------------------------------
  // The address increment
  // ---------------------------------------------------------------------

  /** The address increment with the escapes counted in, and the stream after it. */
  datatype Address = Address(rc: Rc, increment: int8, escapes: nat, next: ReaderState)

  /**
   * The stuffing, the escapes and the address increment: the prefix-code
   * symbol lands in the `int8_t` field (which keeps its value when no
   * symbol is decoded) and 33 is added for each escape, wrapping into the
   * field.
   */
  function AddressSpec(s: ReaderState, env: Env, prev: int8): (r: Address)
    requires Good(s)
    ensures Advances(s, r.next)
    ensures r.rc == Ok || r.rc == Undefined
    ensures r.next.readBitIndex >= s.readBitIndex + 11 * r.escapes
  {
    var stuffing := SkipSpec(s, StuffingCode);
    var esc := SkipSpec(stuffing.next, EscapeCode);
    var sym := DecodeSymbolSpec(esc.next, env.mbAddressIncrement, prev % 256);
    AdvancesTrans(s, stuffing.next, esc.next);
    AdvancesTrans(s, esc.next, sym.next);
    Address(sym.rc, Escaped(sym.code, esc.count), esc.count, sym.next)
  }

  /** The increment field after 33 is added per escape, wrapping into `int8_t`. */
  function Escaped(code: byte, escapes: nat): (inc: int8)
    ensures (inc - code - 33 * escapes) % 256 == 0
    ensures code + 33 * escapes < 128 ==> inc == code + 33 * escapes
  {
    EscapedWraps(code, escapes);
    if code + 33 * escapes < 128 then
      EscapedSmall(code, escapes);
      Wrap8(Wrap8(code) + 33 * escapes)
    else Wrap8(Wrap8(code) + 33 * escapes)
  }

  /** The two `int8_t` stores leave the sum unchanged modulo 256. */
  lemma EscapedWraps(code: byte, escapes: nat)
    ensures (Wrap8(Wrap8(code) + 33 * escapes) - code - 33 * escapes) % 256 == 0
  {
    var w := Wrap8(code);
    assert w + 33 * escapes - (code + 33 * escapes) == w - code;
    CongruentTrans(Wrap8(w + 33 * escapes), w + 33 * escapes, code + 33 * escapes);
  }

  /** A sum below 128 survives both stores. */
  lemma EscapedSmall(code: byte, escapes: nat)
    requires code + 33 * escapes < 128
    ensures Wrap8(Wrap8(code) + 33 * escapes) == code + 33 * escapes
  {
    Wrap8InRange(code);
    Wrap8InRange(code + 33 * escapes);
  }

  /** Congruence modulo 256 is transitive. */
  lemma CongruentTrans(a: int, b: int, c: int)
    requires (a - b) % 256 == 0 && (b - c) % 256 == 0
    ensures (a - c) % 256 == 0
  {
    assert a - c == 256 * ((a - b) / 256 + (b - c) / 256);
  }

  /** AddressSpec assembled from its three parts. */
  lemma AddressOf(s: ReaderState, env: Env, prev: int8, s1: ReaderState, s2: ReaderState, sym: Symbol, escapes: nat)
    requires Good(s) && s1 == SkipSpec(s, StuffingCode).next
    requires Skipped(escapes, s2) == SkipSpec(s1, EscapeCode)
    requires sym == DecodeSymbolSpec(s2, env.mbAddressIncrement, prev % 256)
    ensures Address(sym.rc, Escaped(sym.code, escapes), escapes, sym.next) == AddressSpec(s, env, prev)
  {
  }

  method ReadAddress(bs: BitReader, env: Env, prev: int8) returns (rc: Rc, increment: int8, escapes: nat)
    requires bs.Valid()
    modifies bs, bs.buffer
    ensures bs.Valid()
    ensures Address(rc, increment, escapes, bs.St()) == AddressSpec(old(bs.St()), env, prev)
  {
    ghost var s0 := bs.St();
    var _ := SkipCodes(bs, StuffingCode);
    ghost var s1 := bs.St();
    escapes := SkipCodes(bs, EscapeCode);
    ghost var s2 := bs.St();
    var code, count;
    rc, code, count := DecodeSymbol(bs, env.mbAddressIncrement, prev % 256);
    increment := Escaped(code, escapes);
    AddressOf(s0, env, prev, s1, s2, Symbol(rc, code, count, bs.St()), escapes);
  }

  // ---------------------------------------------------------------------
  // The macroblock type and its flags
  // ---------------------------------------------------------------------

  /** The prefix code of the macroblock type for each picture type. */
  function TypeTree(env: Env, frameType: int): (t: Option<Tree>)
    ensures t.Some? <==> KnownFrameType(frameType)
  {
    if frameType == FrameTypeI then Some(env.mbTypeI)
    else if frameType == FrameTypeP then Some(env.mbTypeP)
    else if frameType == FrameTypeB then Some(env.mbTypeB)
    else if frameType == FrameTypeD then Some(env.mbTypeD)
    else None
  }

  /** The five flags of a macroblock type, bit 4 (intra) down to bit 0 (quant). */
  function WithFlags(mb: MbHeader, t: byte): (r: MbHeader)
    ensures r.(intra := mb.intra, pattern := mb.pattern, motionBackward := mb.motionBackward,
               motionForward := mb.motionForward, quant := mb.quant) == mb
    ensures r.intra <==> t % 32 >= 16
  {
    mb.(intra := t / 16 % 2 == 1, pattern := t / 8 % 2 == 1, motionBackward := t / 4 % 2 == 1,
        motionForward := t / 2 % 2 == 1, quant := t % 2 == 1)
  }

  /** The type bits an encoder writes for the flags of a header. */
  function TypeBits(mb: MbHeader): (t: byte)
    ensures t < 32
  {
    (if mb.intra then 16 else 0) + (if mb.pattern then 8 else 0) + (if mb.motionBackward then 4 else 0)
      + (if mb.motionForward then 2 else 0) + (if mb.quant then 1 else 0)
  }

  /** The flags are exactly the five low bits of the type: writing them back gives those bits. */
  lemma FlagsRoundTrip(mb: MbHeader, t: byte)
    ensures TypeBits(WithFlags(mb, t)) == t % 32
  {
    var x: nat := t;
    HalfSplit(x, 16);
    HalfSplit(x, 8);
    HalfSplit(x, 4);
    HalfSplit(x, 2);
    HalfSplit(x, 1);
  }

  /** Each flag is read back from the bits an encoder writes for it. */
  lemma TypeBitsRoundTrip(mb: MbHeader)
    ensures WithFlags(mb, TypeBits(mb)) == mb
  {
    var t := TypeBits(mb);
    var low := (if mb.motionBackward then 4 else 0) + (if mb.motionForward then 2 else 0) + (if mb.quant then 1 else 0);
    assert t == (if mb.intra then 16 else 0) + (if mb.pattern then 8 else 0) + low;
  }

  /** The bit of weight k splits the residue modulo 2k. */
  lemma HalfSplit(x: nat, k: nat)
    requires k > 0
    ensures x % (2 * k) == k * (x / k % 2) + x % k
  {
    var q, r := x / (2 * k), x % (2 * k);
    assert x == 2 * k * q + r;
    if r < k {
      assert k * (2 * q) + r == x;
      DivUnique(x, k, 2 * q, r);
    } else {
      assert k * (2 * q + 1) + (r - k) == x;
      DivUnique(x, k, 2 * q + 1, r - k);
    }
  }

  // ---------------------------------------------------------------------
  // The header up to the quantiser scale
  // ---------------------------------------------------------------------

  /** The code, the slice header, the macroblock header and the stream after a step. */
  datatype Head = Head(rc: Rc, slice: SliceHeader, mb: MbHeader, next: ReaderState)

  /** A slice header whose three DC predictors are reset to 1024. */
  function ResetDc(slice: SliceHeader): (r: SliceHeader)
    ensures r.row == slice.row && r.quantScale == slice.quantScale
    ensures r.lastDcY == 1024 && r.lastDcCb == 1024 && r.lastDcCr == 1024
  {
    slice.(lastDcY := 1024, lastDcCb := 1024, lastDcCr := 1024)
  }

  /**
   * The address increment (after which a skip resets the DC predictors),
   * the type and its flags (an unknown picture type is invalid data; the
   * type is indeterminate, taken as 0, when no symbol is decoded), the
   * rule that intra pictures never skip, and the quantiser scale: read as
   * 5 bits into both headers when the quant flag is set (the code of that
   * read is ignored), otherwise taken from the slice.
   */
  function HeadSpec(s: ReaderState, env: Env, frameType: int, slice: SliceHeader, mb: MbHeader): (r: Head)
    requires Good(s)
    ensures Advances(s, r.next)
    ensures r.rc == Ok || r.rc == InvalidData || r.rc == Undefined
    ensures r.rc != Undefined && r.mb.addressIncrement != 1 ==> r.slice == ResetDc(slice).(quantScale := r.slice.quantScale)
    ensures r.rc != Undefined && r.mb.addressIncrement == 1 ==> r.slice == slice.(quantScale := r.slice.quantScale)
    ensures r.rc == Ok ==> r.mb.quantScale == r.slice.quantScale && KnownFrameType(frameType)
    ensures r.rc == Ok && frameType == FrameTypeI ==> r.mb.addressIncrement == 1
  {
    var a := AddressSpec(s, env, mb.addressIncrement);
    if a.rc == Undefined then Head(Undefined, slice, mb, a.next)
    else
      var mb1 := mb.(addressIncrement := a.increment);
      var slice1 := if a.increment != 1 then ResetDc(slice) else slice;
      var tree := TypeTree(env, frameType);
      if tree.None? then Head(InvalidData, slice1, mb1, a.next)
      else
        var t := DecodeSymbolSpec(a.next, tree.value, 0);
        AdvancesTrans(s, a.next, t.next);
        if t.rc == Undefined then Head(Undefined, slice1, mb1, t.next)
        else
          var mb2 := WithFlags(mb1, t.code);
          if frameType == FrameTypeI && a.increment != 1 then Head(InvalidData, slice1, mb2, t.next)
          else QuantSpec(t.next, slice1, mb2, s)
  }

  /** The quantiser scale step of `HeadSpec`. */
  function QuantSpec(s: ReaderState, slice: SliceHeader, mb: MbHeader, ghost from: ReaderState): (r: Head)
    requires Good(s) && Advances(from, s)
    ensures Advances(from, r.next) && r.rc == Ok
    ensures r.mb == mb.(quantScale := r.mb.quantScale) && r.slice == slice.(quantScale := r.mb.quantScale)
    ensures !mb.quant ==> r.mb.quantScale == slice.quantScale && r.next == s
    ensures mb.quant ==> 0 <= r.mb.quantScale < 32
  {
    if mb.quant then
      var q := ReadSpec(s, 5);
      StepAdvances(s, 5);
      AdvancesTrans(from, s, q.next);
      ReadBound(s, 5);
      assert Pow2(5) == 32;
      Head(Ok, slice.(quantScale := q.value), mb.(quantScale := q.value), q.next)
    else Head(Ok, slice, mb.(quantScale := slice.quantScale), s)
  }

  method ReadHead(bs: BitReader, env: Env, frameType: int, slice: SliceHeader, mb: MbHeader)
      returns (rc: Rc, slice': SliceHeader, mb': MbHeader)
    requires bs.Valid()
    modifies bs, bs.buffer
    ensures bs.Valid()
    ensures Head(rc, slice', mb', bs.St()) == HeadSpec(old(bs.St()), env, frameType, slice, mb)
  {
    slice', mb' := slice, mb;
    var increment, escapes;
    rc, increment, escapes := ReadAddress(bs, env, mb.addressIncrement);
    if rc == Undefined {
      return;
    }
    mb' := mb'.(addressIncrement := increment);
    if increment != 1 {
      slice' := ResetDc(slice');
    }
    var tree := TypeTree(env, frameType);
    if tree.None? {
      return InvalidData, slice', mb';
    }
    var ty, count;
    rc, ty, count := DecodeSymbol(bs, tree.value, 0);
    if rc == Undefined {
      return;
    }
    mb' := WithFlags(mb', ty);
    if frameType == FrameTypeI && increment != 1 {
      return InvalidData, slice', mb';
    }
    rc, slice', mb' := ReadQuant(bs, slice', mb');
  }

  method ReadQuant(bs: BitReader, slice: SliceHeader, mb: MbHeader) returns (rc: Rc, slice': SliceHeader, mb': MbHeader)
    requires bs.Valid()
    modifies bs, bs.buffer
    ensures bs.Valid()
    ensures Head(rc, slice', mb', bs.St()) == QuantSpec(old(bs.St()), slice, mb, old(bs.St()))
  {
    if mb.quant {
      bs.ValidGood();
      ReadBound(bs.St(), 5);
      assert Pow2(5) == 32;
      var q, _ := bs.ReadBits(5);
      return Ok, slice.(quantScale := q), mb.(quantScale := q);
    }
    return Ok, slice, mb.(quantScale := slice.quantScale);
  }

  // ---------------------------------------------------------------------
  // mpg1_read_mb_motion_vector
  // ---------------------------------------------------------------------

  /** The code, the motion codes and the stream after a motion vector. */
  datatype Motion = Motion(rc: Rc, mv: MotionVector, next: ReaderState)

  /**
   * The residual of a forward motion code: `r_size` bits, read and
   * dropped, unless f is 1 or the code is 0; a failed read is returned.
   */
  function ResidualSpec(s: ReaderState, rSize: int8, f: int8, code: byte): (r: Step)
    requires Good(s) && rSize <= 30
    ensures Advances(s, r.next) && (r.rc == Ok || Failed(r.rc))
  {
    StepAdvances(s, rSize);
    if f != 1 && code != 0 then
      var r := ReadSpec(s, rSize);
      Step(if Failed(r.rc) then r.rc else Ok, r.next)
    else Step(Ok, s)
  }

  /**
   * The forward vector: the horizontal code, then `r_size = forward_f_code - 1`
   * (a negative shift, or one past the `int` width, is undefined) and
   * `f = 1 << r_size` in an `int8_t`, which must be at least 1 (the
   * assertion), then the residual, then the vertical code and its residual.
   */
  function ForwardSpec(s: ReaderState, env: Env, fCode: int, mv: MotionVector): (r: Motion)
    requires Good(s)
    ensures Advances(s, r.next)
    ensures r.rc == Ok || Failed(r.rc)
    ensures r.rc == Ok ==> 1 <= fCode % 256 <= 7
  {
    var h := DecodeSymbolSpec(s, env.motionCode, mv.horiz);
    var rSize := Wrap8(fCode - 1);
    if h.rc == Undefined || rSize < 0 || rSize > 30 || Wrap8(Pow2(rSize)) < 1 then Motion(Undefined, mv, h.next)
    else
      var f := Wrap8(Pow2(rSize));
      assert rSize <= 6 by { ForwardRange(rSize); }
      ForwardCode(fCode);
      var hr := ResidualSpec(h.next, rSize, f, h.code);
      AdvancesTrans(s, h.next, hr.next);
      if hr.rc != Ok then Motion(hr.rc, mv.(horiz := h.code), hr.next)
      else
        var v := DecodeSymbolSpec(hr.next, env.motionCode, mv.vert);
        AdvancesTrans(s, hr.next, v.next);
        if v.rc == Undefined then Motion(Undefined, MotionVector(h.code, v.code), v.next)
        else
          var vr := ResidualSpec(v.next, rSize, f, v.code);
          AdvancesTrans(s, v.next, vr.next);
          Motion(vr.rc, MotionVector(h.code, v.code), vr.next)
  }

  /** An `r_size` of 0 to 6 comes from a forward code of 1 to 7, modulo 256. */
  lemma ForwardCode(fCode: int)
    requires 0 <= Wrap8(fCode - 1) <= 6
    ensures 1 <= fCode % 256 <= 7
  {
    var m := (fCode - 1) % 256;
    assert 0 <= m <= 6;
    assert fCode == (fCode - 1) / 256 * 256 + m + 1;
  }

  /** `1 << r_size` survives the conversion to `int8_t` as a positive value only for r_size up to 6. */
  lemma ForwardRange(rSize: int8)
    requires 0 <= rSize <= 30
    ensures Wrap8(Pow2(rSize)) >= 1 <==> rSize <= 6
  {
    if rSize <= 6 {
      Pow2Monotone(rSize, 6);
      assert Pow2(6) == 64;
      Wrap8InRange(Pow2(rSize));
    } else if rSize == 7 {
      assert Pow2(7) == 128;
    } else {
      Pow2Add(rSize - 8, 8);
      assert Pow2(8) == 256;
      var k := Pow2(rSize - 8);
      DivUnique(k * 256, 256, k, 0);
      assert Pow2(rSize) % 256 == 0;
    }
  }

  /**
   * The backward vector as far as the C goes: after a nonzero code with a
   * `backward_f_code` other than 1, `r_size` is `forward_f_code - 1` (as
   * written), `(int8_t)pow(2, r_size)` is undefined from r_size 7 on, the
   * residual bits are read and dropped, and the step ends with RC_FALSE
   * unless the read failed.
   */
  function BackwardSpec(s: ReaderState, env: Env, fCode: int, bCode: int, mv: MotionVector): (r: Motion)
    requires Good(s)
    ensures Advances(s, r.next)
    ensures r.rc == Ok || r.rc == False || Failed(r.rc)
    ensures r.rc == Ok ==> bCode == 1 || r.mv == MotionVector(0, 0)
  {
    var h := DecodeSymbolSpec(s, env.motionCode, mv.horiz);
    if h.rc == Undefined then Motion(Undefined, mv, h.next)
    else if bCode != 1 && h.code != 0 then
      var r := BackwardResidual(h.next, fCode, mv.(horiz := h.code));
      AdvancesTrans(s, h.next, r.next);
      r
    else
      var v := DecodeSymbolSpec(h.next, env.motionCode, mv.vert);
      AdvancesTrans(s, h.next, v.next);
      if v.rc == Undefined then Motion(Undefined, MotionVector(h.code, v.code), v.next)
      else if bCode != 1 && v.code != 0 then
        var r := BackwardResidual(v.next, fCode, MotionVector(h.code, v.code));
        AdvancesTrans(s, v.next, r.next);
        r
      else Motion(Ok, MotionVector(h.code, v.code), v.next)
  }

  /** The residual of a backward motion code and the early return. */
  function BackwardResidual(s: ReaderState, fCode: int, mv: MotionVector): (r: Motion)
    requires Good(s)
    ensures Advances(s, r.next) && r.mv == mv
    ensures r.rc == False || Failed(r.rc)
  {
    var rSize := Wrap8(fCode - 1);
    if rSize >= 7 then Motion(Undefined, mv, s)
    else
      var r := ReadSpec(s, rSize);
      StepAdvances(s, rSize);
      Motion(if Failed(r.rc) then r.rc else False, mv, r.next)
  }

  method ReadForward(bs: BitReader, env: Env, fCode: int, mv: MotionVector) returns (rc: Rc, mv': MotionVector)
    requires bs.Valid()
    modifies bs, bs.buffer
    ensures bs.Valid()
    ensures var r := ForwardSpec(old(bs.St()), env, fCode, mv);
      && (rc == Undefined <==> r.rc == Undefined)
      && (rc != Undefined ==> Motion(rc, mv', bs.St()) == r)
  {
    mv' := mv;
    var horiz, count;
    rc, horiz, count := DecodeSymbol(bs, env.motionCode, mv.horiz);
    mv' := mv'.(horiz := horiz);
    if rc == Undefined {
      return;
    }
    var rSize := Wrap8(fCode - 1);
    if rSize < 0 || rSize > 30 {
      return Undefined, mv';
    }
    var f := Wrap8(Pow2(rSize));
    if f < 1 {
      return Undefined, mv';
    }
    ForwardRange(rSize);
    rc := ReadResidual(bs, rSize, f, horiz);
    if rc != Ok {
      return;
    }
    var vert;
    rc, vert, count := DecodeSymbol(bs, env.motionCode, mv.vert);
    mv' := mv'.(vert := vert);
    if rc == Undefined {
      return;
    }
    rc := ReadResidual(bs, rSize, f, vert);
  }

  method ReadResidual(bs: BitReader, rSize: int8, f: int8, code: byte) returns (rc: Rc)
    requires bs.Valid() && rSize <= 30
    modifies bs, bs.buffer
    ensures bs.Valid()
    ensures Step(rc, bs.St()) == ResidualSpec(old(bs.St()), rSize, f, code)
  {
    rc := Ok;
    if f != 1 && code != 0 {
      var _, r := bs.ReadBits(rSize);
      if Failed(r) {
        rc := r;
      }
    }
  }

  method ReadBackward(bs: BitReader, env: Env, fCode: int, bCode: int, mv: MotionVector) returns (rc: Rc, mv': MotionVector)
    requires bs.Valid()
    modifies bs, bs.buffer
    ensures bs.Valid()
    ensures var r := BackwardSpec(old(bs.St()), env, fCode, bCode, mv);
      && (rc == Undefined <==> r.rc == Undefined)
      && (rc != Undefined ==> Motion(rc, mv', bs.St()) == r)
  {
    mv' := mv;
    var horiz, count;
    rc, horiz, count := DecodeSymbol(bs, env.motionCode, mv.horiz);
    mv' := mv'.(horiz := horiz);
    if rc == Undefined {
      return;
    }
    if bCode != 1 && horiz != 0 {
      rc := SkipBackwardResidual(bs, fCode);
      return;
    }
    var vert;
    rc, vert, count := DecodeSymbol(bs, env.motionCode, mv.vert);
    mv' := mv'.(vert := vert);
    if rc == Undefined {
      return;
    }
    if bCode != 1 && vert != 0 {
      rc := SkipBackwardResidual(bs, fCode);
      return;
    }
    rc := Ok;
  }

  method SkipBackwardResidual(bs: BitReader, fCode: int) returns (rc: Rc)
    requires bs.Valid()
    modifies bs, bs.buffer
    ensures bs.Valid()
    ensures var r := BackwardResidual(old(bs.St()), fCode, MotionVector(0, 0));
      && (rc == Undefined <==> r.rc == Undefined)
      && (rc != Undefined ==> Step(rc, bs.St()) == Step(r.rc, r.next))
  {
    var rSize := Wrap8(fCode - 1);
    if rSize >= 7 {
      return Undefined;
    }
    var _, r := bs.ReadBits(rSize);
    rc := if Failed(r) then r else False;
  }

  // ---------------------------------------------------------------------
  // Motion vectors and the coded block pattern
  // ---------------------------------------------------------------------

  /** The code, the macroblock header and the stream after the vectors and the pattern. */
  datatype Coding = Coding(rc: Rc, mb: MbHeader, next: ReaderState)

  /**
   * The forward vector when its flag is set, the backward vector when
   * its flag is set (RC_FALSE from it is not a failure), and the coded
   * block pattern: a prefix-code symbol when the pattern flag is set,
   * otherwise all six blocks for intra macroblocks and none for others.
   */
  function CodingSpec(s: ReaderState, env: Env, hdr: PictureHeader, mb: MbHeader): (r: Coding)
    requires Good(s)
    ensures Advances(s, r.next)
    ensures r.rc == Ok || r.rc == False || Failed(r.rc)
    ensures r.mb == mb.(mvFwd := r.mb.mvFwd, mvBwd := r.mb.mvBwd, codedBlockPattern := r.mb.codedBlockPattern)
    ensures !Failed(r.rc) && !mb.pattern ==> r.mb.codedBlockPattern == if mb.intra then 0x3F else 0
  {
    var fw := if mb.motionForward then ForwardSpec(s, env, hdr.forwardFCode, mb.mvFwd) else Motion(Ok, mb.mvFwd, s);
    var mb1 := mb.(mvFwd := fw.mv);
    if Failed(fw.rc) then Coding(fw.rc, mb1, fw.next)
    else
      var bw := if mb.motionBackward then BackwardSpec(fw.next, env, hdr.forwardFCode, hdr.backwardFCode, mb.mvBwd)
                else Motion(Ok, mb.mvBwd, fw.next);
      AdvancesTrans(s, fw.next, bw.next);
      var mb2 := mb1.(mvBwd := bw.mv);
      if Failed(bw.rc) then Coding(bw.rc, mb2, bw.next)
      else
        var p := PatternSpec(bw.next, env, mb2);
        AdvancesTrans(s, bw.next, p.next);
        p
  }

  /** The coded block pattern. */
  function PatternSpec(s: ReaderState, env: Env, mb: MbHeader): (r: Coding)
    requires Good(s)
    ensures Advances(s, r.next) && (r.rc == Ok || r.rc == Undefined)
    ensures r.mb == mb.(codedBlockPattern := r.mb.codedBlockPattern)
  {
    if mb.pattern then
      var p := DecodeSymbolSpec(s, env.cbPattern, mb.codedBlockPattern);
      Coding(p.rc, mb.(codedBlockPattern := p.code), p.next)
    else Coding(Ok, mb.(codedBlockPattern := if mb.intra then 0x3F else 0), s)
  }

  method ReadCoding(bs: BitReader, env: Env, hdr: PictureHeader, mb: MbHeader) returns (rc: Rc, mb': MbHeader)
    requires bs.Valid()
    modifies bs, bs.buffer
    ensures bs.Valid()
    ensures var r := CodingSpec(old(bs.St()), env, hdr, mb);
      && (rc == Undefined <==> r.rc == Undefined)
      && (rc != Undefined ==> rc == r.rc && mb' == r.mb && bs.St() == r.next)
  {
    mb' := mb;
    rc := Ok;
    if mb.motionForward {
      var mv;
      rc, mv := ReadForward(bs, env, hdr.forwardFCode, mb.mvFwd);
      mb' := mb'.(mvFwd := mv);
      if Failed(rc) {
        return;
      }
    }
    if mb.motionBackward {
      var mv;
      rc, mv := ReadBackward(bs, env, hdr.forwardFCode, hdr.backwardFCode, mb.mvBwd);
      mb' := mb'.(mvBwd := mv);
      if Failed(rc) {
        return;
      }
    }
    if mb.pattern {
      var cbp, count;
      rc, cbp, count := DecodeSymbol(bs, env.cbPattern, mb.codedBlockPattern);
      mb' := mb'.(codedBlockPattern := cbp);
    } else {
      rc := Ok;
      mb' := mb'.(codedBlockPattern := if mb.intra then 0x3F else 0);
    }
  }

  // ---------------------------------------------------------------------
  // The six blocks
  // ---------------------------------------------------------------------

  /** Whether block i (0 to 5: Y1 to Y4, Cb, Cr) is coded: bit 5 - i of the pattern. */
  function Coded(cbp: byte, i: nat): (c: bool)
    requires i < 6
    ensures c <==> (cbp / Pow2(5 - i)) % 2 == 1
  {
    assert Pow2(0) == 1 && Pow2(1) == 2 && Pow2(2) == 4 && Pow2(3) == 8 && Pow2(4) == 16 && Pow2(5) == 32;
    if i == 0 then cbp / 32 % 2 == 1
    else if i == 1 then cbp / 16 % 2 == 1
    else if i == 2 then cbp / 8 % 2 == 1
    else if i == 3 then cbp / 4 % 2 == 1
    else if i == 4 then cbp / 2 % 2 == 1
    else cbp % 2 == 1
  }

  /**
   * Where block i of the macroblock at `addr` goes: the four luminance
   * blocks one after another in a 256-sample tile of the Y plane, the two
   * chrominance blocks in 64-sample tiles of the U and V planes.
   */
  function BlockOffset(addr: int, i: nat): (o: int)
    ensures i < 4 ==> 256 * addr <= o && o + 64 <= 256 * (addr + 1)
    ensures i >= 4 ==> 64 * addr <= o && o + 64 <= 64 * (addr + 1)
  {
    if i < 4 then addr * 256 + 64 * i else addr * 64
  }

  /** The plane block i is stored in. */
  function PlaneOf(p: Planes, i: nat): seq<byte>
  {
    if i < 4 then p.y else if i == 4 then p.u else p.v
  }

  /** The planes with the one block i is stored in replaced. */
  function WithPlane(p: Planes, i: nat, plane: seq<byte>): (r: Planes)
    ensures PlaneOf(r, i) == plane
  {
    if i < 4 then p.(y := plane) else if i == 4 then p.(u := plane) else p.(v := plane)
  }

  /** The planes have the given sizes. */
  predicate SameSizes(p: Planes, q: Planes)
  {
    |p.y| == |q.y| && |p.u| == |q.u| && |p.v| == |q.v|
  }

  /** The code, the slice header, the planes and the stream after the blocks. */
  datatype Blocks = Blocks(rc: Rc, slice: SliceHeader, planes: Planes, next: ReaderState)

  /**
   * The loop over the six blocks from block i on: the blocks the pattern
   * marks are decoded in order into their tiles; the first failure ends
   * the macroblock.
   */
  function BlocksSpec(s: ReaderState, env: Env, mb: MbHeader, slice: SliceHeader, picType: int,
                      planes: Planes, addr: int, i: nat): (r: Blocks)
    requires Good(s) && EnvOk(env) && i <= 6
    ensures Advances(s, r.next) && SameSizes(r.planes, planes)
    ensures r.rc == Ok || Failed(r.rc)
    decreases 6 - i, 1
  {
    if i == 6 then Blocks(Ok, slice, planes, s)
    else if !Coded(mb.codedBlockPattern, i) then BlocksSpec(s, env, mb, slice, picType, planes, addr, i + 1)
    else BlockStep(s, env, mb, slice, picType, planes, addr, i)
  }

  /** Block i, which the pattern marks, then the blocks after it unless it failed. */
  function BlockStep(s: ReaderState, env: Env, mb: MbHeader, slice: SliceHeader, picType: int,
                     planes: Planes, addr: int, i: nat): (r: Blocks)
    requires Good(s) && EnvOk(env) && i < 6
    ensures Advances(s, r.next) && SameSizes(r.planes, planes)
    ensures r.rc == Ok || Failed(r.rc)
    decreases 6 - i, 0
  {
    var b := BlockSpec(s, env, mb, slice, picType, i, PlaneOf(planes, i), BlockOffset(addr, i));
    var planes' := WithPlane(planes, i, b.plane);
    if Failed(b.rc) then Blocks(b.rc, b.slice, planes', b.next)
    else
      var r := BlocksSpec(b.next, env, mb, b.slice, picType, planes', addr, i + 1);
      AdvancesTrans(s, b.next, r.next);
      r
  }

  /** The arrays a macroblock writes: three planes, none of them the reader's buffer. */
  predicate Targets(pic: Picture, bs: BitReader)
  {
    pic.y != pic.u && pic.y != pic.v && pic.u != pic.v
    && pic.y != bs.buffer && pic.u != bs.buffer && pic.v != bs.buffer
  }

  method ReadBlocks(bs: BitReader, env: Env, mb: MbHeader, slice: SliceHeader, picType: int, pic: Picture, addr: int)
      returns (rc: Rc, slice': SliceHeader)
    requires bs.Valid() && EnvOk(env) && Targets(pic, bs)
    modifies bs, bs.buffer, pic.y, pic.u, pic.v
    ensures bs.Valid()
    ensures var r := BlocksSpec(old(bs.St()), env, mb, slice, picType, old(pic.Contents()), addr, 0);
      && (rc == Undefined <==> r.rc == Undefined)
      && (rc != Undefined ==> Blocks(rc, slice', pic.Contents(), bs.St()) == r)
  {
    slice' := slice;
    ghost var target := BlocksOf(bs.St(), env, mb, slice, picType, pic.Contents(), addr, 0);
    for i := 0 to 6
      invariant bs.Valid()
      invariant BlocksIs(bs.St(), env, mb, slice', picType, pic.Contents(), addr, i, target)
    {
      rc, slice' := BlockTurn(bs, env, mb, slice', picType, pic, addr, i, target);
      if Failed(rc) {
        return;
      }
    }
    assert BlocksSpec(bs.St(), env, mb, slice', picType, pic.Contents(), addr, 6) == Blocks(Ok, slice', pic.Contents(), bs.St());
    rc := Ok;
  }

  /** `r` is `BlocksSpec(s, ..., i)`, in a form that leaves `BlocksSpec` folded. */
  ghost predicate BlocksIs(s: ReaderState, env: Env, mb: MbHeader, slice: SliceHeader, picType: int,
                           planes: Planes, addr: int, i: nat, r: Blocks)
  {
    forall k {:trigger BlocksSpec(s, env, mb, slice, picType, planes, addr, k)} ::
      Same(k, i) && Good(s) && EnvOk(env) && k <= 6 ==> r == BlocksSpec(s, env, mb, slice, picType, planes, addr, k)
  }

  /** The blocks from block i on, as a value for `BlocksIs`. */
  lemma BlocksOf(s: ReaderState, env: Env, mb: MbHeader, slice: SliceHeader, picType: int,
                 planes: Planes, addr: int, i: nat) returns (r: Blocks)
    requires Good(s) && EnvOk(env) && i <= 6
    ensures BlocksIs(s, env, mb, slice, picType, planes, addr, i, r)
    ensures r == BlocksSpec(s, env, mb, slice, picType, planes, addr, i)
  {
    r := BlocksSpec(s, env, mb, slice, picType, planes, addr, i);
  }

  /** `BlocksSpec` at a block the pattern marks, from that block's outcome `b`. */
  lemma BlockStepOf(s: ReaderState, env: Env, mb: MbHeader, slice: SliceHeader, picType: int,
                    planes: Planes, addr: int, i: nat, b: BlockOut)
    requires Good(s) && EnvOk(env) && i < 6 && Coded(mb.codedBlockPattern, i)
    requires b == BlockSpec(s, env, mb, slice, picType, i, PlaneOf(planes, i), BlockOffset(addr, i))
    ensures Failed(b.rc) ==>
      BlocksSpec(s, env, mb, slice, picType, planes, addr, i) == Blocks(b.rc, b.slice, WithPlane(planes, i, b.plane), b.next)
    ensures !Failed(b.rc) ==>
      && Good(b.next)
      && BlocksSpec(s, env, mb, slice, picType, planes, addr, i)
         == BlocksSpec(b.next, env, mb, b.slice, picType, WithPlane(planes, i, b.plane), addr, i + 1)
  {
    assert BlocksSpec(s, env, mb, slice, picType, planes, addr, i) == BlockStep(s, env, mb, slice, picType, planes, addr, i);
  }

  /** Block i of the loop of `ReadBlocks`: read if the pattern marks it; a failure is the macroblock's. */
  method BlockTurn(bs: BitReader, env: Env, mb: MbHeader, slice: SliceHeader, picType: int, pic: Picture, addr: int, i: nat,
                   ghost target: Blocks) returns (rc: Rc, slice': SliceHeader)
    requires bs.Valid() && EnvOk(env) && Targets(pic, bs) && i < 6
    requires BlocksIs(bs.St(), env, mb, slice, picType, pic.Contents(), addr, i, target)
    modifies bs, bs.buffer, pic.y, pic.u, pic.v
    ensures bs.Valid()
    ensures Failed(rc) ==> (rc == Undefined <==> target.rc == Undefined)
    ensures Failed(rc) && rc != Undefined ==> Blocks(rc, slice', pic.Contents(), bs.St()) == target
    ensures !Failed(rc) ==> BlocksIs(bs.St(), env, mb, slice', picType, pic.Contents(), addr, i + 1, target)
  {
    ghost var s, planes := bs.St(), pic.Contents();
    bs.ValidGood();
    assert target == BlocksSpec(s, env, mb, slice, picType, planes, addr, i);
    rc, slice' := Ok, slice;
    if Coded(mb.codedBlockPattern, i) {
      rc, slice' := ReadBlockInto(bs, env, mb, slice, picType, pic, addr, i);
      BlockStepOf(s, env, mb, slice, picType, planes, addr, i,
                  BlockSpec(s, env, mb, slice, picType, i, PlaneOf(planes, i), BlockOffset(addr, i)));
    }
    if !Failed(rc) {
      bs.ValidGood();
      ghost var rest := BlocksOf(bs.St(), env, mb, slice', picType, pic.Contents(), addr, i + 1);
    }
  }

  /** One coded block, stored into its plane. */
  method ReadBlockInto(bs: BitReader, env: Env, mb: MbHeader, slice: SliceHeader, picType: int, pic: Picture, addr: int, i: nat)
      returns (rc: Rc, slice': SliceHeader)
    requires bs.Valid() && EnvOk(env) && Targets(pic, bs) && i < 6
    modifies bs, bs.buffer, pic.y, pic.u, pic.v
    ensures bs.Valid()
    ensures var b := BlockSpec(old(bs.St()), env, mb, slice, picType, i, PlaneOf(old(pic.Contents()), i), BlockOffset(addr, i));
      && (rc == Undefined <==> b.rc == Undefined)
      && (rc != Undefined ==> rc == b.rc && slice' == b.slice && bs.St() == b.next
                              && pic.Contents() == WithPlane(old(pic.Contents()), i, b.plane))
  {
    var plane := if i < 4 then pic.y else if i == 4 then pic.u else pic.v;
    rc, slice' := ReadCodedBlock(bs, env, mb, slice, picType, i, plane, BlockOffset(addr, i));
  }

  // ---------------------------------------------------------------------
  // mpg1_read_mb
  // ---------------------------------------------------------------------

  /** The code, the slice header, the macroblock header, the planes and the stream after a macroblock. */
  datatype MbOut = MbOut(rc: Rc, slice: SliceHeader, mb: MbHeader, planes: Planes, next: ReaderState)

  /**
   * `mpg1_read_mb(dec, pic, slice, mb, mb_address, Y + base * 256, U + base * 64, V + base * 64)`
   * with `base + mb_address` written `base` here: the header, then the
   * rest of the macroblock.
   */
  function MbSpec(s: ReaderState, env: Env, hdr: PictureHeader, slice: SliceHeader, mb: MbHeader,
                  base: int, planes: Planes): (r: MbOut)
    requires Good(s) && EnvOk(env)
    ensures Advances(s, r.next) && SameSizes(r.planes, planes)
    ensures r.rc == Ok || Failed(r.rc)
    ensures r.rc == Ok ==> KnownFrameType(hdr.frameType)
    ensures r.rc == Ok && hdr.frameType == FrameTypeI ==> r.mb.addressIncrement == 1
  {
    var h := HeadSpec(s, env, hdr.frameType, slice, mb);
    if h.rc != Ok then MbOut(h.rc, h.slice, h.mb, planes, h.next)
    else
      var r := BodySpec(h.next, env, hdr, h.slice, h.mb, base, planes);
      AdvancesTrans(s, h.next, r.next);
      r
  }

  /**
   * After the header: the motion vectors and the pattern, the blocks of
   * the macroblock at `base` plus the address increment, and in D pictures
   * an end bit that must be 1 (the code of that read is ignored).
   */
  function BodySpec(s: ReaderState, env: Env, hdr: PictureHeader, slice: SliceHeader, mb: MbHeader,
                    base: int, planes: Planes): (r: MbOut)
    requires Good(s) && EnvOk(env)
    ensures Advances(s, r.next) && SameSizes(r.planes, planes)
    ensures r.rc == Ok || Failed(r.rc)
    ensures r.mb.addressIncrement == mb.addressIncrement
  {
    var c := CodingSpec(s, env, hdr, mb);
    if Failed(c.rc) then MbOut(c.rc, slice, c.mb, planes, c.next)
    else
      var r := TailSpec(c.next, env, hdr.frameType, slice, c.mb, base, planes);
      AdvancesTrans(s, c.next, r.next);
      r
  }

  /** The address of a macroblock: the one before it plus its increment. */
  function MbAddress(base: int, mb: MbHeader): (a: int)
    ensures mb.addressIncrement >= 1 ==> a > base
  {
    base + mb.addressIncrement
  }

  /** The blocks of the macroblock at `base` plus its address increment, and the end bit of D pictures. */
  function TailSpec(s: ReaderState, env: Env, frameType: int, slice: SliceHeader, mb: MbHeader,
                    base: int, planes: Planes): (r: MbOut)
    requires Good(s) && EnvOk(env)
    ensures Advances(s, r.next) && SameSizes(r.planes, planes)
    ensures r.rc == Ok || Failed(r.rc)
    ensures r.mb == mb
  {
    var b := BlocksSpec(s, env, mb, slice, frameType, planes, MbAddress(base, mb), 0);
    if Failed(b.rc) then MbOut(b.rc, b.slice, mb, b.planes, b.next)
    else if frameType == FrameTypeD then
      var e := ReadSpec(b.next, 1);
      StepAdvances(b.next, 1);
      AdvancesTrans(s, b.next, e.next);
      MbOut(if e.value != 1 then InvalidData else Ok, b.slice, mb, b.planes, e.next)
    else MbOut(Ok, b.slice, mb, b.planes, b.next)
  }

  method ReadMb(bs: BitReader, env: Env, pic: Picture, slice: SliceHeader, mb: MbHeader, base: int)
      returns (rc: Rc, slice': SliceHeader, mb': MbHeader)
    requires bs.Valid() && EnvOk(env) && Targets(pic, bs)
    modifies bs, bs.buffer, pic.y, pic.u, pic.v
    ensures bs.Valid()
    ensures var r := MbSpec(old(bs.St()), env, pic.hdr, slice, mb, base, old(pic.Contents()));
      && (rc == Undefined <==> r.rc == Undefined)
      && (rc != Undefined ==> MbOut(rc, slice', mb', pic.Contents(), bs.St()) == r)
  {
    rc, slice', mb' := ReadHead(bs, env, pic.hdr.frameType, slice, mb);
    if rc != Ok {
      return;
    }
    rc, slice', mb' := ReadBody(bs, env, pic.hdr, pic, slice', mb', base);
  }

  method ReadBody(bs: BitReader, env: Env, hdr: PictureHeader, pic: Picture, slice: SliceHeader, mb: MbHeader, base: int)
      returns (rc: Rc, slice': SliceHeader, mb': MbHeader)
    requires bs.Valid() && EnvOk(env) && Targets(pic, bs)
    modifies bs, bs.buffer, pic.y, pic.u, pic.v
    ensures bs.Valid()
    ensures var r := BodySpec(old(bs.St()), env, hdr, slice, mb, base, old(pic.Contents()));
      && (rc == Undefined <==> r.rc == Undefined)
      && (rc != Undefined ==> MbOut(rc, slice', mb', pic.Contents(), bs.St()) == r)
  {
    slice' := slice;
    rc, mb' := ReadCoding(bs, env, hdr, mb);
    if Failed(rc) {
      return;
    }
    rc, slice' := ReadTail(bs, env, hdr.frameType, slice, mb', pic, base);
  }

  method ReadTail(bs: BitReader, env: Env, frameType: int, slice: SliceHeader, mb: MbHeader, pic: Picture, base: int)
      returns (rc: Rc, slice': SliceHeader)
    requires bs.Valid() && EnvOk(env) && Targets(pic, bs)
    modifies bs, bs.buffer, pic.y, pic.u, pic.v
    ensures bs.Valid()
    ensures var r := TailSpec(old(bs.St()), env, frameType, slice, mb, base, old(pic.Contents()));
      && (rc == Undefined <==> r.rc == Undefined)
      && (rc != Undefined ==> MbOut(rc, slice', mb, pic.Contents(), bs.St()) == r)
  {
    rc, slice' := ReadBlocks(bs, env, mb, slice, frameType, pic, MbAddress(base, mb));
    if Failed(rc) {
      return;
    }
    if frameType == FrameTypeD {
      var bit, _ := bs.ReadBits(1);
      if bit != 1 {
        return InvalidData, slice';
      }
    }
    rc := Ok;
  }
}
