// `mpg1_decode_picture` of codec/mpeg1dec.c: a zeroed picture, its header,
// then slice after slice, and within each slice macroblock after macroblock.
// A macroblock that fails ends the picture, which is then returned as it
// stands: the error is not passed on.

module Mpeg1Picture {
  import opened MmfUtil
  import opened Bitstream
  import opened Mpeg1Tables
  import opened Mpeg1Headers
  import opened Mpeg1Stream
  import opened Mpeg1Block
  import opened Mpeg1Frame
  import opened Mpeg1Macroblock
  import CInt

  // ---------------------------------------------------------------------
  // Progress of the headers the loops read
  // ---------------------------------------------------------------------

  /** At least n bits are buffered after the cursor. */
  predicate Buffered(s: ReaderState, n: nat)
  {
    s.readBitIndex + n <= |s.data| * 8
  }

  /** A slice header moves the stream forward, by at least its 32-bit start code when that can be read. */
  lemma SliceHeaderAdvances(s: ReaderState)
    requires Good(s)
    ensures Advances(s, SliceHeaderSpec(s).next)
    ensures Buffered(s, 32) ==> SliceHeaderSpec(s).next.readBitIndex >= s.readBitIndex + 32
  {
    if Buffered(s, 32) {
      BufferedRead(s, 32);
    }
    var code := ReadSpec(s, 32);
    StepAdvances(s, 32);
    var quant := ReadSpec(code.next, 5);
    StepAdvances(code.next, 5);
    var e := SliceExtra(quant.next);
    StepAdvances(e, 1);
  }

  /** The start-code search moves the stream forward. */
  lemma NextStartCodeAdvances(s: ReaderState)
    requires Good(s)
    ensures Advances(s, NextStartCodeSpec(s).next)
  {
    AlignAdvances(s);
    var a := AlignSpec(s).next;
    AdvancesTrans(s, a, ScanStartCode(a).next);
  }

  /** The byte alignment moves the stream forward. */
  lemma AlignAdvances(s: ReaderState)
    requires Good(s)
    ensures Advances(s, AlignSpec(s).next)
  {
    if s.readBitIndex % 8 != 0 {
      StepAdvances(s, 8 - s.readBitIndex % 8);
    }
  }

  /** What moving forward does to the bits left: they shrink by the distance moved. */
  lemma AdvanceLeft(s: ReaderState, t: ReaderState)
    requires Good(s) && Advances(s, t)
    ensures 0 <= Left(t) == Left(s) - (t.readBitIndex - s.readBitIndex)
  {
  }

  // ---------------------------------------------------------------------
  // The macroblocks of a slice
  // ---------------------------------------------------------------------

  /**
   * How the macroblocks of a slice end: `Ended` when the 23-bit peek after
   * a macroblock gives 0, `Abandoned(rc)` when a macroblock fails with rc
   * (`goto success` in the C).
   */
  datatype Exit = Ended | Abandoned(rc: Rc)

  /** The exit, the planes and the stream after the macroblocks of a slice. */
  datatype SliceEnd = SliceEnd(exit: Exit, planes: Planes, next: ReaderState)

  /** The exit that stands for undefined behaviour. */
  predicate Aborted(e: Exit)
  {
    e.Abandoned? && e.rc == Undefined
  }

  /** The address of the macroblock before the first one of slice `row`: `row * mb_width` plus `mb_address = -1`. */
  function SliceBase(row: int, mbWidth: int): (b: int)
    ensures 0 <= row && 0 < mbWidth ==> (b + 1) % mbWidth == 0 && (b + 1) / mbWidth == row
  {
    if 0 <= row && 0 < mbWidth then
      CInt.DivUnique(row * mbWidth, mbWidth, row, 0);
      row * mbWidth - 1
    else row * mbWidth - 1
  }

  /**
   * The `do … while (bitstream_peek_bits(bs, 23, &rc) != 0)` loop over the
   * macroblocks of a slice, from the macroblock after the one at `base`.
   * The macroblock header `mb` and the slice header carry over from one
   * macroblock to the next.  The check of `rc` at the top of the loop never
   * fires: the first time it holds the slice header's OK, later the code of
   * a peek that returned a nonzero value, which is OK.  A macroblock that
   * succeeds without reading a bit, with more to come, stops the model
   * with `Undefined`: the loop would go on from the same position.
   */
  function MbLoop(s: ReaderState, env: Env, hdr: PictureHeader, slice: SliceHeader, mb: MbHeader,
                  base: int, planes: Planes): (r: SliceEnd)
    requires Good(s) && EnvOk(env)
    ensures Advances(s, r.next) && SameSizes(r.planes, planes)
    ensures r.exit.Abandoned? ==> Failed(r.exit.rc)
    decreases Left(s)
  {
    var m := MbSpec(s, env, hdr, slice, mb, base, planes);
    if m.rc != Ok then SliceEnd(Abandoned(m.rc), m.planes, m.next)
    else
      var p := PeekSpec(m.next, 23);
      StepAdvances(m.next, 23);
      AdvancesTrans(s, m.next, p.next);
      if p.value == 0 then SliceEnd(Ended, m.planes, p.next)
      else if p.next.readBitIndex == s.readBitIndex then SliceEnd(Abandoned(Undefined), m.planes, p.next)
      else
        var r := MbLoop(p.next, env, hdr, m.slice, m.mb, MbAddress(base, m.mb), m.planes);
        AdvancesTrans(s, p.next, r.next);
        r
  }

  method ReadMacroblocks(bs: BitReader, env: Env, pic: Picture, slice: SliceHeader, base: int) returns (exit: Exit)
    requires bs.Valid() && EnvOk(env) && Targets(pic, bs)
    modifies bs, bs.buffer, pic.y, pic.u, pic.v
    ensures bs.Valid()
    ensures var r := MbLoop(old(bs.St()), env, pic.hdr, slice, BlankMbHeader, base, old(pic.Contents()));
      && (Aborted(exit) <==> Aborted(r.exit))
      && (!Aborted(exit) ==> SliceEnd(exit, pic.Contents(), bs.St()) == r)
  {
    var slice', mb, base' := slice, BlankMbHeader, base;
    bs.ValidGood();
    ghost var target := MbLoopOf(bs.St(), env, pic.hdr, slice, mb, base, pic.Contents());
    while true
      invariant bs.Valid()
      invariant MbLoopIs(bs.St(), env, pic.hdr, slice', mb, base', pic.Contents(), target)
      decreases Left(bs.St())
    {
      var done;
      done, exit, slice', mb, base' := MbTurn(bs, env, pic, slice', mb, base', target);
      if done {
        return;
      }
    }
  }

  /** `r` is `MbLoop(s, ...)`, in a form that leaves `MbLoop` folded. */
  ghost predicate MbLoopIs(s: ReaderState, env: Env, hdr: PictureHeader, slice: SliceHeader, mb: MbHeader,
                           base: int, planes: Planes, r: SliceEnd)
  {
    forall b {:trigger MbLoop(s, env, hdr, slice, mb, b, planes)} ::
      Same(b, base) && Good(s) && EnvOk(env) ==> r == MbLoop(s, env, hdr, slice, mb, b, planes)
  }

  /** The macroblocks from `s` on, as a value for `MbLoopIs`. */
  lemma MbLoopOf(s: ReaderState, env: Env, hdr: PictureHeader, slice: SliceHeader, mb: MbHeader,
                 base: int, planes: Planes) returns (r: SliceEnd)
    requires Good(s) && EnvOk(env)
    ensures MbLoopIs(s, env, hdr, slice, mb, base, planes, r)
    ensures r == MbLoop(s, env, hdr, slice, mb, base, planes)
  {
    r := MbLoop(s, env, hdr, slice, mb, base, planes);
  }

  /**
   * One pass of the loop of `ReadMacroblocks`: a macroblock and the 23-bit
   * peek after it; either the slice ends here or the macroblocks left
   * still end in `target`.
   */
  method MbTurn(bs: BitReader, env: Env, pic: Picture, slice: SliceHeader, mb: MbHeader, base: int, ghost target: SliceEnd)
      returns (done: bool, exit: Exit, slice': SliceHeader, mb': MbHeader, base': int)
    requires bs.Valid() && EnvOk(env) && Targets(pic, bs)
    requires MbLoopIs(bs.St(), env, pic.hdr, slice, mb, base, pic.Contents(), target)
    modifies bs, bs.buffer, pic.y, pic.u, pic.v
    ensures bs.Valid()
    ensures done ==> (Aborted(exit) <==> Aborted(target.exit))
    ensures done && !Aborted(exit) ==> SliceEnd(exit, pic.Contents(), bs.St()) == target
    ensures !done ==> Left(bs.St()) < Left(old(bs.St()))
    ensures !done ==> MbLoopIs(bs.St(), env, pic.hdr, slice', mb', base', pic.Contents(), target)
  {
    ghost var s, planes := bs.St(), pic.Contents();
    bs.ValidGood();
    assert target == MbLoop(s, env, pic.hdr, slice, mb, base, planes);
    var before := bs.readBitIndex;
    var rc;
    done, exit, base' := true, Ended, base;
    rc, slice', mb' := ReadMb(bs, env, pic, slice, mb, base);
    ghost var m := MbSpec(s, env, pic.hdr, slice, mb, base, planes);
    if rc != Ok {
      MbLoopFails(s, env, pic.hdr, slice, mb, base, planes, m);
      return true, Abandoned(rc), slice', mb', base;
    }
    base' := MbAddress(base, mb');
    done, exit := PeekMore(bs, env, pic.hdr, before, s, slice, mb, base, planes, m, base', target);
  }

  /**
   * The second half of `MbTurn`: after the macroblock `m`, the slice goes on
   * unless the next 23 bits are zero or the macroblock consumed nothing.
   */
  method PeekMore(bs: BitReader, env: Env, hdr: PictureHeader, before: int, ghost s: ReaderState, slice: SliceHeader,
                  mb: MbHeader, base: int, ghost planes: Planes, ghost m: MbOut, base': int, ghost target: SliceEnd)
      returns (done: bool, exit: Exit)
    requires bs.Valid() && Good(s) && EnvOk(env) && before == s.readBitIndex
    requires m == MbSpec(s, env, hdr, slice, mb, base, planes) && m.rc == Ok && bs.St() == m.next
    requires base' == MbAddress(base, m.mb) && target == MbLoop(s, env, hdr, slice, mb, base, planes)
    modifies bs, bs.buffer
    ensures bs.Valid()
    ensures done ==> SliceEnd(exit, m.planes, bs.St()) == target
    ensures !done ==> Left(bs.St()) < Left(s)
    ensures !done ==> MbLoopIs(bs.St(), env, hdr, m.slice, m.mb, base', m.planes, target)
  {
    bs.ValidGood();
    ghost var t := bs.St();
    var more, _ := bs.PeekBits(23);
    MbLoopGoes(s, env, hdr, slice, mb, base, planes, m, PeekSpec(t, 23));
    if more == 0 {
      return true, Ended;
    }
    if bs.readBitIndex == before {
      return true, Abandoned(Undefined);
    }
    done, exit := false, Ended;
    bs.ValidGood();
    ghost var rest := MbLoopOf(bs.St(), env, hdr, m.slice, m.mb, base', m.planes);
  }

  /** `MbLoop` when its first macroblock `m` fails. */
  lemma MbLoopFails(s: ReaderState, env: Env, hdr: PictureHeader, slice: SliceHeader, mb: MbHeader,
                    base: int, planes: Planes, m: MbOut)
    requires Good(s) && EnvOk(env) && m == MbSpec(s, env, hdr, slice, mb, base, planes) && m.rc != Ok
    ensures MbLoop(s, env, hdr, slice, mb, base, planes) == SliceEnd(Abandoned(m.rc), m.planes, m.next)
  {
  }

  /** `MbLoop` when its first macroblock `m` succeeds and the peek after it gives `p`. */
  lemma MbLoopGoes(s: ReaderState, env: Env, hdr: PictureHeader, slice: SliceHeader, mb: MbHeader,
                   base: int, planes: Planes, m: MbOut, p: Read)
    requires Good(s) && EnvOk(env) && m == MbSpec(s, env, hdr, slice, mb, base, planes) && m.rc == Ok
    requires Good(m.next) && p == PeekSpec(m.next, 23)
    ensures var r := MbLoop(s, env, hdr, slice, mb, base, planes);
      && Good(p.next) && p.next.readBitIndex == m.next.readBitIndex
      && (p.value == 0 ==> r == SliceEnd(Ended, m.planes, p.next))
      && (p.value != 0 && p.next.readBitIndex == s.readBitIndex ==> r == SliceEnd(Abandoned(Undefined), m.planes, p.next))
      && (p.value != 0 && p.next.readBitIndex != s.readBitIndex ==>
            && Left(p.next) < Left(s)
            && r == MbLoop(p.next, env, hdr, m.slice, m.mb, MbAddress(base, m.mb), m.planes))
  {
    StepAdvances(m.next, 23);
    AdvancesTrans(s, m.next, p.next);
    AdvanceLeft(s, p.next);
  }

  // ---------------------------------------------------------------------
  // The slices of a picture
  // ---------------------------------------------------------------------

  /**
   * The outcome of a picture: the code, the header, the planes and the
   * stream after.  The picture is handed to the caller exactly when the
   * code is OK.
   */
  datatype Decoded = Decoded(rc: Rc, hdr: PictureHeader, planes: Planes, next: ReaderState)

  /**
   * The outcome of one pass of the loop over the slices: the code, whether
   * another slice follows, the planes and the stream after.
   */
  datatype Pass = Pass(rc: Rc, more: bool, planes: Planes, next: ReaderState)

  /**
   * One pass of the `do … while` loop over the slices: the slice header;
   * the macroblocks, whose failure ends the picture with OK (undefined
   * behaviour aborts); the start-code search, whose failure is returned;
   * a 32-bit peek, whose failure is returned; and another pass exactly
   * when the peeked value is a slice start code.  Another pass starts on
   * a start code that is buffered, so it will read 32 bits.
   */
  function SlicePass(s: ReaderState, env: Env, hdr: PictureHeader, mbWidth: int, planes: Planes): (r: Pass)
    requires Good(s) && EnvOk(env)
    ensures Advances(s, r.next) && SameSizes(r.planes, planes)
    ensures r.rc == Ok || Failed(r.rc)
    ensures r.more ==> r.rc == Ok && Buffered(r.next, 32)
    ensures Buffered(s, 32) ==> r.next.readBitIndex > s.readBitIndex
  {
    var sh := SliceHeaderSpec(s);
    SliceHeaderAdvances(s);
    var m := MbLoop(sh.next, env, hdr, sh.value, BlankMbHeader, SliceBase(sh.value.row, mbWidth), planes);
    AdvancesTrans(s, sh.next, m.next);
    if m.exit.Abandoned? then Pass(if m.exit.rc == Undefined then Undefined else Ok, false, m.planes, m.next)
    else
      var n := NextStartCodeSpec(m.next);
      NextStartCodeAdvances(m.next);
      AdvancesTrans(s, m.next, n.next);
      if Failed(n.rc) then Pass(n.rc, false, m.planes, n.next)
      else
        var p := PeekSpec(n.next, 32);
        StepAdvances(n.next, 32);
        AdvancesTrans(s, n.next, p.next);
        if Failed(p.rc) then Pass(p.rc, false, m.planes, p.next)
        else
          PeekThenRead(n.next, 32);
          Pass(Ok, SliceMinStartCode <= p.value <= SliceMaxStartCode, m.planes, p.next)
  }

  /**
   * The loop over the slices, pass after pass.  Every pass after the
   * first reads at least the 32 bits of its start code: that is what
   * makes the loop end.
   */
  function SlicesSpec(s: ReaderState, env: Env, hdr: PictureHeader, mbWidth: int, planes: Planes, first: bool): (r: Decoded)
    requires Good(s) && EnvOk(env)
    requires first || Buffered(s, 32)
    ensures Advances(s, r.next) && SameSizes(r.planes, planes) && r.hdr == hdr
    ensures r.rc == Ok || Failed(r.rc)
    decreases Left(s), if first then 1 else 0
  {
    var p := SlicePass(s, env, hdr, mbWidth, planes);
    if !p.more then Decoded(p.rc, hdr, p.planes, p.next)
    else
      AdvanceLeft(s, p.next);
      var r := SlicesSpec(p.next, env, hdr, mbWidth, p.planes, false);
      AdvancesTrans(s, p.next, r.next);
      r
  }

  /**
   * `d` is `SlicesSpec(s, ...)`, stated through the term
   * `SlicesSpec(t, ...)` so that a loop carrying it does not expand the
   * specification of a slice (see `DecodesTo`).
   */
  ghost predicate SlicesIs(s: ReaderState, env: Env, hdr: PictureHeader, mbWidth: int, planes: Planes, first: bool, d: Decoded)
  {
    forall t {:trigger SlicesSpec(t, env, hdr, mbWidth, planes, first)} ::
      Same(t, s) && Good(t) && EnvOk(env) && (first || Buffered(t, 32)) ==> d == SlicesSpec(t, env, hdr, mbWidth, planes, first)
  }

  /** `r` is `SlicePass(s, ...)`, in the same form. */
  ghost predicate PassIs(s: ReaderState, env: Env, hdr: PictureHeader, mbWidth: int, planes: Planes, r: Pass)
  {
    forall t {:trigger SlicePass(t, env, hdr, mbWidth, planes)} ::
      Same(t, s) && Good(t) && EnvOk(env) ==> r == SlicePass(t, env, hdr, mbWidth, planes)
  }

  lemma SlicesIsSpec(s: ReaderState, env: Env, hdr: PictureHeader, mbWidth: int, planes: Planes, first: bool, d: Decoded)
    requires Good(s) && EnvOk(env) && (first || Buffered(s, 32))
    ensures SlicesIs(s, env, hdr, mbWidth, planes, first, d) <==> d == SlicesSpec(s, env, hdr, mbWidth, planes, first)
  {
  }

  /**
   * A pass that goes on leaves what the loop decodes unchanged and reads
   * at least a start code, unless it was the first; one that stops gives
   * what the loop decodes.
   */
  lemma SlicesStep(s: ReaderState, env: Env, hdr: PictureHeader, mbWidth: int, planes: Planes, first: bool,
                   r: Pass, d: Decoded)
    requires Good(s) && EnvOk(env) && (first || Buffered(s, 32))
    requires SlicesIs(s, env, hdr, mbWidth, planes, first, d) && PassIs(s, env, hdr, mbWidth, planes, r)
    ensures Good(r.next) && Left(r.next) <= Left(s) && (!first ==> Left(r.next) < Left(s))
    ensures r.more ==> r.rc == Ok && Buffered(r.next, 32) && SlicesIs(r.next, env, hdr, mbWidth, r.planes, false, d)
    ensures !r.more ==> d == Decoded(r.rc, hdr, r.planes, r.next)
  {
    assert r == SlicePass(s, env, hdr, mbWidth, planes);
    assert d == SlicesSpec(s, env, hdr, mbWidth, planes, first);
    AdvanceLeft(s, r.next);
  }

  method DecodeSlices(bs: BitReader, env: Env, pic: Picture, mbWidth: int) returns (rc: Rc, ghost d: Decoded)
    requires bs.Valid() && EnvOk(env) && Targets(pic, bs)
    modifies bs, bs.buffer, pic.y, pic.u, pic.v
    ensures bs.Valid()
    ensures SlicesIs(old(bs.St()), env, pic.hdr, mbWidth, old(pic.Contents()), true, d)
    ensures && (rc == Undefined <==> d.rc == Undefined)
      && (rc != Undefined ==> rc == d.rc && pic.Contents() == d.planes && bs.St() == d.next)
  {
    ghost var first, hdr := true, pic.hdr;
    bs.ValidGood();
    d := SlicesOf(bs.St(), env, hdr, mbWidth, pic.Contents());
    while true
      invariant bs.Valid() && Good(bs.St())
      invariant first || Buffered(bs.St(), 32)
      invariant SlicesIs(bs.St(), env, hdr, mbWidth, pic.Contents(), first, d)
      invariant SlicesIs(old(bs.St()), env, hdr, mbWidth, old(pic.Contents()), true, d)
      decreases Left(bs.St()), if first then 1 else 0
    {
      ghost var s, planes := bs.St(), pic.Contents();
      var more;
      ghost var r;
      rc, more, r := DecodeSlice(bs, env, pic, mbWidth);
      SlicesStep(s, env, hdr, mbWidth, planes, first, r, d);
      if !more {
        return;
      }
      bs.ValidGood();
      first := false;
    }
  }

  /** What the loop over the slices decodes from `s`. */
  lemma SlicesOf(s: ReaderState, env: Env, hdr: PictureHeader, mbWidth: int, planes: Planes) returns (d: Decoded)
    requires Good(s) && EnvOk(env)
    ensures SlicesIs(s, env, hdr, mbWidth, planes, true, d)
  {
    d := SlicesSpec(s, env, hdr, mbWidth, planes, true);
  }

  /** One pass of the loop over the slices, as `SlicePass` states it. */
  method DecodeSlice(bs: BitReader, env: Env, pic: Picture, mbWidth: int) returns (rc: Rc, more: bool, ghost r: Pass)
    requires bs.Valid() && EnvOk(env) && Targets(pic, bs)
    modifies bs, bs.buffer, pic.y, pic.u, pic.v
    ensures bs.Valid()
    ensures PassIs(old(bs.St()), env, pic.hdr, mbWidth, old(pic.Contents()), r)
    ensures && (rc == Undefined <==> r.rc == Undefined)
      && (rc != Undefined ==> Pass(rc, more, pic.Contents(), bs.St()) == r)
    ensures more ==> rc == Ok
  {
    r := SlicePass(bs.St(), env, pic.hdr, mbWidth, pic.Contents());
    more := false;
    var _, slice := ReadSliceHeader(bs);
    var exit := ReadMacroblocks(bs, env, pic, slice, SliceBase(slice.row, mbWidth));
    if exit.Abandoned? {
      return if exit.rc == Undefined then Undefined else Ok, false, r;
    }
    rc := NextStartCode(bs);
    if Failed(rc) {
      return;
    }
    var nextBits;
    nextBits, rc := bs.PeekBits(32);
    if Failed(rc) {
      return;
    }
    more := SliceMinStartCode <= nextBits <= SliceMaxStartCode;
  }

  // ---------------------------------------------------------------------
  // mpg1_decode_picture
  // ---------------------------------------------------------------------

  /** The sizes in a sequence header: never negative, since every one is read from the stream or derived from such a value. */
  predicate SizesOk(h: SeqHeader)
  {
    h.width >= 0 && h.height >= 0 && h.mbWidth >= 0 && h.mbHeight >= 0
  }

  /**
   * `mpg1_decode_picture` for a sequence of `seqHdr.width` by `seqHdr.height`
   * samples: a zeroed picture, the picture header (its failure is
   * returned), then the slices.
   */
  function DecodePictureSpec(s: ReaderState, env: Env, seqHdr: SeqHeader): (r: Decoded)
    requires Good(s) && EnvOk(env) && SizesOk(seqHdr)
    ensures Advances(s, r.next)
    ensures r.rc == Ok || Failed(r.rc)
    ensures var (ySize, cSize) := PlaneSizes(seqHdr.width, seqHdr.height);
      |r.planes.y| == ySize && |r.planes.u| == cSize && |r.planes.v| == cSize
  {
    var (ySize, cSize) := PlaneSizes(seqHdr.width, seqHdr.height);
    PictureSpec(s, env, seqHdr.mbWidth, Planes(AllocZ(ySize), AllocZ(cSize), AllocZ(cSize)), None)
  }

  /**
   * The picture from `s` on, into the given planes: while `hdr` is None
   * the picture header is still to be read (its failure is returned);
   * then the slices.
   */
  function PictureSpec(s: ReaderState, env: Env, mbWidth: int, planes: Planes, hdr: Option<PictureHeader>): (r: Decoded)
    requires Good(s) && EnvOk(env)
    ensures Advances(s, r.next) && SameSizes(r.planes, planes)
    ensures r.rc == Ok || Failed(r.rc)
    decreases hdr.None?
  {
    if hdr.Some? then SlicesSpec(s, env, hdr.value, mbWidth, planes, true)
    else
      var ph := PictureHeaderSpec(s, BlankPictureHeader);
      PictureHeaderAdvances(s);
      if Failed(ph.rc) then Decoded(ph.rc, ph.value, planes, ph.next)
      else
        var r := PictureSpec(ph.next, env, mbWidth, planes, Some(ph.value));
        AdvancesTrans(s, ph.next, r.next);
        r
  }

  /** A picture header moves the stream forward. */
  lemma PictureHeaderAdvances(s: ReaderState)
    requires Good(s)
    ensures Advances(s, PictureHeaderSpec(s, BlankPictureHeader).next)
  {
    var f := PictureFields(s, BlankPictureHeader);
    FieldsAdvance(s, BlankPictureHeader);
    if f.rc == Ok {
      var t := f.next;
      var flag := PeekSpec(t, 1);
      var e := PictureExtra(DiscardSpec(flag.next, 1).next, flag.value);
      HeaderTailAdvances(t);
      assert PictureHeaderSpec(s, BlankPictureHeader).next == AlignSpec(e).next;
      AdvancesTrans(s, t, AlignSpec(e).next);
    }
  }

  /** The extra information and the alignment after the fixed fields move the stream forward. */
  lemma HeaderTailAdvances(t: ReaderState)
    requires Good(t)
    ensures var flag := PeekSpec(t, 1);
      Advances(t, AlignSpec(PictureExtra(DiscardSpec(flag.next, 1).next, flag.value)).next)
  {
    var flag := PeekSpec(t, 1);
    StepAdvances(t, 1);
    var d := DiscardSpec(flag.next, 1);
    StepAdvances(flag.next, 1);
    AdvancesTrans(t, flag.next, d.next);
    ExtraAlignAdvances(d.next, flag.value);
    AdvancesTrans(t, d.next, AlignSpec(PictureExtra(d.next, flag.value)).next);
  }

  /** The loop over the extra information, then the alignment, move the stream forward. */
  lemma ExtraAlignAdvances(d: ReaderState, bits: nat)
    requires Good(d)
    ensures Advances(d, AlignSpec(PictureExtra(d, bits)).next)
  {
    var e := PictureExtra(d, bits);
    ExtraAdvances(d, bits);
    AlignAdvances(e);
    AdvancesTrans(d, e, AlignSpec(e).next);
  }

  /** The fixed fields of a picture header move the stream forward. */
  lemma FieldsAdvance(s: ReaderState, h: PictureHeader)
    requires Good(s)
    ensures Advances(s, PictureFields(s, h).next)
  {
    var code := ReadSpec(s, 32);
    var temporal := ReadSpec(code.next, 10);
    TwoReadsAdvance(s, 32, 10);
    var ty := ReadSpec(temporal.next, 3);
    var vbv := ReadSpec(ty.next, 16);
    TwoReadsAdvance(temporal.next, 3, 16);
    StepAdvances(temporal.next, 3);
    AdvancesTrans(s, temporal.next, ty.next);
    AdvancesTrans(s, temporal.next, vbv.next);
    var fullPel := ReadSpec(vbv.next, 1);
    var fCode := ReadSpec(fullPel.next, 3);
    TwoReadsAdvance(vbv.next, 1, 3);
    AdvancesTrans(s, vbv.next, fCode.next);
    var bFullPel := ReadSpec(fCode.next, 1);
    TwoReadsAdvance(fCode.next, 1, 3);
    AdvancesTrans(s, fCode.next, ReadSpec(bFullPel.next, 3).next);
  }

  /** Two reads in a row move the stream forward. */
  lemma TwoReadsAdvance(s: ReaderState, a: nat, b: nat)
    requires Good(s) && a <= 32 && b <= 32
    ensures Advances(s, ReadSpec(s, a).next)
    ensures Advances(s, ReadSpec(ReadSpec(s, a).next, b).next)
  {
    StepAdvances(s, a);
    StepAdvances(ReadSpec(s, a).next, b);
  }

  /** The loop over the extra information of a picture moves the stream forward. */
  lemma {:induction false} ExtraAdvances(s: ReaderState, bits: nat)
    requires Good(s)
    ensures Advances(s, PictureExtra(s, bits))
    decreases Left(s) + (if bits != 0 then 1 else 0)
  {
    if bits != 0 {
      var d := DiscardSpec(s, 1);
      var b := ReadSpec(d.next, 8);
      var p := PeekSpec(b.next, 1);
      ExtraProgress(s);
      ExtraAdvances(p.next, p.value);
    }
  }

  /**
   * `mpg1_decode_picture`: a fresh picture, decoded from the stream.  The
   * ghost `d` is `DecodePictureSpec` of the stream (see `DecodesTo`); the
   * picture is returned only on success.
   */
  method DecodePicture(bs: BitReader, env: Env, seqHdr: SeqHeader) returns (rc: Rc, pic: Picture?, ghost d: Decoded)
    requires bs.Valid() && EnvOk(env) && SizesOk(seqHdr)
    modifies bs, bs.buffer
    ensures bs.Valid()
    ensures pic != null ==> fresh(pic) && fresh(pic.y) && fresh(pic.u) && fresh(pic.v) && pic.Valid()
    ensures DecodesTo(old(bs.St()), env, seqHdr, d) && (d.rc == Ok || Failed(d.rc))
    ensures && (rc == Undefined <==> d.rc == Undefined)
      && (rc != Undefined ==> rc == d.rc && bs.St() == d.next && (pic != null <==> rc == Ok)
                              && (pic != null ==> pic.hdr == d.hdr && pic.Contents() == d.planes))
  {
    d := DecodePictureSpec(bs.St(), env, seqHdr);
    var p := new Picture.Alloc(seqHdr.width, seqHdr.height);
    rc := DecodeInto(bs, env, p, seqHdr.mbWidth);
    pic := if rc == Ok then p else null;
  }

  /**
   * `d` is the picture decoded from `s` for a sequence with the header
   * `seqHdr`, that is `DecodePictureSpec(s, env, seqHdr)` (`DecodesToSpec`).
   * It is stated through the term `DecodePictureSpec(t, ...)` so that a
   * contract carrying it does not expand the whole decoding specification.
   */
  ghost predicate DecodesTo(s: ReaderState, env: Env, seqHdr: SeqHeader, d: Decoded)
  {
    forall t {:trigger DecodePictureSpec(t, env, seqHdr)} ::
      Same(t, s) && Good(t) && EnvOk(env) && SizesOk(seqHdr) ==> d == DecodePictureSpec(t, env, seqHdr)
  }

  lemma DecodesToSpec(s: ReaderState, env: Env, seqHdr: SeqHeader, d: Decoded)
    requires Good(s) && EnvOk(env) && SizesOk(seqHdr) && DecodesTo(s, env, seqHdr, d)
    ensures d == DecodePictureSpec(s, env, seqHdr)
  {
  }

  /** The header and the slices of a picture, read into `pic`. */
  method DecodeInto(bs: BitReader, env: Env, pic: Picture, mbWidth: int) returns (rc: Rc)
    requires bs.Valid() && EnvOk(env) && Targets(pic, bs) && pic.hdr == BlankPictureHeader
    modifies bs, bs.buffer, pic, pic.y, pic.u, pic.v
    ensures bs.Valid()
    ensures var r := PictureSpec(old(bs.St()), env, mbWidth, old(pic.Contents()), None);
      && (rc == Undefined <==> r.rc == Undefined)
      && (rc != Undefined ==> Decoded(rc, pic.hdr, pic.Contents(), bs.St()) == r)
  {
    var hdr;
    rc, hdr := ReadPictureHeader(bs, pic.hdr);
    pic.hdr := hdr;
    if Failed(rc) {
      return;
    }
    ghost var s, planes := bs.St(), pic.Contents();
    ghost var d;
    rc, d := DecodeSlices(bs, env, pic, mbWidth);
    SlicesIsSpec(s, env, hdr, mbWidth, planes, true, d);
  }
}
