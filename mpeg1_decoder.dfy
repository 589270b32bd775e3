// The driver of codec/mpeg1dec.c: the decoder context with its sequence
// and group headers and its two reference pictures, and
// `mpg1_decode_sample`, which reads the headers on its first call,
// validates the output sample, decodes one picture, adds the last
// reference picture to a P or B picture, copies the picture macroblock by
// macroblock into the sample's planes, and keeps I and P pictures as
// references.  The sample's planes are allocations described by a
// `Memory` (see mmfsample.dfy), so that the three planes of a YUV420P
// frame may share one allocation.

module Mpeg1Decoder {
  import opened MmfUtil
  import opened CInt
  import opened Bitstream
  import opened Mpeg1Tables
  import opened Mpeg1Headers
  import opened Mpeg1Frame
  import opened Mpeg1Picture
  import opened Mpeg1Macroblock
  import opened MmfSample

  // ---------------------------------------------------------------------
  // The headers read on the first call (lines 1133-1151)
  // ---------------------------------------------------------------------

  /** What the header part of `mpg1_decode_sample` leaves: a code, the two headers and the stream. */
  datatype Start = Start(rc: Rc, seqHdr: Option<SeqHeader>, group: Option<GroupHeader>, next: ReaderState)

  /** A sequence header read into a header with sizes keeps sizes: they are read as unsigned fields. */
  lemma SeqHeaderSizes(s: ReaderState, env: Env, h: SeqHeader)
    requires Good(s) && SizesOk(h)
    ensures SizesOk(SeqHeaderSpec(s, env, h).value)
  {
  }

  /**
   * A missing sequence header is read into a fresh, uninitialised block
   * (zeros here), which the decoder keeps even when the read fails; then,
   * unless that failed, a missing group header is read.
   */
  function StartSpec(s: ReaderState, env: Env, seqHdr: Option<SeqHeader>, group: Option<GroupHeader>): (r: Start)
    requires Good(s)
    ensures Good(r.next) && r.seqHdr.Some?
    ensures seqHdr.Some? ==> r.seqHdr == seqHdr
    ensures (seqHdr.None? || SizesOk(seqHdr.value)) ==> SizesOk(r.seqHdr.value)
    ensures !Failed(r.rc) ==> r.rc == Ok && r.group.Some?
  {
    if seqHdr.None? then
      var sh := SeqHeaderSpec(s, env, BlankSeqHeader);
      SeqHeaderSizes(s, env, BlankSeqHeader);
      if Failed(sh.rc) then Start(sh.rc, Some(sh.value), group, sh.next)
      else GroupStart(sh.next, Some(sh.value), group)
    else GroupStart(s, seqHdr, group)
  }

  /** The group-header part: a missing group header is read, whose reader always succeeds. */
  function GroupStart(s: ReaderState, seqHdr: Option<SeqHeader>, group: Option<GroupHeader>): (r: Start)
    requires Good(s)
    ensures Good(r.next) && r.rc == Ok && r.seqHdr == seqHdr && r.group.Some?
  {
    if group.None? then
      var g := GroupHeaderSpec(s);
      Start(g.rc, seqHdr, Some(g.value), g.next)
    else Start(Ok, seqHdr, group, s)
  }

  /** The group header read on the reader, if there is none yet. */
  method ReadGroupOn(bs: BitReader, ghost seqHdr: Option<SeqHeader>, group: Option<GroupHeader>) returns (rc: Rc, group': Option<GroupHeader>)
    requires bs.Valid()
    modifies bs, bs.buffer
    ensures bs.Valid()
    ensures Start(rc, seqHdr, group', bs.St()) == GroupStart(old(bs.St()), seqHdr, group)
  {
    bs.ValidGood();
    rc, group' := Ok, group;
    if group.None? {
      var g;
      rc, g := ReadGroupHeader(bs);
      group' := Some(g);
    }
  }

  /**
   * Headers are read once: once both are there, the header part reads
   * nothing, and a sequence header whose read failed is not read again.
   */
  lemma StartOnce(s: ReaderState, env: Env, seqHdr: Option<SeqHeader>, group: Option<GroupHeader>)
    requires Good(s)
    ensures var r := StartSpec(s, env, seqHdr, group);
      && (!Failed(r.rc) ==> StartSpec(r.next, env, r.seqHdr, r.group) == Start(Ok, r.seqHdr, r.group, r.next))
      && (seqHdr.Some? ==> r == GroupStart(s, seqHdr, group))
      && (seqHdr.Some? && group.Some? ==> r == Start(Ok, seqHdr, group, s))
  {
  }

  // ---------------------------------------------------------------------
  // Validation of the output sample (lines 1159-1168)
  // ---------------------------------------------------------------------

  /** The sample must have buffers, the sequence's size, and the YUV420P format. */
  function Validate(f: SampleFields, h: SeqHeader): (rc: Rc)
    ensures rc == Ok || rc == InvalidArg
    ensures rc == Ok <==> f.bufferCount != 0 && f.width == h.width && f.height == h.height && f.format == FormatYuv420p
  {
    if f.bufferCount == 0 || f.width != h.width || f.height != h.height then InvalidArg
    else if f.format != FormatYuv420p then InvalidArg
    else Ok
  }

  // ---------------------------------------------------------------------
  // Prediction (lines 1176-1182)
  // ---------------------------------------------------------------------

  /** P and B pictures are predicted from the last reference picture. */
  predicate Predicted(frameType: int)
  {
    frameType == FrameTypeP || frameType == FrameTypeB
  }

  /** The samples of a sequence: `width * height`. */
  function Pixels(h: SeqHeader): int
  {
    h.width * h.height
  }

  /**
   * The prediction step of `mpg1_decode_sample`: only P and B pictures are
   * predicted, from the last reference picture; without one, its planes
   * are read through a null pointer.
   */
  function PredictStep(planes: Planes, frameType: int, ref: Option<Planes>, pixels: int): (r: Prediction)
    ensures r.rc == Ok || r.rc == Undefined
    ensures r.rc != Ok ==> r.planes == planes
  {
    if !Predicted(frameType) then Prediction(Ok, planes)
    else if ref.None? then Prediction(Undefined, planes)
    else PredictSpec(planes, ref.value, frameType, pixels)
  }

  /** Pictures other than P and B pass unchanged; P and B ones are never rejected for their type. */
  lemma PredictStepCases(planes: Planes, frameType: int, ref: Option<Planes>, pixels: int)
    ensures var r := PredictStep(planes, frameType, ref, pixels);
      && (!Predicted(frameType) ==> r == Prediction(Ok, planes))
      && (Predicted(frameType) ==> (r.rc == Ok || r.rc == Undefined) && (ref.None? ==> r.rc == Undefined))
      && (r.rc == Ok && Predicted(frameType) ==>
            r.planes == PredictSpec(planes, ref.value, frameType, pixels).planes)
  {
  }

  // ---------------------------------------------------------------------
  // De-tiling (lines 1195-1236)
  // ---------------------------------------------------------------------

  /** Where the picture goes: the first three buffers of the sample and their strides. */
  datatype Target = Target(y: Region, u: Region, v: Region, yStride: int, uStride: int, vStride: int)

  /** The target of a sample; a null plane pointer has none. */
  function TargetOf(f: SampleFields): (t: Option<Target>)
    requires WellFormed(f)
    ensures t.Some? <==> f.data[0].Some? && f.data[1].Some? && f.data[2].Some?
    ensures t.Some? ==> t.value.y == f.data[0].value && t.value.u == f.data[1].value && t.value.v == f.data[2].value
  {
    if f.data[0].None? || f.data[1].None? || f.data[2].None? then None
    else Some(Target(f.data[0].value, f.data[1].value, f.data[2].value, f.stride[0], f.stride[1], f.stride[2]))
  }

  /** The allocations of the target are described by `m`. */
  predicate InMemory(m: Memory, t: Target)
  {
    t.y.block in m && t.u.block in m && t.v.block in m
  }

  /** `memcpy(to, plane + from, 8)` from a picture plane, which is never a sample allocation. */
  function Copy8(m: Option<Memory>, to: Region, plane: seq<byte>, from: int): (r: Option<Memory>)
    requires m.Some? ==> to.block in m.value
    ensures r.Some? <==> m.Some? && Inside(m.value, to, 8) && 0 <= from && from + 8 <= |plane|
    ensures r.Some? ==> r.value.Keys == m.value.Keys
  {
    if m.None? || !Inside(m.value, to, 8) || from < 0 || from + 8 > |plane| then None
    else Some(m.value[to.block := Splice(m.value[to.block], to.offset, plane[from..from + 8])])
  }

  /** The copied line holds the 8 plane samples; every other byte is unchanged. */
  lemma Copy8Contents(m: Memory, to: Region, plane: seq<byte>, from: int)
    requires to.block in m && Copy8(Some(m), to, plane, from).Some?
    ensures var r := Copy8(Some(m), to, plane, from).value;
      && |r[to.block]| == |m[to.block]|
      && forall q | 0 <= q < |m[to.block]| ::
           r[to.block][q] == if to.offset <= q < to.offset + 8 then plane[from + q - to.offset] else m[to.block][q]
  {
    SpliceContents(m[to.block], to.offset, plane[from..from + 8]);
  }

  /** Line j of quarter k (0 top left, 1 top right, 2 bottom left, 3 bottom right) of a luma macroblock at `dst`. */
  function LumaDst(dst: Region, stride: int, j: int, k: int): (r: Region)
    ensures r.block == dst.block
    ensures 0 <= k < 4 ==> r.offset == dst.offset + (j + 8 * (k / 2)) * stride + 8 * (k % 2)
  {
    Offset(dst, (if k >= 2 then j + 8 else j) * stride + (if k % 2 == 1 then 8 else 0))
  }

  /** Line j of 8x8 block k of the macroblock whose samples start at `base`. */
  function LumaSrc(base: int, j: int, k: int): int
  {
    base + 64 * k + 8 * j
  }

  /** Line j of the four luma blocks (the four `memcpy`s of lines 1216-1219). */
  function LumaLine(m: Option<Memory>, dst: Region, stride: int, plane: seq<byte>, base: int, j: int): (r: Option<Memory>)
    requires m.Some? ==> dst.block in m.value
    ensures r.Some? ==> m.Some? && r.value.Keys == m.value.Keys
  {
    var m1 := Copy8(m, LumaDst(dst, stride, j, 0), plane, LumaSrc(base, j, 0));
    var m2 := Copy8(m1, LumaDst(dst, stride, j, 1), plane, LumaSrc(base, j, 1));
    var m3 := Copy8(m2, LumaDst(dst, stride, j, 2), plane, LumaSrc(base, j, 2));
    Copy8(m3, LumaDst(dst, stride, j, 3), plane, LumaSrc(base, j, 3))
  }

  /** Line j of a chroma block at `dst`. */
  function ChromaDst(dst: Region, stride: int, j: int): Region
  {
    Offset(dst, j * stride)
  }

  /** Line j of the chroma block whose samples start at `base`. */
  function ChromaSrc(base: int, j: int): int
  {
    base + 8 * j
  }

  /** Line j of the U block, then of the V block (lines 1231-1232). */
  function ChromaLine(m: Option<Memory>, t: Target, u: Region, v: Region, planes: Planes, base: int, j: int): (r: Option<Memory>)
    requires m.Some? ==> u.block in m.value && v.block in m.value
    ensures r.Some? ==> m.Some? && r.value.Keys == m.value.Keys
  {
    var m1 := Copy8(m, ChromaDst(u, t.uStride, j), planes.u, ChromaSrc(base, j));
    Copy8(m1, ChromaDst(v, t.vStride, j), planes.v, ChromaSrc(base, j))
  }

  /** The column of macroblock i: `(i * 16) % width`. */
  function TileX(i: nat, width: nat): (x: nat)
    requires width > 0
    ensures x < width
  {
    (i * 16) % width
  }

  /** The row of macroblock i: `((i * 16) / width) * 16`. */
  function TileY(i: nat, width: nat): (y: nat)
    requires width > 0
    ensures y % 16 == 0 && (y / 16) * width + TileX(i, width) == i * 16
  {
    var row := (i * 16) / width;
    assert (row * 16) / 16 == row;
    row * 16
  }

  /** Where the luma of macroblock i goes: `data[0] + y * stride[0] + x`. */
  function LumaOrigin(t: Target, i: nat, width: nat): Region
    requires width > 0
  {
    Offset(t.y, TileY(i, width) * t.yStride + TileX(i, width))
  }

  /** Where a chroma block of macroblock i goes: `data[k] + y * stride[k] / 2 + x / 2`, the division truncating. */
  function ChromaOrigin(r: Region, stride: int, i: nat, width: nat): (o: Region)
    requires width > 0
    ensures o.block == r.block
    ensures stride >= 0 ==> o.offset == r.offset + (TileY(i, width) / 2) * stride + TileX(i, width) / 2
  {
    var y := TileY(i, width);
    if stride >= 0 then
      HalfRows(y, stride);
      Offset(r, TruncDiv(y * stride, 2) + TileX(i, width) / 2)
    else Offset(r, TruncDiv(y * stride, 2) + TileX(i, width) / 2)
  }

  /** Halving an even row times a non-negative stride truncates nothing. */
  lemma HalfRows(y: nat, stride: int)
    requires y % 2 == 0 && stride >= 0
    ensures TruncDiv(y * stride, 2) == (y / 2) * stride
  {
    var h := y / 2;
    assert y * stride == 2 * (h * stride) by {
      assert y == 2 * h;
      assert (2 * h) * stride == 2 * (h * stride);
    }
    DivUnique(y * stride, 2, h * stride, 0);
  }

  /** Where the samples of macroblock i start in the Y plane (256 of them) and in the U and V planes (64). */
  function LumaBase(i: int): int { i * 256 }

  function ChromaBase(i: int): int { i * 64 }

  /*
   * The copy is one recursion over the macroblocks i from 0 to count - 1
   * and, inside each, over the lines j of its luma blocks and then of its
   * chroma blocks; each function is the whole rest of the copy from its
   * point on.
   */

  /** Macroblocks i to count - 1 copied into the target; a zero width divides by zero. */
  function Tiles(m: Option<Memory>, planes: Planes, t: Target, width: nat, count: int, i: nat): (r: Option<Memory>)
    requires m.Some? ==> InMemory(m.value, t)
    ensures r.Some? ==> m.Some? && r.value.Keys == m.value.Keys
    decreases count - i, 2, 0
  {
    if m.None? || i >= count then m
    else if width == 0 then None
    else LumaRows(m, planes, t, width, count, i, 0)
  }

  /** Lines j to 7 of the luma blocks of macroblock i (lines 1214-1220), then the rest. */
  function LumaRows(m: Option<Memory>, planes: Planes, t: Target, width: nat, count: int, i: nat, j: nat): (r: Option<Memory>)
    requires width > 0 && i < count
    requires m.Some? ==> InMemory(m.value, t)
    ensures r.Some? ==> m.Some? && r.value.Keys == m.value.Keys
    decreases count - i, 1, 8 - j
  {
    if m.None? then m
    else if j >= 8 then ChromaRows(m, planes, t, width, count, i, 0)
    else LumaRows(LumaLine(m, LumaOrigin(t, i, width), t.yStride, planes.y, LumaBase(i), j), planes, t, width, count, i, j + 1)
  }

  /** Lines j to 7 of the chroma blocks of macroblock i (lines 1229-1235), then the macroblocks after it. */
  function ChromaRows(m: Option<Memory>, planes: Planes, t: Target, width: nat, count: int, i: nat, j: nat): (r: Option<Memory>)
    requires width > 0 && i < count
    requires m.Some? ==> InMemory(m.value, t)
    ensures r.Some? ==> m.Some? && r.value.Keys == m.value.Keys
    decreases count - i, 0, 8 - j
  {
    if m.None? then m
    else if j >= 8 then Tiles(m, planes, t, width, count, i + 1)
    else
      var next := ChromaLine(m, t, ChromaOrigin(t.u, t.uStride, i, width), ChromaOrigin(t.v, t.vStride, i, width),
                             planes, ChromaBase(i), j);
      ChromaRows(next, planes, t, width, count, i, j + 1)
  }

  /** The blocks of a sample's first three planes are described by `m`. */
  predicate TargetIn(m: Memory, f: SampleFields)
    requires WellFormed(f)
  {
    InAt(m, f.data[0]) && InAt(m, f.data[1]) && InAt(m, f.data[2])
  }

  /** A plane pointer of a sample, if not null, points into an allocation `m` describes. */
  predicate InAt(m: Memory, r: Option<Region>)
  {
    r.Some? ==> r.value.block in m
  }

  /**
   * The de-tiling loop: `count` macroblocks copied into the sample's
   * planes; a null plane pointer is undefined once anything is copied.
   */
  function DetileSpec(m: Memory, planes: Planes, f: SampleFields, width: nat, count: int): (r: Option<Memory>)
    requires WellFormed(f) && TargetIn(m, f)
    ensures r.Some? ==> r.value.Keys == m.Keys
  {
    if count <= 0 then Some(m)
    else
      var t := TargetOf(f);
      if t.None? then None
      else
        assert f.data[0].Some? && f.data[1].Some? && f.data[2].Some?;
        Tiles(Some(m), planes, t.value, width, count, 0)
  }

  /**
   * When the width is a whole number of macroblocks, macroblock i lands
   * at the raster position of macroblock column i % mbWidth and row
   * i / mbWidth.
   */
  lemma TilePosition(i: nat, mbWidth: nat)
    requires mbWidth > 0
    ensures TileX(i, 16 * mbWidth) == 16 * (i % mbWidth)
    ensures TileY(i, 16 * mbWidth) == 16 * (i / mbWidth)
  {
    var q, r := i / mbWidth, i % mbWidth;
    assert i * 16 == q * (16 * mbWidth) + 16 * r;
    DivMod(i * 16, 16 * mbWidth, q, 16 * r);
  }

  /** Euclidean division is unique. */
  lemma DivMod(a: int, d: int, q: int, r: int)
    requires d > 0 && a == q * d + r && 0 <= r < d
    ensures a / d == q && a % d == r
  {
    var k := a / d - q;
    assert k * d == r - a % d;
    MultipleInRange(k, d);
  }

  /** The only multiple of d strictly between -d and d is 0. */
  lemma MultipleInRange(k: int, d: int)
    requires d > 0 && -d < k * d < d
    ensures k == 0
  {
    MultipleBounds(k, d);
  }

  /** A non-zero multiple of d is at least d away from 0. */
  lemma MultipleBounds(k: int, d: int)
    requires d > 0
    ensures k >= 1 ==> k * d >= d
    ensures k <= -1 ==> k * d <= -d
  {
  }

  // ---------------------------------------------------------------------
  // One picture into one sample (lines 1159-1251)
  // ---------------------------------------------------------------------

  /** The outcome of decoding into a sample: a code, the picture's type and planes, the sample memory and the stream. */
  datatype Frame = Frame(rc: Rc, frameType: int, planes: Planes, mem: Memory, next: ReaderState)

  /** A rectangle inside a larger one has no larger area. */
  lemma CoverArea(w: nat, h: nat, cw: nat, ch: nat)
    requires w <= cw && h <= ch
    ensures w * h <= cw * ch
  {
    assert w * h <= cw * h;
  }

  /** The macroblocks of a sequence: `mb_width * mb_height`. */
  function Macroblocks(h: SeqHeader): (n: int)
    ensures h.width >= 0 && h.height >= 0 && h.mbWidth == MbCount(h.width) && h.mbHeight == MbCount(h.height) ==>
      n >= 0 && 256 * n >= h.width * h.height
  {
    if h.width >= 0 && h.height >= 0 && h.mbWidth == MbCount(h.width) && h.mbHeight == MbCount(h.height) then
      MbCountCovers(h.width);
      MbCountCovers(h.height);
      CoverArea(h.width, h.height, 16 * h.mbWidth, 16 * h.mbHeight);
      h.mbWidth * h.mbHeight
    else h.mbWidth * h.mbHeight
  }

  /**
   * Validation, one picture, prediction from `ref` (the last reference
   * picture) and de-tiling into the sample's memory `m`.
   */
  function FrameSpec(s: ReaderState, env: Env, h: SeqHeader, f: SampleFields, ref: Option<Planes>, m: Memory): (r: Frame)
    requires Good(s) && EnvOk(env) && SizesOk(h) && WellFormed(f) && TargetIn(m, f)
    ensures r.mem.Keys == m.Keys
  {
    var v := Validate(f, h);
    if v != Ok then Frame(v, 0, Planes([], [], []), m, s)
    else Finish(DecodePictureSpec(s, env, h), h, f, ref, m)
  }

  /** What becomes of the decoded picture `d`: a failure is returned, otherwise it is predicted and de-tiled. */
  function Finish(d: Decoded, h: SeqHeader, f: SampleFields, ref: Option<Planes>, m: Memory): (r: Frame)
    requires SizesOk(h) && WellFormed(f) && TargetIn(m, f)
    ensures r.mem.Keys == m.Keys
    ensures r.frameType == d.hdr.frameType && r.next == d.next
  {
    if Failed(d.rc) then Frame(d.rc, d.hdr.frameType, d.planes, m, d.next)
    else
      var p := PredictStep(d.planes, d.hdr.frameType, ref, Pixels(h));
      if p.rc != Ok then Frame(p.rc, d.hdr.frameType, p.planes, m, d.next)
      else
        var out := DetileSpec(m, p.planes, f, h.width, Macroblocks(h));
        if out.None? then Frame(Undefined, d.hdr.frameType, p.planes, m, d.next)
        else Frame(Ok, d.hdr.frameType, p.planes, out.value, d.next)
  }

  /** `r` is the frame `FrameSpec` describes for `s` (a form that leaves `FrameSpec` folded until it is needed). */
  ghost predicate FrameIs(s: ReaderState, env: Env, h: SeqHeader, f: SampleFields, ref: Option<Planes>, m: Memory, r: Frame)
  {
    forall t {:trigger FrameSpec(t, env, h, f, ref, m)} ::
      Same(t, s) && Good(t) && EnvOk(env) && SizesOk(h) && WellFormed(f) && TargetIn(m, f) ==> r == FrameSpec(t, env, h, f, ref, m)
  }

  lemma FrameIsSpec(s: ReaderState, env: Env, h: SeqHeader, f: SampleFields, ref: Option<Planes>, m: Memory, r: Frame)
    requires Good(s) && EnvOk(env) && SizesOk(h) && WellFormed(f) && TargetIn(m, f) && FrameIs(s, env, h, f, ref, m, r)
    ensures r == FrameSpec(s, env, h, f, ref, m)
  {
  }

  lemma FrameIsFinish(s: ReaderState, env: Env, h: SeqHeader, f: SampleFields, ref: Option<Planes>, m: Memory, d: Decoded,
                      r: Frame)
    requires Good(s) && EnvOk(env) && SizesOk(h) && WellFormed(f) && TargetIn(m, f)
    requires Validate(f, h) == Ok && DecodesTo(s, env, h, d) && FinishIs(d, h, f, ref, m, r)
    ensures FrameIs(s, env, h, f, ref, m, r)
  {
    DecodesToSpec(s, env, h, d);
    assert r == Finish(d, h, f, ref, m);
  }

  /** `r` is `Finish(d, ...)`, in a form that leaves `Finish` folded. */
  ghost predicate FinishIs(d: Decoded, h: SeqHeader, f: SampleFields, ref: Option<Planes>, m: Memory, r: Frame)
  {
    forall e {:trigger Finish(e, h, f, ref, m)} ::
      Same(e, d) && SizesOk(h) && WellFormed(f) && TargetIn(m, f) ==> r == Finish(e, h, f, ref, m)
  }

  /** The finished frame of `d`, as a value for `FinishIs`. */
  lemma FinishOf(d: Decoded, h: SeqHeader, f: SampleFields, ref: Option<Planes>, m: Memory) returns (r: Frame)
    requires SizesOk(h) && WellFormed(f) && TargetIn(m, f)
    ensures FinishIs(d, h, f, ref, m, r) && r == Finish(d, h, f, ref, m)
  {
    r := Finish(d, h, f, ref, m);
  }

  lemma FrameIsRejected(s: ReaderState, env: Env, h: SeqHeader, f: SampleFields, ref: Option<Planes>, m: Memory)
    requires Good(s) && EnvOk(env) && SizesOk(h) && WellFormed(f) && TargetIn(m, f)
    requires Validate(f, h) != Ok
    ensures FrameIs(s, env, h, f, ref, m, Frame(Validate(f, h), 0, Planes([], [], []), m, s))
  {
  }

  /**
   * A sample without buffers, of another size or of another format is an
   * invalid argument, before any bit is read or any byte written.
   */
  lemma RejectedSamples(s: ReaderState, env: Env, h: SeqHeader, f: SampleFields, ref: Option<Planes>, m: Memory)
    requires Good(s) && EnvOk(env) && SizesOk(h) && WellFormed(f) && TargetIn(m, f)
    requires f.bufferCount == 0 || f.width != h.width || f.height != h.height || f.format != FormatYuv420p
    ensures FrameSpec(s, env, h, f, ref, m) == Frame(InvalidArg, 0, Planes([], [], []), m, s)
  {
  }

  /**
   * A decoded picture reaches the sample unchanged unless it is a P or B
   * picture, and a P or B picture without a reference picture is
   * undefined.
   */
  lemma OnlyPAndBArePredicted(s: ReaderState, env: Env, h: SeqHeader, f: SampleFields, ref: Option<Planes>, m: Memory)
    requires Good(s) && EnvOk(env) && SizesOk(h) && WellFormed(f) && TargetIn(m, f)
    ensures var r := FrameSpec(s, env, h, f, ref, m);
      var d := DecodePictureSpec(s, env, h);
      && (Validate(f, h) == Ok && !Failed(d.rc) && !Predicted(d.hdr.frameType) && r.rc == Ok ==> r.planes == d.planes)
      && (Validate(f, h) == Ok && !Failed(d.rc) && Predicted(d.hdr.frameType) && ref.None? ==> r.rc == Undefined)
  {
  }

  // ---------------------------------------------------------------------
  // Reference pictures (lines 914-928, 1238-1251)
  // ---------------------------------------------------------------------

  /** I and P pictures are kept as references; B and D pictures are released. */
  function IsReference(frameType: int): (r: bool)
    ensures KnownFrameType(frameType) ==> (r <==> !(frameType == FrameTypeB || frameType == FrameTypeD))
  {
    frameType == FrameTypeI || frameType == FrameTypeP
  }

  /** The last and the one-before-last reference pictures. */
  datatype Refs<T> = Refs(last: T, penult: T)

  /** After a picture of the type: a kept picture becomes the last, the last the one before. */
  function Rotate<T>(r: Refs<T>, frameType: int, p: T): (r': Refs<T>)
    ensures IsReference(frameType) ==> r'.last == p && r'.penult == r.last
    ensures !IsReference(frameType) ==> r' == r
  {
    if IsReference(frameType) then Refs(p, r.last) else r
  }

  /** The references after decoding the pictures of `history` (type, picture) in order. */
  function Replay<T>(r: Refs<T>, history: seq<(int, T)>): Refs<T>
  {
    if |history| == 0 then r
    else Rotate(Replay(r, history[..|history| - 1]), history[|history| - 1].0, history[|history| - 1].1)
  }

  /** The pictures of `history` that are kept, in order. */
  function Kept<T>(history: seq<(int, T)>): (r: seq<T>)
    ensures |r| <= |history|
  {
    if |history| == 0 then []
    else Kept(history[..|history| - 1]) + (if IsReference(history[|history| - 1].0) then [history[|history| - 1].1] else [])
  }

  /** The k-th kept picture from the end, or `none`. */
  function FromEnd<T>(s: seq<T>, k: nat, none: T): T
  {
    if k < |s| then s[|s| - 1 - k] else none
  }

  /**
   * Starting without references, the last reference is the last kept
   * (I or P) picture and the one before is the kept picture before it.
   */
  lemma {:induction false} ReplayKeepsLastTwo<T>(none: T, history: seq<(int, T)>)
    ensures Replay(Refs(none, none), history) == Refs(FromEnd(Kept(history), 0, none), FromEnd(Kept(history), 1, none))
  {
    if |history| > 0 {
      ReplayKeepsLastTwo(none, history[..|history| - 1]);
    }
  }

  // ---------------------------------------------------------------------
  // The whole call
  // ---------------------------------------------------------------------

  /** The outcome of `mpg1_decode_sample`: the code, the header part, and the picture part when it ran. */
  datatype Outcome = Outcome(rc: Rc, start: Start, frame: Option<Frame>)

  /**
   * `mpg1_decode_sample(dec, sample)`, `sample` None for a null sample,
   * which only initialises the decoder.
   */
  function SampleSpec(s: ReaderState, env: Env, seqHdr: Option<SeqHeader>, group: Option<GroupHeader>,
                      f: Option<SampleFields>, ref: Option<Planes>, m: Memory): (r: Outcome)
    requires Good(s) && EnvOk(env) && (seqHdr.Some? ==> SizesOk(seqHdr.value))
    requires f.Some? ==> WellFormed(f.value) && TargetIn(m, f.value)
    ensures r.frame.Some? <==> !Failed(r.start.rc) && f.Some?
    ensures r.frame.Some? ==> r.rc == r.frame.value.rc
    ensures r.frame.None? ==> r.rc == r.start.rc
  {
    var st := StartSpec(s, env, seqHdr, group);
    if Failed(st.rc) || f.None? then Outcome(st.rc, st, None)
    else
      var fr := FrameSpec(st.next, env, st.seqHdr.value, f.value, ref, m);
      Outcome(fr.rc, st, Some(fr))
  }

  /** `st` is what `StartSpec` gives for `s` (a form that leaves `StartSpec` folded until it is needed). */
  ghost predicate StartIs(s: ReaderState, env: Env, seqHdr: Option<SeqHeader>, group: Option<GroupHeader>, st: Start)
  {
    forall t {:trigger StartSpec(t, env, seqHdr, group)} :: Same(t, s) && Good(t) ==> st == StartSpec(t, env, seqHdr, group)
  }

  lemma StartIsSpec(s: ReaderState, env: Env, seqHdr: Option<SeqHeader>, group: Option<GroupHeader>, st: Start)
    requires Good(s) && StartIs(s, env, seqHdr, group, st)
    ensures st == StartSpec(s, env, seqHdr, group)
  {
  }

  lemma StartIsOf(s: ReaderState, env: Env, seqHdr: Option<SeqHeader>, group: Option<GroupHeader>, st: Start)
    requires Good(s) && st == StartSpec(s, env, seqHdr, group)
    ensures StartIs(s, env, seqHdr, group, st)
  {
  }

  /** `r` is what `SampleSpec` gives for `s` (a form that leaves `SampleSpec` folded until it is needed). */
  ghost predicate SampleIs(s: ReaderState, env: Env, seqHdr: Option<SeqHeader>, group: Option<GroupHeader>,
                           f: Option<SampleFields>, ref: Option<Planes>, m: Memory, r: Outcome)
  {
    forall t {:trigger SampleSpec(t, env, seqHdr, group, f, ref, m)} ::
      && Same(t, s) && Good(t) && EnvOk(env) && (seqHdr.Some? ==> SizesOk(seqHdr.value))
      && (f.Some? ==> WellFormed(f.value) && TargetIn(m, f.value))
      ==> r == SampleSpec(t, env, seqHdr, group, f, ref, m)
  }

  lemma SampleIsSpec(s: ReaderState, env: Env, seqHdr: Option<SeqHeader>, group: Option<GroupHeader>,
                     f: Option<SampleFields>, ref: Option<Planes>, m: Memory, r: Outcome)
    requires Good(s) && EnvOk(env) && (seqHdr.Some? ==> SizesOk(seqHdr.value))
    requires f.Some? ==> WellFormed(f.value) && TargetIn(m, f.value)
    requires SampleIs(s, env, seqHdr, group, f, ref, m, r)
    ensures r == SampleSpec(s, env, seqHdr, group, f, ref, m)
  {
  }

  /** The outcome of a sample from the outcome `st` of its headers and the frame `fr` decoded after them. */
  lemma SampleIsFrom(s: ReaderState, env: Env, seqHdr: Option<SeqHeader>, group: Option<GroupHeader>,
                     f: Option<SampleFields>, ref: Option<Planes>, m: Memory, st: Start, fr: Frame)
    requires Good(s) && EnvOk(env) && (seqHdr.Some? ==> SizesOk(seqHdr.value))
    requires f.Some? ==> WellFormed(f.value) && TargetIn(m, f.value)
    requires StartIs(s, env, seqHdr, group, st)
    requires !Failed(st.rc) && f.Some? ==> st.seqHdr.Some? && FrameIs(st.next, env, st.seqHdr.value, f.value, ref, m, fr)
    ensures SampleIs(s, env, seqHdr, group, f, ref, m,
                     if Failed(st.rc) || f.None? then Outcome(st.rc, st, None) else Outcome(fr.rc, st, Some(fr)))
  {
    StartIsSpec(s, env, seqHdr, group, st);
    if !Failed(st.rc) && f.Some? {
      FrameIsSpec(st.next, env, st.seqHdr.value, f.value, ref, m, fr);
    }
  }

  /** A null sample only reads the headers: nothing is decoded. */
  lemma NullSampleInitialises(s: ReaderState, env: Env, seqHdr: Option<SeqHeader>, group: Option<GroupHeader>,
                              ref: Option<Planes>, m: Memory)
    requires Good(s) && EnvOk(env) && (seqHdr.Some? ==> SizesOk(seqHdr.value))
    ensures var r := SampleSpec(s, env, seqHdr, group, None, ref, m);
      r.frame.None? && r.rc == StartSpec(s, env, seqHdr, group).rc
  {
  }

  /** A plane pointer of a sample, if not null, points into an allocation `m` describes with its contents. */
  predicate HoldsAt(m: Memory, r: Option<Region>)
    reads if r.Some? then {r.value.block} else {}
  {
    InAt(m, r) && (r.Some? ==> r.value.block[..] == m[r.value.block])
  }

  /** The first three planes of the sample are described by `m`. */
  predicate Holds(m: Memory, f: SampleFields)
    requires WellFormed(f)
    reads Blocks3(f)
  {
    HoldsAt(m, f.data[0]) && HoldsAt(m, f.data[1]) && HoldsAt(m, f.data[2])
  }

  /** The allocations of the first three planes. */
  function Blocks3(f: SampleFields): set<array<byte>>
    requires WellFormed(f)
  {
    (if f.data[0].Some? then {f.data[0].value.block} else {})
    + (if f.data[1].Some? then {f.data[1].value.block} else {})
    + (if f.data[2].Some? then {f.data[2].value.block} else {})
  }

  /** `MPEG1DecoderContext`: the bit reader, the tables, the headers and the reference pictures. */
  class Decoder {
    const bs: BitReader
    const env: Env
    var seqHdr: Option<SeqHeader>
    var group: Option<GroupHeader>
    var refLast: Picture?
    var refPenult: Picture?

    ghost predicate Valid()
      reads this, bs, refLast, refPenult
    {
      && bs.Valid() && EnvOk(env)
      && (seqHdr.Some? ==> SizesOk(seqHdr.value))
      && (refLast != null ==> Targets(refLast, bs))
      && (refPenult != null ==> Targets(refPenult, bs))
    }

    /** The reference pictures. */
    function References(): Refs<Picture?>
      reads this
    {
      Refs(refLast, refPenult)
    }

    /** The planes of the last reference picture, if any. */
    function LastPlanes(): Option<Planes>
      reads this, refLast
      reads if refLast != null then {refLast.y, refLast.u, refLast.v} else {}
    {
      if refLast == null then None else Some(refLast.Contents())
    }

    /**
     * `mpg1_decoder_create`: a zeroed context on the bit reader and the
     * tables, initialised by decoding a null sample, whose result is
     * dropped.
     */
    constructor Create(bs: BitReader, env: Env)
      requires bs.Valid() && EnvOk(env)
      modifies bs, bs.buffer
      ensures Valid() && this.bs == bs && this.env == env && References() == Refs(null, null)
      ensures var r := StartSpec(old(bs.St()), env, None, None);
        seqHdr == r.seqHdr && group == r.group && bs.St() == r.next
    {
      this.bs, this.env := bs, env;
      seqHdr, group := None, None;
      refLast, refPenult := null, null;
      new;
      ghost var st;
      var rc;
      rc, st := ReadHeaders();
      StartIsSpec(old(bs.St()), env, None, None, st);
    }

    /** The header part of `mpg1_decode_sample` (lines 1133-1151). */
    method ReadHeaders() returns (rc: Rc, ghost st: Start)
      requires Valid()
      modifies this`seqHdr, this`group, bs, bs.buffer
      ensures Valid() && seqHdr.Some?
      ensures st == Start(rc, seqHdr, group, bs.St()) && StartIs(old(bs.St()), env, old(seqHdr), old(group), st)
    {
      rc := Ok;
      if seqHdr.None? {
        rc := ReadSeqHeader();
      }
      if !Failed(rc) {
        rc := ReadGroup();
      }
      st := Start(rc, seqHdr, group, bs.St());
      StartIsOf(old(bs.St()), env, old(seqHdr), old(group), st);
    }

    /** Lines 1133-1141: the sequence header, kept even when its read fails. */
    method ReadSeqHeader() returns (rc: Rc)
      requires Valid() && seqHdr.None?
      modifies this`seqHdr, bs, bs.buffer
      ensures Valid()
      ensures seqHdr.Some? && Parse(rc, seqHdr.value, bs.St()) == SeqHeaderSpec(old(bs.St()), env, BlankSeqHeader)
    {
      bs.ValidGood();
      var h;
      rc, h := ReadSequenceHeader(bs, env, BlankSeqHeader);
      seqHdr := Some(h);
      SeqHeaderSizes(old(bs.St()), env, BlankSeqHeader);
    }

    /** Lines 1143-1151: the group header, if there is none yet. */
    method ReadGroup() returns (rc: Rc)
      requires Valid()
      modifies this`group, bs, bs.buffer
      ensures Valid()
      ensures Start(rc, seqHdr, group, bs.St()) == GroupStart(old(bs.St()), seqHdr, old(group))
    {
      rc, group := ReadGroupOn(bs, seqHdr, group);
    }

    /** `mpg1_decoder_set_last_refpic`: `p` becomes the last reference picture and the last the one before. */
    method SetLastRefpic(p: Picture) returns (rc: Rc)
      requires Valid() && Targets(p, bs)
      modifies this`refLast, this`refPenult
      ensures Valid() && seqHdr == old(seqHdr) && group == old(group)
      ensures rc == Ok && References() == Rotate(old(References()), FrameTypeI, p)
    {
      refPenult := refLast;
      refLast := p;
      rc := Ok;
    }

    /**
     * `mpg1_decode_sample(dec, sample)`.  `m` describes the sample's
     * first three planes; `mem` is what they hold after, and `pic` the
     * decoded picture.
     */
    method DecodeSample(sample: Option<SampleFields>, ghost m: Memory) returns (rc: Rc, ghost pic: Picture?, ghost r: Outcome)
      requires Valid()
      requires sample.Some? ==> WellFormed(sample.value) && Holds(m, sample.value) && bs.buffer !in Blocks3(sample.value)
      modifies this, bs, bs.buffer, if sample.Some? && WellFormed(sample.value) then Blocks3(sample.value) else {}
      ensures Valid()
      ensures SampleIs(old(bs.St()), env, old(seqHdr), old(group), sample, old(LastPlanes()), m, r)
      ensures && (rc == Undefined <==> r.rc == Undefined)
        && (rc != Undefined ==>
              && rc == r.rc && seqHdr == r.start.seqHdr && group == r.start.group
              && (r.frame.None? ==> bs.St() == r.start.next && References() == old(References()))
              && (r.frame.Some? ==>
                    && sample.Some? && bs.St() == r.frame.value.next && Holds(r.frame.value.mem, sample.value)
                    && (rc == Ok ==> pic != null && fresh(pic) && pic.Contents() == r.frame.value.planes
                                     && References() == Rotate(old(References()), r.frame.value.frameType, pic))
                    && (rc != Ok ==> References() == old(References()))))
    {
      ghost var st;
      rc, st := ReadHeaders();
      pic := null;
      if Failed(rc) || sample.None? {
        r := Outcome(rc, st, None);
        SampleIsFrom(old(bs.St()), env, old(seqHdr), old(group), sample, old(LastPlanes()), m, st, Frame(Ok, 0, Planes([], [], []), m, st.next));
        return;
      }
      ghost var fr;
      rc, pic, fr := DecodeFrame(sample.value, m);
      r := Outcome(fr.rc, st, Some(fr));
      SampleIsFrom(old(bs.St()), env, old(seqHdr), old(group), sample, old(LastPlanes()), m, st, fr);
    }

    /** Lines 1159-1251, for a non-null sample with the fields `f` once the headers are there. */
    method DecodeFrame(f: SampleFields, ghost m: Memory) returns (rc: Rc, ghost pic: Picture?, ghost r: Frame)
      requires Valid() && seqHdr.Some?
      requires WellFormed(f) && Holds(m, f) && bs.buffer !in Blocks3(f)
      modifies this, bs, bs.buffer, Blocks3(f)
      ensures Valid() && seqHdr == old(seqHdr) && group == old(group)
      ensures FrameIs(old(bs.St()), env, seqHdr.value, f, old(LastPlanes()), m, r)
      ensures && (rc == Undefined <==> r.rc == Undefined)
        && (rc != Undefined ==>
              && rc == r.rc && bs.St() == r.next && Holds(r.mem, f)
              && (rc == Ok ==> pic != null && fresh(pic) && pic.Contents() == r.planes
                               && References() == Rotate(old(References()), r.frameType, pic))
              && (rc != Ok ==> References() == old(References())))
    {
      var h := seqHdr.value;
      pic := null;
      rc := Validate(f, h);
      if rc != Ok {
        r := Frame(rc, 0, Planes([], [], []), m, bs.St());
        FrameIsRejected(bs.St(), env, h, f, LastPlanes(), m);
        return;
      }
      var p; ghost var d;
      rc, p, d, r := Produce(bs, env, h, f, refLast, LastPlanes(), m);
      FrameIsFinish(old(bs.St()), env, h, f, old(LastPlanes()), m, d, r);
      if rc == Ok {
        rc := Keep(p, f, r.mem);
        pic := p;
      }
    }

    /** Lines 1238-1251: an I or P picture becomes the last reference picture, a B or D picture is dropped. */
    method Keep(p: Picture, ghost f: SampleFields, ghost mem: Memory) returns (rc: Rc)
      requires Valid() && Targets(p, bs) && WellFormed(f) && Holds(mem, f)
      modifies this`refLast, this`refPenult
      ensures Valid() && rc == Ok && References() == Rotate(old(References()), p.hdr.frameType, p)
      ensures bs.St() == old(bs.St()) && Holds(mem, f) && p.Contents() == old(p.Contents())
    {
      rc := Ok;
      if IsReference(p.hdr.frameType) {
        rc := SetLastRefpic(p);
      }
    }
  }

  /**
   * Lines 1170-1236: the picture, its prediction from `ref` (whose planes
   * are `refPlanes`) and its de-tiling into the sample.
   */
  method Produce(bs: BitReader, env: Env, h: SeqHeader, f: SampleFields, ref: Picture?, ghost refPlanes: Option<Planes>,
                 ghost m: Memory) returns (rc: Rc, pic: Picture?, ghost d: Decoded, ghost r: Frame)
    requires bs.Valid() && EnvOk(env) && SizesOk(h)
    requires WellFormed(f) && Holds(m, f) && bs.buffer !in Blocks3(f)
    requires ref == null <==> refPlanes.None?
    requires ref != null ==> ref.Valid() && Targets(ref, bs) && ref.Contents() == refPlanes.value
    modifies bs, bs.buffer, Blocks3(f)
    ensures bs.Valid()
    ensures DecodesTo(old(bs.St()), env, h, d) && FinishIs(d, h, f, refPlanes, m, r)
    ensures && (rc == Undefined <==> r.rc == Undefined)
      && (rc != Undefined ==>
            && rc == r.rc && bs.St() == r.next && Holds(r.mem, f)
            && (rc == Ok ==> pic != null && fresh(pic) && Targets(pic, bs) && pic.hdr.frameType == r.frameType
                             && pic.Contents() == r.planes))
  {
    rc, pic, d := DecodePicture(bs, env, h);
    assert unchanged(Blocks3(f)) && (ref != null ==> unchanged(ref.y, ref.u, ref.v));
    if rc == Ok {
      rc, r := Complete(bs, pic, h, f, ref, refPlanes, d, m);
    } else {
      r := FinishOf(d, h, f, refPlanes, m);
    }
  }

  /** Prediction and de-tiling of the decoded picture `pic`, which `d` describes. */
  method Complete(bs: BitReader, pic: Picture, h: SeqHeader, f: SampleFields, ref: Picture?, ghost refPlanes: Option<Planes>,
                  ghost d: Decoded, ghost m: Memory) returns (rc: Rc, ghost r: Frame)
    requires SizesOk(h) && pic.Valid() && !Failed(d.rc) && pic.hdr == d.hdr && pic.Contents() == d.planes
    requires WellFormed(f) && Holds(m, f)
    requires pic.y !in Blocks3(f) && pic.u !in Blocks3(f) && pic.v !in Blocks3(f)
    requires ref == null <==> refPlanes.None?
    requires ref != null ==> ref.Valid() && Apart(pic, ref) && ref.Contents() == refPlanes.value
    requires bs.Valid() && bs.buffer !in Blocks3(f) && Targets(pic, bs)
    modifies pic.y, pic.u, pic.v, Blocks3(f)
    ensures bs.Valid() && bs.St() == old(bs.St())
    ensures FinishIs(d, h, f, refPlanes, m, r)
    ensures r.frameType == d.hdr.frameType && r.next == d.next
    ensures && (rc == Undefined <==> r.rc == Undefined)
      && (rc != Undefined ==> rc == r.rc && Holds(r.mem, f) && pic.Contents() == r.planes)
  {
    r := FinishOf(d, h, f, refPlanes, m);
    ghost var planes := PredictStep(d.planes, d.hdr.frameType, refPlanes, Pixels(h));
    PredictStepCases(d.planes, d.hdr.frameType, refPlanes, Pixels(h));
    rc := Ok;
    if Predicted(pic.hdr.frameType) {
      if ref == null {
        rc := Undefined;
      } else {
        rc := PerformPrediction(pic, ref, Pixels(h));
      }
    }
    if rc == Ok {
      var ok; ghost var mem;
      ok, mem := Detile(pic, f, h.width, Macroblocks(h), m);
      if !ok {
        rc := Undefined;
      }
    }
  }

  /** The sample's target described by `m`, contents included. */
  predicate TargetHolds(m: Memory, t: Target)
    reads t.y.block, t.u.block, t.v.block
  {
    InMemory(m, t) && t.y.block[..] == m[t.y.block] && t.u.block[..] == m[t.u.block] && t.v.block[..] == m[t.v.block]
  }

  /** The picture's planes are not the sample's allocations. */
  predicate Apart3(pic: Picture, t: Target)
  {
    && pic.y != t.y.block && pic.y != t.u.block && pic.y != t.v.block
    && pic.u != t.y.block && pic.u != t.u.block && pic.u != t.v.block
    && pic.v != t.y.block && pic.v != t.u.block && pic.v != t.v.block
  }

  /** The de-tiling loop of lines 1202-1236 into a sample. */
  method Detile(pic: Picture, f: SampleFields, width: nat, count: int, ghost m: Memory) returns (ok: bool, ghost mem: Memory)
    requires WellFormed(f) && Holds(m, f)
    requires pic.y !in Blocks3(f) && pic.u !in Blocks3(f) && pic.v !in Blocks3(f)
    modifies Blocks3(f)
    ensures var r := DetileSpec(m, old(pic.Contents()), f, width, count);
      && ok == r.Some?
      && (ok ==> mem == r.value && Holds(mem, f))
    ensures pic.Contents() == old(pic.Contents())
  {
    ok, mem := true, m;
    if count > 0 {
      var t := TargetOf(f);
      if t.None? {
        ok := false;
      } else {
        ok, mem := CopyTiles(pic, t.value, width, count, m);
      }
    }
  }

  /** The macroblocks of the loop into a target. */
  method CopyTiles(pic: Picture, t: Target, width: nat, count: int, ghost m: Memory) returns (ok: bool, ghost mem: Memory)
    requires TargetHolds(m, t) && Apart3(pic, t)
    modifies t.y.block, t.u.block, t.v.block
    ensures var r := Tiles(Some(m), old(pic.Contents()), t, width, count, 0);
      && ok == r.Some?
      && (ok ==> mem == r.value && TargetHolds(mem, t))
    ensures pic.Contents() == old(pic.Contents())
  {
    ghost var planes := pic.Contents();
    ghost var target := Tiles(Some(m), planes, t, width, count, 0);
    mem := m;
    ok := true;
    var i: nat := 0;
    while i < count
      invariant pic.Contents() == planes
      invariant TargetHolds(mem, t) && Tiles(Some(mem), planes, t, width, count, i) == target
    {
      ghost var next: Memory;
      ok, next := TileStep(pic, t, width, count, i, mem, planes, target);
      if !ok {
        break;
      }
      mem := next;
      i := i + 1;
    }
  }

  /** One turn of the loop over the macroblocks: the division by a zero width, or macroblock i (lines 1203-1235). */
  method TileStep(pic: Picture, t: Target, width: nat, count: int, i: nat, ghost m: Memory, ghost planes: Planes,
                  ghost target: Option<Memory>) returns (ok: bool, ghost mem: Memory)
    requires i < count && TargetHolds(m, t) && Apart3(pic, t) && pic.Contents() == planes
    requires Tiles(Some(m), planes, t, width, count, i) == target
    modifies t.y.block, t.u.block, t.v.block
    ensures pic.Contents() == planes
    ensures ok ==> TargetHolds(mem, t) && Tiles(Some(mem), planes, t, width, count, i + 1) == target
    ensures !ok ==> target.None?
  {
    if width == 0 {
      return false, m;
    }
    ok, mem := CopyLuma(pic, t, width, count, i, m, planes, target);
    if ok {
      ok, mem := CopyChroma(pic, t, width, count, i, mem, planes, target);
    }
  }

  /** The eight lines of the luma blocks of macroblock i (lines 1214-1220). */
  method CopyLuma(pic: Picture, t: Target, width: nat, count: int, i: nat, ghost m: Memory, ghost planes: Planes,
                  ghost target: Option<Memory>) returns (ok: bool, ghost mem: Memory)
    requires width > 0 && i < count && TargetHolds(m, t) && Apart3(pic, t) && pic.Contents() == planes
    requires LumaRows(Some(m), planes, t, width, count, i, 0) == target
    modifies t.y.block, t.u.block, t.v.block
    ensures pic.Contents() == planes
    ensures ok ==> TargetHolds(mem, t) && ChromaRows(Some(mem), planes, t, width, count, i, 0) == target
    ensures !ok ==> target.None?
  {
    mem := m;
    for j := 0 to 8
      invariant TargetHolds(mem, t) && pic.Contents() == planes
      invariant LumaIs(mem, planes, t, width, count, i, j, target)
    {
      var done, next := LumaTurn(pic, t, width, count, i, j, mem, planes, target);
      if !done {
        return false, m;
      }
      mem := next;
    }
    assert LumaRows(Some(mem), planes, t, width, count, i, 8) == target;
    ok := true;
  }

  /** The eight lines of the chroma blocks of macroblock i (lines 1229-1235). */
  method CopyChroma(pic: Picture, t: Target, width: nat, count: int, i: nat, ghost m: Memory, ghost planes: Planes,
                    ghost target: Option<Memory>) returns (ok: bool, ghost mem: Memory)
    requires width > 0 && i < count && TargetHolds(m, t) && Apart3(pic, t) && pic.Contents() == planes
    requires ChromaRows(Some(m), planes, t, width, count, i, 0) == target
    modifies t.y.block, t.u.block, t.v.block
    ensures pic.Contents() == planes
    ensures ok ==> TargetHolds(mem, t) && Tiles(Some(mem), planes, t, width, count, i + 1) == target
    ensures !ok ==> target.None?
  {
    mem := m;
    for j := 0 to 8
      invariant TargetHolds(mem, t) && pic.Contents() == planes
      invariant ChromaIs(mem, planes, t, width, count, i, j, target)
    {
      var done, next := ChromaTurn(pic, t, width, count, i, j, mem, planes, target);
      if !done {
        return false, m;
      }
      mem := next;
    }
    assert ChromaRows(Some(mem), planes, t, width, count, i, 8) == target;
    ok := true;
  }

  /** `target` is `LumaRows(Some(m), ..., j)`, in a form that leaves `LumaRows` folded. */
  ghost predicate LumaIs(m: Memory, planes: Planes, t: Target, width: nat, count: int, i: nat, j: nat, target: Option<Memory>)
  {
    forall k {:trigger LumaRows(Some(m), planes, t, width, count, i, k)} ::
      Same(k, j) && width > 0 && i < count && InMemory(m, t) ==> LumaRows(Some(m), planes, t, width, count, i, k) == target
  }

  /** `target` is `ChromaRows(Some(m), ..., j)`, in the same form. */
  ghost predicate ChromaIs(m: Memory, planes: Planes, t: Target, width: nat, count: int, i: nat, j: nat, target: Option<Memory>)
  {
    forall k {:trigger ChromaRows(Some(m), planes, t, width, count, i, k)} ::
      Same(k, j) && width > 0 && i < count && InMemory(m, t) ==> ChromaRows(Some(m), planes, t, width, count, i, k) == target
  }

  /** Line j of the luma loop: the lines after it still end in `target`. */
  method LumaTurn(pic: Picture, t: Target, width: nat, count: int, i: nat, j: nat, ghost m: Memory, ghost planes: Planes,
                  ghost target: Option<Memory>) returns (ok: bool, ghost mem: Memory)
    requires width > 0 && i < count && j < 8 && TargetHolds(m, t) && Apart3(pic, t) && pic.Contents() == planes
    requires LumaIs(m, planes, t, width, count, i, j, target)
    modifies t.y.block, t.u.block, t.v.block
    ensures pic.Contents() == planes
    ensures ok ==> TargetHolds(mem, t) && LumaIs(mem, planes, t, width, count, i, j + 1, target)
    ensures !ok ==> target.None?
  {
    var dst := LumaOrigin(t, i, width);
    ok, mem := CopyLumaLine(pic, t, dst, LumaBase(i), j, m);
    LumaStep(m, planes, t, width, count, i, j, target, LumaLine(Some(m), dst, t.yStride, planes.y, LumaBase(i), j));
  }

  lemma LumaStep(m: Memory, planes: Planes, t: Target, width: nat, count: int, i: nat, j: nat, target: Option<Memory>,
                 r: Option<Memory>)
    requires width > 0 && i < count && j < 8 && InMemory(m, t)
    requires LumaIs(m, planes, t, width, count, i, j, target)
    requires r == LumaLine(Some(m), LumaOrigin(t, i, width), t.yStride, planes.y, LumaBase(i), j)
    ensures r.None? ==> target.None?
    ensures r.Some? ==> InMemory(r.value, t) && LumaIs(r.value, planes, t, width, count, i, j + 1, target)
  {
    assert LumaRows(Some(m), planes, t, width, count, i, j) == LumaRows(r, planes, t, width, count, i, j + 1);
  }

  /** Line j of the chroma loop: the lines after it still end in `target`. */
  method ChromaTurn(pic: Picture, t: Target, width: nat, count: int, i: nat, j: nat, ghost m: Memory, ghost planes: Planes,
                    ghost target: Option<Memory>) returns (ok: bool, ghost mem: Memory)
    requires width > 0 && i < count && j < 8 && TargetHolds(m, t) && Apart3(pic, t) && pic.Contents() == planes
    requires ChromaIs(m, planes, t, width, count, i, j, target)
    modifies t.y.block, t.u.block, t.v.block
    ensures pic.Contents() == planes
    ensures ok ==> TargetHolds(mem, t) && ChromaIs(mem, planes, t, width, count, i, j + 1, target)
    ensures !ok ==> target.None?
  {
    var u, v := ChromaOrigin(t.u, t.uStride, i, width), ChromaOrigin(t.v, t.vStride, i, width);
    ok, mem := CopyChromaLine(pic, t, u, v, ChromaBase(i), j, m);
    ChromaStep(m, planes, t, width, count, i, j, target, ChromaLine(Some(m), t, u, v, planes, ChromaBase(i), j));
  }

  lemma ChromaStep(m: Memory, planes: Planes, t: Target, width: nat, count: int, i: nat, j: nat, target: Option<Memory>,
                   r: Option<Memory>)
    requires width > 0 && i < count && j < 8 && InMemory(m, t)
    requires ChromaIs(m, planes, t, width, count, i, j, target)
    requires r == ChromaLine(Some(m), t, ChromaOrigin(t.u, t.uStride, i, width), ChromaOrigin(t.v, t.vStride, i, width),
                             planes, ChromaBase(i), j)
    ensures r.None? ==> target.None?
    ensures r.Some? ==> InMemory(r.value, t) && ChromaIs(r.value, planes, t, width, count, i, j + 1, target)
  {
    assert ChromaRows(Some(m), planes, t, width, count, i, j) == ChromaRows(r, planes, t, width, count, i, j + 1);
  }

  /** Line j of the four luma blocks of a macroblock. */
  method CopyLumaLine(pic: Picture, t: Target, dst: Region, base: int, j: int, ghost m: Memory) returns (ok: bool, ghost mem: Memory)
    requires TargetHolds(m, t) && Apart3(pic, t) && dst.block == t.y.block
    modifies t.y.block, t.u.block, t.v.block
    ensures var r := LumaLine(Some(m), dst, t.yStride, old(pic.y[..]), base, j);
      && ok == r.Some?
      && (ok ==> mem == r.value && TargetHolds(mem, t))
    ensures pic.Contents() == old(pic.Contents())
  {
    ghost var plane := pic.y[..];
    mem := m;
    ok := CopyLine(pic.y, LumaDst(dst, t.yStride, j, 0), LumaSrc(base, j, 0), t, mem);
    if !ok { return; }
    mem := Copy8(Some(mem), LumaDst(dst, t.yStride, j, 0), plane, LumaSrc(base, j, 0)).value;
    ok := CopyLine(pic.y, LumaDst(dst, t.yStride, j, 1), LumaSrc(base, j, 1), t, mem);
    if !ok { return; }
    mem := Copy8(Some(mem), LumaDst(dst, t.yStride, j, 1), plane, LumaSrc(base, j, 1)).value;
    ok := CopyLine(pic.y, LumaDst(dst, t.yStride, j, 2), LumaSrc(base, j, 2), t, mem);
    if !ok { return; }
    mem := Copy8(Some(mem), LumaDst(dst, t.yStride, j, 2), plane, LumaSrc(base, j, 2)).value;
    ok := CopyLine(pic.y, LumaDst(dst, t.yStride, j, 3), LumaSrc(base, j, 3), t, mem);
    if !ok { return; }
    mem := Copy8(Some(mem), LumaDst(dst, t.yStride, j, 3), plane, LumaSrc(base, j, 3)).value;
  }

  /** Line j of the U and V blocks of a macroblock. */
  method CopyChromaLine(pic: Picture, t: Target, u: Region, v: Region, base: int, j: int, ghost m: Memory)
      returns (ok: bool, ghost mem: Memory)
    requires TargetHolds(m, t) && Apart3(pic, t) && u.block == t.u.block && v.block == t.v.block
    modifies t.y.block, t.u.block, t.v.block
    ensures var r := ChromaLine(Some(m), t, u, v, old(pic.Contents()), base, j);
      && ok == r.Some?
      && (ok ==> mem == r.value && TargetHolds(mem, t))
    ensures pic.Contents() == old(pic.Contents())
  {
    ghost var planes := pic.Contents();
    mem := m;
    ok := CopyLine(pic.u, ChromaDst(u, t.uStride, j), ChromaSrc(base, j), t, mem);
    if !ok { return; }
    mem := Copy8(Some(mem), ChromaDst(u, t.uStride, j), planes.u, ChromaSrc(base, j)).value;
    ok := CopyLine(pic.v, ChromaDst(v, t.vStride, j), ChromaSrc(base, j), t, mem);
    if !ok { return; }
    mem := Copy8(Some(mem), ChromaDst(v, t.vStride, j), planes.v, ChromaSrc(base, j)).value;
  }

  /** `memcpy(to, plane + from, 8)` into one of the target's allocations. */
  method CopyLine(plane: array<byte>, to: Region, from: int, t: Target, ghost m: Memory) returns (ok: bool)
    requires TargetHolds(m, t) && (to.block == t.y.block || to.block == t.u.block || to.block == t.v.block)
    requires plane != t.y.block && plane != t.u.block && plane != t.v.block
    modifies t.y.block, t.u.block, t.v.block
    ensures var r := Copy8(Some(m), to, old(plane[..]), from);
      && ok == r.Some?
      && (ok ==> TargetHolds(r.value, t))
      && (!ok ==> TargetHolds(m, t))
    ensures plane[..] == old(plane[..])
  {
    var dst := to.block;
    if to.offset < 0 || to.offset + 8 > dst.Length || from < 0 || from + 8 > plane.Length {
      return false;
    }
    for k := 0 to 8
      invariant forall q | 0 <= q < dst.Length ::
        dst[q] == if to.offset <= q < to.offset + k then plane[from + q - to.offset] else m[dst][q]
      invariant unchanged(t.y.block) || t.y.block == dst
      invariant unchanged(t.u.block) || t.u.block == dst
      invariant unchanged(t.v.block) || t.v.block == dst
    {
      dst[to.offset + k] := plane[from + k];
    }
    ok := true;
    Copy8Contents(m, to, plane[..], from);
    assert dst[..] == Copy8(Some(m), to, plane[..], from).value[dst];
  }

}
