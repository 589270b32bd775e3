// Media samples of mmfsample.c.  A sample carries up to eight
// (sub)buffers, each a pointer into an allocation with a stride and
// release flags.  Memory is a map from allocations to their contents, so
// that several buffers may point into one allocation, as the planar frame
// layouts do, and so that copies between them are described once.

module MmfSample {
  import opened MmfUtil

  /** `max_buffer_count`: the slots of a sample. */
  const MaxBufferCount := 8

  // The values of `MMFSampleFormat` the code refers to.
  const FormatNone := 0x0
  const FormatRgba32 := 0x100
  const FormatNv12 := 0x101
  const FormatYuv444p := 0x102
  const FormatYuv420p := 0x103
  const FormatPcmS16p := 0x200

  // The buffer flags.
  const FlagsNone := 0
  const FlagsDontRelease := 1

  /** A pointer into an allocation: the allocation and a byte offset in it. */
  datatype Region = Region(block: array<byte>, offset: int)

  /** The pointer `r + k`. */
  function Offset(r: Region, k: int): Region
  {
    r.(offset := r.offset + k)
  }

  /** The contents of the allocations a piece of code touches. */
  type Memory = map<array<byte>, seq<byte>>

  /** `t` written over `s` from index k on. */
  function Splice(s: seq<byte>, k: nat, t: seq<byte>): (r: seq<byte>)
    requires k + |t| <= |s|
    ensures |r| == |s|
  {
    s[..k] + t + s[k + |t|..]
  }

  /** The spliced sequence holds `t` at k and `s` elsewhere. */
  lemma SpliceContents(s: seq<byte>, k: nat, t: seq<byte>)
    requires k + |t| <= |s|
    ensures forall q | 0 <= q < |s| :: Splice(s, k, t)[q] == if k <= q < k + |t| then t[q - k] else s[q]
  {
  }

  /** n bytes at `r` lie inside its allocation. */
  predicate Inside(m: Memory, r: Region, n: nat)
    requires r.block in m
  {
    0 <= r.offset && r.offset + n <= |m[r.block]|
  }

  /**
   * `memcpy(to, from, n)`: n bytes at `from` copied over the n bytes at
   * `to`.  A negative count, a range outside its allocation and overlapping
   * ranges are undefined behaviour (None).
   */
  function MemcpySpec(m: Memory, to: Region, from: Region, n: int): (r: Option<Memory>)
    requires to.block in m && from.block in m
    ensures r.Some? <==> n >= 0 && Inside(m, to, n) && Inside(m, from, n)
                         && (to.block == from.block ==> to.offset + n <= from.offset || from.offset + n <= to.offset)
    ensures r.Some? ==> to.block in r.value && from.block in r.value
  {
    if n < 0 || !Inside(m, to, n) || !Inside(m, from, n) then None
    else if to.block == from.block && to.offset < from.offset + n && from.offset < to.offset + n then None
    else Some(m[to.block := Splice(m[to.block], to.offset, m[from.block][from.offset..from.offset + n])])
  }

  /**
   * What a copy leaves: the n bytes at `to` are those that were at `from`,
   * and every other byte of every allocation is unchanged.
   */
  lemma MemcpyContents(m: Memory, to: Region, from: Region, n: int)
    requires to.block in m && from.block in m && MemcpySpec(m, to, from, n).Some?
    ensures var r := MemcpySpec(m, to, from, n).value;
      && r.Keys == m.Keys
      && (forall b | b in m && b != to.block :: r[b] == m[b])
      && |r[to.block]| == |m[to.block]|
      && (forall q | 0 <= q < |m[to.block]| ::
            r[to.block][q] == if to.offset <= q < to.offset + n then m[from.block][from.offset + q - to.offset] else m[to.block][q])
  {
    SpliceContents(m[to.block], to.offset, m[from.block][from.offset..from.offset + n]);
  }

  /** `memcpy` on the allocations of `m`. */
  method Memcpy(ghost m: Memory, to: Region, from: Region, n: int) returns (ok: bool)
    requires to.block in m && from.block in m
    requires to.block[..] == m[to.block] && from.block[..] == m[from.block]
    modifies to.block
    ensures ok == MemcpySpec(m, to, from, n).Some?
    ensures ok ==> to.block[..] == MemcpySpec(m, to, from, n).value[to.block]
    ensures ok ==> from.block[..] == MemcpySpec(m, to, from, n).value[from.block]
  {
    var dst, src := to.block, from.block;
    if n < 0 || to.offset < 0 || to.offset + n > dst.Length || from.offset < 0 || from.offset + n > src.Length {
      return false;
    }
    if dst == src && to.offset < from.offset + n && from.offset < to.offset + n {
      return false;
    }
    for k := 0 to n
      invariant forall q | 0 <= q < dst.Length ::
        dst[q] == if to.offset <= q < to.offset + k then m[src][from.offset + q - to.offset] else m[dst][q]
      invariant dst != src ==> src[..] == m[src]
    {
      dst[to.offset + k] := src[from.offset + k];
    }
    ok := true;
    MemcpyContents(m, to, from, n);
    assert dst[..] == MemcpySpec(m, to, from, n).value[dst];
  }

  // ---------------------------------------------------------------------
  // MMFSample
  // ---------------------------------------------------------------------

  /** The fields of `MMFSample` the library reads or writes (the time stamps are never touched). */
  datatype SampleFields = SampleFields(
    bufferCount: int, format: int,
    data: seq<Option<Region>>, stride: seq<int>, flags: seq<int>,
    width: int, height: int)

  /** One value per buffer slot. */
  predicate WellFormed(f: SampleFields)
  {
    |f.data| == MaxBufferCount && |f.stride| == MaxBufferCount && |f.flags| == MaxBufferCount
  }

  /** A zeroed sample: no buffers, no format, null pointers. */
  const BlankFields := SampleFields(0, FormatNone, seq(MaxBufferCount, _ => None),
                                    seq(MaxBufferCount, _ => 0), seq(MaxBufferCount, _ => 0), 0, 0)

  class Sample {
    var bufferCount: int
    var format: int
    var data: seq<Option<Region>>
    var stride: seq<int>
    var flags: seq<int>
    var width: int
    var height: int

    ghost predicate Valid()
      reads this
    {
      WellFormed(Fields())
    }

    function Fields(): SampleFields
      reads this
    {
      SampleFields(bufferCount, format, data, stride, flags, width, height)
    }

    /** `mmf_sample_allocate`: a zeroed sample. */
    constructor Allocate()
      ensures Valid() && Fields() == BlankFields
    {
      bufferCount, format := 0, FormatNone;
      data, stride, flags := seq(MaxBufferCount, _ => None), seq(MaxBufferCount, _ => 0), seq(MaxBufferCount, _ => 0);
      width, height := 0, 0;
    }

    /** Stores new values into every field. */
    method Assign(f: SampleFields)
      requires WellFormed(f)
      modifies this
      ensures Valid() && Fields() == f
    {
      bufferCount, format, data, stride, flags, width, height :=
        f.bufferCount, f.format, f.data, f.stride, f.flags, f.width, f.height;
    }
  }

  // ---------------------------------------------------------------------
  // mmf_sample_free
  // ---------------------------------------------------------------------

  /** How many times `for (i = 0; i < n; i++)` runs. */
  function Times(n: int): nat
  {
    if n > 0 then n else 0
  }

  /**
   * The pointers `mmf_sample_free` hands to `mmf_free` from the first n
   * slots, in order: the non-null ones whose flags do not have
   * DONT_RELEASE.  For an `int32_t`, `(flags & 1) == 0` is `flags % 2 == 0`.
   */
  function Releases(data: seq<Option<Region>>, flags: seq<int>, n: nat): (r: seq<Region>)
    requires n <= |data| && n <= |flags|
    ensures |r| <= n
    ensures r == [] <==> forall i | 0 <= i < n :: data[i].None? || flags[i] % 2 != 0
  {
    if n == 0 then []
    else
      var keep := data[n - 1].Some? && flags[n - 1] % 2 == 0;
      assert (forall i | 0 <= i < n :: data[i].None? || flags[i] % 2 != 0)
        <==> !keep && forall i | 0 <= i < n - 1 :: data[i].None? || flags[i] % 2 != 0;
      Releases(data, flags, n - 1) + (if keep then [data[n - 1].value] else [])
  }

  /** Freeing these pointers is defined: each is the start of its allocation, and no allocation is freed twice. */
  predicate Releasable(rs: seq<Region>)
  {
    && (forall k | 0 <= k < |rs| :: rs[k].offset == 0)
    && (forall k, l | 0 <= k < l < |rs| :: rs[k].block != rs[l].block)
  }

  /** The allocations of the pointers. */
  function Blocks(rs: seq<Region>): (r: seq<array<byte>>)
    ensures |r| == |rs| && forall k | 0 <= k < |rs| :: r[k] == rs[k].block
  {
    seq(|rs|, k requires 0 <= k < |rs| => rs[k].block)
  }

  /** The outcome of `mmf_sample_free`: its code and the allocations released. */
  datatype Freed = Freed(rc: Rc, released: seq<array<byte>>)

  /**
   * `mmf_sample_free` on a sample: a count past the eight slots reads past
   * them, and freeing a pointer into the middle of an allocation or an
   * allocation twice is undefined behaviour; otherwise the released
   * allocations.
   */
  function FreeSpec(f: SampleFields): (r: Freed)
    requires WellFormed(f)
    ensures r.rc == Ok || r.rc == Undefined
    ensures r.rc == Undefined ==> r.released == []
    ensures |r.released| <= MaxBufferCount
    ensures forall k, l | 0 <= k < l < |r.released| :: r.released[k] != r.released[l]
  {
    if f.bufferCount > MaxBufferCount then Freed(Undefined, [])
    else
      var rs := Releases(f.data, f.flags, Times(f.bufferCount));
      if Releasable(rs) then Freed(Ok, Blocks(rs)) else Freed(Undefined, [])
  }

  /** A pointer is released exactly when it is in a slot below n without DONT_RELEASE. */
  lemma {:induction false} ReleasesExactly(data: seq<Option<Region>>, flags: seq<int>, n: nat, r: Region)
    requires n <= |data| && n <= |flags|
    ensures r in Releases(data, flags, n) <==> exists i | 0 <= i < n :: data[i] == Some(r) && flags[i] % 2 == 0
  {
    if n > 0 {
      ReleasesExactly(data, flags, n - 1, r);
      var prev := Releases(data, flags, n - 1);
      var last := if data[n - 1].Some? && flags[n - 1] % 2 == 0 then [data[n - 1].value] else [];
      assert Releases(data, flags, n) == prev + last;
      assert r in prev + last <==> r in prev || r in last;
      assert r in last <==> data[n - 1] == Some(r) && flags[n - 1] % 2 == 0;
    }
  }

  /** The releases of fewer slots are a prefix of those of more. */
  lemma {:induction false} ReleasesPrefix(data: seq<Option<Region>>, flags: seq<int>, i: nat, n: nat)
    requires i <= n <= |data| && n <= |flags|
    ensures Releases(data, flags, i) <= Releases(data, flags, n)
    decreases n - i
  {
    if i < n {
      ReleasesPrefix(data, flags, i, n - 1);
    }
  }

  /**
   * `mmf_sample_free(&sample)`: a null sample is already free; otherwise
   * the releasable buffers are released and then the struct.  The caller's
   * pointer is set to NULL in the C; here the caller drops its reference.
   */
  method Free(sample: Sample?) returns (rc: Rc, released: seq<array<byte>>)
    requires sample != null ==> sample.Valid()
    ensures sample == null ==> rc == Ok && released == []
    ensures sample != null ==> var r := FreeSpec(sample.Fields());
      rc == r.rc && (rc != Undefined ==> released == r.released)
  {
    if sample == null {
      return Ok, [];
    }
    rc, released := FreeBuffers(sample.Fields());
  }

  /** The loop of `mmf_sample_free` over the buffers of a sample. */
  method FreeBuffers(f: SampleFields) returns (rc: Rc, released: seq<array<byte>>)
    requires WellFormed(f)
    ensures var r := FreeSpec(f);
      rc == r.rc && (rc != Undefined ==> released == r.released)
  {
    released := [];
    ghost var rs: seq<Region> := [];
    var i := 0;
    while i < f.bufferCount
      invariant 0 <= i <= Times(f.bufferCount) && i <= MaxBufferCount
      invariant rs == Releases(f.data, f.flags, i) && Releasable(rs) && released == Blocks(rs)
    {
      if i >= MaxBufferCount {
        return Undefined, released;
      }
      var slot := f.data[i];
      if slot.Some? && f.flags[i] % 2 == 0 {
        if slot.value.offset != 0 || slot.value.block in released {
          if f.bufferCount <= MaxBufferCount {
            Spoiled(rs, slot.value);
            ReleasesPrefix(f.data, f.flags, i + 1, Times(f.bufferCount));
            UnreleasableGrows(rs + [slot.value], Releases(f.data, f.flags, Times(f.bufferCount)));
          }
          return Undefined, released;
        }
        Released(rs, slot.value);
        rs := rs + [slot.value];
        released := released + [slot.value.block];
      }
      i := i + 1;
    }
    rc := Ok;
  }

  /** A pointer to the start of an allocation not yet released can be released after the others. */
  lemma Released(rs: seq<Region>, r: Region)
    requires Releasable(rs) && r.offset == 0 && r.block !in Blocks(rs)
    ensures Releasable(rs + [r]) && Blocks(rs + [r]) == Blocks(rs) + [r.block]
  {
    var all := rs + [r];
    forall k, l | 0 <= k < l < |all|
      ensures all[k].block != all[l].block
    {
      if l == |rs| {
        assert Blocks(rs)[k] == rs[k].block;
      }
    }
  }

  /** A pointer into the middle of an allocation, or into one already released, cannot be released. */
  lemma Spoiled(rs: seq<Region>, r: Region)
    requires r.offset != 0 || r.block in Blocks(rs)
    ensures !Releasable(rs + [r])
  {
    var all := rs + [r];
    if r.block in Blocks(rs) {
      var k :| 0 <= k < |rs| && Blocks(rs)[k] == r.block;
      assert all[k].block == all[|rs|].block;
    } else {
      assert all[|rs|].offset != 0;
    }
  }

  /** A prefix that cannot be released spoils the whole. */
  lemma UnreleasableGrows(rs: seq<Region>, all: seq<Region>)
    requires rs <= all && !Releasable(rs)
    ensures !Releasable(all)
  {
    if forall k | 0 <= k < |rs| :: rs[k].offset == 0 {
      var k, l :| 0 <= k < l < |rs| && rs[k].block == rs[l].block;
      assert all[k].block == all[l].block;
    } else {
      var k :| 0 <= k < |rs| && rs[k].offset != 0;
      assert all[k].offset != 0;
    }
  }

  // ---------------------------------------------------------------------
  // mmf_allocate_video_frame
  // ---------------------------------------------------------------------

  /**
   * The bytes `mmf_allocate_video_frame` asks `mmf_alloc` for: four per
   * pixel for RGBA32, and w * h + w * h / 2 for the 12-bit planar formats,
   * whose dimensions are even by then, so that the quotient is exact.
   */
  function FrameBytes(fmt: int, w: int, h: int): (n: int)
    ensures fmt == FormatRgba32 ==> n == 4 * (w * h)
    ensures fmt != FormatRgba32 && w % 2 == 0 ==> 2 * n == 3 * (w * h)
  {
    if fmt == FormatRgba32 then w * 4 * h
    else
      assert w % 2 == 0 ==> w * h == 2 * ((w / 2) * h);
      w * h + w * h / 2
  }

  /** The outcome of `mmf_allocate_video_frame`: its code and the fields of the sample after. */
  datatype Allocated = Allocated(rc: Rc, fields: SampleFields)

  /**
   * `mmf_allocate_video_frame(fmt, w, h, &sample)` on a sample whose
   * fields are `f`, where `alloc` is what `mmf_alloc` returns (None for
   * NULL).  The format is stored first; every early return keeps what was
   * stored before it, and the size is stored only on success.
   */
  function AllocateSpec(f: SampleFields, fmt: int, w: int, h: int, alloc: Option<array<byte>>): (r: Allocated)
    requires WellFormed(f)
    ensures WellFormed(r.fields) && r.fields.format == fmt
    ensures r.rc == Ok || r.rc == OutOfMem || r.rc == InvalidArg
    ensures r.rc == Ok <==> alloc.Some? && (fmt == FormatRgba32 || ((fmt == FormatNv12 || fmt == FormatYuv420p) && w % 2 == 0 && h % 2 == 0))
    ensures r.rc != Ok ==> r.fields.width == f.width && r.fields.height == f.height
    ensures r.rc == Ok ==> r.fields.width == w && r.fields.height == h
  {
    var f := f.(format := fmt);
    if fmt == FormatRgba32 then
      var g := f.(bufferCount := 1, stride := f.stride[0 := w * 4], flags := f.flags[0 := FlagsNone]);
      if alloc.None? then Allocated(OutOfMem, g.(data := g.data[0 := None]))
      else Allocated(Ok, g.(data := g.data[0 := Some(Region(alloc.value, 0))], width := w, height := h))
    else if fmt == FormatNv12 || fmt == FormatYuv420p then
      if w % 2 != 0 || h % 2 != 0 then Allocated(InvalidArg, f)
      else if alloc.None? then Allocated(OutOfMem, f.(bufferCount := if fmt == FormatNv12 then 2 else 3))
      else if fmt == FormatNv12 then
        var b := alloc.value;
        Allocated(Ok, f.(bufferCount := 2,
                         stride := f.stride[0 := w][1 := w],
                         data := f.data[0 := Some(Region(b, 0))][1 := Some(Region(b, w * h))],
                         flags := f.flags[0 := FlagsNone][1 := FlagsDontRelease],
                         width := w, height := h))
      else
        var b := alloc.value;
        Allocated(Ok, f.(bufferCount := 3,
                         stride := f.stride[0 := w][1 := w / 2][2 := w / 2],
                         data := f.data[0 := Some(Region(b, 0))][1 := Some(Region(b, w * h))][2 := Some(Region(b, w * h + w * h / 4))],
                         flags := f.flags[0 := FlagsNone][1 := FlagsDontRelease][2 := FlagsDontRelease],
                         width := w, height := h))
    else Allocated(InvalidArg, f)
  }

  /**
   * `mmf_allocate_video_frame`: an existing sample is reused, a missing one
   * is allocated.  `mmf_alloc` succeeds exactly for a size that is not
   * negative; `alloc` is the allocation it made.
   */
  method AllocateVideoFrame(fmt: int, w: int, h: int, sample: Sample?) returns (rc: Rc, s: Sample, ghost alloc: Option<array<byte>>)
    requires sample != null ==> sample.Valid()
    modifies sample
    ensures sample != null ==> s == sample
    ensures sample == null ==> fresh(s)
    ensures alloc.Some? ==> fresh(alloc.value) && alloc.value.Length == FrameBytes(fmt, w, h)
    ensures alloc.None? ==> rc != Ok
    ensures s.Valid()
    ensures var r := AllocateSpec(if sample == null then BlankFields else old(sample.Fields()), fmt, w, h, alloc);
      rc == r.rc && s.Fields() == r.fields
  {
    if sample == null {
      s := new Sample.Allocate();
    } else {
      s := sample;
    }
    var f := s.Fields();
    alloc := None;
    var g := f.(format := fmt);
    if fmt == FormatRgba32 {
      g := g.(bufferCount := 1, stride := g.stride[0 := w * 4], flags := g.flags[0 := FlagsNone]);
      var size := w * 4 * h;
      if size < 0 {
        g := g.(data := g.data[0 := None]);
        s.Assign(g);
        return OutOfMem, s, alloc;
      }
      var b := new byte[size];
      alloc := Some(b);
      g := g.(data := g.data[0 := Some(Region(b, 0))]);
    } else if fmt == FormatNv12 || fmt == FormatYuv420p {
      if w % 2 != 0 || h % 2 != 0 {
        s.Assign(g);
        return InvalidArg, s, alloc;
      }
      g := g.(bufferCount := if fmt == FormatNv12 then 2 else 3);
      var size := w * h + w * h / 2;
      if size < 0 {
        s.Assign(g);
        return OutOfMem, s, alloc;
      }
      var b := new byte[size];
      alloc := Some(b);
      g := g.(stride := g.stride[0 := w], data := g.data[0 := Some(Region(b, 0))], flags := g.flags[0 := FlagsNone]);
      if fmt == FormatNv12 {
        g := g.(stride := g.stride[1 := w], data := g.data[1 := Some(Region(b, w * h))], flags := g.flags[1 := FlagsDontRelease]);
      } else {
        g := g.(stride := g.stride[1 := w / 2], data := g.data[1 := Some(Region(b, w * h))], flags := g.flags[1 := FlagsDontRelease]);
        g := g.(stride := g.stride[2 := w / 2], data := g.data[2 := Some(Region(b, w * h + w * h / 4))], flags := g.flags[2 := FlagsDontRelease]);
      }
    } else {
      s.Assign(g);
      return InvalidArg, s, alloc;
    }
    g := g.(width := w, height := h);
    s.Assign(g);
    rc := Ok;
  }

  /**
   * The YUV420P layout: three planes in one allocation, with strides w,
   * w/2, w/2; U follows the h rows of Y and V the h/2 rows of U, and the
   * h/2 rows of V end the allocation; only the first plane is released.
   */
  lemma Yuv420pLayout(f: SampleFields, w: nat, h: nat, b: array<byte>)
    requires WellFormed(f) && w % 2 == 0 && h % 2 == 0
    ensures var r := AllocateSpec(f, FormatYuv420p, w, h, Some(b)).fields;
      && r.bufferCount == 3
      && r.stride[..3] == [w, w / 2, w / 2]
      && r.data[..3] == [Some(Region(b, 0)), Some(Region(b, h * r.stride[0])), Some(Region(b, h * r.stride[0] + (h / 2) * r.stride[1]))]
      && FrameBytes(FormatYuv420p, w, h) == r.data[2].value.offset + (h / 2) * r.stride[2]
      && r.flags[..3] == [FlagsNone, FlagsDontRelease, FlagsDontRelease]
  {
    var w2, h2 := w / 2, h / 2;
    assert w == 2 * w2 && h == 2 * h2;
    assert w * h == 4 * (w2 * h2);
    assert w * h / 4 == w2 * h2;
    assert w * h / 2 == 2 * (w2 * h2);
  }

  /** The NV12 layout: two planes of stride w in one allocation, the interleaved U-V plane after the h rows of Y. */
  lemma Nv12Layout(f: SampleFields, w: nat, h: nat, b: array<byte>)
    requires WellFormed(f) && w % 2 == 0 && h % 2 == 0
    ensures var r := AllocateSpec(f, FormatNv12, w, h, Some(b)).fields;
      && r.bufferCount == 2
      && r.stride[..2] == [w, w]
      && r.data[..2] == [Some(Region(b, 0)), Some(Region(b, h * w))]
      && FrameBytes(FormatNv12, w, h) == h * w + (h / 2) * w
      && r.flags[..2] == [FlagsNone, FlagsDontRelease]
  {
    var h2 := h / 2;
    assert h == 2 * h2;
    assert w * h / 2 == w * h2;
  }

  /** Odd dimensions of a planar format and unknown formats are rejected, with only the format stored. */
  lemma Rejections(f: SampleFields, fmt: int, w: int, h: int, alloc: Option<array<byte>>)
    requires WellFormed(f)
    requires || ((fmt == FormatNv12 || fmt == FormatYuv420p) && (w % 2 != 0 || h % 2 != 0))
             || (fmt != FormatRgba32 && fmt != FormatNv12 && fmt != FormatYuv420p)
    ensures AllocateSpec(f, fmt, w, h, alloc) == Allocated(InvalidArg, f.(format := fmt))
  {
  }

  /**
   * A frame laid out by `mmf_allocate_video_frame` is freed by releasing
   * its allocation exactly once: the DONT_RELEASE flags keep the pointers
   * into the middle of it from being freed.
   */
  lemma FreeAfterAllocate(f: SampleFields, fmt: int, w: int, h: int, b: array<byte>)
    requires WellFormed(f)
    requires AllocateSpec(f, fmt, w, h, Some(b)).rc == Ok
    ensures FreeSpec(AllocateSpec(f, fmt, w, h, Some(b)).fields) == Freed(Ok, [b])
  {
    var r := AllocateSpec(f, fmt, w, h, Some(b)).fields;
    assert Releases(r.data, r.flags, 1) == [Region(b, 0)];
    if fmt != FormatRgba32 {
      assert Releases(r.data, r.flags, 2) == [Region(b, 0)];
    }
    if fmt == FormatYuv420p {
      assert Releases(r.data, r.flags, 3) == [Region(b, 0)];
    }
  }

  // ---------------------------------------------------------------------
  // mmf_sample_copy_plane
  // ---------------------------------------------------------------------

  /** `abs`. */
  function Abs(x: int): nat
  {
    if x < 0 then -x else x
  }

  /**
   * The row loop of `mmf_sample_copy_plane`: `memcpy(s, d, bytewidth)`,
   * then each pointer moves on by its stride, h times.
   */
  function CopyRows(m: Memory, s: Region, d: Region, sStride: int, dStride: int, bytewidth: int, h: int): (r: Option<Memory>)
    requires s.block in m && d.block in m
    ensures r.Some? ==> r.value.Keys == m.Keys
    ensures r.Some? ==> s.block in r.value && d.block in r.value
    decreases h
  {
    if h <= 0 then Some(m)
    else
      var c := MemcpySpec(m, s, d, bytewidth);
      if c.None? then None
      else CopyRows(c.value, Offset(s, sStride), Offset(d, dStride), sStride, dStride, bytewidth, h - 1)
  }

  /** The outcome of a copy: its code and the memory after. */
  datatype Copy = Copy(rc: Rc, mem: Memory)

  /**
   * `mmf_sample_copy_plane(src, src_stride, dst, dst_stride, bytewidth, h)`.
   * Despite the names, the bytes flow from `dst` into `src`.  A null
   * pointer is rejected; strides narrower than a row fail the assertion;
   * equal strides that are the row width copy the plane in one `memcpy`.
   */
  function CopyPlaneSpec(m: Memory, src: Option<Region>, srcStride: int, dst: Option<Region>, dstStride: int,
                         bytewidth: int, h: int): (r: Copy)
    requires src.Some? ==> src.value.block in m
    requires dst.Some? ==> dst.value.block in m
    ensures r.rc == Ok || r.rc == InvalidArg || r.rc == Undefined
    ensures r.rc == InvalidArg <==> src.None? || dst.None?
  {
    if src.None? || dst.None? then Copy(InvalidArg, m)
    else if !(Abs(srcStride) >= bytewidth && Abs(dstStride) >= bytewidth) then Copy(Undefined, m)
    else
      var c := if srcStride == dstStride && srcStride == bytewidth then MemcpySpec(m, src.value, dst.value, bytewidth * h)
               else CopyRows(m, src.value, dst.value, srcStride, dstStride, bytewidth, h);
      if c.None? then Copy(Undefined, m) else Copy(Ok, c.value)
  }

  method CopyPlane(ghost m: Memory, src: Option<Region>, srcStride: int, dst: Option<Region>, dstStride: int,
                   bytewidth: int, h: int) returns (rc: Rc)
    requires src.Some? ==> src.value.block in m && src.value.block[..] == m[src.value.block]
    requires dst.Some? ==> dst.value.block in m && dst.value.block[..] == m[dst.value.block]
    modifies if src.Some? then {src.value.block} else {}
    ensures var r := CopyPlaneSpec(m, src, srcStride, dst, dstStride, bytewidth, h);
      rc == r.rc && (rc == Ok ==> src.value.block[..] == r.mem[src.value.block])
  {
    if src.None? || dst.None? {
      return InvalidArg;
    }
    if !(Abs(srcStride) >= bytewidth && Abs(dstStride) >= bytewidth) {
      return Undefined;
    }
    var ok;
    if srcStride == dstStride && srcStride == bytewidth {
      ok := Memcpy(m, src.value, dst.value, bytewidth * h);
    } else {
      ok := CopyRowsLoop(m, src.value, dst.value, srcStride, dstStride, bytewidth, h);
    }
    rc := if ok then Ok else Undefined;
  }

  /** The row loop, as `CopyRows` describes it. */
  method CopyRowsLoop(ghost m: Memory, s: Region, d: Region, sStride: int, dStride: int, bytewidth: int, h: int)
      returns (ok: bool)
    requires s.block in m && d.block in m
    requires s.block[..] == m[s.block] && d.block[..] == m[d.block]
    modifies s.block
    ensures var r := CopyRows(m, s, d, sStride, dStride, bytewidth, h);
      ok == r.Some? && (ok ==> s.block[..] == r.value[s.block])
  {
    var s', d', rows := s, d, h;
    ghost var m': Memory := m;
    ghost var target := RowsOf(m, s, d, sStride, dStride, bytewidth, h);
    while rows > 0
      invariant s.block in m' && d.block in m'
      invariant s'.block == s.block && d'.block == d.block
      invariant s.block[..] == m'[s.block] && d.block[..] == m'[d.block]
      invariant RowsIs(m', s', d', sStride, dStride, bytewidth, rows, target)
      decreases rows
    {
      ghost var next: Memory;
      ok, next := CopyRow(m', s', d', sStride, dStride, bytewidth, rows, target);
      if !ok {
        return;
      }
      m' := next;
      s', d', rows := Offset(s', sStride), Offset(d', dStride), rows - 1;
    }
    assert CopyRows(m', s', d', sStride, dStride, bytewidth, rows) == Some(m');
    ok := true;
  }

  /** One row of `CopyRowsLoop`: what is left to copy after it still ends in `target`. */
  method CopyRow(ghost m: Memory, s: Region, d: Region, sStride: int, dStride: int, bytewidth: int, rows: int,
                 ghost target: Option<Memory>) returns (ok: bool, ghost next: Memory)
    requires s.block in m && d.block in m && rows > 0
    requires s.block[..] == m[s.block] && d.block[..] == m[d.block]
    requires RowsIs(m, s, d, sStride, dStride, bytewidth, rows, target)
    modifies s.block
    ensures !ok ==> target.None?
    ensures ok ==> s.block in next && d.block in next
    ensures ok ==> s.block[..] == next[s.block] && d.block[..] == next[d.block]
    ensures ok ==> RowsIs(next, Offset(s, sStride), Offset(d, dStride), sStride, dStride, bytewidth, rows - 1, target)
  {
    assert CopyRows(m, s, d, sStride, dStride, bytewidth, rows) == target;
    ok := Memcpy(m, s, d, bytewidth);
    next := m;
    if ok {
      next := MemcpySpec(m, s, d, bytewidth).value;
      RowsAfter(m, s, d, sStride, dStride, bytewidth, rows, next, target);
    }
  }

  /** `target` is `CopyRows(m, s, d, ...)`, in a form that does not expand it. */
  ghost predicate RowsIs(m: Memory, s: Region, d: Region, sStride: int, dStride: int, bytewidth: int, rows: int,
                         target: Option<Memory>)
  {
    forall n {:trigger CopyRows(m, s, d, sStride, dStride, bytewidth, n)} ::
      Same(n, rows) && s.block in m && d.block in m ==> CopyRows(m, s, d, sStride, dStride, bytewidth, n) == target
  }

  /** The rows still to copy, as a value for `RowsIs`. */
  lemma RowsOf(m: Memory, s: Region, d: Region, sStride: int, dStride: int, bytewidth: int, rows: int)
      returns (target: Option<Memory>)
    requires s.block in m && d.block in m
    ensures RowsIs(m, s, d, sStride, dStride, bytewidth, rows, target)
    ensures target == CopyRows(m, s, d, sStride, dStride, bytewidth, rows)
  {
    target := CopyRows(m, s, d, sStride, dStride, bytewidth, rows);
  }

  /** The copy writes only the allocation `src` points into. */
  lemma CopyPlaneKeepsOthers(m: Memory, src: Option<Region>, srcStride: int, dst: Option<Region>, dstStride: int,
                             bytewidth: int, h: int, b: array<byte>)
    requires src.Some? ==> src.value.block in m
    requires dst.Some? ==> dst.value.block in m
    requires b in m && (src.Some? ==> b != src.value.block)
    ensures var r := CopyPlaneSpec(m, src, srcStride, dst, dstStride, bytewidth, h);
      b in r.mem && r.mem[b] == m[b]
  {
    if src.Some? && dst.Some? && !(srcStride == dstStride && srcStride == bytewidth) {
      RowsKeepOthers(m, src.value, dst.value, srcStride, dstStride, bytewidth, h, b);
    }
  }

  lemma {:induction false} RowsKeepOthers(m: Memory, s: Region, d: Region, sStride: int, dStride: int, bytewidth: int, h: int,
                                          b: array<byte>)
    requires s.block in m && d.block in m && b in m && b != s.block
    ensures var r := CopyRows(m, s, d, sStride, dStride, bytewidth, h);
      r.Some? ==> b in r.value && r.value[b] == m[b]
    decreases h
  {
    if h > 0 && MemcpySpec(m, s, d, bytewidth).Some? {
      var next := MemcpySpec(m, s, d, bytewidth).value;
      RowsKeepOthers(next, Offset(s, sStride), Offset(d, dStride), sStride, dStride, bytewidth, h - 1, b);
    }
  }

  /** What is left of the rows after the first is copied. */
  lemma RowsAfter(m: Memory, s: Region, d: Region, sStride: int, dStride: int, bytewidth: int, rows: int,
                  next: Memory, target: Option<Memory>)
    requires s.block in m && d.block in m && rows > 0
    requires MemcpySpec(m, s, d, bytewidth) == Some(next)
    requires CopyRows(m, s, d, sStride, dStride, bytewidth, rows) == target
    ensures s.block in next && d.block in next
    ensures CopyRows(next, Offset(s, sStride), Offset(d, dStride), sStride, dStride, bytewidth, rows - 1) == target
  {
    CopyRowsStep(m, s, d, sStride, dStride, bytewidth, rows);
  }

  /** One row of the loop. */
  lemma CopyRowsStep(m: Memory, s: Region, d: Region, sStride: int, dStride: int, bytewidth: int, rows: int)
    requires s.block in m && d.block in m && rows > 0
    requires MemcpySpec(m, s, d, bytewidth).Some?
    ensures CopyRows(m, s, d, sStride, dStride, bytewidth, rows)
         == CopyRows(MemcpySpec(m, s, d, bytewidth).value, Offset(s, sStride), Offset(d, dStride), sStride, dStride, bytewidth, rows - 1)
  {
  }

  /**
   * The one-block copy agrees with the row loop: with both strides equal
   * to the row width, copying the h rows one by one gives what one
   * `memcpy` of the whole plane gives.
   */
  lemma {:induction false} WholePlaneIsRows(m: Memory, s: Region, d: Region, bytewidth: nat, h: nat)
    requires s.block in m && d.block in m
    requires MemcpySpec(m, s, d, bytewidth * h).Some?
    ensures CopyRows(m, s, d, bytewidth, bytewidth, bytewidth, h) == MemcpySpec(m, s, d, bytewidth * h)
    decreases h
  {
    if h > 0 {
      var k := bytewidth * (h - 1);
      assert bytewidth * h == bytewidth + k;
      MemcpySplit(m, s, d, bytewidth, k);
      var first := MemcpySpec(m, s, d, bytewidth).value;
      var s1, d1 := Offset(s, bytewidth), Offset(d, bytewidth);
      WholePlaneIsRows(first, s1, d1, bytewidth, h - 1);
      CopyRowsStep(m, s, d, bytewidth, bytewidth, bytewidth, h);
      assert CopyRows(m, s, d, bytewidth, bytewidth, bytewidth, h) == CopyRows(first, s1, d1, bytewidth, bytewidth, bytewidth, h - 1);
      assert MemcpySpec(first, s1, d1, k) == MemcpySpec(m, s, d, bytewidth + k);
    } else {
      assert bytewidth * h == 0;
      MemcpyContents(m, s, d, 0);
      assert MemcpySpec(m, s, d, 0).value[s.block] == m[s.block];
      assert MemcpySpec(m, s, d, 0).value == m;
    }
  }

  /** A copy of a + k bytes is a copy of the first a bytes, then of the k after them. */
  lemma MemcpySplit(m: Memory, s: Region, d: Region, a: nat, k: nat)
    requires s.block in m && d.block in m
    requires MemcpySpec(m, s, d, a + k).Some?
    ensures MemcpySpec(m, s, d, a).Some?
    ensures var first := MemcpySpec(m, s, d, a).value;
      MemcpySpec(first, Offset(s, a), Offset(d, a), k) == MemcpySpec(m, s, d, a + k)
  {
    var src := m[d.block];
    var x, y := src[d.offset..d.offset + a], src[d.offset + a..d.offset + a + k];
    var first := MemcpyFirst(m, s, d, a, k);
    var twice := MemcpyRest(m, s, d, a, k, first);
    SpliceTwice(m[s.block], s.offset, x, y);
    assert x + y == src[d.offset..d.offset + a + k];
    assert first[s.block := twice] == m[s.block := twice];
  }

  /** The first a bytes of a copy of a + k bytes. */
  lemma MemcpyFirst(m: Memory, s: Region, d: Region, a: nat, k: nat) returns (first: Memory)
    requires s.block in m && d.block in m
    requires MemcpySpec(m, s, d, a + k).Some?
    ensures first == m[s.block := Splice(m[s.block], s.offset, m[d.block][d.offset..d.offset + a])]
    ensures MemcpySpec(m, s, d, a) == Some(first)
  {
    first := m[s.block := Splice(m[s.block], s.offset, m[d.block][d.offset..d.offset + a])];
  }

  /** The k bytes after them, copied once the first a are. */
  lemma MemcpyRest(m: Memory, s: Region, d: Region, a: nat, k: nat, first: Memory) returns (twice: seq<byte>)
    requires s.block in m && d.block in m
    requires MemcpySpec(m, s, d, a + k).Some?
    requires first == m[s.block := Splice(m[s.block], s.offset, m[d.block][d.offset..d.offset + a])]
    ensures s.offset + a + k <= |first[s.block]|
    ensures twice == Splice(first[s.block], s.offset + a, m[d.block][d.offset + a..d.offset + a + k])
    ensures MemcpySpec(first, Offset(s, a), Offset(d, a), k) == Some(first[s.block := twice])
  {
    var x := m[d.block][d.offset..d.offset + a];
    if d.block == s.block {
      SpliceOutside(m[s.block], s.offset, x, d.offset + a, d.offset + a + k);
    }
    twice := Splice(first[s.block], s.offset + a, m[d.block][d.offset + a..d.offset + a + k]);
  }

  /** Two adjacent splices are one splice of both pieces. */
  lemma SpliceTwice(s: seq<byte>, k: nat, x: seq<byte>, y: seq<byte>)
    requires k + |x| + |y| <= |s|
    ensures Splice(Splice(s, k, x), k + |x|, y) == Splice(s, k, x + y)
  {
    var once := Splice(s, k, x);
    assert once[..k + |x|] == s[..k] + x;
    assert once[k + |x| + |y|..] == s[k + |x| + |y|..];
  }

  /** A splice leaves the slices it does not overlap as they were. */
  lemma SpliceOutside(s: seq<byte>, k: nat, t: seq<byte>, i: nat, j: nat)
    requires k + |t| <= |s| && i <= j <= |s|
    requires j <= k || k + |t| <= i
    ensures Splice(s, k, t)[i..j] == s[i..j]
  {
    SpliceContents(s, k, t);
  }
}
