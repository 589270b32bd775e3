// Decoded pictures of codec/mpeg1dec.c: `MPEG1Picture` with its three
// planes, `mpg1_picture_alloc`, and the additive prediction of
// `mpg1_perform_prediction`, which adds a reference picture to a decoded
// one sample by sample.  The planes are `int8_t` in the C; they are bytes
// here, and adding two of them wraps modulo 256 as the stores do.

module Mpeg1Frame {
  import opened MmfUtil
  import opened Mpeg1Tables
  import opened Mpeg1Headers

  /** The contents of the three planes of a picture. */
  datatype Planes = Planes(y: seq<byte>, u: seq<byte>, v: seq<byte>)

  /** The plane sizes of a picture of `width` by `height` samples: the Y plane, and a quarter of it for U and V. */
  function PlaneSizes(width: nat, height: nat): (r: (nat, nat))
    ensures r.0 == width * height && r.1 == r.0 / 4
  {
    (width * height, width * height / 4)
  }

  /**
   * `MPEG1Picture`: the header and the Y, U and V planes.  The motion-vector
   * arrays the C allocates are never read or written by the decoder and
   * are left out.
   */
  class Picture {
    var hdr: PictureHeader
    const y: array<byte>
    const u: array<byte>
    const v: array<byte>

    /** The three planes are three allocations. */
    ghost predicate Valid()
      reads this
    {
      y != u && y != v && u != v
    }

    function Contents(): Planes
      reads this, y, u, v
    {
      Planes(y[..], u[..], v[..])
    }

    /**
     * `mpg1_picture_alloc(width, height)`: a zeroed picture whose Y plane
     * holds width * height samples and whose U and V planes a quarter of
     * that.
     */
    constructor Alloc(width: nat, height: nat)
      ensures Valid() && fresh(y) && fresh(u) && fresh(v)
      ensures hdr == BlankPictureHeader
      ensures var (ySize, cSize) := PlaneSizes(width, height);
        Contents() == Planes(AllocZ(ySize), AllocZ(cSize), AllocZ(cSize))
    {
      var (ySize, cSize) := PlaneSizes(width, height);
      hdr := BlankPictureHeader;
      y := new byte[ySize](_ => 0);
      u := new byte[cSize](_ => 0);
      v := new byte[cSize](_ => 0);
    }
  }

  // ---------------------------------------------------------------------
  // mpg1_perform_prediction
  // ---------------------------------------------------------------------

  /** The first n samples of `dst` with those of `src` added, modulo 256. */
  function AddSamples(dst: seq<byte>, src: seq<byte>, n: nat): (r: seq<byte>)
    requires n <= |dst| && n <= |src|
    ensures |r| == |dst|
    ensures forall i | 0 <= i < |dst| :: r[i] == if i < n then (dst[i] as int + src[i] as int) % 256 else dst[i]
  {
    seq(|dst|, i requires 0 <= i < |dst| => if i < n then (dst[i] as int + src[i] as int) % 256 else dst[i])
  }

  /** What an encoder codes: the first n samples of `pic` less those of `ref`, modulo 256. */
  function SubSamples(pic: seq<byte>, ref: seq<byte>, n: nat): (r: seq<byte>)
    requires n <= |pic| && n <= |ref|
    ensures |r| == |pic|
  {
    seq(|pic|, i requires 0 <= i < |pic| => if i < n then (pic[i] as int - ref[i] as int) % 256 else pic[i])
  }

  /** Adding the reference to the difference from it gives the picture back. */
  lemma PredictionInverts(pic: seq<byte>, ref: seq<byte>, n: nat)
    requires n <= |pic| && n <= |ref|
    ensures AddSamples(SubSamples(pic, ref, n), ref, n) == pic
  {
    var r := AddSamples(SubSamples(pic, ref, n), ref, n);
    forall i | 0 <= i < |pic|
      ensures r[i] == pic[i]
    {
      if i < n {
        var d := (pic[i] as int - ref[i] as int) % 256;
        assert (d + ref[i] as int) % 256 == pic[i] as int % 256;
      }
    }
  }

  /** How many samples a loop `for (i = 0; i < n; i++)` visits. */
  function Count(n: int): nat
  {
    if n > 0 then n else 0
  }

  /** The outcome of the prediction: a code and the planes after. */
  datatype Prediction = Prediction(rc: Rc, planes: Planes)

  /**
   * `mpg1_perform_prediction(dec, p, ref)` with `pixels` the luminance
   * samples of the sequence: only P and B pictures are predicted; each
   * plane gets the reference plane added over its first `pixels` (luma)
   * or `pixels / 4` (chroma) samples; reading or writing past a plane is
   * undefined behaviour.
   */
  function PredictSpec(p: Planes, ref: Planes, frameType: int, pixels: int): (r: Prediction)
    ensures r.rc == Ok || r.rc == InvalidArg || r.rc == Undefined
    ensures r.rc != Ok ==> r.planes == p
  {
    var n, m := Count(pixels), Count(pixels) / 4;
    if frameType != FrameTypeP && frameType != FrameTypeB then Prediction(InvalidArg, p)
    else if n > |p.y| || n > |ref.y| || m > |p.u| || m > |ref.u| || m > |p.v| || m > |ref.v| then Prediction(Undefined, p)
    else Prediction(Ok, Planes(AddSamples(p.y, ref.y, n), AddSamples(p.u, ref.u, m), AddSamples(p.v, ref.v, m)))
  }

  /** One plane of the prediction: `*(dst++) += *(src++)`, n times. */
  method AddPlane(dst: array<byte>, src: array<byte>, n: nat)
    requires n <= dst.Length && n <= src.Length
    modifies dst
    ensures dst[..] == AddSamples(old(dst[..]), old(src[..]), n)
  {
    for i := 0 to n
      invariant dst[..] == AddSamples(old(dst[..]), old(src[..]), i)
    {
      dst[i] := (dst[i] as int + src[i] as int) % 256;
    }
  }

  /** The planes of two pictures overlap only plane by plane (when they are the same picture). */
  predicate Apart(p: Picture, ref: Picture)
  {
    && p.y != ref.u && p.y != ref.v
    && p.u != ref.y && p.u != ref.v
    && p.v != ref.y && p.v != ref.u
  }

  method PerformPrediction(p: Picture, ref: Picture, pixels: int) returns (rc: Rc)
    requires p.Valid() && ref.Valid() && Apart(p, ref)
    modifies p.y, p.u, p.v
    ensures var r := PredictSpec(old(p.Contents()), old(ref.Contents()), p.hdr.frameType, pixels);
      rc == r.rc && (rc != Undefined ==> p.Contents() == r.planes)
  {
    if p.hdr.frameType != FrameTypeP && p.hdr.frameType != FrameTypeB {
      return InvalidArg;
    }
    var n := Count(pixels);
    var m := n / 4;
    if n > p.y.Length || n > ref.y.Length || m > p.u.Length || m > ref.u.Length || m > p.v.Length || m > ref.v.Length {
      return Undefined;
    }
    AddPlane(p.y, ref.y, n);
    AddPlane(p.u, ref.u, m);
    AddPlane(p.v, ref.v, m);
    rc := Ok;
  }
}
