// The start-code search and the four header parsers of codec/mpeg1dec.c
// (sections 2.4.2.2 to 2.4.2.6 of ISO/IEC 11172-2).  Each parser is a
// specification function on the reader state, written as the sequence of
// reads the C performs, and a method over the `BitReader` proved to move to
// the state that function gives.  The parsers update a header the caller
// owns, so the header before the call is an argument and the header after
// it part of the result, whatever the code.

module Mpeg1Headers {
  import opened MmfUtil
  import opened CInt
  import opened BitSeq
  import opened Bitstream
  import opened Mpeg1Tables
  import Vlc

  /** The result of a parser: the code, the header as it is left, the stream after. */
  datatype Parse<T> = Parse(rc: Rc, value: T, next: ReaderState)

  /** The measure every loop below decreases: the bits left to read. */
  function Left(s: ReaderState): int
  {
    |Pending(s)| * 8 - s.readBitIndex
  }

  /** Peeks and discards never lose input and never move the cursor back. */
  lemma Keeps(s: ReaderState, n: int)
    requires Good(s) && n <= 32
    ensures Pending(ReadSpec(s, n).next) == Pending(s)
    ensures Pending(PeekSpec(s, n).next) == Pending(s)
    ensures Left(s) >= 0
  {
    ReadKeepsPending(s, n);
    PeekIsRead(s, n);
  }

  // ---------------------------------------------------------------------
  // mpg1_next_start_code
  // ---------------------------------------------------------------------

  /** What the loop looks for: `bits >> 8 == 1` (a division by 256) on a peek of 32 bits, the prefix 0x000001. */
  function StartCodeAt(data: seq<byte>, k: nat): (r: bool)
    ensures r <==> k + 32 <= |data| * 8 && Bits(data, k, 24) == 1
  {
    if k + 32 <= |data| * 8 then
      BitsSplit(data, k, 24, 8);
      ShlIsMul(Bits(data, k, 24), 8);
      BitsBound(data, k + 24, 8);
      assert Pow2(8) == 256;
      DivUnique(Bits(data, k, 32), 256, Bits(data, k, 24), Bits(data, k + 24, 8));
      Bits(data, k, 32) / 256 == 1
    else false
  }

  /**
   * The loop of `mpg1_next_start_code`: peek 32 bits; stop with OK on a
   * start-code prefix, otherwise discard a byte and go on while that works.
   * A failed peek gives 0, so it only moves on.
   */
  function ScanStartCode(s: ReaderState): (r: Step)
    requires Good(s)
    ensures Good(r.next) && Pending(r.next) == Pending(s)
    ensures s.readBitIndex <= r.next.readBitIndex
    decreases Left(s)
  {
    var o := ScanOnce(s);
    if !o.more then Step(o.rc, o.next) else ScanStartCode(o.next)
  }

  /** The scan moves the cursor by k whole bytes. */
  lemma {:induction false} ScanWholeBytes(s: ReaderState) returns (k: nat)
    requires Good(s)
    ensures ScanStartCode(s).next.readBitIndex == s.readBitIndex + 8 * k
    decreases Left(s)
  {
    var o := ScanOnce(s);
    k := 0;
    if o.more {
      k := ScanWholeBytes(o.next);
      k := k + 1;
    }
  }

  /** One pass of the scan: whether it goes on, its code and the stream after it. */
  datatype Scanned = Scanned(more: bool, rc: Rc, next: ReaderState)

  /** One pass of the loop of `mpg1_next_start_code`: the peek, then the byte it discards if no prefix is there. */
  function ScanOnce(s: ReaderState): (r: Scanned)
    requires Good(s)
    ensures Left(s) >= 0 && Good(r.next) && Pending(r.next) == Pending(s)
    ensures r.more ==> r.next.readBitIndex == s.readBitIndex + 8
    ensures !r.more ==> r.next.readBitIndex == s.readBitIndex
  {
    var p := PeekSpec(s, 32);
    ScanMove(s);
    if p.value / 256 == 1 then Scanned(false, Ok, p.next)
    else
      var d := DiscardSpec(p.next, 8);
      Scanned(!Failed(d.rc), d.rc, d.next)
  }

  /** What one pass of the scan does to the stream: nothing lost, a byte on or nothing. */
  lemma ScanMove(s: ReaderState)
    requires Good(s)
    ensures var p := PeekSpec(s, 32);
      var d := DiscardSpec(p.next, 8);
      && Left(s) >= 0
      && Pending(p.next) == Pending(s) && p.next.readBitIndex == s.readBitIndex
      && Good(d.next) && Pending(d.next) == Pending(s)
      && (!Failed(d.rc) ==> d.next.readBitIndex == s.readBitIndex + 8)
      && (Failed(d.rc) ==> d.next.readBitIndex == s.readBitIndex)
  {
    var p := PeekSpec(s, 32);
    Keeps(s, 32);
    Keeps(p.next, 8);
  }

  /** `mpg1_next_start_code`: align to a byte (its code is ignored), then scan. */
  function NextStartCodeSpec(s: ReaderState): (r: Step)
    requires Good(s)
    ensures Good(r.next)
  {
    ScanStartCode(AlignSpec(s).next)
  }

  method NextStartCode(bs: BitReader) returns (rc: Rc)
    requires bs.Valid()
    modifies bs, bs.buffer
    ensures bs.Valid()
    ensures Step(rc, bs.St()) == NextStartCodeSpec(old(bs.St()))
  {
    var _ := bs.AlignToByte();
    while true
      invariant bs.Valid()
      invariant ScanStartCode(bs.St()) == NextStartCodeSpec(old(bs.St()))
      decreases Left(bs.St())
    {
      bs.ValidGood();
      Keeps(bs.St(), 32);
      var bits, _ := bs.PeekBits(32);
      if bits / 256 == 1 {  // `bits >> 8`
        return Ok;
      }
      bs.ValidGood();
      Keeps(bs.St(), 8);
      rc := bs.DiscardBits(8);
      if Failed(rc) {
        return rc;
      }
    }
  }

  /**
   * When the search succeeds the cursor is on a start-code prefix that is
   * buffered, at a whole number of bytes from where the search began; when
   * the alignment succeeded too, the cursor is byte-aligned.
   */
  lemma NextStartCodeFound(s: ReaderState)
    requires Good(s)
    ensures var r := NextStartCodeSpec(s);
      r.rc == Ok ==>
        && s.readBitIndex <= r.next.readBitIndex
        && StartCodeAt(r.next.data, r.next.readBitIndex)
        && (AlignSpec(s).rc == Ok ==> r.next.readBitIndex % 8 == 0)
  {
    var a := AlignSpec(s);
    var r := ScanStartCode(a.next);
    AlignCases(s);
    ScanFound(a.next);
    var k := ScanWholeBytes(a.next);
    if a.rc == Ok {
      ByteAligned(r.next.readBitIndex, a.next.readBitIndex, k);
    }
  }

  lemma ByteAligned(a: int, b: int, k: int)
    requires b % 8 == 0 && a == b + 8 * k
    ensures a % 8 == 0
  {
    var j := b / 8;
    assert a == 8 * (k + j);
  }

  lemma {:induction false} ScanFound(s: ReaderState)
    requires Good(s)
    ensures var r := ScanStartCode(s);
      r.rc == Ok ==> StartCodeAt(r.next.data, r.next.readBitIndex)
    decreases Left(s)
  {
    var p := PeekSpec(s, 32);
    Keeps(s, 32);
    Vlc.PeekFacts(s, 32);
    if p.value / 256 == 1 {
      assert p.rc == Ok;
      ReadKeepsPending(s, 32);
      BitsAppendPending(p.next, 32);
    } else {
      var d := DiscardSpec(p.next, 8);
      Keeps(p.next, 8);
      if !Failed(d.rc) {
        ScanFound(d.next);
      }
    }
  }

  /** A successful peek looked at buffered bits, the same in the buffer as in `Pending`. */
  lemma BitsAppendPending(s: ReaderState, n: nat)
    requires Good(s) && s.readBitIndex + n <= |s.data| * 8
    ensures Bits(Pending(s), s.readBitIndex, n) == Bits(s.data, s.readBitIndex, n)
  {
    BitsAppend(s.data, Pending(s)[|s.data|..], s.readBitIndex, n);
    assert s.data + Pending(s)[|s.data|..] == Pending(s);
  }

  /**
   * Without a source the search finds the first start code: none starts at
   * a byte it skipped, and when it fails there is none left at all.
   */
  lemma {:induction false} ScanFindsFirst(s: ReaderState)
    requires Good(s) && s.source.None?
    ensures NoStartCodeBefore(s.data, s.readBitIndex, ScanStartCode(s))
    decreases Left(s)
  {
    var t := s.(readBitIndex := s.readBitIndex + 8);
    if !StartCodeAt(s.data, s.readBitIndex) && s.readBitIndex + 8 <= |s.data| * 8 {
      ScanFindsFirst(t);
      ScanFirstStep(s);
    } else {
      ScanFirstLast(s);
    }
  }

  lemma ScanFirstStep(s: ReaderState)
    requires Good(s) && s.source.None?
    requires !StartCodeAt(s.data, s.readBitIndex) && s.readBitIndex + 8 <= |s.data| * 8
    requires NoStartCodeBefore(s.data, s.readBitIndex + 8, ScanStartCode(s.(readBitIndex := s.readBitIndex + 8)))
    ensures NoStartCodeBefore(s.data, s.readBitIndex, ScanStartCode(s))
  {
    ScanInMemory(s);
    NoStartCodeShift(s.data, s.readBitIndex, ScanStartCode(s.(readBitIndex := s.readBitIndex + 8)));
  }

  lemma ScanFirstLast(s: ReaderState)
    requires Good(s) && s.source.None?
    requires StartCodeAt(s.data, s.readBitIndex) || s.readBitIndex + 8 > |s.data| * 8
    ensures NoStartCodeBefore(s.data, s.readBitIndex, ScanStartCode(s))
  {
    ScanInMemory(s);
    if !StartCodeAt(s.data, s.readBitIndex) {
      NoStartCodeAtEnd(s.data, s.readBitIndex, ScanStartCode(s));
    }
  }

  /**
   * No start code begins at a whole number of bytes from b before the
   * cursor r ends on, or anywhere when r failed.
   */
  ghost predicate NoStartCodeBefore(data: seq<byte>, b: nat, r: Step)
  {
    forall k: nat | b <= k && (k - b) % 8 == 0 && (r.rc == Ok ==> k < r.next.readBitIndex) :: !StartCodeAt(data, k)
  }

  lemma NoStartCodeShift(data: seq<byte>, b: nat, r: Step)
    requires !StartCodeAt(data, b) && NoStartCodeBefore(data, b + 8, r)
    ensures NoStartCodeBefore(data, b, r)
  {
    forall k: nat | b <= k && (k - b) % 8 == 0 && (r.rc == Ok ==> k < r.next.readBitIndex)
      ensures !StartCodeAt(data, k)
    {
      if k != b {
        NextByte(k, b);
      }
    }
  }

  lemma NoStartCodeAtEnd(data: seq<byte>, b: nat, r: Step)
    requires !StartCodeAt(data, b) && b + 8 > |data| * 8 && r.rc != Ok
    ensures NoStartCodeBefore(data, b, r)
  {
    forall k: nat | b <= k && (k - b) % 8 == 0
      ensures !StartCodeAt(data, k)
    {
      if k != b {
        NextByte(k, b);
      }
    }
  }

  /**
   * Without a source the search is a walk over the buffer: it stops on a
   * start code, moves a byte on while a byte is left, and otherwise fails
   * with NEED_MORE_INPUT where it is.
   */
  lemma ScanInMemory(s: ReaderState)
    requires Good(s) && s.source.None?
    ensures StartCodeAt(s.data, s.readBitIndex) ==> ScanStartCode(s) == Step(Ok, s)
    ensures !StartCodeAt(s.data, s.readBitIndex) && s.readBitIndex + 8 <= |s.data| * 8 ==>
      ScanStartCode(s) == ScanStartCode(s.(readBitIndex := s.readBitIndex + 8))
    ensures !StartCodeAt(s.data, s.readBitIndex) && s.readBitIndex + 8 > |s.data| * 8 ==>
      ScanStartCode(s) == Step(NeedMoreInput, s)
  {
    var p := PeekSpec(s, 32);
    MemoryReadCases(s, 32);
    MemoryReadCases(s, 8);
    PeekIsRead(s, 32);
    if p.rc == Ok {
      BitsAppendPending(s, 32);
    }
  }

  lemma NextByte(k: int, b: int)
    requires b <= k && k != b && (k - b) % 8 == 0
    ensures k >= b + 8 && (k - (b + 8)) % 8 == 0
  {
    var j := (k - b) / 8;
    assert k - b == 8 * j;
    assert k - (b + 8) == 8 * (j - 1);
  }

  // ---------------------------------------------------------------------
  // mpg1_read_seqence_header
  // ---------------------------------------------------------------------

  /** `MPEG1SeqHeader`, without the quantiser matrices, which are never read. */
  datatype SeqHeader = SeqHeader(
    width: int, height: int, mbWidth: int, mbHeight: int, bitrate: int,
    aspectNum: int, aspectDen: int, frameRateNum: int, frameRateDen: int,
    vbvBufferSize: int, constrainedFlag: int)

  /** A header nothing has been stored in (an indeterminate block is modelled as zeros). */
  const BlankSeqHeader := SeqHeader(0, 0, 0, 0, 0, 0, 0, 0, 0, 0, 0)

  /** `(d + 15) / 16`: the macroblocks that cover d pixels. */
  function MbCount(d: nat): (n: nat)
    ensures 16 * n >= d && 16 * n < d + 16
  {
    (d + 15) / 16
  }

  /** The count is the least number of 16-pixel macroblocks that cover d pixels. */
  lemma MbCountCovers(d: nat)
    ensures 16 * MbCount(d) >= d
    ensures d > 0 ==> 16 * (MbCount(d) - 1) < d
    ensures d == 0 <==> MbCount(d) == 0
  {
  }

  /** The source input format: 352x240 pictures are 22x15 macroblocks. */
  lemma MbCountSif()
    ensures MbCount(352) == 22 && MbCount(240) == 15
  {
  }

  /**
   * `mpg1_read_seqence_header`: the start code (a failed read stops with its
   * code, another value with INVALIDARG), then the fields.
   */
  function SeqHeaderSpec(s: ReaderState, env: Env, h: SeqHeader): (r: Parse<SeqHeader>)
    requires Good(s)
    ensures Good(r.next)
  {
    var code := ReadSpec(s, 32);
    if Failed(code.rc) then Parse(code.rc, h, code.next)
    else if code.value != SeqStartCode then Parse(InvalidArg, h, code.next)
    else SeqBody(code.next, env, h)
  }

  /**
   * The sizes and the two table indices, each 4 bits read into an
   * `int8_t`; an index past its table is an out-of-bounds read.
   */
  function SeqBody(s: ReaderState, env: Env, h: SeqHeader): (r: Parse<SeqHeader>)
    requires Good(s)
    ensures Good(r.next)
  {
    var width := ReadSpec(s, 12);
    var height := ReadSpec(width.next, 12);
    var h1 := h.(width := width.value, height := height.value,
                 mbWidth := MbCount(width.value), mbHeight := MbCount(height.value));
    var aspect := ReadSpec(height.next, 4);
    if aspect.value >= |env.aspectRatio| then Parse(Undefined, h1, aspect.next)
    else
      var h2 := h1.(aspectNum := env.aspectRatio[aspect.value].0, aspectDen := env.aspectRatio[aspect.value].1);
      var rate := ReadSpec(aspect.next, 4);
      if rate.value >= |env.frameRate| then Parse(Undefined, h2, rate.next)
      else
        SeqTail(rate.next, h2.(frameRateNum := env.frameRate[rate.value].0, frameRateDen := env.frameRate[rate.value].1))
  }

  /**
   * The bit rate in units of 400 bit/s, a marker bit, the buffer size, the
   * constrained flag and the two matrix flags, whose matrices are not read.
   */
  function SeqTail(s: ReaderState, h: SeqHeader): (r: Parse<SeqHeader>)
    requires Good(s)
    ensures Good(r.next)
  {
    var bitrate := ReadSpec(s, 18);
    var marker := DiscardSpec(bitrate.next, 1);
    var vbv := ReadSpec(marker.next, 10);
    var constrained := ReadSpec(vbv.next, 1);
    var intraQm := ReadSpec(constrained.next, 1);
    var nonIntraQm := ReadSpec(intraQm.next, 1);
    Parse(Ok, h.(bitrate := bitrate.value * 400, vbvBufferSize := vbv.value, constrainedFlag := constrained.value),
          nonIntraQm.next)
  }

  method ReadSequenceHeader(bs: BitReader, env: Env, h: SeqHeader) returns (rc: Rc, hdr: SeqHeader)
    requires bs.Valid()
    modifies bs, bs.buffer
    ensures bs.Valid()
    ensures Parse(rc, hdr, bs.St()) == SeqHeaderSpec(old(bs.St()), env, h)
  {
    hdr := h;
    var bits;
    bits, rc := bs.ReadBits(32);
    if Failed(rc) {
      return;
    }
    if bits != SeqStartCode {
      return InvalidArg, hdr;
    }
    rc, hdr := ReadSequenceBody(bs, env, hdr);
  }

  /** The fields after the start code, as `SeqBody` reads them. */
  method ReadSequenceBody(bs: BitReader, env: Env, h: SeqHeader) returns (rc: Rc, hdr: SeqHeader)
    requires bs.Valid()
    modifies bs, bs.buffer
    ensures bs.Valid()
    ensures Parse(rc, hdr, bs.St()) == SeqBody(old(bs.St()), env, h)
  {
    var width, _ := bs.ReadBits(12);
    var height, _ := bs.ReadBits(12);
    hdr := h.(width := width, height := height, mbWidth := MbCount(width), mbHeight := MbCount(height));
    var ind, _ := bs.ReadBits(4);
    if ind >= |env.aspectRatio| {
      return Undefined, hdr;
    }
    hdr := hdr.(aspectNum := env.aspectRatio[ind].0, aspectDen := env.aspectRatio[ind].1);
    var rate, _ := bs.ReadBits(4);
    if rate >= |env.frameRate| {
      return Undefined, hdr;
    }
    hdr := hdr.(frameRateNum := env.frameRate[rate].0, frameRateDen := env.frameRate[rate].1);
    rc, hdr := ReadSequenceTail(bs, hdr);
  }

  /** The fields after the frame rate, as `SeqTail` reads them. */
  method ReadSequenceTail(bs: BitReader, h: SeqHeader) returns (rc: Rc, hdr: SeqHeader)
    requires bs.Valid()
    modifies bs, bs.buffer
    ensures bs.Valid()
    ensures Parse(rc, hdr, bs.St()) == SeqTail(old(bs.St()), h)
  {
    var bitrate, _ := bs.ReadBits(18);
    hdr := h.(bitrate := bitrate * 400);
    var _ := bs.DiscardBits(1);
    var vbv, _ := bs.ReadBits(10);
    var constrained, _ := bs.ReadBits(1);
    hdr := hdr.(vbvBufferSize := vbv, constrainedFlag := constrained);
    var hasIntraQm, _ := bs.ReadBits(1);
    var hasNonIntraQm, _ := bs.ReadBits(1);
    return Ok, hdr;
  }

  /**
   * The outcomes of the parser: OK exactly when the start code is read, is
   * the sequence start code and both indices lie in their tables;
   * INVALIDARG exactly when another start code is read; a failed read of
   * the start code passes its code on; the header is untouched unless the
   * start code matched.
   */
  lemma SeqHeaderOutcome(s: ReaderState, env: Env, h: SeqHeader)
    requires Good(s)
    ensures var r := SeqHeaderSpec(s, env, h);
      var code := ReadSpec(s, 32);
      var aspect := ReadSpec(ReadSpec(ReadSpec(code.next, 12).next, 12).next, 4);
      && (r.rc == Ok <==>
            && code.rc == Ok && code.value == SeqStartCode
            && aspect.value < |env.aspectRatio| && ReadSpec(aspect.next, 4).value < |env.frameRate|)
      && (r.rc == InvalidArg <==> code.rc == Ok && code.value != SeqStartCode)
      && (Failed(code.rc) ==> r.rc == code.rc)
      && (r.rc == Ok || r.rc == InvalidArg || r.rc == Undefined || r.rc == code.rc)
      && (code.rc != Ok || code.value != SeqStartCode ==> r.value == h && r.next == code.next)
  {
  }

  /**
   * When the 96 bits of a header are buffered and it starts with the
   * sequence start code, every field is the bit field at its offset, the
   * macroblock counts cover the picture and the cursor ends 96 bits on.
   */
  lemma SeqHeaderLayout(s: ReaderState, env: Env, h: SeqHeader)
    requires Good(s) && s.readBitIndex + 96 <= |s.data| * 8
    requires Bits(s.data, s.readBitIndex, 32) == SeqStartCode
    requires Bits(s.data, s.readBitIndex + 56, 4) < |env.aspectRatio|
    requires Bits(s.data, s.readBitIndex + 60, 4) < |env.frameRate|
    ensures var p := s.readBitIndex;
      var w := Bits(s.data, p + 32, 12);
      var ht := Bits(s.data, p + 44, 12);
      var a := env.aspectRatio[Bits(s.data, p + 56, 4)];
      var f := env.frameRate[Bits(s.data, p + 60, 4)];
      SeqHeaderSpec(s, env, h) ==
        Parse(Ok, SeqHeader(w, ht, MbCount(w), MbCount(ht), Bits(s.data, p + 64, 18) * 400, a.0, a.1, f.0, f.1,
                            Bits(s.data, p + 83, 10), Bits(s.data, p + 93, 1)),
              s.(readBitIndex := p + 96))
  {
    var p := s.readBitIndex;
    BufferedRead(s, 32);
    SeqBodyLayout(s.(readBitIndex := p + 32), env, h);
  }

  lemma SeqBodyLayout(s: ReaderState, env: Env, h: SeqHeader)
    requires Good(s) && s.readBitIndex + 64 <= |s.data| * 8
    requires Bits(s.data, s.readBitIndex + 24, 4) < |env.aspectRatio|
    requires Bits(s.data, s.readBitIndex + 28, 4) < |env.frameRate|
    ensures var p := s.readBitIndex;
      var w := Bits(s.data, p, 12);
      var ht := Bits(s.data, p + 12, 12);
      var a := env.aspectRatio[Bits(s.data, p + 24, 4)];
      var f := env.frameRate[Bits(s.data, p + 28, 4)];
      SeqBody(s, env, h) ==
        Parse(Ok, SeqHeader(w, ht, MbCount(w), MbCount(ht), Bits(s.data, p + 32, 18) * 400, a.0, a.1, f.0, f.1,
                            Bits(s.data, p + 51, 10), Bits(s.data, p + 61, 1)),
              s.(readBitIndex := p + 64))
  {
    var p := s.readBitIndex;
    var a := env.aspectRatio[Bits(s.data, p + 24, 4)];
    var f := env.frameRate[Bits(s.data, p + 28, 4)];
    var w := Bits(s.data, p, 12);
    var ht := Bits(s.data, p + 12, 12);
    var h' := h.(width := w, height := ht, mbWidth := MbCount(w), mbHeight := MbCount(ht),
                 aspectNum := a.0, aspectDen := a.1, frameRateNum := f.0, frameRateDen := f.1);
    SeqSizesLayout(s, env, h);
    SeqTailLayout(s.(readBitIndex := p + 32), h');
  }

  /** The first 32 bits of the body: the sizes and the two table entries. */
  lemma SeqSizesLayout(s: ReaderState, env: Env, h: SeqHeader)
    requires Good(s) && s.readBitIndex + 64 <= |s.data| * 8
    requires Bits(s.data, s.readBitIndex + 24, 4) < |env.aspectRatio|
    requires Bits(s.data, s.readBitIndex + 28, 4) < |env.frameRate|
    ensures var p := s.readBitIndex;
      var w := Bits(s.data, p, 12);
      var ht := Bits(s.data, p + 12, 12);
      var a := env.aspectRatio[Bits(s.data, p + 24, 4)];
      var f := env.frameRate[Bits(s.data, p + 28, 4)];
      SeqBody(s, env, h) ==
        SeqTail(s.(readBitIndex := p + 32),
                h.(width := w, height := ht, mbWidth := MbCount(w), mbHeight := MbCount(ht),
                   aspectNum := a.0, aspectDen := a.1, frameRateNum := f.0, frameRateDen := f.1))
  {
    BufferedRead(s, 12);
    var s1 := ReadSpec(s, 12).next;
    BufferedRead(s1, 12);
    var s2 := ReadSpec(s1, 12).next;
    BufferedRead(s2, 4);
    var s3 := ReadSpec(s2, 4).next;
    BufferedRead(s3, 4);
  }

  lemma SeqTailLayout(s: ReaderState, h: SeqHeader)
    requires Good(s) && s.readBitIndex + 32 <= |s.data| * 8
    ensures var p := s.readBitIndex;
      SeqTail(s, h) ==
        Parse(Ok, h.(bitrate := Bits(s.data, p, 18) * 400, vbvBufferSize := Bits(s.data, p + 19, 10),
                     constrainedFlag := Bits(s.data, p + 29, 1)),
              s.(readBitIndex := p + 32))
  {
    BufferedRead(s, 18);
    var s1 := ReadSpec(s, 18).next;
    BufferedRead(s1, 1);
    var s2 := DiscardSpec(s1, 1).next;
    BufferedRead(s2, 10);
    var s3 := ReadSpec(s2, 10).next;
    BufferedRead(s3, 1);
    var s4 := ReadSpec(s3, 1).next;
    BufferedRead(s4, 1);
    var s5 := ReadSpec(s4, 1).next;
    BufferedRead(s5, 1);
  }

  // ---------------------------------------------------------------------
  // mpg1_read_group_header
  // ---------------------------------------------------------------------

  /** `MPEG1GroupHeader`: the flags and the time code of the first picture. */
  datatype GroupHeader = GroupHeader(
    dropFlag: nat, hour: nat, minute: nat, second: nat, frame: nat, closedFlag: nat, brokenFlag: nat)

  /**
   * `mpg1_read_group_header`: the start code (not checked), the fields and
   * the marker and reserved bits; every read ignores its code and the
   * parser returns OK.
   */
  function GroupHeaderSpec(s: ReaderState): (r: Parse<GroupHeader>)
    requires Good(s)
    ensures Good(r.next) && r.rc == Ok
  {
    var code := ReadSpec(s, 32);
    var drop := ReadSpec(code.next, 1);
    var hour := ReadSpec(drop.next, 5);
    var minute := ReadSpec(hour.next, 6);
    var marker := DiscardSpec(minute.next, 1);
    var second := ReadSpec(marker.next, 6);
    var frame := ReadSpec(second.next, 6);
    var closed := ReadSpec(frame.next, 1);
    var broken := ReadSpec(closed.next, 1);
    var rest := DiscardSpec(broken.next, 5);
    Parse(Ok, GroupHeader(drop.value, hour.value, minute.value, second.value, frame.value, closed.value, broken.value),
          rest.next)
  }

  method ReadGroupHeader(bs: BitReader) returns (rc: Rc, g: GroupHeader)
    requires bs.Valid()
    modifies bs, bs.buffer
    ensures bs.Valid()
    ensures Parse(rc, g, bs.St()) == GroupHeaderSpec(old(bs.St()))
  {
    var _, _ := bs.ReadBits(32);
    var drop, _ := bs.ReadBits(1);
    var hour, _ := bs.ReadBits(5);
    var minute, _ := bs.ReadBits(6);
    var _ := bs.DiscardBits(1);
    var second, _ := bs.ReadBits(6);
    var frame, _ := bs.ReadBits(6);
    var closed, _ := bs.ReadBits(1);
    var broken, _ := bs.ReadBits(1);
    var _ := bs.DiscardBits(5);
    return Ok, GroupHeader(drop, hour, minute, second, frame, closed, broken);
  }

  /** A buffered group header: each field is the bit field at its offset, and 64 bits are consumed. */
  lemma GroupHeaderLayout(s: ReaderState)
    requires Good(s) && s.readBitIndex + 64 <= |s.data| * 8
    ensures var p := s.readBitIndex;
      GroupHeaderSpec(s) ==
        Parse(Ok, GroupHeader(Bits(s.data, p + 32, 1), Bits(s.data, p + 33, 5), Bits(s.data, p + 38, 6),
                              Bits(s.data, p + 45, 6), Bits(s.data, p + 51, 6), Bits(s.data, p + 57, 1),
                              Bits(s.data, p + 58, 1)),
              s.(readBitIndex := p + 64))
  {
    BufferedRead(s, 32);
    var s1 := ReadSpec(s, 32).next;
    BufferedRead(s1, 1);
    var s2 := ReadSpec(s1, 1).next;
    BufferedRead(s2, 5);
    var s3 := ReadSpec(s2, 5).next;
    BufferedRead(s3, 6);
    var s4 := ReadSpec(s3, 6).next;
    assert s4 == s.(readBitIndex := s.readBitIndex + 44);
    GroupTailLayout(s4);
  }

  /** The last 20 bits of a buffered group header, from the marker bit on. */
  lemma GroupTailLayout(t: ReaderState)
    requires Good(t) && t.readBitIndex + 20 <= |t.data| * 8
    ensures var q := t.readBitIndex;
      var marker := DiscardSpec(t, 1);
      var second := ReadSpec(marker.next, 6);
      var frame := ReadSpec(second.next, 6);
      var closed := ReadSpec(frame.next, 1);
      var broken := ReadSpec(closed.next, 1);
      && second.value == Bits(t.data, q + 1, 6) && frame.value == Bits(t.data, q + 7, 6)
      && closed.value == Bits(t.data, q + 13, 1) && broken.value == Bits(t.data, q + 14, 1)
      && Good(broken.next) && DiscardSpec(broken.next, 5).next == t.(readBitIndex := q + 20)
  {
    BufferedRead(t, 1);
    var s5 := DiscardSpec(t, 1).next;
    BufferedRead(s5, 6);
    var s6 := ReadSpec(s5, 6).next;
    BufferedRead(s6, 6);
    var s7 := ReadSpec(s6, 6).next;
    assert s7 == t.(readBitIndex := t.readBitIndex + 13);
    GroupFlagsLayout(s7);
  }

  /** The two flags and the five reserved bits that end a buffered group header. */
  lemma GroupFlagsLayout(t: ReaderState)
    requires Good(t) && t.readBitIndex + 7 <= |t.data| * 8
    ensures var q := t.readBitIndex;
      var closed := ReadSpec(t, 1);
      var broken := ReadSpec(closed.next, 1);
      && closed.value == Bits(t.data, q, 1) && broken.value == Bits(t.data, q + 1, 1)
      && Good(broken.next) && DiscardSpec(broken.next, 5).next == t.(readBitIndex := q + 7)
  {
    BufferedRead(t, 1);
    var s8 := ReadSpec(t, 1).next;
    BufferedRead(s8, 1);
    var s9 := ReadSpec(s8, 1).next;
    BufferedRead(s9, 5);
  }

  // ---------------------------------------------------------------------
  // mpg1_read_picture_header
  // ---------------------------------------------------------------------

  /** `MPEG1PictureHeader`; the time stamps are not read by the parser. */
  datatype PictureHeader = PictureHeader(
    seqNumber: int, frameType: int, vbvDelay: int,
    forwardFullPel: int, forwardFCode: int, backwardFullPel: int, backwardFCode: int)

  /** The header of a picture `mpg1_picture_alloc` has just zeroed. */
  const BlankPictureHeader := PictureHeader(0, 0, 0, 0, 0, 0, 0)

  function KnownFrameType(t: int): (r: bool)
    ensures r <==> 1 <= t <= 4
  {
    t == FrameTypeI || t == FrameTypeP || t == FrameTypeB || t == FrameTypeD
  }

  /**
   * The fixed fields: the start code (not checked), the temporal reference
   * and the type, INVALIDDATA for a type other than I, P, B and D, the
   * buffer delay, the forward code of P and B pictures and the backward
   * code of B pictures.
   */
  function PictureFields(s: ReaderState, h: PictureHeader): (r: Parse<PictureHeader>)
    requires Good(s)
    ensures Good(r.next)
  {
    var code := ReadSpec(s, 32);
    var temporal := ReadSpec(code.next, 10);
    var ty := ReadSpec(temporal.next, 3);
    var h1 := h.(seqNumber := temporal.value, frameType := ty.value);
    if !KnownFrameType(ty.value) then Parse(InvalidData, h1, ty.next)
    else
      var vbv := ReadSpec(ty.next, 16);
      var h2 := h1.(vbvDelay := vbv.value);
      if ty.value == FrameTypeB || ty.value == FrameTypeP then
        var fullPel := ReadSpec(vbv.next, 1);
        var fCode := ReadSpec(fullPel.next, 3);
        var h3 := h2.(forwardFullPel := fullPel.value, forwardFCode := fCode.value);
        if ty.value == FrameTypeB then
          var bFullPel := ReadSpec(fCode.next, 1);
          var bCode := ReadSpec(bFullPel.next, 3);
          Parse(Ok, h3.(backwardFullPel := bFullPel.value, backwardFCode := bCode.value), bCode.next)
        else Parse(Ok, h3, fCode.next)
      else Parse(Ok, h2, vbv.next)
  }

  /**
   * The loop over the extra information: while the last peeked bit is
   * set, discard a bit, read a byte and peek the next bit.  A failed peek
   * gives 0 and ends it.
   */
  function PictureExtra(s: ReaderState, bits: nat): (t: ReaderState)
    requires Good(s)
    ensures Good(t)
    decreases Left(s) + (if bits != 0 then 1 else 0)
  {
    if bits == 0 then s
    else
      var d := DiscardSpec(s, 1);
      var b := ReadSpec(d.next, 8);
      var p := PeekSpec(b.next, 1);
      ExtraProgress(s);
      PictureExtra(p.next, p.value)
  }

  /**
   * One pass of the loop never loses input, and it moves the cursor
   * unless nothing can be read, in which case the peek ends the loop.
   */
  lemma ExtraProgress(s: ReaderState)
    requires Good(s)
    ensures var d := DiscardSpec(s, 1);
      var b := ReadSpec(d.next, 8);
      var p := PeekSpec(b.next, 1);
      && Pending(p.next) == Pending(s)
      && (p.value != 0 ==> Left(p.next) < Left(s))
      && Left(p.next) <= Left(s)
  {
    var d := DiscardSpec(s, 1);
    var b := ReadSpec(d.next, 8);
    Keeps(s, 1);
    Keeps(d.next, 8);
    Keeps(b.next, 1);
    if d.rc != Ok {
      NoBitLeft(s, 8);
      NoBitLeft(s, 1);
    }
  }

  /**
   * `mpg1_read_picture_header`: the fixed fields and, when they are valid,
   * the extra information (a peek and a discard of its first flag, then
   * the loop) and a byte alignment whose code is ignored.
   */
  function PictureHeaderSpec(s: ReaderState, h: PictureHeader): (r: Parse<PictureHeader>)
    requires Good(s)
    ensures Good(r.next)
  {
    var f := PictureFields(s, h);
    if f.rc != Ok then f
    else
      var flag := PeekSpec(f.next, 1);
      var d := DiscardSpec(flag.next, 1);
      var e := PictureExtra(d.next, flag.value);
      Parse(Ok, f.value, AlignSpec(e).next)
  }

  method ReadPictureHeader(bs: BitReader, h: PictureHeader) returns (rc: Rc, hdr: PictureHeader)
    requires bs.Valid()
    modifies bs, bs.buffer
    ensures bs.Valid()
    ensures Parse(rc, hdr, bs.St()) == PictureHeaderSpec(old(bs.St()), h)
  {
    var _, _ := bs.ReadBits(32);
    var temporal, _ := bs.ReadBits(10);
    var ty, _ := bs.ReadBits(3);
    hdr := h.(seqNumber := temporal, frameType := ty);
    if ty != FrameTypeI && ty != FrameTypeB && ty != FrameTypeP && ty != FrameTypeD {
      return InvalidData, hdr;
    }
    var vbv, _ := bs.ReadBits(16);
    hdr := hdr.(vbvDelay := vbv);
    if ty == FrameTypeB || ty == FrameTypeP {
      var fullPel, _ := bs.ReadBits(1);
      var fCode, _ := bs.ReadBits(3);
      hdr := hdr.(forwardFullPel := fullPel, forwardFCode := fCode);
    }
    if ty == FrameTypeB {
      var fullPel, _ := bs.ReadBits(1);
      var fCode, _ := bs.ReadBits(3);
      hdr := hdr.(backwardFullPel := fullPel, backwardFCode := fCode);
    }
    assert Parse(Ok, hdr, bs.St()) == PictureFields(old(bs.St()), h);
    var bits, _ := bs.PeekBits(1);
    var _ := bs.DiscardBits(1);
    SkipPictureExtra(bs, bits);
    var _ := bs.AlignToByte();
    return Ok, hdr;
  }

  /** The loop of `mpg1_read_picture_header` over the extra information. */
  method SkipPictureExtra(bs: BitReader, first: nat)
    requires bs.Valid()
    modifies bs, bs.buffer
    ensures bs.Valid()
    ensures bs.St() == PictureExtra(old(bs.St()), first)
  {
    var bits := first;
    bs.ValidGood();
    while bits != 0
      invariant bs.Valid()
      invariant Good(bs.St()) && PictureExtra(bs.St(), bits) == PictureExtra(old(bs.St()), first)
      decreases Left(bs.St()) + (if bits != 0 then 1 else 0)
    {
      ghost var s := bs.St();
      ExtraProgress(s);
      var _ := bs.DiscardBits(1);
      var _, _ := bs.ReadBits(8);
      var peeked, _ := bs.PeekBits(1);
      bits := peeked;
      bs.ValidGood();
    }
  }

  /**
   * The type decides the outcome and which fields are read: OK exactly
   * for I, P, B and D pictures, INVALIDDATA otherwise; the forward code is
   * left as it was unless the picture is P or B, the backward code unless
   * it is B.
   */
  lemma PictureHeaderFields(s: ReaderState, h: PictureHeader)
    requires Good(s)
    ensures var r := PictureHeaderSpec(s, h);
      var t := r.value.frameType;
      && (r.rc == Ok <==> KnownFrameType(t))
      && (r.rc != Ok ==> r.rc == InvalidData)
      && (t != FrameTypeP && t != FrameTypeB ==>
            r.value.forwardFullPel == h.forwardFullPel && r.value.forwardFCode == h.forwardFCode)
      && (t != FrameTypeB ==> r.value.backwardFullPel == h.backwardFullPel && r.value.backwardFCode == h.backwardFCode)
  {
  }

  /**
   * The parser ends with the alignment: when that alignment succeeds, the
   * cursor of a valid header is on a byte boundary.
   */
  lemma PictureHeaderAligned(s: ReaderState, h: PictureHeader)
    requires Good(s)
    requires PictureFields(s, h).rc == Ok
    ensures var f := PictureFields(s, h);
      var flag := PeekSpec(f.next, 1);
      var e := PictureExtra(DiscardSpec(flag.next, 1).next, flag.value);
      && PictureHeaderSpec(s, h).next == AlignSpec(e).next
      && (AlignSpec(e).rc == Ok ==> PictureHeaderSpec(s, h).next.readBitIndex % 8 == 0)
  {
    var f := PictureFields(s, h);
    var flag := PeekSpec(f.next, 1);
    var e := PictureExtra(DiscardSpec(flag.next, 1).next, flag.value);
    AlignCases(e);
  }

  // ---------------------------------------------------------------------
  // mpg1_read_slice_header
  // ---------------------------------------------------------------------

  /** `MPEG1SliceHeader`: the row, the quantiser scale and the three DC predictors. */
  datatype SliceHeader = SliceHeader(row: int8, quantScale: int8, lastDcY: int16, lastDcCb: int16, lastDcCr: int16)

  /**
   * The loop over the extra information of a slice: while a peeked bit is
   * 1, skip an entry.
   */
  function SliceExtra(s: ReaderState): (t: ReaderState)
    requires Good(s)
    ensures Good(t) && Pending(t) == Pending(s) && Left(t) <= Left(s)
    decreases Left(s)
  {
    var p := PeekSpec(s, 1);
    Keeps(s, 1);
    if p.value != 1 then p.next
    else
      PeekThenRead(s, 1);
      SliceExtra(SliceExtraEntry(p.next))
  }

  /**
   * One pass of that loop, once a 1 has been peeked: discard it and a
   * byte, peek the next bit and discard it too when it is set.
   */
  function SliceExtraEntry(s: ReaderState): (t: ReaderState)
    requires Good(s) && s.readBitIndex + 1 <= |s.data| * 8
    ensures Good(t) && Pending(t) == Pending(s) && Left(t) < Left(s)
  {
    var d1 := DiscardSpec(s, 1);
    BufferedRead(s, 1);
    var d8 := DiscardSpec(d1.next, 8);
    var q := PeekSpec(d8.next, 1);
    Keeps(s, 1);
    Keeps(d1.next, 8);
    Keeps(d8.next, 1);
    Keeps(q.next, 1);
    if q.value != 0 then DiscardSpec(q.next, 1).next else q.next
  }

  /**
   * `mpg1_read_slice_header`: the start code, whose low byte less one is
   * the row, stored in an `int8_t`; the quantiser scale; the extra
   * information; its final flag; the DC predictors reset to 0.
   */
  function SliceHeaderSpec(s: ReaderState): (r: Parse<SliceHeader>)
    requires Good(s)
    ensures Good(r.next) && r.rc == Ok
  {
    var code := ReadSpec(s, 32);
    var quant := ReadSpec(code.next, 5);
    var e := SliceExtra(quant.next);
    var flag := DiscardSpec(e, 1);
    ReadBound(code.next, 5);
    assert Pow2(5) == 32;
    Parse(Ok, SliceHeader(RowOf(code.value), quant.value, 0, 0, 0), flag.next)
  }

  /** The row of a slice start code: its low byte less one, stored in an `int8_t`. */
  function RowOf(code: nat): (row: int8)
    ensures (row - code % 256 + 1) % 256 == 0
  {
    Wrap8(code % 256 - 1)
  }

  /** `SliceHeaderSpec` assembled from the steps of the parser. */
  lemma SliceHeaderOf(s: ReaderState, bits: nat, s1: ReaderState, quant: nat, s2: ReaderState, s3: ReaderState, s4: ReaderState)
    requires Good(s)
    requires ReadSpec(s, 32).value == bits && ReadSpec(s, 32).next == s1
    requires ReadSpec(s1, 5).value == quant && ReadSpec(s1, 5).next == s2
    requires s3 == SliceExtra(s2) && DiscardSpec(s3, 1).next == s4
    ensures quant < 32
    ensures Parse(Ok, SliceHeader(RowOf(bits), quant, 0, 0, 0), s4) == SliceHeaderSpec(s)
  {
    ReadBound(s1, 5);
    assert Pow2(5) == 32;
  }

  method ReadSliceHeader(bs: BitReader) returns (rc: Rc, slice: SliceHeader)
    requires bs.Valid()
    modifies bs, bs.buffer
    ensures bs.Valid()
    ensures Parse(rc, slice, bs.St()) == SliceHeaderSpec(old(bs.St()))
  {
    ghost var s0 := bs.St();
    var bits, _ := bs.ReadBits(32);
    ghost var s1 := bs.St();
    bs.ValidGood();
    var quant, _ := bs.ReadBits(5);
    ghost var s2 := bs.St();
    SkipSliceExtra(bs);
    ghost var s3 := bs.St();
    var _ := bs.DiscardBits(1);
    SliceHeaderOf(s0, bits, s1, quant, s2, s3, bs.St());
    return Ok, SliceHeader(RowOf(bits), quant, 0, 0, 0);
  }

  /** The loop of `mpg1_read_slice_header` over the extra information. */
  method SkipSliceExtra(bs: BitReader)
    requires bs.Valid()
    modifies bs, bs.buffer
    ensures bs.Valid()
    ensures bs.St() == SliceExtra(old(bs.St()))
  {
    bs.ValidGood();
    while true
      invariant bs.Valid()
      invariant Good(bs.St()) && SliceExtra(bs.St()) == SliceExtra(old(bs.St()))
      decreases Left(bs.St())
    {
      ghost var s := bs.St();
      Keeps(s, 1);
      var flag, _ := bs.PeekBits(1);
      if flag != 1 {
        return;
      }
      PeekThenRead(s, 1);
      SkipSliceExtraEntry(bs);
      bs.ValidGood();
    }
  }

  /** The body of that loop, as `SliceExtraEntry` states it. */
  method SkipSliceExtraEntry(bs: BitReader)
    requires bs.Valid() && bs.St().readBitIndex + 1 <= |bs.St().data| * 8
    modifies bs, bs.buffer
    ensures bs.Valid()
    ensures bs.St() == SliceExtraEntry(old(bs.St()))
  {
    var _ := bs.DiscardBits(1);
    var _ := bs.DiscardBits(8);
    var next, _ := bs.PeekBits(1);
    if next != 0 {
      var _ := bs.DiscardBits(1);
    }
  }

  /**
   * The row is the vertical position less one, as an `int8_t`: slices 1 to
   * 128 give rows 0 to 127, and a start code whose low byte is above 128
   * gives a negative row.
   */
  lemma SliceRow(s: ReaderState)
    requires Good(s) && ReadSpec(s, 32).rc == Ok
    ensures var v := ReadSpec(s, 32).value % 256;
      var row := SliceHeaderSpec(s).value.row;
      && (1 <= v <= 128 ==> row == v - 1)
      && (v > 128 ==> row == v - 257)
      && (v == 0 ==> row == -1)
  {
    RowCases(ReadSpec(s, 32).value);
  }

  lemma RowCases(code: nat)
    ensures var v := code % 256;
      && (1 <= v <= 128 ==> RowOf(code) == v - 1)
      && (v > 128 ==> RowOf(code) == v - 257)
      && (v == 0 ==> RowOf(code) == -1)
  {
  }
}
