// The bit reader over a byte buffer (generic/bitstream.c, generic/bitstream.h).
//
// The reader state is given twice: as the value `ReaderState`, on which the
// specification functions below are defined and the lemmas are proved, and as
// the class `BitReader`, whose methods update the buffer and the cursors in
// place as the C functions do and are proved to move from `St()` to the state
// the specification function gives.

module Bitstream {
  import opened MmfUtil
  import opened CInt
  import opened BitSeq

  /**
   * The file a stream refills from, in place of the FILE handle: the bytes
   * `fread` has not delivered yet, and whether reading reports an error.
   */
  datatype Source = Source(remaining: seq<byte>, failing: bool)

  /**
   * The abstract value of an MMFBitstream: the bytes written so far
   * (`buffer[0..write_index)`), the capacity, the bit cursor, the source and
   * the `file_size` recorded when the file was opened (never decremented).
   * `read_index` is always `readBitIndex / 8` and is not kept separately.
   */
  datatype ReaderState = ReaderState(
    data: seq<byte>,
    capacity: nat,
    readBitIndex: nat,
    source: Option<Source>,
    fileSize: nat)

  /** The invariants every operation keeps. */
  predicate Good(s: ReaderState)
  {
    && |s.data| <= s.capacity
    && s.readBitIndex <= |s.data| * 8
    && (s.source.Some? ==> |s.source.value.remaining| <= s.fileSize)
  }

  /** The result of an operation that only returns a code. */
  datatype Step = Step(rc: Rc, next: ReaderState)

  /** The result of a read or a peek: the value, the code, the new state. */
  datatype Read = Read(value: nat, rc: Rc, next: ReaderState)

  /** The bytes buffered or still to come from the source: what refills move between. */
  function Pending(s: ReaderState): seq<byte>
  {
    s.data + (if s.source.Some? then s.source.value.remaining else [])
  }

  /** `bitstream_write`: append the bytes when they fit, else BUFFER_OVERFLOW. */
  function Append(s: ReaderState, src: seq<byte>): (r: Step)
    ensures r.rc == Ok || r.rc == BufferOverflow
    ensures r.next == s.(data := r.next.data)
  {
    if s.capacity - |s.data| < |src| then Step(BufferOverflow, s)
    else Step(Ok, s.(data := s.data + src))
  }

  /** What `fread` of up to n bytes delivers: nothing from a failing source. */
  function Fread(src: Source, n: nat): seq<byte>
  {
    if src.failing then []
    else if n < |src.remaining| then src.remaining[..n]
    else src.remaining
  }

  /**
   * `bitstream_replenish`.  The flush it calls when more than half the
   * buffer is free is a no-op, so the request is
   * `min(capacity - write_index, file_size)` bytes.
   */
  function Refill(s: ReaderState): (r: Step)
    requires Good(s)
    ensures r.rc == Ok || r.rc == NotAllowed || r.rc == BufferOverflow || r.rc == Fail || r.rc == EndOfStream
    ensures r.rc == NotAllowed <==> s.source.None?
    ensures r.next.readBitIndex == s.readBitIndex
  {
    if s.source.None? then Step(NotAllowed, s)
    else
      var free := s.capacity - |s.data|;
      var request := if free > s.fileSize then s.fileSize else free;
      if request == 0 then Step(BufferOverflow, s)
      else
        var got := Fread(s.source.value, request);
        if |got| == 0 then Step(if s.source.value.failing then Fail else EndOfStream, s)
        else
          var src' := s.source.value.(remaining := s.source.value.remaining[|got|..]);
          Step(Ok, Append(s.(source := Some(src')), got).next)
  }

  /**
   * The guard shared by read and peek: when fewer than n bits are buffered,
   * NEED_MORE_INPUT without a source, otherwise a refill, whose failure is
   * passed on, and END_OF_STREAM when the refill still falls short.
   */
  function Fetch(s: ReaderState, n: int): (r: Step)
    requires Good(s)
    ensures r.next.readBitIndex == s.readBitIndex
    ensures r.rc == Ok ==> s.readBitIndex + n <= |r.next.data| * 8
    ensures s.readBitIndex + n <= |s.data| * 8 ==> r == Step(Ok, s)
  {
    if s.readBitIndex + n > |s.data| * 8 then
      if s.source.None? then Step(NeedMoreInput, s)
      else
        var r := Refill(s);
        if Failed(r.rc) then r
        else if s.readBitIndex + n > |r.next.data| * 8 then Step(EndOfStream, r.next)
        else Step(Ok, r.next)
    else Step(Ok, s)
  }

  /** `bitstream_read_bits`: the next n bits, most significant first. */
  function ReadSpec(s: ReaderState, n: int): (r: Read)
    requires Good(s)
    ensures Good(r.next) && (r.rc == Ok || Failed(r.rc))
    ensures r.rc == Ok ==> r.next.readBitIndex == s.readBitIndex + (if n < 0 then 0 else n)
    ensures r.rc != Ok ==> r.value == 0 && r.next.readBitIndex == s.readBitIndex
  {
    var f := Fetch(s, n);
    RefillKeeps(s);
    if f.rc != Ok then Read(0, f.rc, f.next)
    else
      var k: nat := if n < 0 then 0 else n;
      Read(Bits(f.next.data, s.readBitIndex, k), Ok, f.next.(readBitIndex := s.readBitIndex + k))
  }

  /** `bitstream_peek_bits`: the value a read would return; the cursor stays. */
  function PeekSpec(s: ReaderState, n: int): (r: Read)
    requires Good(s)
    ensures Good(r.next) && r.next.readBitIndex == s.readBitIndex && (r.rc == Ok || Failed(r.rc))
  {
    var f := Fetch(s, n);
    RefillKeeps(s);
    if f.rc != Ok then Read(0, f.rc, f.next)
    else Read(Bits(f.next.data, s.readBitIndex, if n < 0 then 0 else n), Ok, f.next)
  }

  /** `bitstream_discard_bits`: a read whose value is dropped. */
  function DiscardSpec(s: ReaderState, n: int): (r: Step)
    requires Good(s)
    ensures Good(r.next)
    ensures r.rc == Ok ==> r.next.readBitIndex == s.readBitIndex + (if n < 0 then 0 else n)
    ensures r.rc != Ok ==> r.next.readBitIndex == s.readBitIndex
  {
    var r := ReadSpec(s, n);
    Step(r.rc, r.next)
  }

  /** `bitstream_align_to_byte`. */
  function AlignSpec(s: ReaderState): (r: Step)
    requires Good(s)
    ensures Good(r.next)
    ensures s.readBitIndex <= r.next.readBitIndex < s.readBitIndex + 8
  {
    if s.readBitIndex % 8 == 0 then Step(Ok, s)
    else DiscardSpec(s, 8 - s.readBitIndex % 8)
  }

  /** `bitstream_is_byte_aligned`. */
  function IsByteAlignedSpec(s: ReaderState): (rc: Rc)
    ensures rc == Ok || rc == False
    ensures rc == Ok <==> s.readBitIndex % 8 == 0
  {
    if s.readBitIndex % 8 == 0 then Ok else False
  }

  /** `bitstream_get_size`: the unread bits in memory mode; the whole file in bits with a source. */
  function GetSizeSpec(s: ReaderState): (n: int)
    ensures Good(s) ==> n >= 0
    ensures s.source.None? ==> s.readBitIndex + n == |Pending(s)| * 8
  {
    if s.source.Some? then s.fileSize * 8 else |s.data| * 8 - s.readBitIndex
  }

  // ---------------------------------------------------------------------
  // Properties of the specification
  // ---------------------------------------------------------------------

  /**
   * A refill keeps the invariants, only appends to the buffer, never moves
   * the cursor, and moves bytes from the source into the buffer without
   * losing or inventing any.
   */
  lemma RefillKeeps(s: ReaderState)
    requires Good(s)
    ensures var r := Refill(s);
      && Good(r.next)
      && r.next.readBitIndex == s.readBitIndex
      && r.next.capacity == s.capacity
      && r.next.fileSize == s.fileSize
      && r.next.source.Some? == s.source.Some?
      && s.data <= r.next.data
      && Pending(r.next) == Pending(s)
      && (r.rc != Ok ==> r.next == s)
      && (r.rc == Ok ==> |r.next.data| > |s.data|)
      && (Fetch(s, 0).next == s)
  {
    var r := Refill(s);
    if s.source.Some? && r.rc == Ok {
      var src := s.source.value;
      var free := s.capacity - |s.data|;
      var request := if free > s.fileSize then s.fileSize else free;
      var got := Fread(src, request);
      assert src.remaining == got + src.remaining[|got|..];
    }
  }

  /** Write: BUFFER_OVERFLOW changes nothing; otherwise the bytes land at write_index. */
  lemma AppendCases(s: ReaderState, src: seq<byte>)
    requires Good(s)
    ensures var w := Append(s, src);
      && (w.rc == BufferOverflow <==> s.capacity - |s.data| < |src|)
      && (w.rc == BufferOverflow ==> w.next == s)
      && (w.rc != BufferOverflow ==>
            w.rc == Ok && w.next.data == s.data + src && w.next.readBitIndex == s.readBitIndex && Good(w.next))
  {
  }

  /** Without a source a short read leaves everything as it was. */
  lemma MemoryReadCases(s: ReaderState, n: int)
    requires Good(s) && s.source.None? && n <= 32
    ensures var r := ReadSpec(s, n);
      && (r.rc == Ok <==> n <= GetSizeSpec(s))
      && (r.rc != Ok ==> r.rc == NeedMoreInput && r.next == s && r.value == 0)
      && (r.rc == Ok ==> r.next.data == s.data)
  {
  }

  /**
   * With a source, a read that finds too few bits refills once; the refill's
   * failure is passed on, and END_OF_STREAM reports that it still fell short.
   */
  lemma SourcedReadCases(s: ReaderState, n: int)
    requires Good(s) && s.source.Some? && n <= 32
    requires s.readBitIndex + n > |s.data| * 8
    ensures var r := ReadSpec(s, n);
      && (r.rc == Ok ==> s.readBitIndex + n <= |Refill(s).next.data| * 8)
      && (r.rc != Ok ==>
            r.value == 0 && r.next.readBitIndex == s.readBitIndex && (r.rc == EndOfStream || r.rc == Refill(s).rc))
      && (Refill(s).rc == Ok && r.rc != Ok ==> r.rc == EndOfStream)
  {
    RefillKeeps(s);
  }

  /** A successful read returns exactly the next n bits of what is buffered. */
  lemma ReadValue(s: ReaderState, n: nat)
    requires Good(s) && n <= 32
    requires ReadSpec(s, n).rc == Ok
    ensures var r := ReadSpec(s, n);
      && s.readBitIndex + n <= |r.next.data| * 8
      && r.value == Bits(r.next.data, s.readBitIndex, n)
      && r.value < Pow2(n)
      && s.data <= r.next.data
  {
    RefillKeeps(s);
    var r := ReadSpec(s, n);
    BitsBound(r.next.data, s.readBitIndex, n);
  }

  /** Whatever happens, a read of n bits returns less than 2^n. */
  lemma ReadBound(s: ReaderState, n: nat)
    requires Good(s) && n <= 32
    ensures ReadSpec(s, n).value < Pow2(n)
  {
    if ReadSpec(s, n).rc == Ok {
      ReadValue(s, n);
    }
  }

  /** Peek returns what read would return, with the cursor where it was. */
  lemma PeekIsRead(s: ReaderState, n: int)
    requires Good(s) && n <= 32
    ensures var p, r := PeekSpec(s, n), ReadSpec(s, n);
      && p.value == r.value && p.rc == r.rc
      && p.next == r.next.(readBitIndex := s.readBitIndex)
  {
  }

  /**
   * Reading a bits and then b bits gives the same bits as one read of a+b:
   * the first value is the high part and the second the low part.  Stated
   * here for bits already buffered; `ReadTwice` and `ReadFromPending` give
   * the same split across refills.
   */
  lemma ReadSplit(s: ReaderState, a: nat, b: nat)
    requires Good(s) && a + b <= 32
    requires s.readBitIndex + a + b <= |s.data| * 8
    ensures var r1 := ReadSpec(s, a);
      var r2 := ReadSpec(r1.next, b);
      var r := ReadSpec(s, a + b);
      && r1.rc == Ok && r2.rc == Ok && r.rc == Ok
      && r.value == Shl(r1.value, b) + r2.value
      && r.next == r2.next
  {
    var s1 := s.(readBitIndex := s.readBitIndex + a);
    var s2 := s.(readBitIndex := s.readBitIndex + a + b);
    BufferedRead(s, a);
    BufferedRead(s1, b);
    BufferedRead(s, a + b);
    SplitReads(ReadSpec(s, a), ReadSpec(s1, b), ReadSpec(s, a + b), s.data, s.readBitIndex, a, b, s1, s2);
  }

  lemma SplitReads(r1: Read, r2: Read, r: Read, data: seq<byte>, p: nat, a: nat, b: nat, s1: ReaderState, s2: ReaderState)
    requires p + a + b <= |data| * 8
    requires r1 == Read(Bits(data, p, a), Ok, s1)
    requires r2 == Read(Bits(data, p + a, b), Ok, s2)
    requires r == Read(Bits(data, p, a + b), Ok, s2)
    ensures r1.rc == Ok && r2.rc == Ok && r.rc == Ok
    ensures r.value == Shl(r1.value, b) + r2.value && r.next == r2.next
  {
    BitsSplit(data, p, a, b);
  }

  /** A read of bits already buffered succeeds without touching the source. */
  lemma BufferedRead(s: ReaderState, n: nat)
    requires Good(s) && s.readBitIndex + n <= |s.data| * 8
    ensures ReadSpec(s, n) == Read(Bits(s.data, s.readBitIndex, n), Ok, s.(readBitIndex := s.readBitIndex + n))
  {
  }

  /**
   * Two successful reads in a row, whatever refills they make, take
   * consecutive bits of the stream: with `ReadFromPending` and `BitsSplit`,
   * the split of `ReadSplit` holds across refills as well.
   */
  lemma ReadTwice(s: ReaderState, a: nat, b: nat)
    requires Good(s) && a + b <= 32
    requires ReadSpec(s, a).rc == Ok && ReadSpec(ReadSpec(s, a).next, b).rc == Ok
    ensures var r1 := ReadSpec(s, a);
      var r2 := ReadSpec(r1.next, b);
      && s.readBitIndex + a + b <= |Pending(s)| * 8
      && r1.value == Bits(Pending(s), s.readBitIndex, a)
      && r2.value == Bits(Pending(s), s.readBitIndex + a, b)
      && r2.next.readBitIndex == s.readBitIndex + a + b
      && Pending(r2.next) == Pending(s)
  {
    var r1 := ReadSpec(s, a);
    ReadFromPending(s, a);
    ReadFromPending(r1.next, b);
  }

  /**
   * Whatever refills happen, a successful read returns the next n bits of
   * the stream the reader draws from: its buffer followed by the source.
   */
  lemma ReadFromPending(s: ReaderState, n: nat)
    requires Good(s) && n <= 32
    requires ReadSpec(s, n).rc == Ok
    ensures var r := ReadSpec(s, n);
      && s.readBitIndex + n <= |Pending(s)| * 8
      && r.value == Bits(Pending(s), s.readBitIndex, n)
      && Pending(r.next) == Pending(s)
      && Good(r.next)
  {
    var r := ReadSpec(s, n);
    ReadValue(s, n);
    ReadKeepsPending(s, n);
    var d := r.next.data;
    assert Pending(s) == d + Pending(s)[|d|..];
    BitsAppend(d, Pending(s)[|d|..], s.readBitIndex, n);
  }

  /** A read only moves bytes from the source into the buffer. */
  lemma ReadKeepsPending(s: ReaderState, n: int)
    requires Good(s)
    ensures s.data <= ReadSpec(s, n).next.data
    ensures Pending(ReadSpec(s, n).next) == Pending(s)
    ensures ReadSpec(s, n).next.data <= Pending(s)
  {
    RefillKeeps(s);
  }

  /**
   * One pass of the byte-by-byte loop of read and peek: taking `take` more
   * bits from the byte under the cursor extends the value by those bits.
   */
  lemma ReadStep(data: seq<byte>, start: nat, done: nat, pos: nat, take: nat, left: nat, byte: byte, value: nat)
    requires pos == start + done && pos < |data| * 8
    requires 0 < take && left == 8 - pos % 8 - take
    requires byte == data[pos / 8] && value == Bits(data, start, done)
    ensures start + done + take <= |data| * 8
    ensures Shl(value, take) + LowBits(Shr(byte, left), take) == Bits(data, start, done + take)
  {
    BitsInByte(data, start + done, take);
    BitsSplit(data, start, done, take);
  }

  /**
   * Read and peek are decided by the guard: its failure is theirs, with the
   * value 0; once it has passed they take their value from the guarded buffer.
   */
  lemma ReadByFetch(s0: ReaderState, n: int)
    requires Good(s0)
    ensures var f := Fetch(s0, n);
      && (f.rc != Ok ==> ReadSpec(s0, n) == Read(0, f.rc, f.next) && PeekSpec(s0, n) == Read(0, f.rc, f.next))
    ensures var f := Fetch(s0, n);
      var k: nat := if n < 0 then 0 else n;
      f.rc == Ok ==>
        && s0.readBitIndex + k <= |f.next.data| * 8
        && ReadSpec(s0, n) == Read(Bits(f.next.data, s0.readBitIndex, k), Ok, f.next.(readBitIndex := s0.readBitIndex + k))
        && PeekSpec(s0, n) == Read(Bits(f.next.data, s0.readBitIndex, k), Ok, f.next)
  {
    RefillKeeps(s0);
  }

  /**
   * After a successful peek the bits are buffered: reading or discarding
   * them succeeds, returns the peeked value and moves only the cursor.
   */
  lemma PeekThenRead(s: ReaderState, n: nat)
    requires Good(s) && n <= 32 && PeekSpec(s, n).rc == Ok
    ensures var p := PeekSpec(s, n);
      && Pending(p.next) == Pending(s)
      && s.readBitIndex + n <= |p.next.data| * 8
      && ReadSpec(p.next, n) == Read(p.value, Ok, p.next.(readBitIndex := s.readBitIndex + n))
      && DiscardSpec(p.next, n) == Step(Ok, p.next.(readBitIndex := s.readBitIndex + n))
  {
    var p := PeekSpec(s, n);
    ReadByFetch(s, n);
    ReadKeepsPending(s, n);
    PeekIsRead(s, n);
    BufferedRead(p.next, n);
  }

  /**
   * When not even one bit can be read, nothing can: every later read or
   * peek fails with the same code and leaves the stream as it is, since a
   * refill that succeeds brings at least a byte.
   */
  lemma NoBitLeft(s: ReaderState, n: int)
    requires Good(s) && n >= 1 && ReadSpec(s, 1).rc != Ok
    ensures ReadSpec(s, 1).next == s
    ensures ReadSpec(s, n) == Read(0, ReadSpec(s, 1).rc, s)
    ensures PeekSpec(s, n) == Read(0, ReadSpec(s, 1).rc, s)
  {
    RefillKeeps(s);
  }

  /** Aligning leaves the cursor on a byte boundary, having skipped fewer than 8 bits. */
  lemma AlignCases(s: ReaderState)
    requires Good(s)
    ensures var a := AlignSpec(s);
      && (s.readBitIndex % 8 == 0 ==> a == Step(Ok, s))
      && (a.rc == Ok ==>
            a.next.readBitIndex % 8 == 0 && a.next.readBitIndex == s.readBitIndex + (8 - s.readBitIndex % 8) % 8)
      && (a.rc != Ok ==> a.next.readBitIndex == s.readBitIndex)
  {
    AlignArith(s.readBitIndex);
  }

  /** The bits to the next byte boundary from bit p. */
  lemma AlignArith(p: nat)
    ensures p % 8 == 0 ==> (8 - p % 8) % 8 == 0
    ensures p % 8 != 0 ==> (8 - p % 8) % 8 == 8 - p % 8 && (p + (8 - p % 8)) % 8 == 0
  {
    assert p == p / 8 * 8 + p % 8;
    assert p % 8 != 0 ==> p + (8 - p % 8) == (p / 8 + 1) * 8;
  }

  // ---------------------------------------------------------------------
  // The reader object
  // ---------------------------------------------------------------------

  class BitReader {
    /** The inner buffer; its length is `buffer_capacity`. */
    const buffer: array<byte>
    var writeIndex: nat
    var readIndex: nat
    var readBitIndex: nat
    var source: Option<Source>
    var fileSize: nat

    ghost predicate Valid()
      reads this
    {
      && writeIndex <= buffer.Length
      && readBitIndex <= writeIndex * 8
      && readIndex == readBitIndex / 8
      && (source.Some? ==> |source.value.remaining| <= fileSize)
    }

    /** The abstract value of the stream. */
    function St(): (s: ReaderState)
      reads this, buffer
      requires writeIndex <= buffer.Length
    {
      ReaderState(buffer[..writeIndex], buffer.Length, readBitIndex, source, fileSize)
    }

    lemma ValidGood()
      requires Valid()
      ensures Good(St())
    {
    }

    /** `bitstream_alloc`: an empty stream over a buffer of the given capacity. */
    constructor Alloc(capacity: nat)
      ensures Valid() && fresh(buffer)
      ensures St() == ReaderState([], capacity, 0, None, 0)
    {
      buffer := new byte[capacity];
      writeIndex, readIndex, readBitIndex := 0, 0, 0;
      source, fileSize := None, 0;
    }

    /**
     * `bitstream_alloc_load_file` once the file is open: the stream refills
     * from `content`, whose length is recorded as the file size.
     */
    constructor Load(capacity: nat, content: seq<byte>, failing: bool)
      ensures Valid() && fresh(buffer)
      ensures St() == ReaderState([], capacity, 0, Some(Source(content, failing)), |content|)
    {
      buffer := new byte[capacity];
      writeIndex, readIndex, readBitIndex := 0, 0, 0;
      source, fileSize := Some(Source(content, failing)), |content|;
    }

    /** `bitstream_write`. */
    method Write(src: seq<byte>) returns (rc: Rc)
      requires Valid()
      modifies this, buffer
      ensures Valid()
      ensures Step(rc, St()) == Append(old(St()), src)
    {
      if buffer.Length - writeIndex < |src| {
        return BufferOverflow;
      }
      ghost var before := buffer[..writeIndex];
      forall i | 0 <= i < |src| {
        buffer[writeIndex + i] := src[i];
      }
      writeIndex := writeIndex + |src|;
      assert buffer[..writeIndex] == before + src;
      return Ok;
    }

    /** `bitstream_flush`: its body is empty. */
    method Flush()
      requires Valid()
      ensures St() == old(St())
    {
    }

    /** `bitstream_replenish`. */
    method Replenish() returns (rc: Rc)
      requires Valid()
      modifies this, buffer
      ensures Valid()
      ensures Step(rc, St()) == Refill(old(St()))
    {
      if source.None? {
        return NotAllowed;
      }
      var request := buffer.Length - writeIndex;
      if request > buffer.Length / 2 {
        Flush();
        request := buffer.Length - writeIndex;
      }
      request := if request > fileSize then fileSize else request;
      if request == 0 {
        return BufferOverflow;
      }
      var src := source.value;
      var got := Fread(src, request);
      if |got| == 0 {
        return if src.failing then Fail else EndOfStream;
      }
      source := Some(src.(remaining := src.remaining[|got|..]));
      // Its code is not checked: the request never exceeds the free space.
      var _ := Write(got);
      return Ok;
    }

    /**
     * The guard at the head of `bitstream_read_bits` and
     * `bitstream_peek_bits`: make n bits available or say why not.
     */
    method Guard(n: int) returns (rc: Rc)
      requires Valid()
      modifies this, buffer
      ensures Valid()
      ensures Step(rc, St()) == Fetch(old(St()), n)
    {
      if readBitIndex + n > writeIndex * 8 {
        if source.None? {
          return NeedMoreInput;
        }
        var r := Replenish();
        if Failed(r) {
          return r;
        }
        if readBitIndex + n > writeIndex * 8 {
          return EndOfStream;
        }
      }
      return Ok;
    }

    /** `bitstream_read_bits`: the guard, then the loop that moves the cursor. */
    method ReadBits(n: int) returns (value: nat, rc: Rc)
      requires Valid() && n <= 32
      modifies this, buffer
      ensures Valid()
      ensures Read(value, rc, St()) == ReadSpec(old(St()), n)
    {
      ghost var s0 := St();
      rc := Guard(n);
      ReadByFetch(s0, n);
      if rc != Ok {
        return 0, rc;
      }
      value := TakeBits(n);
    }

    /**
     * The loop of `bitstream_read_bits`: take the bits byte by byte, as many
     * of the current byte as are wanted and left, advancing the cursor.
     */
    method TakeBits(n: int) returns (value: nat)
      requires Valid() && readBitIndex + n <= writeIndex * 8
      modifies this
      ensures Valid()
      ensures var k: nat := if n < 0 then 0 else n;
        && St() == old(St()).(readBitIndex := old(readBitIndex) + k)
        && value == Bits(buffer[..writeIndex], old(readBitIndex), k)
    {
      ghost var data := buffer[..writeIndex];
      ghost var start := readBitIndex;
      ghost var k: nat := if n < 0 then 0 else n;
      value := 0;
      var m := n;
      ghost var done: nat := 0;
      while m > 0
        modifies this`readIndex, this`readBitIndex
        invariant readIndex == readBitIndex / 8
        invariant readBitIndex == start + done && done <= k
        invariant m > 0 ==> m == k - done
        invariant m <= 0 ==> done == k
        invariant value == Bits(data, start, done)
        decreases m
      {
        var toRead;
        value, toRead := TakeStep(m, data, start, done, value);
        done := done + toRead;
        m := m - toRead;
      }
    }

    /**
     * One pass of the loop of `bitstream_read_bits`: the wanted bits of the
     * current byte, appended to `value`.
     */
    method TakeStep(m: int, ghost data: seq<byte>, ghost start: nat, ghost done: nat, value: nat)
        returns (value': nat, toRead: nat)
      requires 0 < m && readBitIndex == start + done && start + done + m <= |data| * 8
      requires readIndex == readBitIndex / 8 && |data| <= buffer.Length
      requires data == buffer[..|data|] && value == Bits(data, start, done)
      modifies this`readIndex, this`readBitIndex
      ensures 0 < toRead <= m && readBitIndex == old(readBitIndex) + toRead && readIndex == readBitIndex / 8
      ensures value' == Bits(data, start, done + toRead)
    {
      var bitsInByte := 8 - readBitIndex % 8;
      toRead := if m > bitsInByte then bitsInByte else m;
      var bitsLeft := bitsInByte - toRead;
      // `(result << k) | ((byte >> left) & ((1 << k) - 1))`: the shifted
      // result has k zero low bits, so the `|` is an addition.
      var byte := buffer[readIndex];
      assert byte == data[readBitIndex / 8];
      ReadStep(data, start, done, readBitIndex, toRead, bitsLeft, byte, value);
      value' := Shl(value, toRead) + LowBits(Shr(byte, bitsLeft), toRead);
      readBitIndex := readBitIndex + toRead;
      readIndex := readBitIndex / 8;
    }

    /** `bitstream_peek_bits`: the guard, then the loop on a copy of the cursor. */
    method PeekBits(n: int) returns (value: nat, rc: Rc)
      requires Valid() && n <= 32
      modifies this, buffer
      ensures Valid()
      ensures Read(value, rc, St()) == PeekSpec(old(St()), n)
    {
      ghost var s0 := St();
      rc := Guard(n);
      ReadByFetch(s0, n);
      if rc != Ok {
        return 0, rc;
      }
      value := CopyBits(n);
    }

    /** The loop of `bitstream_peek_bits`, on `temp_index` and `temp_bit_index`. */
    method CopyBits(n: int) returns (value: nat)
      requires Valid() && readBitIndex + n <= writeIndex * 8
      ensures value == Bits(buffer[..writeIndex], readBitIndex, if n < 0 then 0 else n)
    {
      ghost var data := buffer[..writeIndex];
      ghost var start := readBitIndex;
      ghost var k: nat := if n < 0 then 0 else n;
      value := 0;
      var tempIndex := readIndex;
      var tempBitIndex := readBitIndex;
      var m := n;
      ghost var done: nat := 0;
      while m > 0
        invariant tempBitIndex == start + done && done <= k
        invariant tempIndex == tempBitIndex / 8
        invariant m > 0 ==> m == k - done
        invariant m <= 0 ==> done == k
        invariant value == Bits(data, start, done)
        decreases m
      {
        var bitsInByte := 8 - tempBitIndex % 8;
        var toRead := if m > bitsInByte then bitsInByte else m;
        var bitsLeft := bitsInByte - toRead;
        var byte := buffer[tempIndex];
        assert byte == data[tempBitIndex / 8];
        ReadStep(data, start, done, tempBitIndex, toRead, bitsLeft, byte, value);
        value := Shl(value, toRead) + LowBits(Shr(byte, bitsLeft), toRead);
        done := done + toRead;
        tempBitIndex := tempBitIndex + toRead;
        tempIndex := tempBitIndex / 8;
        m := m - toRead;
      }
    }

    /** `bitstream_discard_bits`. */
    method DiscardBits(n: int) returns (rc: Rc)
      requires Valid() && n <= 32
      modifies this, buffer
      ensures Valid()
      ensures Step(rc, St()) == DiscardSpec(old(St()), n)
    {
      var _, r := ReadBits(n);
      return r;
    }

    /** `bitstream_is_byte_aligned`. */
    function IsByteAligned(): (rc: Rc)
      reads this
      requires Valid()
      ensures rc == Ok <==> readIndex * 8 == readBitIndex
      ensures rc == Ok || rc == False
    {
      if readBitIndex % 8 == 0 then Ok else False
    }

    /** `bitstream_align_to_byte`. */
    method AlignToByte() returns (rc: Rc)
      requires Valid()
      modifies this, buffer
      ensures Valid()
      ensures Step(rc, St()) == AlignSpec(old(St()))
    {
      ghost var s0 := St();
      if readBitIndex % 8 == 0 {
        assert AlignSpec(s0) == Step(Ok, s0);
        return Ok;
      }
      var n := 8 - readBitIndex % 8;
      assert AlignSpec(s0) == DiscardSpec(s0, n);
      rc := DiscardBits(n);
    }

    /** `bitstream_get_size`. */
    function GetSize(): (size: int)
      reads this
      requires Valid()
      ensures source.None? ==> size >= 0 && size == writeIndex * 8 - readBitIndex
      ensures source.Some? ==> size == fileSize * 8
    {
      if source.Some? then fileSize * 8 else writeIndex * 8 - readBitIndex
    }
  }
}
