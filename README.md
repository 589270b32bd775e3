# MPEG-1 video decoder core, modelled in Dafny

This project models the decoding core of a small MPEG-1 video elementary-stream
decoder (ISO/IEC 11172-2), along with the support code the core relies on. The
model proves the decoder's contracts.

- **Bit reader** (`bitstream.dfy`). An `MMFBitstream` is a class over a fixed
  byte buffer with a write index, a read index and a bit index. It appends
  bytes, and reads, peeks and discards 1 to 32 bits MSB-first. It aligns to a
  byte, reports its size and refills on demand from a file source. Each method
  is proved equal to a specification function over the reader's abstract
  state. The lemmas about those functions cover splitting reads, peeking
  against reading, and the refill cases. `bitseq.dfy` holds the bit-level view
  of bytes, and `cint.dfy` the C integer operations: shifts, masks, `int8_t`
  and `int16_t` stores, and truncating division.
- **Prefix-code tree** (`vlc.dfy`). The tree is a datatype. Node insertion,
  node and leaf lookup, building a tree from a table, and the decoding loop are
  all modelled. A prefix-free table is shown to decode every message encoded
  with it. The four-symbol example decodes "ABACAD".
- **MPEG-1 decoding** (`mpeg1_*.dfy`):
  - the start-code search and the sequence, group, picture and slice header
    readers;
  - run/level coefficient decoding with escapes and zig-zag expansion;
  - the two dequantisers;
  - DC decoding and the per-slice DC predictors;
  - the macroblock state machine;
  - the slice and picture loop;
  - additive prediction;
  - reference-picture rotation;
  - de-tiling into the output sample;
  - `mpg1_decode_sample`.

  The decoder context and pictures are classes whose planes are arrays. Every
  operation that reads bits is a method proved against a specification
  function of the reader state.
- **Support code**:
  - the result-code classification (`mmfutil.dfy`);
  - sample allocation, planar frame layout, freeing with ownership flags, and
    plane copying (`mmfsample.dfy`, where memory is a map from allocations to
    their bytes);
  - the codec registry, the packet size guard, codec-state allocation, and
    the open/close/encode guards (`mmfcodec.dfy`).

C undefined behaviour is modelled as the result code `Undefined`, which is not
a code of the C program. It also covers a failed `mmf_assert` and a loop that
would repeat forever without consuming input. Examples are an out-of-bounds
index, a null dereference, a missing branch of the tree, and a division by
zero.

Where this model follows the code against a description of its intent:

- `mmf_sample_copy_plane` copies from `dst` into `src`, as written.
- The backward motion-vector read takes its residual size from
  `forward_f_code`.
- A macroblock that fails ends the picture with OK, through `goto success`.

## Model

| member | source | states |
|---|---|---|
| MmfUtil.Succeeded | mmfutil.c:31-34 | `succeeded` holds exactly for OK and FALSE |
| MmfUtil.Failed | mmfutil.c:36-39 | `failed` holds exactly for every code other than OK and FALSE |
| MmfUtil.ExactlyOneClassification | mmfutil.c:31-39 | every code is either succeeded or failed, never both |
| MmfUtil.CodeInjective | mmfutil.h:25-40 | distinct codes have distinct enum values, so classifying by value is classifying by code |
| MmfUtil.AllocZ | mmfutil.c:13-19 | a zeroed allocation has the requested size and every byte is 0 |
| Bitstream.ReadSpec | generic/bitstream.c:24-76 | a read keeps the stream invariants and either returns OK or a failure code; on OK the cursor moves exactly n bits (none for n ≤ 0); on failure the value is 0 and the cursor stays |
| Bitstream.PeekSpec | generic/bitstream.c:95-148 | a peek keeps the invariants, never moves the cursor, and returns OK or a failure code |
| Bitstream.IsByteAlignedSpec | generic/bitstream.c:233-236 | OK exactly when the cursor is on a byte boundary, FALSE otherwise |
| Bitstream.RefillKeeps | generic/bitstream.c:163-225 | a refill keeps the invariants, the cursor, the capacity and the file size, and only appends to the buffer. It moves bytes from the source into the buffer without losing or inventing any. A failed refill changes nothing; a successful one adds at least one byte |
| Bitstream.AppendCases | generic/bitstream.c:5-20 | a write gives BUFFER_OVERFLOW exactly when the bytes do not fit, and then changes nothing; otherwise it gives OK with the bytes appended and the cursor unchanged |
| Bitstream.MemoryReadCases | generic/bitstream.c:35-40 | without a source, a read succeeds exactly when n is at most `bitstream_get_size`; otherwise it gives NEED_MORE_INPUT, value 0 and an unchanged stream |
| Bitstream.SourcedReadCases | generic/bitstream.c:36-53 | with a source and too few bits buffered, a read refills once. On success the refill made the bits available. On failure the value is 0, the cursor stays, and the code is END_OF_STREAM or the refill's own code; after a successful refill it can only be END_OF_STREAM |
| Bitstream.ReadValue | generic/bitstream.c:55-75 | a successful read returns exactly the n buffered bits at the cursor, most significant first, which is less than 2^n, and only appends to the buffer |
| Bitstream.ReadBound | generic/bitstream.c:24-76 | a read of n bits always returns less than 2^n |
| Bitstream.PeekIsRead | generic/bitstream.c:95-148 | a peek returns the same value and code as a read, and the same state except that the cursor has not moved |
| Bitstream.ReadSplit | generic/bitstream.c:58-72 | on buffered bits, reading a bits and then b bits equals one read of a+b bits: the first value is the high part, the second the low part, and the final state is the same |
| Bitstream.ReadTwice | generic/bitstream.c:24-76 | whatever refills happen, two successful reads in a row take consecutive bits of the stream (the buffer followed by the unread file) and keep that stream unchanged |
| Bitstream.ReadFromPending | generic/bitstream.c:24-76 | a successful read returns the next n bits of the buffer followed by the unread file, and leaves that stream unchanged |
| Bitstream.ReadKeepsPending | generic/bitstream.c:36-53 | a read only moves bytes from the source into the buffer: the old buffer is a prefix of the new one, and the buffer followed by the source is unchanged |
| Bitstream.BufferedRead | generic/bitstream.c:55-75 | a read of bits that are already buffered succeeds with exactly those bits and moves only the cursor |
| Bitstream.ReadStep | generic/bitstream.c:59-68 | one pass of the read loop: the shift, mask and OR of the current byte append the next `bits_to_read` bits to the value |
| Bitstream.ReadByFetch | generic/bitstream.c:35-53 | read and peek fail exactly when the guard fails, with its code and value 0; once the guard passes, both return the buffered bits at the cursor |
| Bitstream.PeekThenRead | generic/bitstream.c:95-148 | after a successful peek the bits are buffered, so a read or discard of the same n bits succeeds, returns the peeked value and moves only the cursor |
| Bitstream.NoBitLeft | generic/bitstream.c:36-53 | when one bit cannot be read, every read or peek of n ≥ 1 bits fails with the same code and leaves the stream unchanged |
| Bitstream.AlignCases | generic/bitstream.c:238-246 | an aligned cursor gives OK and no change. A successful align leaves the cursor on a byte boundary after skipping (8 − p mod 8) mod 8 bits. A failed align leaves the cursor where it was |
| Bitstream.BitReader.Alloc | generic/bitstream.c:251-259 | a new stream is empty, has the requested capacity and no source |
| Bitstream.BitReader.Load | generic/bitstream.c:264-288 | a stream opened on a file is empty; the file's length is recorded as `file_size` |
| Bitstream.BitReader.Write | generic/bitstream.c:5-20 | the new buffer and code are those of `Append`; the partner is `AppendCases` |
| Bitstream.BitReader.Flush | generic/bitstream.c:155-158 | the stream is unchanged (the C body is empty) |
| Bitstream.BitReader.Replenish | generic/bitstream.c:163-225 | the new state and code are those of `Refill`; the partner is `RefillKeeps` |
| Bitstream.BitReader.Guard | generic/bitstream.c:35-53 | the refill-and-check guard at the head of read and peek gives the code and state of `Fetch` |
| Bitstream.BitReader.ReadBits | generic/bitstream.c:24-76 | the value, code and new state are those of `ReadSpec` |
| Bitstream.BitReader.TakeBits | generic/bitstream.c:55-72 | the loop returns the n bits at the cursor and moves only the cursor, by exactly n bits (none for n ≤ 0) |
| Bitstream.BitReader.TakeStep | generic/bitstream.c:59-68 | one pass takes between 1 and n of the current byte's bits, appends them to the value and advances both indexes together |
| Bitstream.BitReader.PeekBits | generic/bitstream.c:95-148 | the value, code and new state are those of `PeekSpec` |
| Bitstream.BitReader.CopyBits | generic/bitstream.c:125-147 | the loop on the temporary indexes returns the n bits at the cursor and changes nothing |
| Bitstream.BitReader.DiscardBits | generic/bitstream.c:81-91 | the code and new state are those of a read whose value is dropped |
| Bitstream.BitReader.IsByteAligned | generic/bitstream.c:233-236 | OK exactly when the bit index is the byte index times 8; FALSE otherwise |
| Bitstream.BitReader.AlignToByte | generic/bitstream.c:238-246 | the code and new state are those of `AlignSpec`; the partner is `AlignCases` |
| Bitstream.BitReader.GetSize | generic/bitstream.c:311-318 | without a source, the number of unread bits (never negative); with a source, the file size in bits |
| Bitstream.Append | generic/bitstream.c:5-20 | OK or BUFFER_OVERFLOW; only the buffered bytes can change |
| Bitstream.Refill | generic/bitstream.c:163-225 | one of the codes replenish returns, NOT_ALLOWED exactly when there is no file, and the cursor never moves |
| Bitstream.Fetch | generic/bitstream.c:35-53 | the cursor stays. On OK the n bits are buffered, and with enough bits already buffered the guard gives OK without a refill |
| Bitstream.DiscardSpec | generic/bitstream.c:81-91 | on OK the cursor moves by n, otherwise it stays; the invariants hold |
| Bitstream.AlignSpec | generic/bitstream.c:238-246 | the cursor moves forward by fewer than 8 bits, and the invariants hold |
| Bitstream.GetSizeSpec | generic/bitstream.c:311-318 | never negative. Without a source, the cursor plus the size is the end of the buffered input |
| CInt.ShlIsMul | generic/bitstream.c:64 | shifting left by k multiplies by 2^k |
| CInt.ShrIsDiv | generic/bitstream.c:64 | shifting right by k divides by 2^k, rounding down |
| CInt.LowBitsIsMod | generic/bitstream.c:64 | the mask `(1 << k) - 1` keeps the value modulo 2^k |
| CInt.Wrap8 | codec/mpeg1dec.c:592-593 | a store into an `int8_t` keeps the value modulo 256 |
| CInt.Wrap16 | codec/mpeg1dec.c:466 | a store into an `int16_t` keeps the value modulo 65536 |
| CInt.TruncDiv | codec/mpeg1dec.c:1225-1226 | C's division by a positive divisor truncates toward zero: the quotient is bounded by the dividend from the side of zero |
| Vlc.WithBranch | codec/vlc_coding.c:19 | replacing `branches[dir]` sets that branch, keeps the other branch and the node's symbol |
| Vlc.AddNode | codec/vlc_coding.c:6-35 | adding a node keeps a node at the root (the tree stays rooted) |
| Vlc.Insert | codec/vlc_coding.c:15-34 | insertion along a path of code bits keeps a node at the root |
| Vlc.AddNodeIsInsert | codec/vlc_coding.c:6-35 | on a valid code (1 to 32 bits, value within its width), `vlc_tree_add_node` returns OK and inserts a leaf at the end of the code's bit path, creating missing nodes on the way |
| Vlc.AddNodeRejects | codec/vlc_coding.c:8-13 | `vlc_tree_add_node` fails exactly on an invalid code: INVALIDARG exactly for a count ≤ 0, undefined behaviour exactly for an oversized count or value, OK exactly for a valid code |
| Vlc.InsertFinds | codec/vlc_coding.c:15-23 | an inserted leaf is found at the end of its path |
| Vlc.InsertKeeps | codec/vlc_coding.c:25-34 | insertion leaves unchanged every path that is neither a prefix nor an extension of the inserted one |
| Vlc.InsertMakesPath | codec/vlc_coding.c:27-31 | insertion creates every node along its path |
| Vlc.FindNode | codec/vlc_coding.c:39-64 | `vlc_find_node` returns only OK, INVALIDARG or undefined behaviour |
| Vlc.FindNodeIsLookup | codec/vlc_coding.c:39-64 | on a valid code, `vlc_find_node` is the path lookup when the nodes above the last one exist, and undefined behaviour (a null dereference) when one is missing |
| Vlc.AddThenFind | codec/vlc_coding.c:6-64 | a node added for a valid code is what `vlc_find_node` returns for that code |
| Vlc.FindLeaf | codec/vlc_coding.c:144-171 | `vlc_find_leaf` returns OK, FAIL or undefined behaviour; on OK the node has no branches and the depth is at most the path length |
| Vlc.FindLeafIsWalk | codec/vlc_coding.c:144-171 | on a path that fits its width, `vlc_find_leaf` is the walk along the path's bits |
| Vlc.WalkFound | codec/vlc_coding.c:155-170 | a walk that finds a leaf stops after `depth` bits, at the node those bits lead to |
| Vlc.WalkToCode | codec/vlc_coding.c:155-170 | a walk along bits that start with a leaf's code stops at that leaf after consuming exactly the code |
| Vlc.Build | codec/vlc_coding.c:129-133 | adding the table's nodes one after another keeps a rooted tree |
| Vlc.BuildOk | codec/vlc_coding.c:129-141 | a table builds with OK exactly when every code in it is valid; otherwise the code is INVALIDARG or undefined behaviour |
| Vlc.BuildKeeps | codec/vlc_coding.c:129-133 | building from valid codes leaves every path unrelated to all of them unchanged |
| Vlc.BuildFinds | codec/vlc_coding.c:89-142 | in the tree built from a prefix-free table, every code leads to a leaf with its symbol and no branches, whatever the order of the entries |
| Vlc.Table | codec/vlc_coding.c:130-131 | the entries read from the three tables number `element_count` (none when it is negative) |
| Vlc.CreateSpec | codec/vlc_coding.c:89-142 | `vlc_tree_create` yields a root exactly when it returns OK; on failure the tree is freed and nothing is returned |
| Vlc.TreeCreate | codec/vlc_coding.c:89-142 | the loop returns the code and tree of `CreateSpec` on the table's entries; the partners are `BuildOk` and `BuildFinds` |
| Vlc.Terminator | codec/vlc_coding.c:224-230 | the index of the first entry whose bit count is not positive; every entry before it has a positive count, and there is none when every count is positive |
| Vlc.TreeCreate2 | codec/vlc_coding.c:221-251 | the count loop and the copy loop give the code and tree of `Create2Spec`. A count of 0 means up to the terminator; reading past the table is undefined behaviour |
| Vlc.TableAppend | codec/vlc_coding.c:237-241 | copying an entry into the three tables, its bit count stored as `uint8_t`, gives the same entry back when `vlc_tree_create` reads it as `int8_t` |
| Vlc.TerminatorAt | codec/vlc_coding.c:224-230 | the counting loop stops at the first entry with a non-positive count |
| Vlc.Create2Finds | codec/vlc_coding.c:221-251 | a terminated prefix-free table builds with OK into a tree in which every code leads to its symbol |
| Vlc.Window | codec/vlc_coding.c:182-192 | the window peek keeps the stream invariants |
| Vlc.WindowFacts | codec/vlc_coding.c:182-192 | the window never moves the cursor or loses input. A window that was read holds the next n ≤ 32 bits of the stream. It is shorter than 32 bits only when there is no source |
| Vlc.PeekFacts | codec/vlc_coding.c:184-190 | a peek keeps the pending input. NEED_MORE_INPUT happens only without a source and with too few bits. On OK it returns the next n bits, which are less than 2^n |
| Vlc.PassFacts | codec/vlc_coding.c:181-216 | a pass keeps the invariants and the input; a stop leaves the cursor where it was, and an emit consumes exactly the depth of the leaf (≤ 32 bits) |
| Vlc.PassOnFacts | codec/vlc_coding.c:194-215 | after the window, a stop leaves the state the peek left, and an emit moves only the cursor by the leaf's depth |
| Vlc.DiscardBuffered | generic/bitstream.c:81-91 | discarding bits that are already buffered succeeds and only moves the cursor |
| Vlc.DecodeSpec | codec/vlc_coding.c:173-219 | decoding keeps the invariants and the input, never moves the cursor back, and writes at most `symbol_limit` symbols when the limit is not −1 |
| Vlc.DecodeRest | codec/vlc_coding.c:181-216 | same guarantees as `DecodeSpec`, for a pass followed by the rest of the loop |
| Vlc.PeekWindow | codec/vlc_coding.c:182-192 | the peeks on the reader object give `bits_to_read`, the bits, the code and the state of `Window` |
| Vlc.DecodeOne | codec/vlc_coding.c:182-215 | one pass on the reader object gives the outcome of `DecodePass` |
| Vlc.DecodeStep | codec/vlc_coding.c:181-216 | one unfolding of the loop: a stop ends decoding with its code, and an emit puts its symbol in front of the rest. A depth-0 leaf with no limit makes the loop spin, which is undefined behaviour |
| Vlc.AfterNothing | codec/vlc_coding.c:179 | no symbols written in front leaves a decoding unchanged |
| Vlc.AfterPrepend | codec/vlc_coding.c:210-211 | writing one more symbol moves it from the front of the rest onto what is written |
| Vlc.AfterStop | codec/vlc_coding.c:194-197 | a stop returns exactly the symbols already written |
| Vlc.DecodeBitstream | codec/vlc_coding.c:173-219 | the code, the symbols written to `dst` and the new stream are those of `DecodeSpec` |
| Vlc.Symbols | codec/vlc_coding.c:210 | the symbols of a message, one per entry and in order |
| Vlc.WindowMemory | codec/vlc_coding.c:182-192 | without a source the window is the next 32 bits when there are that many, otherwise all that is left; with nothing left the peek needs more input |
| Vlc.DecodeCodeAt | codec/vlc_coding.c:182-215 | without a source, a pass over bits that start with a leaf's code emits that leaf's symbol and consumes exactly the code |
| Vlc.FindAtCode | codec/vlc_coding.c:144-171 | the leaf search over a window that starts with a leaf's code stops at that leaf, at the code's length |
| Vlc.FindOnBits | codec/vlc_coding.c:144-171 | the same, stated on the window as a sequence of bits |
| Vlc.PassOnEmit | codec/vlc_coding.c:204-215 | a window that leads to a leaf makes the pass emit that leaf's symbol and discard its depth |
| Vlc.InTreeTail | codec/vlc_coding.c:181-216 | the first entry of a message in the tree has a valid code leading to its symbol, and the rest of the message is in the tree too |
| Vlc.DecodeAll | codec/vlc_coding.c:173-219 | without a source, decoding bits that are exactly a message's codes yields the message's symbols and reads every bit, with no limit or a limit of at least the message's length |
| Vlc.PrependSymbols | codec/vlc_coding.c:210-211 | one symbol in front of the rest of a message's symbols gives the message's symbols |
| Vlc.DecodeAtEnd | codec/vlc_coding.c:194-195 | without a source, decoding at the end of the data returns OK and no symbols |
| Vlc.DecodeFirst | codec/vlc_coding.c:181-216 | without a source, the first symbol decoded is that of the code at the cursor, followed by the decoding of the rest |
| Vlc.PassAtEnd | codec/vlc_coding.c:186-195 | without a source and with every bit read, a pass stops with OK |
| Vlc.RoundTrip | codec/vlc_coding.c:89-219 | round trip: in the tree built from a prefix-free table, the codes of any message over the table decode to the message's symbols |
| Vlc.AbcdPrefixFree | generic/bitstream_test.h:197-203 | the test's four codes 0, 10, 110, 111 are prefix-free |
| Vlc.FourPrefixFree | generic/bitstream_test.h:197-203 | any four valid codes with the test's paths form a prefix-free table |
| Vlc.AbcdCodesApart | generic/bitstream_test.h:197-203 | no code of the test table is a prefix of another |
| Vlc.AbcdPaths | generic/bitstream_test.h:197-203 | the bit paths of the test table's codes |
| Vlc.AbcdEncoding | generic/bitstream_test.h:190 | "ABACAD" encodes to 0 10 0 110 0 111 |
| Vlc.EncodeAbacad | generic/bitstream_test.h:190 | the same, for any entries with the test's paths |
| Vlc.AbcdBits | generic/bitstream_test.h:214-222 | the bits from bit 21 on of the bytes 00 00 02 67 are the message's 11 bits |
| Vlc.AbcdStream | generic/bitstream_test.h:212-223 | writing the four bytes one at a time into a four-byte stream and discarding 21 bits succeeds and leaves the cursor at bit 21 |
| Vlc.AbcdDecodes | generic/bitstream_test.h:188-235 | the whole test: the tree built with `vlc_tree_create2(entries, 0)` decodes the stream to "ABACAD" with OK, using every bit |
| Vlc.AbcdDecodesFrom | generic/bitstream_test.h:207-226 | from bit 21 of the test's bytes, the tree built from the test table decodes "ABACAD" |
| Vlc.AbcdTreeDecodes | generic/bitstream_test.h:226 | any tree holding the test's four codes decodes the test stream to "ABACAD" |
| Vlc.AbcdMessageFits | generic/bitstream_test.h:197-203 | every entry of the test message has a valid code that leads to its symbol in such a tree |
| Vlc.AbcdSymbols | generic/bitstream_test.h:190 | the symbols of the test message are A B A C A D |
| Vlc.ValidCode | codec/vlc_coding.c:8-13 | a valid code's value fits in 32 bits |
| Vlc.Create2Spec | codec/vlc_coding.c:221-251 | a tree exactly on OK, and a negative count builds the bare root |
| Vlc.DecodePass | codec/vlc_coding.c:182-216 | a pass that stops never returns END_OF_STREAM or NEED_MORE_INPUT, since those end decoding with OK |
| MmfCodec.Codec.constructor | mmfcodec.h:121-165 | a codec description records its id, private data size and which callbacks it has |
| MmfCodec.FirstIndex | mmfcodec.c:89-94 | the search loop of unregister finds nothing exactly when the codec is absent; otherwise the first position holding it |
| MmfCodec.Removed | mmfcodec.c:101-105 | removing entry k moves every later entry one place down and shortens the list by one |
| MmfCodec.FindSpec | mmfcodec.c:109-122 | no result exactly when no registered codec has the id; otherwise the codec at the first position holding that id (no earlier entry has it) |
| MmfCodec.FindAfterRegister | mmfcodec.c:65-122 | after a registration, find returns the earlier answer if there was one, else the new codec if it has the id, else nothing |
| MmfCodec.UnregisterAfterRegister | mmfcodec.c:65-107 | unregistering a codec that was just registered, and not before, gives the old list back |
| MmfCodec.Registry.constructor | mmfcodec.c:9-10 | the registry starts empty |
| MmfCodec.Registry.Register | mmfcodec.c:65-84 | register returns OK and appends the codec after the others, even when it is already registered |
| MmfCodec.Registry.Unregister | mmfcodec.c:86-107 | INVALIDARG exactly when the codec is absent, with the list unchanged; otherwise OK, with its first occurrence removed and the later entries moved down |
| MmfCodec.Registry.Find | mmfcodec.c:109-122 | OK exactly when some codec has the id, returning the first such codec; INVALIDARG otherwise |
| MmfCodec.CodecState.constructor | mmfcodec.c:40-47 | a zeroed state has no codec and no private data |
| MmfCodec.StateAlloc | mmfcodec.c:34-54 | INVALIDARG exactly for a null codec. A missing state is allocated zeroed, and an existing one keeps its codec. On OK the state gets fresh private data of the codec's size, all zero. A negative size is undefined behaviour |
| MmfCodec.Open | mmfcodec.c:144-159 | a null codec, or a state that already has one, gives INVALIDARG and a codec without `open` gives FAIL; otherwise the codec is attached and `open`'s code is returned. Every rejection leaves the state untouched. A null state is undefined behaviour |
| MmfCodec.Close | mmfcodec.c:161-173 | a null state, or one without a codec, gives INVALIDARG and leaves the state untouched; otherwise `close`'s code is returned and the codec is detached whatever that code is (a codec without `close` is undefined behaviour) |
| MmfCodec.Encode | mmfcodec.c:175-182 | the same guards as close, then `encode`'s code (a codec without `encode` is undefined behaviour) |
| MmfCodec.Packet.constructor | mmfpacket.h:17-27 | a new packet is empty, with no data |
| MmfCodec.EnsuredCapacity | mmfcodec.c:19-29 | the capacity after ensure-size is at least both the old capacity and the size, and is one of the two |
| MmfCodec.Kept | mmfcodec.c:21 | `realloc` keeps the prefix of the old block up to the smaller of the two lengths |
| MmfCodec.EnsureSize | mmfcodec.c:12-32 | a null packet gives INVALIDPOINTER. A sufficient capacity gives OK and no change. Otherwise the data is reallocated to `size` bytes, keeping its prefix, and the capacity becomes `size` (OUTOFMEM with the data lost when `size` is negative). The packet's `size` field is never touched |
| MmfSample.MemcpySpec | mmfsample.c:169-173 | `memcpy` is defined exactly when the count is not negative, both ranges lie inside their allocations and they do not overlap |
| MmfSample.MemcpyContents | mmfsample.c:169-173 | after a copy the n bytes at the destination are the source's bytes; every other byte of every allocation is unchanged |
| MmfSample.Memcpy | mmfsample.c:169-173 | the byte loop succeeds exactly when `memcpy` is defined, and leaves the destination allocation as the specification says |
| MmfSample.Sample.Allocate | mmfsample.c:5-16 | a new sample is zeroed: no buffers, no format, null pointers, zero strides, flags and sizes |
| MmfSample.ReleasesExactly | mmfsample.c:27-34 | among the first n slots, a pointer is handed to `mmf_free` exactly when some slot holds it without DONT_RELEASE |
| MmfSample.ReleasesPrefix | mmfsample.c:27-34 | the releases of fewer slots are a prefix of the releases of more |
| MmfSample.Released | mmfsample.c:30-31 | the start of an allocation not yet released can be released after the others |
| MmfSample.Spoiled | mmfsample.c:30-31 | freeing a pointer into the middle of an allocation, or one already freed, is undefined behaviour |
| MmfSample.UnreleasableGrows | mmfsample.c:27-34 | once the frees so far are undefined, the whole loop is |
| MmfSample.Free | mmfsample.c:18-41 | a null sample gives OK and releases nothing; otherwise the code and the released allocations are those of the specification |
| MmfSample.FreeBuffers | mmfsample.c:26-40 | the buffer loop gives OK with the releasable allocations in slot order, or is undefined (a count past the eight slots, a bad or repeated pointer) |
| MmfSample.AllocateSpec | mmfsample.c:43-154 | the format is always stored. The result is OK exactly when the allocation succeeds and the format is RGBA32, or NV12/YUV420P with even sizes. Width and height change only on OK. Every other code is OUTOFMEM or INVALIDARG |
| MmfSample.AllocateVideoFrame | mmfsample.c:43-154 | a missing sample is allocated and an existing one reused; the allocation has the frame's byte size, and the code and fields are those of the specification |
| MmfSample.Yuv420pLayout | mmfsample.c:116-141 | YUV420P: three planes in one allocation with strides w, w/2, w/2. U follows the h rows of Y, V follows the h/2 rows of U, and V's h/2 rows end the allocation. Only Y is released |
| MmfSample.Nv12Layout | mmfsample.c:79-106 | NV12: two planes of stride w; the interleaved U-V plane follows the h rows of Y and ends the allocation; only Y is released |
| MmfSample.Rejections | mmfsample.c:81-83 | odd sizes of a planar format, and unknown formats, give INVALIDARG with only the format stored |
| MmfSample.FreeAfterAllocate | mmfsample.c:18-154 | freeing a frame that allocate-video-frame laid out releases its one allocation exactly once |
| MmfSample.CopyPlaneSpec | mmfsample.c:156-181 | INVALIDARG exactly for a null pointer. A stride narrower than a row fails the assertion. Equal strides equal to the row width copy the plane in one `memcpy`, otherwise row by row. The bytes flow from `dst` into `src`, as the code is written |
| MmfSample.CopyPlane | mmfsample.c:156-181 | the code and the new contents of the written allocation are those of the specification |
| MmfSample.CopyRowsLoop | mmfsample.c:172-177 | the row loop succeeds exactly when every row's `memcpy` is defined, and leaves the memory the specification describes |
| MmfSample.CopyPlaneKeepsOthers | mmfsample.c:156-181 | copying a plane changes no allocation other than the one written |
| MmfSample.RowsKeepOthers | mmfsample.c:172-177 | the row loop changes no allocation other than the one written |
| MmfSample.WholePlaneIsRows | mmfsample.c:167-178 | when both strides equal the row width, the one-`memcpy` copy and the row loop give the same memory |
| MmfSample.MemcpySplit | mmfsample.c:169 | copying a + k bytes is copying the first a and then the k after them |
| MmfSample.CopyRow | mmfsample.c:173-176 | one row keeps the rest of the copy on course to the same final memory |
| MmfSample.Releases | mmfsample.c:27-34 | at most one pointer per slot, and nothing is released exactly when every slot is null or marked DONT_RELEASE |
| MmfSample.FreeSpec | mmfsample.c:18-41 | OK or undefined, releasing nothing when undefined. At most eight allocations are released, none of them twice |
| MmfSample.FrameBytes | mmfsample.c:67-120 | 4 bytes per pixel for RGBA32; for the planar formats of even width, exactly 12 bits per pixel |
| MmfSample.CopyRows | mmfsample.c:172-177 | the row loop creates and removes no allocation |
| Mpeg1Quant.Sign | codec/mpeg1dec.c:13-22 | the sign is 1, -1 or 0 exactly for a positive, negative or zero value |
| Mpeg1Quant.Clamp2048 | codec/mpeg1dec.c:44-49 | the clamp lands in [-2048, 2047], keeps values already there and saturates the others at the nearer end |
| Mpeg1Quant.NoOverflow | codec/mpeg1dec.c:37 | the 32-bit products of the reconstruction formulas cannot overflow for 16-bit levels and 8-bit scale and matrix entries |
| Mpeg1Quant.IntraOdd | codec/mpeg1dec.c:37-49 | an intra coefficient is in [-2048, 2047]. It is 0 exactly when the level is 0, and otherwise odd unless clamped to -2048 |
| Mpeg1Quant.NonIntraOdd | codec/mpeg1dec.c:79-97 | the same for non-intra coefficients, where a zero level is forced to 0 |
| Mpeg1Quant.IntraSign | codec/mpeg1dec.c:37-42 | with positive scale and matrix entry, a product of at least 16 keeps the level's sign; a smaller one gives minus the level's sign |
| Mpeg1Quant.NonIntraSymmetric | codec/mpeg1dec.c:76-97 | away from the clamp, the non-intra coefficient of -q is minus that of q |
| Mpeg1Quant.DequantizeIntra | codec/mpeg1dec.c:24-59 | OK. Every AC coefficient is the intra reconstruction of its level, and the DC coefficient is the level times 8, wrapped to 16 bits |
| Mpeg1Quant.DequantizeNonIntra | codec/mpeg1dec.c:61-104 | OK; every coefficient is the non-intra reconstruction of its level |
| Mpeg1Quant.IntraCoeff | codec/mpeg1dec.c:37-49 | an intra coefficient lies in [-2048, 2047]. When 2·q·scale·m is below 16 in magnitude, the truncated quotient is 0 and the even-fix makes the coefficient −sign(q) |
| Mpeg1Quant.NonIntraCoeff | codec/mpeg1dec.c:79-97 | a non-intra coefficient lies in [-2048, 2047] and is 0 exactly when its level is 0 |
| Mpeg1Coeffs.FirstSymbol | codec/mpeg1dec.c:384-399 | reads the first pass's symbol as the specification says: `10` and `11` are codes 2 and 3, anything else goes through the run/level tree |
| Mpeg1Coeffs.PassSymbolSpec | codec/mpeg1dec.c:384-402 | a symbol read moves the stream forward; it fails only on the first pass's peek, apart from undefined behaviour |
| Mpeg1Coeffs.PassSymbol | codec/mpeg1dec.c:384-402 | the code, symbol and stream after are those of the specification |
| Mpeg1Coeffs.SignedByte | codec/mpeg1dec.c:419 | `(l << 24) >> 24` is the byte's value as a signed byte, congruent to it modulo 256 |
| Mpeg1Coeffs.LevelOf | codec/mpeg1dec.c:412-420 | an escape level is in [-256, 255] |
| Mpeg1Coeffs.LevelRoundTrip | codec/mpeg1dec.c:412-420 | every level from -256 to 255 is read back from the bytes an encoder writes for it. Two bytes are used exactly when the first is 0 or 128 |
| Mpeg1Coeffs.ReadLevel | codec/mpeg1dec.c:412-420 | the level and stream after are those of the specification |
| Mpeg1Coeffs.ReadEscape | codec/mpeg1dec.c:409-422 | a six-bit run, then the level, as the specification says |
| Mpeg1Coeffs.PassSpec | codec/mpeg1dec.c:382-431 | one pass either ends the loop, keeping the pairs, or adds exactly one pair. Only a non-escape code completes a pass, and the stream moves forward |
| Mpeg1Coeffs.CollectSpec | codec/mpeg1dec.c:382-431 | the loop collects at most 64 pairs, moves the stream forward, and fails only on the first pass's peek (apart from undefined behaviour) |
| Mpeg1Coeffs.CollectPass | codec/mpeg1dec.c:382-431 | one pass over the reader is the specification's pass |
| Mpeg1Coeffs.CollectRunLevels | codec/mpeg1dec.c:369-431 | the pairs, the code and the stream after are those the specification collects |
| Mpeg1Coeffs.WritesAt | codec/mpeg1dec.c:441-446 | after the writes, position `zz[k]` holds the value written k-th from `start`; positions before `start` keep their values |
| Mpeg1Coeffs.ExpandAt | codec/mpeg1dec.c:436-451 | every coefficient of the block: those before `start` are kept, then come the scan, then zeros |
| Mpeg1Coeffs.ScanSnoc | codec/mpeg1dec.c:441-446 | one more pair adds its run of zeros and its level to the scan |
| Mpeg1Coeffs.ScanCovers | codec/mpeg1dec.c:441-446 | each pair's run and level fit inside the whole scan |
| Mpeg1Coeffs.WritesSnoc | codec/mpeg1dec.c:443-445 | one value more is one write more, at the next zig-zag position |
| Mpeg1Coeffs.PutZeros | codec/mpeg1dec.c:442-444 | the run of zeros is written in zig-zag order, and is undefined behaviour exactly when it passes coefficient 64 |
| Mpeg1Coeffs.Deploy | codec/mpeg1dec.c:436-451 | the layout is OK exactly when the scan fits in the block, and then the block is the expansion of the pairs |
| Mpeg1Coeffs.CoeffsSpec | codec/mpeg1dec.c:359-454 | the stream moves forward and the block keeps 64 coefficients |
| Mpeg1Coeffs.DecodeCoeffs | codec/mpeg1dec.c:359-454 | undefined behaviour exactly when the specification says so; otherwise the code, block and stream after are the specification's |
| Mpeg1Coeffs.CoeffsLayout | codec/mpeg1dec.c:436-451 | after a successful read, coefficients before the first one read are kept, the scan follows in zig-zag order, and the rest is zero |
| Mpeg1Coeffs.CoeffsOk | codec/mpeg1dec.c:359-454 | a successful read means the collection succeeded and fits, and the block is the expansion of the collected pairs |
| Mpeg1Coeffs.FirstSymbolSpec | codec/mpeg1dec.c:384-399 | the stream moves forward and a failed peek is passed on. The strings `10` and `11` give codes 2 and 3 with OK and consume exactly two bits |
| Mpeg1Coeffs.LevelSpec | codec/mpeg1dec.c:411-419 | the level lies in [-256, 255] and takes at most 16 bits |
| Mpeg1Coeffs.EscapeSpec | codec/mpeg1dec.c:408-422 | the run is below 64, the level lies in [-256, 255], and the escape takes at most 22 bits |
| Mpeg1Coeffs.Scan | codec/mpeg1dec.c:441-446 | the scan has at least one coefficient per pair and ends with the last pair's level |
| Mpeg1Coeffs.Expand | codec/mpeg1dec.c:436-451 | the coefficients before `start` are kept, and every coefficient after the scan is 0 |
| Mpeg1Stream.AdvancesTrans | generic/bitstream.c:24-148 | moving forward twice is moving forward |
| Mpeg1Stream.StepAdvances | generic/bitstream.c:24-148 | reads, peeks and discards keep the input and never move the cursor back |
| Mpeg1Stream.DecodeSymbolSpec | codec/mpeg1dec.c:398-401 | decoding one symbol with its code ignored: the stream moves forward, at most one symbol is decoded, and the variable keeps its value when none is |
| Mpeg1Stream.DecodeSymbol | codec/mpeg1dec.c:398-401 | the code, symbol, count and stream after are those of the specification |
| Mpeg1Stream.PeekedProgress | generic/bitstream.c:95-148 | a peek that gives a nonzero value has succeeded, and discarding or reading those n bits moves the cursor by exactly n |
| Mpeg1Headers.Keeps | generic/bitstream.c:24-148 | reads and peeks never lose input, and the bits left are never negative |
| Mpeg1Headers.ScanStartCode | codec/mpeg1dec.c:116-125 | the scan keeps the input and never moves the cursor back |
| Mpeg1Headers.ScanWholeBytes | codec/mpeg1dec.c:116-125 | the scan moves the cursor by a whole number of bytes |
| Mpeg1Headers.ScanOnce | codec/mpeg1dec.c:117-124 | one pass either goes on exactly one byte further or stops where it was, keeping the input |
| Mpeg1Headers.ScanMove | codec/mpeg1dec.c:117-124 | the 32-bit peek does not move the cursor. A successful discard moves it 8 bits, and a failed one leaves it in place |
| Mpeg1Headers.NextStartCodeSpec | codec/mpeg1dec.c:109-128 | the search leaves a valid reader state |
| Mpeg1Headers.NextStartCode | codec/mpeg1dec.c:109-128 | the code and stream after are those of the specification |
| Mpeg1Headers.NextStartCodeFound | codec/mpeg1dec.c:109-128 | on OK the cursor is on a start-code prefix, not before where it began, and byte-aligned when the alignment succeeded |
| Mpeg1Headers.ByteAligned | codec/mpeg1dec.c:114-125 | an aligned position plus whole bytes is aligned |
| Mpeg1Headers.ScanFound | codec/mpeg1dec.c:116-125 | when the scan returns OK, a start-code prefix is at the cursor |
| Mpeg1Headers.BitsAppendPending | generic/bitstream.c:95-148 | bits already buffered read the same in the buffer and in the whole input |
| Mpeg1Headers.ScanFindsFirst | codec/mpeg1dec.c:116-125 | on an in-memory stream the scan finds the first start code at a byte step; when it fails there is none left |
| Mpeg1Headers.ScanFirstStep | codec/mpeg1dec.c:116-125 | skipping a byte with no start code keeps "no start code skipped" |
| Mpeg1Headers.ScanFirstLast | codec/mpeg1dec.c:116-125 | the scan's last pass skips no start code |
| Mpeg1Headers.NoStartCodeShift | codec/mpeg1dec.c:116-125 | "no start code skipped" extends back by one byte with no start code |
| Mpeg1Headers.NoStartCodeAtEnd | codec/mpeg1dec.c:116-125 | a failed scan at the end of the input skipped no start code |
| Mpeg1Headers.ScanInMemory | codec/mpeg1dec.c:116-125 | in memory the scan stops with OK on a start code, moves one byte on while a byte is left, and otherwise fails with NEED_MORE_INPUT where it is |
| Mpeg1Headers.NextByte | codec/mpeg1dec.c:124 | a later byte-step position is at least one byte further |
| Mpeg1Headers.MbCountCovers | codec/mpeg1dec.c:149-150 | `(d + 15) / 16` is the least number of 16-pixel macroblocks that cover d pixels |
| Mpeg1Headers.MbCountSif | codec/mpeg1dec.c:149-150 | 352x240 pictures are 22x15 macroblocks |
| Mpeg1Headers.SeqHeaderSpec | codec/mpeg1dec.c:130-202 | the parser leaves a valid reader state |
| Mpeg1Headers.SeqBody | codec/mpeg1dec.c:146-161 | the body leaves a valid reader state |
| Mpeg1Headers.SeqTail | codec/mpeg1dec.c:163-201 | the tail leaves a valid reader state |
| Mpeg1Headers.ReadSequenceHeader | codec/mpeg1dec.c:130-202 | the code, header and stream after are those of the specification |
| Mpeg1Headers.ReadSequenceBody | codec/mpeg1dec.c:146-161 | the body as the specification reads it |
| Mpeg1Headers.ReadSequenceTail | codec/mpeg1dec.c:163-201 | the tail as the specification reads it |
| Mpeg1Headers.SeqHeaderOutcome | codec/mpeg1dec.c:130-202 | OK exactly when the start code is read, is the sequence start code and both table indices are in range. INVALIDARG exactly for another start code. A failed read passes its code on. Before a matching start code the header is untouched |
| Mpeg1Headers.SeqHeaderLayout | codec/mpeg1dec.c:130-202 | a buffered sequence header: every field is the bit field at its offset, the bit rate is counted in units of 400, the macroblock counts cover the picture, and 96 bits are consumed |
| Mpeg1Headers.SeqBodyLayout | codec/mpeg1dec.c:146-201 | the 64 bits after the start code, field by field |
| Mpeg1Headers.SeqSizesLayout | codec/mpeg1dec.c:146-161 | the sizes and the two table entries, field by field |
| Mpeg1Headers.SeqTailLayout | codec/mpeg1dec.c:163-188 | the bit rate, marker, buffer size, constrained flag and matrix flags, field by field |
| Mpeg1Headers.GroupHeaderSpec | codec/mpeg1dec.c:206-237 | the group parser always returns OK and leaves a valid reader state |
| Mpeg1Headers.ReadGroupHeader | codec/mpeg1dec.c:206-237 | the code, header and stream after are those of the specification |
| Mpeg1Headers.GroupHeaderLayout | codec/mpeg1dec.c:206-237 | a buffered group header: each field is the bit field at its offset, and 64 bits are consumed |
| Mpeg1Headers.GroupTailLayout | codec/mpeg1dec.c:225-234 | the marker, seconds, frame and flags, field by field, then the five reserved bits |
| Mpeg1Headers.GroupFlagsLayout | codec/mpeg1dec.c:230-234 | the closed and broken flags, field by field, then the five reserved bits |
| Mpeg1Headers.PictureFields | codec/mpeg1dec.c:246-275 | the fixed fields leave a valid reader state |
| Mpeg1Headers.PictureExtra | codec/mpeg1dec.c:288-299 | the extra-information loop leaves a valid reader state |
| Mpeg1Headers.ExtraProgress | codec/mpeg1dec.c:288-299 | one pass never loses input, and moves the cursor whenever the loop goes on |
| Mpeg1Headers.PictureHeaderSpec | codec/mpeg1dec.c:242-312 | the picture parser leaves a valid reader state |
| Mpeg1Headers.ReadPictureHeader | codec/mpeg1dec.c:242-312 | the code, header and stream after are those of the specification |
| Mpeg1Headers.SkipPictureExtra | codec/mpeg1dec.c:288-299 | the loop over the reader is the specification's loop |
| Mpeg1Headers.PictureHeaderFields | codec/mpeg1dec.c:256-275 | OK exactly for I, P, B and D pictures, INVALIDDATA otherwise. The forward code is read only for P and B pictures, the backward code only for B |
| Mpeg1Headers.PictureHeaderAligned | codec/mpeg1dec.c:281-305 | the parser ends with the alignment; when it succeeds the cursor is on a byte boundary |
| Mpeg1Headers.SliceExtra | codec/mpeg1dec.c:337-346 | the loop keeps the input and never moves the cursor back |
| Mpeg1Headers.SliceExtraEntry | codec/mpeg1dec.c:338-345 | one pass keeps the input and moves the cursor forward |
| Mpeg1Headers.SliceHeaderSpec | codec/mpeg1dec.c:317-357 | the slice parser always returns OK and leaves a valid reader state |
| Mpeg1Headers.SliceHeaderOf | codec/mpeg1dec.c:317-357 | the header is the row of the start code, a scale below 32 and zero DC predictors, read in the parser's order |
| Mpeg1Headers.ReadSliceHeader | codec/mpeg1dec.c:317-357 | the code, header and stream after are those of the specification |
| Mpeg1Headers.SkipSliceExtra | codec/mpeg1dec.c:337-346 | the loop over the reader is the specification's loop |
| Mpeg1Headers.SkipSliceExtraEntry | codec/mpeg1dec.c:338-345 | one pass over the reader is the specification's pass |
| Mpeg1Headers.SliceRow | codec/mpeg1dec.c:330 | slices 1 to 128 give rows 0 to 127. A low byte above 128 gives a negative row, and 0 gives -1 |
| Mpeg1Headers.RowCases | codec/mpeg1dec.c:330 | the `int8_t` row of a start code, case by case |
| Mpeg1Headers.StartCodeAt | codec/mpeg1dec.c:117-118 | `(bits >> 8) == 1` on the 32-bit peek holds exactly when the first 24 of those bits are the prefix 0x000001 |
| Mpeg1Headers.MbCount | codec/mpeg1dec.c:149-150 | 16 times the count is at least d and less than d + 16 |
| Mpeg1Headers.KnownFrameType | codec/mpeg1dec.c:258 | the known picture types are exactly the codes 1 to 4 |
| Mpeg1Headers.RowOf | codec/mpeg1dec.c:330 | the row is the start code's low byte less one, modulo 256 |
| Mpeg1Block.DcDiffRange | codec/mpeg1dec.c:478-489 | every size-bit differential pattern stands for a value whose magnitude needs exactly `size` bits; a clear top bit gives a negative value |
| Mpeg1Block.DcRoundTrip | codec/mpeg1dec.c:478-489 | reading back the bits an encoder writes for a differential gives that differential |
| Mpeg1Block.DcSpec | codec/mpeg1dec.c:468-512 | the DC part moves the stream forward and is OK unless it is undefined behaviour |
| Mpeg1Block.ReadDc | codec/mpeg1dec.c:468-512 | the code, DC value, symbol count and stream after are those of the specification |
| Mpeg1Block.PredictDcSpec | codec/mpeg1dec.c:546-562 | DC prediction changes only the DC coefficient. It is the old DC plus the last DC of its component (blocks 0-3 luminance, 4 Cb, 5 Cr), wrapped to 16 bits, and becomes that component's last DC. Other block types change nothing |
| Mpeg1Block.ClampPixel | codec/mpeg1dec.c:575-583 | a sample in [0, 255] is kept; larger ones give 255 and negative ones 0 |
| Mpeg1Block.ClampMonotone | codec/mpeg1dec.c:575-583 | clamping keeps the order of the samples |
| Mpeg1Block.Pixels | codec/mpeg1dec.c:575-583 | each of the 64 stored samples is its coefficient clamped |
| Mpeg1Block.Store | codec/mpeg1dec.c:575-583 | the 64 bytes at the offset are replaced and every other byte of the plane is kept |
| Mpeg1Block.BlockSpec | codec/mpeg1dec.c:459-586 | a block moves the stream forward and keeps the plane's size |
| Mpeg1Block.CodedSpec | codec/mpeg1dec.c:537-585 | the coefficient part moves the stream forward and keeps the plane's size |
| Mpeg1Block.CodedUndefined | codec/mpeg1dec.c:537 | a block whose coefficients are undefined behaviour is undefined behaviour |
| Mpeg1Block.CodedOf | codec/mpeg1dec.c:537-585 | the samples are stored whatever code the coefficient decoder returns, and that code is the block's. A store outside the plane is undefined behaviour |
| Mpeg1Block.CopyBack | codec/mpeg1dec.c:575-583 | the copy-back loop stores the 64 clamped samples at the offset and nothing else |
| Mpeg1Block.Dequantize | codec/mpeg1dec.c:539-566 | the block is dequantised with the intra or inter matrix, with DC prediction for intra blocks of I pictures |
| Mpeg1Block.ReadCodedBlock | codec/mpeg1dec.c:459-586 | undefined behaviour exactly when the specification says so. Otherwise the code, slice header, plane and stream after are the specification's: an intra block must decode exactly one size symbol, and D pictures stop after the DC value |
| Mpeg1Block.ReadCoded | codec/mpeg1dec.c:537-585 | the same for the coefficient part |
| Mpeg1Block.DcDiff | codec/mpeg1dec.c:478-503 | the differential is negative exactly when the top bit of the size-bit field is clear, and it is never 0 |
| Mpeg1Block.IntraBlock | codec/mpeg1dec.c:24-59 | the DC coefficient is 8 times the level modulo 2^16. Every AC coefficient lies in [-2048, 2047], and a zero level stays 0 |
| Mpeg1Block.NonIntraBlock | codec/mpeg1dec.c:61-104 | every coefficient lies in [-2048, 2047] and is 0 exactly when its level is 0 |
| Mpeg1Block.Reconstruct | codec/mpeg1dec.c:539-566 | only intra blocks of I pictures change the slice's DC predictors. Every AC coefficient of the result lies in [-2048, 2047] |
| Mpeg1Macroblock.SkipSpec | codec/mpeg1dec.c:695-703 | skipping 11-bit codes moves the cursor by exactly 11 bits per code skipped, and skips only when the code is there |
| Mpeg1Macroblock.SkipStep | codec/mpeg1dec.c:695-703 | one turn: a peeked code is discarded and counted, anything else ends the loop where it is |
| Mpeg1Macroblock.SkipCodes | codec/mpeg1dec.c:695-703 | the count and stream after the loop over the reader are those of the specification |
| Mpeg1Macroblock.SkipOne | codec/mpeg1dec.c:695-703 | one turn over the reader: a hit moves the cursor forward and counts one code |
| Mpeg1Macroblock.AddressSpec | codec/mpeg1dec.c:694-709 | the stuffing, escapes and increment move the stream forward past 11 bits per escape, and are OK unless undefined behaviour |
| Mpeg1Macroblock.AddressOf | codec/mpeg1dec.c:694-709 | the increment is the decoded symbol plus 33 per escape, wrapped into the `int8_t` field |
| Mpeg1Macroblock.ReadAddress | codec/mpeg1dec.c:694-709 | the code, increment, escape count and stream after are those of the specification |
| Mpeg1Macroblock.TypeTree | codec/mpeg1dec.c:729-751 | a type tree exists exactly for I, P, B and D pictures |
| Mpeg1Macroblock.TypeBits | codec/mpeg1dec.c:759-763 | the type bits of the five flags are below 32 |
| Mpeg1Macroblock.FlagsRoundTrip | codec/mpeg1dec.c:759-763 | the flags are exactly the five low bits of the type: writing them back gives those bits |
| Mpeg1Macroblock.TypeBitsRoundTrip | codec/mpeg1dec.c:759-763 | each flag is read back from the bits an encoder writes for it |
| Mpeg1Macroblock.HalfSplit | codec/mpeg1dec.c:759-763 | the bit of weight k splits the residue modulo 2k |
| Mpeg1Macroblock.HeadSpec | codec/mpeg1dec.c:694-776 | the header moves the stream forward and is OK, INVALIDDATA or undefined. A skip (increment other than 1) resets the DC predictors to 1024. On OK the picture type is known, both quantiser scales agree, and an I picture never skips |
| Mpeg1Macroblock.QuantSpec | codec/mpeg1dec.c:771-776 | with the quant flag, a 5-bit scale is read into both headers; otherwise the slice's scale is copied and nothing is read |
| Mpeg1Macroblock.ReadHead | codec/mpeg1dec.c:694-776 | the code, headers and stream after are those of the specification |
| Mpeg1Macroblock.ReadQuant | codec/mpeg1dec.c:771-776 | the quantiser step as the specification says |
| Mpeg1Macroblock.ResidualSpec | codec/mpeg1dec.c:609-612 | the residual moves the stream forward and either succeeds or passes a failed read on |
| Mpeg1Macroblock.ForwardSpec | codec/mpeg1dec.c:600-647 | the forward vector moves the stream forward, and on OK the forward code is 1 to 7 (modulo 256), as the assertion on `f` demands |
| Mpeg1Macroblock.ForwardCode | codec/mpeg1dec.c:605-607 | an `r_size` of 0 to 6 comes from a forward code of 1 to 7, modulo 256 |
| Mpeg1Macroblock.ForwardRange | codec/mpeg1dec.c:606-607 | `1 << r_size` stored in an `int8_t` is at least 1 exactly for `r_size` up to 6 |
| Mpeg1Macroblock.BackwardSpec | codec/mpeg1dec.c:649-680 | the backward vector moves the stream forward. It is OK, RC_FALSE or a failure, and OK with a backward code other than 1 only when both codes are 0 |
| Mpeg1Macroblock.BackwardResidual | codec/mpeg1dec.c:653-661 | the residual read ends the step with RC_FALSE unless the read failed, leaving the codes as they are |
| Mpeg1Macroblock.ReadForward | codec/mpeg1dec.c:600-647 | undefined behaviour exactly when the specification says so; otherwise the code, codes and stream after are the specification's |
| Mpeg1Macroblock.ReadResidual | codec/mpeg1dec.c:609-612 | the residual over the reader as the specification says |
| Mpeg1Macroblock.ReadBackward | codec/mpeg1dec.c:649-680 | undefined behaviour exactly when the specification says so; otherwise as the specification |
| Mpeg1Macroblock.SkipBackwardResidual | codec/mpeg1dec.c:653-661 | the residual read over the reader as the specification says |
| Mpeg1Macroblock.CodingSpec | codec/mpeg1dec.c:778-800 | the vectors and pattern change only the vectors and the pattern. RC_FALSE from the backward vector is not a failure. Without the pattern flag, intra macroblocks code all six blocks and others none |
| Mpeg1Macroblock.PatternSpec | codec/mpeg1dec.c:791-792 | the pattern symbol changes only the pattern and moves the stream forward |
| Mpeg1Macroblock.ReadCoding | codec/mpeg1dec.c:778-800 | undefined behaviour exactly when the specification says so; otherwise the code, header and stream after are the specification's |
| Mpeg1Macroblock.WithPlane | codec/mpeg1dec.c:814-820 | replacing the plane of block i gives that plane back for block i |
| Mpeg1Macroblock.BlocksSpec | codec/mpeg1dec.c:803-826 | the block loop moves the stream forward, keeps the plane sizes, and is OK or a failure |
| Mpeg1Macroblock.BlockStep | codec/mpeg1dec.c:803-826 | one coded block, then the rest, with the same guarantees |
| Mpeg1Macroblock.ReadBlocks | codec/mpeg1dec.c:803-826 | undefined behaviour exactly when the specification says so. Otherwise the code, slice header, planes and stream after are the specification's |
| Mpeg1Macroblock.BlocksOf | codec/mpeg1dec.c:803-826 | the remaining blocks as a value for the loop invariant |
| Mpeg1Macroblock.BlockStepOf | codec/mpeg1dec.c:823-825 | a failed coded block ends the macroblock with its plane stored. Otherwise the loop goes on from the next block with the new slice header and plane |
| Mpeg1Macroblock.BlockTurn | codec/mpeg1dec.c:804-825 | one turn of the block loop keeps the loop invariant or ends with the loop's outcome |
| Mpeg1Macroblock.ReadBlockInto | codec/mpeg1dec.c:811-825 | one coded block is read into its tile: block i's plane alone changes, as the block specification says |
| Mpeg1Macroblock.MbSpec | codec/mpeg1dec.c:686-839 | a macroblock moves the stream forward and keeps the plane sizes. On OK the picture type is known, and an I picture's increment is 1 |
| Mpeg1Macroblock.BodySpec | codec/mpeg1dec.c:778-839 | the body keeps the address increment and the plane sizes |
| Mpeg1Macroblock.TailSpec | codec/mpeg1dec.c:802-839 | the blocks and the end bit of D pictures leave the macroblock header as it was |
| Mpeg1Macroblock.ReadMb | codec/mpeg1dec.c:686-839 | undefined behaviour exactly when the specification says so. Otherwise the code, headers, planes and stream after are the specification's |
| Mpeg1Macroblock.ReadBody | codec/mpeg1dec.c:778-839 | the body over the reader as the specification says |
| Mpeg1Macroblock.ReadTail | codec/mpeg1dec.c:802-839 | the blocks and the end bit over the reader as the specification says |
| Mpeg1Macroblock.Escaped | codec/mpeg1dec.c:706-709 | the increment is the symbol plus 33 per escape, modulo 256, and exactly that sum while it stays below 128 |
| Mpeg1Macroblock.WithFlags | codec/mpeg1dec.c:759-763 | only the five flags change, and the intra flag is set exactly when bit 4 of the type is |
| Mpeg1Macroblock.ResetDc | codec/mpeg1dec.c:717-720 | the three DC predictors restart at 1024; the row and the scale are kept |
| Mpeg1Macroblock.Coded | codec/mpeg1dec.c:804 | block i is coded exactly when bit 5 − i of the pattern is set |
| Mpeg1Macroblock.BlockOffset | codec/mpeg1dec.c:814-820 | each luma block lies inside its macroblock's 256-sample tile of the Y plane, and each chroma block fills its macroblock's 64-sample tile |
| Mpeg1Macroblock.MbAddress | codec/mpeg1dec.c:991-992 | a positive increment moves the address forward |
| Mpeg1Picture.SliceHeaderAdvances | codec/mpeg1dec.c:317-357 | a slice header moves the stream forward, by at least its 32-bit start code when that is buffered |
| Mpeg1Picture.NextStartCodeAdvances | codec/mpeg1dec.c:109-128 | the start-code search moves the stream forward |
| Mpeg1Picture.AlignAdvances | generic/bitstream.c:238-246 | the byte alignment moves the stream forward |
| Mpeg1Picture.AdvanceLeft | generic/bitstream.c:24-148 | moving forward shrinks the bits left by exactly the distance moved |
| Mpeg1Picture.MbLoop | codec/mpeg1dec.c:978-994 | the macroblock loop moves the stream forward and keeps the plane sizes; a slice abandoned by a macroblock was abandoned on a failure code |
| Mpeg1Picture.ReadMacroblocks | codec/mpeg1dec.c:978-994 | undefined behaviour exactly when the specification says so. Otherwise the exit, planes and stream after are the specification's |
| Mpeg1Picture.MbLoopOf | codec/mpeg1dec.c:978-994 | the macroblocks left, as a value for the loop invariant |
| Mpeg1Picture.MbTurn | codec/mpeg1dec.c:983-994 | one pass of the macroblock loop either ends the slice with the loop's outcome, or moves forward and keeps the loop invariant |
| Mpeg1Picture.PeekMore | codec/mpeg1dec.c:991-994 | after a macroblock, the 23-bit peek ends the slice when it gives 0; otherwise the loop goes on from a position further on |
| Mpeg1Picture.MbLoopFails | codec/mpeg1dec.c:988-989 | a failing macroblock abandons the slice with its code (`goto success`), keeping what it stored |
| Mpeg1Picture.MbLoopGoes | codec/mpeg1dec.c:988-994 | after a good macroblock, a zero 23-bit peek ends the slice. Otherwise the loop goes on at the macroblock's address plus its increment. A macroblock that read nothing is undefined, since the C would spin |
| Mpeg1Picture.SlicePass | codec/mpeg1dec.c:963-1003 | one slice moves the stream forward and keeps the plane sizes. Another slice follows only after OK, with a buffered start code. A pass that starts on a buffered start code moves the cursor |
| Mpeg1Picture.SlicesSpec | codec/mpeg1dec.c:963-1003 | the slice loop moves the stream forward, keeps the plane sizes and the picture header, and returns OK or a failure |
| Mpeg1Picture.SlicesIsSpec | codec/mpeg1dec.c:963-1003 | the folded loop invariant means exactly the slice loop's specification |
| Mpeg1Picture.SlicesStep | codec/mpeg1dec.c:963-1003 | every pass after the first reads at least its start code. A pass that goes on keeps what the loop decodes, and one that stops is what the loop decodes |
| Mpeg1Picture.DecodeSlices | codec/mpeg1dec.c:963-1003 | undefined behaviour exactly when the specification says so. Otherwise the code, planes and stream after are the specification's |
| Mpeg1Picture.SlicesOf | codec/mpeg1dec.c:963-1003 | what the slice loop decodes, as a value for the invariant |
| Mpeg1Picture.DecodeSlice | codec/mpeg1dec.c:964-1003 | one slice over the reader is the specification's pass; another slice follows only after OK |
| Mpeg1Picture.DecodePictureSpec | codec/mpeg1dec.c:949-1014 | a picture moves the stream forward and returns OK or a failure. Its planes are w*h luminance and w*h/4 per chrominance plane |
| Mpeg1Picture.PictureSpec | codec/mpeg1dec.c:958-1003 | the header then the slices: the stream moves forward and the plane sizes are kept |
| Mpeg1Picture.PictureHeaderAdvances | codec/mpeg1dec.c:242-312 | a picture header moves the stream forward |
| Mpeg1Picture.HeaderTailAdvances | codec/mpeg1dec.c:281-305 | the extra information and the alignment move the stream forward |
| Mpeg1Picture.ExtraAlignAdvances | codec/mpeg1dec.c:288-305 | the extra-information loop and then the alignment move the stream forward |
| Mpeg1Picture.FieldsAdvance | codec/mpeg1dec.c:246-275 | the fixed fields of a picture header move the stream forward |
| Mpeg1Picture.TwoReadsAdvance | generic/bitstream.c:24-76 | two reads in a row move the stream forward |
| Mpeg1Picture.ExtraAdvances | codec/mpeg1dec.c:288-299 | the extra-information loop moves the stream forward |
| Mpeg1Picture.DecodePicture | codec/mpeg1dec.c:949-1014 | a fresh picture of the sequence's size is decoded. Undefined behaviour exactly when the specification says so. Otherwise the code and stream after are the specification's, and the picture is handed back exactly on OK with the decoded header and planes |
| Mpeg1Picture.DecodesToSpec | codec/mpeg1dec.c:949-1014 | the folded statement about a decoded picture means exactly the picture specification |
| Mpeg1Picture.DecodeInto | codec/mpeg1dec.c:958-1003 | the header and the slices read into the picture are those of the specification |
| Mpeg1Picture.SliceBase | codec/mpeg1dec.c:970-979 | for a non-negative row, the macroblock after the base is at column 0 of that row |
| Mpeg1Frame.PlaneSizes | codec/mpeg1dec.c:893-899 | the Y plane holds width * height samples, and U and V a quarter of that each |
| Mpeg1Frame.Picture.Alloc | codec/mpeg1dec.c:886-912 | a new picture has a blank header and three fresh, zeroed planes of those sizes |
| Mpeg1Frame.AddSamples | codec/mpeg1dec.c:1107-1109 | the first n samples get the reference's added modulo 256 (the `int8_t` wrap-around), and the rest are kept |
| Mpeg1Frame.PredictionInverts | codec/mpeg1dec.c:1107-1109 | adding the reference to the difference from it gives the picture back |
| Mpeg1Frame.PredictSpec | codec/mpeg1dec.c:1093-1127 | the result is OK, INVALIDARG or undefined, and anything but OK leaves the planes unchanged. Only P and B pictures are predicted. Reading or writing past a plane is undefined |
| Mpeg1Frame.AddPlane | codec/mpeg1dec.c:1105-1109 | the plane loop adds the first n reference samples, modulo 256, and keeps the rest |
| Mpeg1Frame.PerformPrediction | codec/mpeg1dec.c:1093-1127 | the code and the new planes of the picture are those of the specification |
| Mpeg1Decoder.SeqHeaderSizes | codec/mpeg1dec.c:130-202 | a sequence header read into a header whose sizes are consistent keeps them consistent, whatever the stream holds |
| Mpeg1Decoder.StartSpec | codec/mpeg1dec.c:1133-1151 | after the header part, a sequence header is always present (kept even when its read failed), one already there is left as it is, and a result that is not a failure is OK with a group header present |
| Mpeg1Decoder.GroupStart | codec/mpeg1dec.c:1143-1151 | the group-header part always succeeds, keeps the sequence header and leaves a group header present |
| Mpeg1Decoder.ReadGroupOn | codec/mpeg1dec.c:1143-1151 | the group header is read from the reader only when there is none, as the specification says |
| Mpeg1Decoder.StartOnce | codec/mpeg1dec.c:1133-1151 | headers are read once: after a header part that did not fail, the next one reads nothing; with a sequence header, only the group part runs; with both, nothing is read |
| Mpeg1Decoder.PredictStepCases | codec/mpeg1dec.c:1175-1182 | pictures other than P and B pass unchanged; a P or B picture is never rejected for its type and is undefined without a reference picture; otherwise it gets the prediction's planes |
| Mpeg1Decoder.TargetOf | codec/mpeg1dec.c:1211-1226 | the sample has a target exactly when its first three plane pointers are set, and the target is those three regions |
| Mpeg1Decoder.Copy8 | codec/mpeg1dec.c:1216-1219 | an 8-byte copy from a picture plane is defined exactly when the destination has room for 8 bytes and the source holds 8 samples from the offset; it allocates nothing |
| Mpeg1Decoder.Copy8Contents | codec/mpeg1dec.c:1216-1219 | the copy puts the 8 plane samples at the destination and changes no other byte of the allocation |
| Mpeg1Decoder.DetileSpec | codec/mpeg1dec.c:1196-1236 | de-tiling a picture into the sample allocates nothing and removes no allocation |
| Mpeg1Decoder.TilePosition | codec/mpeg1dec.c:1203-1204 | when the width is a whole number of macroblocks, macroblock i lands at column i % mb_width and row i / mb_width |
| Mpeg1Decoder.FrameSpec | codec/mpeg1dec.c:1158-1236 | decoding into a sample allocates no sample memory and removes none |
| Mpeg1Decoder.Finish | codec/mpeg1dec.c:1170-1236 | the frame keeps the decoded picture's type and stream position and allocates no sample memory |
| Mpeg1Decoder.RejectedSamples | codec/mpeg1dec.c:1158-1168 | a sample without buffers, of another size than the sequence, or of another format than YUV420P is INVALIDARG, with the stream and the sample untouched |
| Mpeg1Decoder.OnlyPAndBArePredicted | codec/mpeg1dec.c:1175-1182 | a valid, decoded picture that is not P or B reaches the sample with the planes it was decoded with; a P or B picture without a reference picture is undefined |
| Mpeg1Decoder.Rotate | codec/mpeg1dec.c:1238-1251 | after an I or P picture it is the last reference and the old last becomes the one before; B and D pictures leave the references as they were |
| Mpeg1Decoder.ReplayKeepsLastTwo | codec/mpeg1dec.c:914-928 | starting without references, after any sequence of pictures the last reference is the last I or P picture and the one before is the I or P picture before it |
| Mpeg1Decoder.SampleSpec | codec/mpeg1dec.c:1129-1254 | a picture is decoded exactly when the header part did not fail and the sample is not null. The code is then the frame's, and otherwise the header part's |
| Mpeg1Decoder.NullSampleInitialises | codec/mpeg1dec.c:1153-1156 | a null sample only reads the headers: nothing is decoded, and the code is that of the header part |
| Mpeg1Decoder.Decoder.Create | codec/mpeg1dec.c:1019-1078 | a new context on the reader and the tables has no reference pictures, and holds the headers read by the initialising null-sample decode |
| Mpeg1Decoder.Decoder.ReadHeaders | codec/mpeg1dec.c:1133-1151 | the header part reads what the specification says and leaves a sequence header present |
| Mpeg1Decoder.Decoder.ReadSeqHeader | codec/mpeg1dec.c:1133-1141 | a missing sequence header is read into a blank header, which is kept whatever the result |
| Mpeg1Decoder.Decoder.ReadGroup | codec/mpeg1dec.c:1143-1151 | a missing group header is read; the sequence header is kept |
| Mpeg1Decoder.Decoder.SetLastRefpic | codec/mpeg1dec.c:914-928 | the picture becomes the last reference and the old last the one before; the headers are kept |
| Mpeg1Decoder.Decoder.DecodeSample | codec/mpeg1dec.c:1129-1254 | the code, the headers, the stream position, the sample's planes and the references are those of the specification. A decoded I or P picture becomes the last reference. A failure keeps the references |
| Mpeg1Decoder.Decoder.DecodeFrame | codec/mpeg1dec.c:1158-1253 | validation, the picture, prediction, de-tiling and the reference rotation are as the specification says, with the headers unchanged |
| Mpeg1Decoder.Decoder.Keep | codec/mpeg1dec.c:1238-1251 | an I or P picture becomes the last reference, a B or D picture is dropped, and the stream, the sample and the picture are unchanged |
| Mpeg1Decoder.Produce | codec/mpeg1dec.c:1170-1236 | the picture decoded from the stream, predicted and de-tiled into the sample, is what the specification says, including its type |
| Mpeg1Decoder.Complete | codec/mpeg1dec.c:1175-1236 | prediction and de-tiling of a decoded picture give the code, planes and sample memory of the specification, without reading the stream |
| Mpeg1Decoder.Detile | codec/mpeg1dec.c:1196-1236 | the sample's memory after the loop is that of the de-tiling specification, and the picture is unchanged |
| Mpeg1Decoder.CopyTiles | codec/mpeg1dec.c:1202-1236 | the macroblock loop leaves the target as the specification's copy does, and the picture unchanged |
| Mpeg1Decoder.TileStep | codec/mpeg1dec.c:1202-1236 | one macroblock of the loop keeps the rest of the copy on course to the same final memory |
| Mpeg1Decoder.CopyLuma | codec/mpeg1dec.c:1213-1220 | the eight luma lines of a macroblock keep the copy on course to the same final memory |
| Mpeg1Decoder.CopyChroma | codec/mpeg1dec.c:1228-1235 | the eight chroma lines of a macroblock keep the copy on course to the same final memory |
| Mpeg1Decoder.LumaTurn | codec/mpeg1dec.c:1214-1220 | one luma line keeps the copy on course; an undefined copy means the whole copy is undefined |
| Mpeg1Decoder.LumaStep | codec/mpeg1dec.c:1214-1220 | the rest of the copy after one luma line is the rest of the copy before it |
| Mpeg1Decoder.ChromaTurn | codec/mpeg1dec.c:1229-1235 | one chroma line keeps the copy on course; an undefined copy means the whole copy is undefined |
| Mpeg1Decoder.ChromaStep | codec/mpeg1dec.c:1229-1235 | the rest of the copy after one chroma line is the rest of the copy before it |
| Mpeg1Decoder.CopyLumaLine | codec/mpeg1dec.c:1216-1219 | the four copies of one luma line change the target as the specification's line does, and the picture not at all |
| Mpeg1Decoder.CopyChromaLine | codec/mpeg1dec.c:1231-1232 | the U and V copies of one line change the target as the specification's line does, and the picture not at all |
| Mpeg1Decoder.CopyLine | codec/mpeg1dec.c:1216 | one 8-byte copy into the target succeeds exactly when the specification's does, and changes the target as it says; the plane is unchanged |
| Mpeg1Decoder.Validate | codec/mpeg1dec.c:1159-1168 | OK or INVALIDARG. OK exactly for a sample that has buffers, the sequence's width and height, and the YUV420P format |
| Mpeg1Decoder.PredictStep | codec/mpeg1dec.c:1175-1182 | never INVALIDARG, because only P and B pictures reach the prediction. A failed step leaves the planes as decoded |
| Mpeg1Decoder.LumaDst | codec/mpeg1dec.c:1211-1219 | line j of quarter k stays in the sample's allocation, on line j + 8·(k / 2) of the macroblock and at column 8·(k mod 2) |
| Mpeg1Decoder.TileX | codec/mpeg1dec.c:1203 | the column lies inside the picture's width |
| Mpeg1Decoder.TileY | codec/mpeg1dec.c:1204 | the row is a multiple of 16. Row / 16 · width + column is 16·i, the macroblock's position in raster order |
| Mpeg1Decoder.ChromaOrigin | codec/mpeg1dec.c:1225-1226 | stays in the plane's allocation. For a non-negative stride it lies on half the luma row and at half the luma column |
| Mpeg1Decoder.Macroblocks | codec/mpeg1dec.c:1195-1202 | with counts from `(d + 15) / 16`, the macroblocks cover every pixel: 256 times their number is at least width·height |
| Mpeg1Decoder.IsReference | codec/mpeg1dec.c:1238-1251 | of the four known picture types, exactly I and P are kept; B and D are released |

## Left out

- Inverse DCT (codec/dct.c): it uses floating point, so `mmf_idct` is an uninterpreted function on blocks of 64 `int16` values. Only the clamp to [0, 255] after it is modelled.
- The constant tables are not part of this model. This covers the zig-zag order, the run/level pairs, the escape code, the prefix-code tables, the aspect-ratio and frame-rate tables and the default matrices. The model takes them as parameters (`Mpeg1Tables.Env`), and `EnvOk` states what the decoder relies on about them. The decoder's ten trees are given as values; they are not rebuilt from the tables inside the decoder.
- File I/O. The file behind a bit reader is a value holding the bytes not yet read and whether reads fail. `fread` returns the requested prefix, or nothing on failure; short reads are not modelled. `bitstream_alloc_load_file`, `mmf_sample_read_plane` and `mmf_sample_write_plane` are not modelled.
- Motion vectors. Only the bits a motion vector consumes and the early FALSE returns are modelled. The residual arithmetic and the per-macroblock motion arrays of a picture are not.
- Allocation failure is modelled only in two places. In `mmf_allocate_video_frame` the outcome of the allocation is a parameter. In `mmf_packet_ensure_size`, `realloc` fails exactly for a negative size. Everywhere else allocation succeeds, including the header allocations of `mpg1_decode_sample` and the pictures; a negative size is undefined.
- Freeing. `mpg1_picture_free`, `mpg1_decoder_release_refpics` and `mpg1_decoder_free` only release memory, and are not modelled. A picture that is dropped is simply no longer referenced.
- Mpeg1Decoder.Decoder.SetLastRefpic: the code tests the value of `mpg1_picture_free`, which has no return statement (codec/mpeg1dec.c:881-884, 920-921). Using that value is undefined behaviour in C. The model takes it as OK, so `SetLastRefpic` always returns OK.
- The registry's list is a sequence. Its undersized reallocation, which allocates room for the count before the increment, is a memory-safety defect that the model does not reproduce, so `MmfCodec.Registry.Register` always succeeds. `mmf_codec_state_free` and the codec initialise and finalise calls are not modelled.
- Codec callbacks (`open`, `close`, `encode`) are foreign calls. Their result codes are parameters.
- Concurrency, logging (mmflog.c), the entry point (main.c) and the packet helpers (mmfpacket.c) are not modelled.
- Time stamps and the sample fields that decoding does not use are not modelled.
- Mpeg1Decoder.Decoder.DecodeSample: it takes the sample's fields as a value, and the bit reader's buffer is assumed to be separate from the sample's planes.
- Mpeg1Decoder.DetileSpec: only states that no memory is allocated. The bytes each copy writes are stated one `memcpy` at a time (`Copy8Contents`), and macroblock placement by `TilePosition`. There is no single statement about every pixel of the frame.
- Mpeg1Picture.MbLoop: a macroblock that returns OK without consuming a bit ends the loop as undefined. The C loop could spin there.
- Vlc.DecodeBitstream: when a 32-bit peek reports END_OF_STREAM, decoding ends, so a final tail of fewer than 32 bits is not decoded, as in the code. A symbol limit of -1 with a childless root loops forever in the C and is undefined here.
- Vlc: shifts by more than 32 bits and a missing branch are undefined. A tree is a value, so two parents never share a subtree. The DEBUG-only checks are not modelled.
- Indeterminate values, such as uninitialised locals and freshly allocated headers, are modelled as zero.
- Mpeg1Coeffs.DecodeCoeffs, Mpeg1Block.ReadCodedBlock: on an undefined outcome nothing is stated about the partial writes to the block.
- Mpeg1Quant.DequantizeIntra, Mpeg1Quant.DequantizeNonIntra: the scale is taken as an `int8` value. The callers pass the 5-bit quantiser scale, whereas the C parameter is an `int32_t`.
- Bitstream.ReadSpec, Bitstream.PeekSpec: for a count above 32 they give the whole n-bit value. The C keeps only the low 32 bits in its `uint32_t` result (generic/bitstream.c:56-72), and its DEBUG build rejects such a count (generic/bitstream.c:26-33). Every method and every caller in the model reads at most 32 bits, so no modelled path reaches the difference.
- Mpeg1Block.DcDiff: the tables `__bit_test` and `__bit_mask_r` (codec/mpeg1dec.c:483-484, 502-503) are not part of this model. Unlike the other tables they are not parameters: `__bit_test[32 - size]` is taken as the single bit `1 << (size - 1)`, and `__bit_mask_r[size]` as the mask with bits size to 31 set, as their names say.
- Integer overflow in `int32_t` arithmetic is not modelled, except in the two places listed next. The narrower `int8_t` and `int16_t` stores are modelled as wrapping.
- Mpeg1Coeffs.SignedByte: for level bytes 129 to 255, `(l << 24) >> 24` on an `int32_t` shifts a one into the sign bit (codec/mpeg1dec.c:419). That is undefined behaviour in C99 and C11. The model gives it GCC's documented meaning, which is sign extension of the byte.
- Vlc.FindLeaf: `vlc_find_leaf` computes `path >> (path_bit_count - 1)` before its checks (codec/vlc_coding.c:153). With a count of 0 that is a shift by -1, which is undefined behaviour in C. The value is never used on that path, and the model does not treat the shift as undefined: a count of 0 gives OK at a childless node and FAIL otherwise.
