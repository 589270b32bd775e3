// The codec layer of mmfcodec.c: the registry of codecs, codec states
// and the guards around a codec's callbacks, and growing a packet.  The
// callbacks are code this model cannot see: the code each returns is a
// parameter of the operation that calls it.

module MmfCodec {
  import opened MmfUtil

  /** `MMFCodec`: its id, the size of its private data, and which callbacks it has. */
  class Codec {
    const id: int
    const privateDataSize: int
    const hasOpen: bool
    const hasClose: bool
    const hasEncode: bool

    constructor (id: int, privateDataSize: int, hasOpen: bool, hasClose: bool, hasEncode: bool)
      ensures this.id == id && this.privateDataSize == privateDataSize
      ensures this.hasOpen == hasOpen && this.hasClose == hasClose && this.hasEncode == hasEncode
    {
      this.id, this.privateDataSize := id, privateDataSize;
      this.hasOpen, this.hasClose, this.hasEncode := hasOpen, hasClose, hasEncode;
    }
  }

  // ---------------------------------------------------------------------
  // The registry: mmf_codec_list and mmf_codec_list_count
  // ---------------------------------------------------------------------

  /** The position of the first occurrence of `c` in `list`, if any. */
  function FirstIndex(list: seq<Codec>, c: Codec): (r: Option<nat>)
    ensures r.None? <==> c !in list
    ensures r.Some? ==> r.value < |list| && list[r.value] == c && c !in list[..r.value]
  {
    if |list| == 0 then None
    else if list[0] == c then Some(0)
    else
      var r := FirstIndex(list[1..], c);
      assert list[1..][..if r.Some? then r.value else 0] == list[1..if r.Some? then r.value + 1 else 1];
      if r.None? then None else Some(r.value + 1)
  }

  /** `list` without its entry at k, the later entries moved one place down. */
  function Removed(list: seq<Codec>, k: nat): (r: seq<Codec>)
    requires k < |list|
    ensures |r| == |list| - 1
    ensures forall i | 0 <= i < |r| :: r[i] == if i < k then list[i] else list[i + 1]
  {
    list[..k] + list[k + 1..]
  }

  /** The first codec in `list` with the id, if any. */
  function FindSpec(list: seq<Codec>, id: int): (r: Option<Codec>)
    ensures r.None? <==> forall i | 0 <= i < |list| :: list[i].id != id
    ensures r.Some? ==> r.value in list && r.value.id == id
    ensures r.Some? ==> exists k | 0 <= k < |list| :: list[k] == r.value && forall j | 0 <= j < k :: list[j].id != id
  {
    if |list| == 0 then None
    else if list[0].id == id then Some(list[0])
    else FindSpec(list[1..], id)
  }

  /** Registering a codec makes it findable unless an earlier codec has its id. */
  lemma {:induction false} FindAfterRegister(list: seq<Codec>, c: Codec, id: int)
    ensures FindSpec(list + [c], id) == if FindSpec(list, id).Some? then FindSpec(list, id)
                                        else if c.id == id then Some(c) else None
  {
    if |list| > 0 {
      assert (list + [c])[1..] == list[1..] + [c];
      FindAfterRegister(list[1..], c, id);
    } else {
      assert (list + [c])[1..] == [];
    }
  }

  /** Unregistering a codec that was just registered, and not before, gives the list back. */
  lemma UnregisterAfterRegister(list: seq<Codec>, c: Codec)
    requires c !in list
    ensures FirstIndex(list + [c], c) == Some(|list|)
    ensures Removed(list + [c], |list|) == list
  {
    var r := FirstIndex(list + [c], c);
    assert (list + [c])[|list|] == c;
    assert (list + [c])[..|list|] == list;
  }

  class Registry {
    /** The registered codecs, in registration order; the count is its length. */
    var codecs: seq<Codec>

    constructor ()
      ensures codecs == []
    {
      codecs := [];
    }

    /** `mmf_codec_register`: the codec is stored after the others, even when already registered. */
    method Register(c: Codec) returns (rc: Rc)
      modifies this
      ensures rc == Ok && codecs == old(codecs) + [c]
    {
      codecs := codecs + [c];
      rc := Ok;
    }

    /**
     * `mmf_codec_unregister`: an absent codec is an invalid argument;
     * otherwise its first occurrence is removed, by moving every later
     * entry one place down and dropping the last slot.
     */
    method Unregister(c: Codec) returns (rc: Rc)
      modifies this
      ensures rc == Ok || rc == InvalidArg
      ensures rc == InvalidArg <==> c !in old(codecs)
      ensures rc == InvalidArg ==> codecs == old(codecs)
      ensures rc == Ok ==> codecs == Removed(old(codecs), FirstIndex(old(codecs), c).value)
    {
      var cid := -1;
      var i := 0;
      while i < |codecs|
        invariant 0 <= i <= |codecs|
        invariant c !in codecs[..i]
      {
        if c == codecs[i] {
          cid := i;
          break;
        }
        i := i + 1;
      }
      if cid == -1 {
        assert codecs[..|codecs|] == codecs;
        return InvalidArg;
      }
      assert FirstIndex(codecs, c) == Some(cid);
      var all := codecs;
      var list := all;
      i := cid;
      while i < |list| - 1
        invariant cid <= i <= |list| - 1 && |list| == |all|
        invariant forall j | 0 <= j < cid :: list[j] == all[j]
        invariant forall j | cid <= j < i :: list[j] == all[j + 1]
        invariant forall j | i <= j < |list| :: list[j] == all[j]
      {
        list := list[i := list[i + 1]];
        i := i + 1;
      }
      ghost var removed := Removed(all, cid);
      assert forall j | 0 <= j < |removed| :: removed[j] == list[j];
      codecs := list[..|list| - 1];
      rc := Ok;
    }

    /** `mmf_codec_find`: the first registered codec with the id, else an invalid argument. */
    method Find(id: int) returns (rc: Rc, found: Codec?)
      ensures var r := FindSpec(codecs, id);
        && (rc == Ok <==> r.Some?)
        && (rc == Ok ==> found == r.value)
        && (rc != Ok ==> rc == InvalidArg)
    {
      var i := 0;
      while i < |codecs|
        invariant 0 <= i <= |codecs|
        invariant FindSpec(codecs, id) == FindSpec(codecs[i..], id)
      {
        if codecs[i].id == id {
          return Ok, codecs[i];
        }
        assert codecs[i..][1..] == codecs[i + 1..];
        i := i + 1;
      }
      return InvalidArg, null;
    }
  }

  // ---------------------------------------------------------------------
  // Codec states
  // ---------------------------------------------------------------------

  /** `MMFCodecState`: the codec attached to it and its private data. */
  class CodecState {
    var codec: Codec?
    var privData: array?<byte>

    /** A zeroed state: nothing attached, no private data. */
    constructor ()
      ensures codec == null && privData == null
    {
      codec, privData := null, null;
    }
  }

  /**
   * `mmf_codec_state_alloc(codec, &state)`: a null codec is an invalid
   * argument; a missing state is allocated zeroed; the state then gets
   * fresh zeroed private data of the codec's size (any earlier private
   * data is dropped).  `mmf_allocz` zeroes what `mmf_alloc` returned
   * without checking it, so a size no allocation can have is undefined
   * behaviour.
   */
  method StateAlloc(codec: Codec?, state: CodecState?) returns (rc: Rc, cs: CodecState?)
    modifies state
    ensures cs == (if state == null && codec != null then cs else state)
    ensures codec == null <==> rc == InvalidArg
    ensures codec == null ==> cs == null || unchanged(cs)
    ensures codec != null ==> rc == (if codec.privateDataSize < 0 then Undefined else Ok)
    ensures rc == Ok ==>
      && cs != null
      && (state == null ==> fresh(cs) && cs.codec == null)
      && (state != null ==> cs.codec == old(state.codec))
      && fresh(cs.privData) && cs.privData[..] == AllocZ(codec.privateDataSize)
  {
    cs := state;
    if codec == null {
      return InvalidArg, cs;
    }
    if cs == null {
      cs := new CodecState();
    }
    if codec.privateDataSize < 0 {
      return Undefined, cs;
    }
    cs.privData := new byte[codec.privateDataSize](_ => 0);
    rc := Ok;
  }

  /**
   * `mmf_codec_open(codec, cs)`: a null codec or a state that already has
   * one is an invalid argument, a codec without `open` fails; otherwise
   * the codec is attached and `open`'s code, `openRc`, returned.  A null
   * state is dereferenced.
   */
  method Open(codec: Codec?, cs: CodecState?, openRc: Rc) returns (rc: Rc)
    modifies cs
    ensures codec == null ==> rc == InvalidArg
    ensures codec != null && cs == null ==> rc == Undefined
    ensures codec != null && cs != null ==>
      && (old(cs.codec) != null ==> rc == InvalidArg)
      && (old(cs.codec) == null && !codec.hasOpen ==> rc == Fail)
      && (old(cs.codec) == null && codec.hasOpen ==> rc == openRc && cs.codec == codec)
      && (rc != openRc || !codec.hasOpen || old(cs.codec) != null ==> cs.codec == old(cs.codec))
    ensures cs != null && (codec == null || old(cs.codec) != null || !codec.hasOpen) ==> unchanged(cs)
  {
    if codec == null {
      return InvalidArg;
    }
    if cs == null {
      return Undefined;
    }
    if cs.codec != null {
      return InvalidArg;
    }
    if !codec.hasOpen {
      return Fail;
    }
    cs.codec := codec;
    rc := openRc;
  }

  /**
   * `mmf_codec_close(cs)`: a null state or one without a codec is an
   * invalid argument; otherwise the codec's `close` runs, its code
   * `closeRc` is returned, and the codec is detached whatever that code.
   */
  method Close(cs: CodecState?, closeRc: Rc) returns (rc: Rc)
    modifies cs
    ensures cs == null || old(cs.codec) == null ==> rc == InvalidArg && (cs != null ==> cs.codec == null)
    ensures cs != null && old(cs.codec) != null ==>
      if old(cs.codec.hasClose) then rc == closeRc && cs.codec == null else rc == Undefined
    ensures cs != null && old(cs.codec) == null ==> unchanged(cs)
  {
    if cs == null || cs.codec == null {
      return InvalidArg;
    }
    if !cs.codec.hasClose {
      return Undefined;
    }
    rc := closeRc;
    cs.codec := null;
  }

  /**
   * `mmf_codec_encode(cs, sample, pkt, status)`: the same guards as
   * `close`, then the codec's `encode`, whose code is `encodeRc`.
   */
  method Encode(cs: CodecState?, encodeRc: Rc) returns (rc: Rc)
    ensures cs == null || cs.codec == null ==> rc == InvalidArg
    ensures cs != null && cs.codec != null ==> rc == if cs.codec.hasEncode then encodeRc else Undefined
  {
    if cs == null || cs.codec == null {
      return InvalidArg;
    }
    if !cs.codec.hasEncode {
      return Undefined;
    }
    rc := encodeRc;
  }

  // ---------------------------------------------------------------------
  // mmf_packet_ensure_size
  // ---------------------------------------------------------------------

  /** The fields of `MMFPacket` the codec layer touches. */
  class Packet {
    var size: int
    var capacity: int
    var data: array?<byte>

    constructor ()
      ensures size == 0 && capacity == 0 && data == null
    {
      size, capacity, data := 0, 0, null;
    }
  }

  /** The capacity `mmf_packet_ensure_size` leaves: grown to `size` when smaller, never shrunk. */
  function EnsuredCapacity(capacity: int, size: int): (r: int)
    ensures r >= capacity && r >= size
    ensures r == capacity || r == size
  {
    if capacity < size then size else capacity
  }

  /** What `realloc` keeps of a block: the bytes up to the smaller of the two lengths. */
  function Kept(old_: seq<byte>, n: nat): (r: seq<byte>)
    ensures |r| == (if |old_| < n then |old_| else n)
    ensures r <= old_
  {
    if |old_| < n then old_ else old_[..n]
  }

  /**
   * `mmf_packet_ensure_size(cs, pkt, size)`: a null packet is an invalid
   * pointer; a capacity below `size` is grown to `size` by reallocating
   * the data, which keeps its first bytes; `realloc` fails exactly for a
   * negative size.
   */
  method EnsureSize(pkt: Packet?, size: int) returns (rc: Rc)
    modifies pkt
    ensures pkt == null ==> rc == InvalidPointer
    ensures pkt != null ==> pkt.size == old(pkt.size)
    ensures pkt != null && old(pkt.capacity) >= size ==> rc == Ok && unchanged(pkt)
    ensures pkt != null && old(pkt.capacity) < size && size < 0 ==>
      rc == OutOfMem && pkt.data == null && pkt.capacity == old(pkt.capacity)
    ensures pkt != null && old(pkt.capacity) < size && size >= 0 ==>
      && rc == Ok && pkt.capacity == EnsuredCapacity(old(pkt.capacity), size)
      && pkt.data != null && fresh(pkt.data) && pkt.data.Length == size
      && (old(pkt.data) != null ==> Kept(old(pkt.data[..]), size) <= pkt.data[..])
  {
    if pkt == null {
      return InvalidPointer;
    }
    if pkt.capacity < size {
      if size < 0 {
        pkt.data := null;
        return OutOfMem;
      }
      var d := new byte[size];
      if pkt.data != null {
        var keep := if pkt.data.Length < size then pkt.data.Length else size;
        forall i | 0 <= i < keep {
          d[i] := pkt.data[i];
        }
      }
      pkt.data := d;
      pkt.capacity := size;
    }
    rc := Ok;
  }
}
