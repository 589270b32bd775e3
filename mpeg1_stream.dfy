// What every decoding step of codec/mpeg1dec.c has in common: it reads the
// stream forward, and it takes prefix-code symbols with
// `vlc_decode_bitstream(bs, tree, 1, &x, &n)`, ignoring the code returned.

module Mpeg1Stream {
  import opened MmfUtil
  import opened Bitstream
  import opened Vlc
  import opened Mpeg1Headers

  /** The stream only moves forward: the same input, the cursor not moved back. */
  predicate Advances(s: ReaderState, t: ReaderState)
  {
    Good(t) && Pending(t) == Pending(s) && s.readBitIndex <= t.readBitIndex
  }

  lemma AdvancesTrans(s: ReaderState, t: ReaderState, u: ReaderState)
    requires Advances(s, t) && Advances(t, u)
    ensures Advances(s, u)
  {
  }

  /** Reads, peeks and discards move the stream forward. */
  lemma StepAdvances(s: ReaderState, n: int)
    requires Good(s) && n <= 32
    ensures Advances(s, ReadSpec(s, n).next)
    ensures Advances(s, PeekSpec(s, n).next)
    ensures Advances(s, DiscardSpec(s, n).next)
  {
    Keeps(s, n);
  }

  // ---------------------------------------------------------------------
  // One symbol of a prefix code into a variable
  // ---------------------------------------------------------------------

  /** A symbol taken from the stream: the code, the variable after, how many symbols were decoded. */
  datatype Symbol = Symbol(rc: Rc, code: byte, count: nat, next: ReaderState)

  /**
   * `vlc_decode_bitstream(bs, tree, 1, &x, &n)` as the decoder uses it: the
   * code it returns is ignored, so x keeps its value when nothing is
   * decoded, and only undefined behaviour inside the decoder stops the
   * caller.
   */
  function DecodeSymbolSpec(s: ReaderState, tree: Tree, prev: byte): (r: Symbol)
    requires Good(s)
    ensures Advances(s, r.next)
    ensures r.rc == Ok || r.rc == Undefined
    ensures r.count <= 1 && (r.count == 0 ==> r.code == prev)
  {
    var d := DecodeSpec(s, tree, 1);
    Symbol(if d.rc == Undefined then Undefined else Ok,
           if |d.symbols| == 1 then d.symbols[0] else prev,
           |d.symbols|, d.next)
  }

  method DecodeSymbol(bs: BitReader, tree: Tree, prev: byte) returns (rc: Rc, code: byte, count: nat)
    requires bs.Valid()
    modifies bs, bs.buffer
    ensures bs.Valid()
    ensures Symbol(rc, code, count, bs.St()) == DecodeSymbolSpec(old(bs.St()), tree, prev)
  {
    var r, syms := DecodeBitstream(bs, tree, 1);
    rc := if r == Undefined then Undefined else Ok;
    code := if |syms| == 1 then syms[0] else prev;
    count := |syms|;
  }

  /**
   * A peek of n bits that gives a nonzero value has succeeded, so the bits
   * are buffered and discarding or reading them moves the cursor by n.
   */
  lemma PeekedProgress(s: ReaderState, n: nat)
    requires Good(s) && 1 <= n <= 32 && PeekSpec(s, n).value != 0
    ensures var p := PeekSpec(s, n);
      && p.rc == Ok && Advances(s, p.next)
      && Advances(s, DiscardSpec(p.next, n).next)
      && DiscardSpec(p.next, n).next.readBitIndex == s.readBitIndex + n
      && ReadSpec(p.next, n) == Read(p.value, Ok, p.next.(readBitIndex := s.readBitIndex + n))
      && Left(DiscardSpec(p.next, n).next) < Left(s)
  {
    PeekIsRead(s, n);
    PeekThenRead(s, n);
    Keeps(s, n);
  }
}
