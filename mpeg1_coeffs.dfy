// The coefficient decoder of codec/mpeg1dec.c, `mpg1_decode_coeffs`
// (section 2.4.3.7 of ISO/IEC 11172-2): run/level pairs are collected from
// the stream until the end-of-block code, then laid out along the zig-zag
// order, a run of zeros before each level, and the rest of the block is
// cleared.  The collection loop is a specification function on the reader
// state; the method runs the loops of the C over the reader and the block.

module Mpeg1Coeffs {
  import opened MmfUtil
  import opened CInt
  import opened Bitstream
  import opened Vlc
  import opened Mpeg1Tables
  import opened Mpeg1Headers
  import opened Mpeg1Stream

  // ---------------------------------------------------------------------
  // Collecting run/level pairs
  // ---------------------------------------------------------------------

  /**
   * The symbol of the first pass (the DC coefficient of a non-intra block):
   * `10` and `11` stand for the run/level codes 2 and 3 and are discarded,
   * anything else is a prefix code; a failed peek ends the decoding.
   */
  function FirstSymbolSpec(s: ReaderState, env: Env, prev: byte): (r: Symbol)
    requires Good(s)
    ensures Advances(s, r.next)
    ensures Failed(PeekSpec(s, 2).rc) ==> r.rc == PeekSpec(s, 2).rc
    ensures var p := PeekSpec(s, 2);
      p.rc == Ok && (p.value == 2 || p.value == 3) ==> r.rc == Ok && r.code == p.value && r.next.readBitIndex == s.readBitIndex + 2
  {
    var p := PeekSpec(s, 2);
    StepAdvances(s, 2);
    StepAdvances(p.next, 2);
    if Failed(p.rc) then Symbol(p.rc, prev, 0, p.next)
    else if p.value == 2 then PeekThenRead(s, 2); Symbol(Ok, 2, 1, DiscardSpec(p.next, 2).next)
    else if p.value == 3 then PeekThenRead(s, 2); Symbol(Ok, 3, 1, DiscardSpec(p.next, 2).next)
    else
      var r := DecodeSymbolSpec(p.next, env.runLevelTree, prev);
      AdvancesTrans(s, p.next, r.next);
      r
  }

  method FirstSymbol(bs: BitReader, env: Env, prev: byte) returns (rc: Rc, code: byte)
    requires bs.Valid()
    modifies bs, bs.buffer
    ensures bs.Valid()
    ensures var r := FirstSymbolSpec(old(bs.St()), env, prev);
      rc == r.rc && code == r.code && bs.St() == r.next
  {
    var bits;
    bits, rc := bs.PeekBits(2);
    if Failed(rc) {
      return rc, prev;
    }
    if bits == 2 {
      var _ := bs.DiscardBits(2);
      return Ok, 2;
    } else if bits == 3 {
      var _ := bs.DiscardBits(2);
      return Ok, 3;
    }
    var count;
    rc, code, count := DecodeSymbol(bs, env.runLevelTree, prev);
  }

  /** The symbol a pass takes: the first pass treats `10` and `11` apart. */
  function PassSymbolSpec(s: ReaderState, env: Env, pass: nat, prev: byte): (r: Symbol)
    requires Good(s)
    ensures Advances(s, r.next)
    ensures r.rc == Ok || r.rc == Undefined || (pass == 0 && Failed(r.rc))
  {
    if pass == 0 then FirstSymbolSpec(s, env, prev) else DecodeSymbolSpec(s, env.runLevelTree, prev)
  }

  method PassSymbol(bs: BitReader, env: Env, pass: nat, prev: byte) returns (rc: Rc, code: byte)
    requires bs.Valid()
    modifies bs, bs.buffer
    ensures bs.Valid()
    ensures var r := PassSymbolSpec(old(bs.St()), env, pass, prev);
      rc == r.rc && code == r.code && bs.St() == r.next
  {
    if pass == 0 {
      rc, code := FirstSymbol(bs, env, prev);
    } else {
      var count;
      rc, code, count := DecodeSymbol(bs, env.runLevelTree, prev);
    }
  }

  /** The level of an escape and the stream after it. */
  datatype Level = Level(value: int16, next: ReaderState)

  /** The level byte of an escape, other than 0 and 128: `(l << 24) >> 24`, its value as a signed byte. */
  function SignedByte(l: byte): (r: int8)
    ensures (l - r) % 256 == 0
  {
    if l >= 128 then l - 256 else l
  }

  /**
   * The level a level byte `l` spells, with `m` the byte after it: 0 and 128
   * announce a second byte holding a level of 0 to 255 or of -256 to -1.
   */
  function LevelOf(l: byte, m: byte): (v: int16)
    ensures -256 <= v <= 255
  {
    if l == 0 then m else if l == 128 then m - 256 else SignedByte(l)
  }

  /** The bytes an encoder writes for a level: one byte when it fits in -127..127, else an announcing byte and a second. */
  function LevelBytes(v: int): (bs: seq<byte>)
    requires -256 <= v <= 255
    ensures 1 <= |bs| <= 2
  {
    if -127 <= v <= 127 && v != 0 then [if v < 0 then v + 256 else v]
    else if v >= 0 then [0, v]
    else [128, v + 256]
  }

  /** Every level from -256 to 255 is read back from the bytes written for it. */
  lemma LevelRoundTrip(v: int)
    requires -256 <= v <= 255
    ensures var bs := LevelBytes(v);
      LevelOf(bs[0], if |bs| == 2 then bs[1] else 0) == v
      && (|bs| == 2 <==> bs[0] == 0 || bs[0] == 128)
  {
  }

  /** The level of an escape: a byte, then a second one when the first announces it. */
  function LevelSpec(s: ReaderState): (v: Level)
    requires Good(s)
    ensures Advances(s, v.next)
    ensures -256 <= v.value <= 255
    ensures v.next.readBitIndex <= s.readBitIndex + 16
  {
    var l := ReadSpec(s, 8);
    ReadBound(s, 8);
    StepAdvances(s, 8);
    if l.value == 0 || l.value == 128 then
      var m := ReadSpec(l.next, 8);
      ReadBound(l.next, 8);
      StepAdvances(l.next, 8);
      AdvancesTrans(s, l.next, m.next);
      Level(LevelOf(l.value, m.value), m.next)
    else Level(LevelOf(l.value, 0), l.next)
  }

  method ReadLevel(bs: BitReader) returns (level: int16)
    requires bs.Valid()
    modifies bs, bs.buffer
    ensures bs.Valid()
    ensures Level(level, bs.St()) == LevelSpec(old(bs.St()))
  {
    bs.ValidGood();
    ReadBound(bs.St(), 8);
    var l, _ := bs.ReadBits(8);
    if l == 0 || l == 128 {
      bs.ValidGood();
      ReadBound(bs.St(), 8);
      var m, _ := bs.ReadBits(8);
      level := LevelOf(l, m);
    } else {
      level := LevelOf(l, 0);
    }
  }

  /** An escaped pair and the stream after it. */
  datatype Escape = Escape(rl: RunLevel, next: ReaderState)

  /** After the escape code: a six-bit run, then the level. */
  function EscapeSpec(s: ReaderState): (e: Escape)
    requires Good(s)
    ensures Advances(s, e.next)
    ensures e.rl.zeroCount < 64 && -256 <= e.rl.coeff <= 255
    ensures e.next.readBitIndex <= s.readBitIndex + 22
  {
    var run := ReadSpec(s, 6);
    ReadBound(s, 6);
    assert Pow2(6) == 64;
    StepAdvances(s, 6);
    var l := LevelSpec(run.next);
    AdvancesTrans(s, run.next, l.next);
    Escape(RunLevel(run.value, l.value), l.next)
  }

  method ReadEscape(bs: BitReader) returns (rl: RunLevel)
    requires bs.Valid()
    modifies bs, bs.buffer
    ensures bs.Valid()
    ensures Escape(rl, bs.St()) == EscapeSpec(old(bs.St()))
  {
    bs.ValidGood();
    ReadBound(bs.St(), 6);
    var run, _ := bs.ReadBits(6);
    var level := ReadLevel(bs);
    rl := RunLevel(run, level);
  }

  /** The pairs collected, and how the loop ended. */
  datatype Collected = Collected(rc: Rc, rls: seq<RunLevel>, next: ReaderState)

  /** One pass of the collection loop: the loop ends, or it goes on from a new state. */
  datatype Pass = Done(c: Collected) | More(next: ReaderState, pass: nat, code: byte, rls: seq<RunLevel>)

  /**
   * One pass of the collection loop of `mpg1_decode_coeffs`: the loop ends
   * when the next two bits are the end-of-block code and a pass has
   * completed.  An escape adds a pair without completing a pass; any other
   * code adds its entry of the run/level table and completes one.  The
   * buffer holds 64 pairs: a 65th, or a code past the table, is undefined
   * behaviour.
   */
  function PassSpec(s: ReaderState, env: Env, pass: nat, code: byte, rls: seq<RunLevel>): (r: Pass)
    requires Good(s) && |rls| <= 64
    ensures r.Done? ==> Advances(s, r.c.next) && r.c.rls == rls
    ensures r.Done? ==> r.c.rc == Ok || r.c.rc == Undefined || (pass == 0 && Failed(r.c.rc))
    ensures r.More? ==> Advances(s, r.next) && |r.rls| == |rls| + 1
    ensures r.More? ==> r.pass == pass || r.pass == pass + 1
  {
    var p := PeekSpec(s, 2);
    StepAdvances(s, 2);
    if p.value == EndOfBlock && pass != 0 then Done(Collected(Ok, rls, p.next))
    else
      var st := PassSymbolSpec(p.next, env, pass, code);
      AdvancesTrans(s, p.next, st.next);
      if st.rc != Ok then Done(Collected(st.rc, rls, st.next))
      else if |rls| == 64 then Done(Collected(Undefined, rls, st.next))
      else if st.code == env.escapeCode then
        var e := EscapeSpec(st.next);
        AdvancesTrans(s, st.next, e.next);
        More(e.next, pass, st.code, rls + [e.rl])
      else if st.code >= |env.runLevels| then Done(Collected(Undefined, rls, st.next))
      else More(st.next, pass + 1, st.code, rls + [env.runLevels[st.code]])
  }

  /** The pairs the collection loop gathers, pass after pass, and how it ended. */
  function CollectSpec(s: ReaderState, env: Env, pass: nat, code: byte, rls: seq<RunLevel>): (c: Collected)
    requires Good(s) && |rls| <= 64
    ensures Advances(s, c.next) && |c.rls| <= 64
    ensures c.rc == Ok || c.rc == Undefined || (pass == 0 && Failed(c.rc))
    decreases 64 - |rls|
  {
    var r := PassSpec(s, env, pass, code, rls);
    if r.Done? then r.c
    else
      var c := CollectSpec(r.next, env, r.pass, r.code, r.rls);
      AdvancesTrans(s, r.next, c.next);
      c
  }

  /** One pass of the collection loop, on the reader. */
  method CollectPass(bs: BitReader, env: Env, pass: nat, code: byte, rls: seq<RunLevel>) returns (r: Pass)
    requires bs.Valid() && |rls| <= 64
    modifies bs, bs.buffer
    ensures bs.Valid()
    ensures r == PassSpec(old(bs.St()), env, pass, code, rls)
    ensures r.Done? ==> r.c.next == bs.St()
    ensures r.More? ==> r.next == bs.St()
  {
    bs.ValidGood();
    var bits, _ := bs.PeekBits(2);
    if bits == EndOfBlock && pass != 0 {
      return Done(Collected(Ok, rls, bs.St()));
    }
    var rc, code' := PassSymbol(bs, env, pass, code);
    if rc != Ok {
      return Done(Collected(rc, rls, bs.St()));
    }
    if |rls| == 64 {
      return Done(Collected(Undefined, rls, bs.St()));
    }
    if code' == env.escapeCode {
      var rl := ReadEscape(bs);
      return More(bs.St(), pass, code', rls + [rl]);
    }
    if code' >= |env.runLevels| {
      return Done(Collected(Undefined, rls, bs.St()));
    }
    return More(bs.St(), pass + 1, code', rls + [env.runLevels[code']]);
  }

  method CollectRunLevels(bs: BitReader, env: Env, pass0: nat) returns (rc: Rc, rls: seq<RunLevel>)
    requires bs.Valid()
    modifies bs, bs.buffer
    ensures bs.Valid()
    ensures Collected(rc, rls, bs.St()) == CollectSpec(old(bs.St()), env, pass0, 0, [])
  {
    var pass := pass0;
    var code: byte := 0;
    rls := [];
    while true
      invariant bs.Valid() && |rls| <= 64
      invariant CollectSpec(bs.St(), env, pass, code, rls) == CollectSpec(old(bs.St()), env, pass0, 0, [])
      decreases 64 - |rls|
    {
      var r := CollectPass(bs, env, pass, code, rls);
      if r.Done? {
        return r.c.rc, r.c.rls;
      }
      pass, code, rls := r.pass, r.code, r.rls;
    }
  }

  // ---------------------------------------------------------------------
  // Laying the pairs out along the zig-zag order
  // ---------------------------------------------------------------------

  function Zeros(n: nat): (z: seq<int16>)
    ensures |z| == n && forall i | 0 <= i < n :: z[i] == 0
  {
    seq(n, _ => 0)
  }

  /** The coefficients the pairs spell in zig-zag order: each run of zeros, then its level. */
  function Scan(rls: seq<RunLevel>): (sc: seq<int16>)
    ensures |sc| >= |rls|
    ensures |rls| > 0 ==> sc[|sc| - 1] == rls[|rls| - 1].coeff
    decreases |rls|
  {
    if |rls| == 0 then []
    else
      var last := rls[|rls| - 1];
      Scan(rls[..|rls| - 1]) + Zeros(last.zeroCount) + [last.coeff]
  }

  /** Stores `vals` in turn at the coefficients `zz[start]`, `zz[start + 1]`, ... */
  function Writes(d: seq<int16>, zz: seq<int>, start: nat, vals: seq<int16>): (r: seq<int16>)
    requires |d| == 64 && ZigzagOk(zz) && start + |vals| <= 64
    ensures |r| == 64
    decreases |vals|
  {
    if |vals| == 0 then d
    else Writes(d, zz, start, vals[..|vals| - 1])[zz[start + |vals| - 1] := vals[|vals| - 1]]
  }

  /** The block after the layout: the scan from `start` on, zeros after it. */
  function Expand(d: seq<int16>, zz: seq<int>, start: nat, rls: seq<RunLevel>): (r: seq<int16>)
    requires |d| == 64 && ZigzagOk(zz) && start + |Scan(rls)| <= 64
    ensures |r| == 64
    ensures forall k | 0 <= k < start :: r[zz[k]] == d[zz[k]]
    ensures forall k | start + |Scan(rls)| <= k < 64 :: r[zz[k]] == 0
  {
    var sc := Scan(rls);
    WritesAll(d, zz, start, sc + Zeros(64 - start - |sc|));
    Writes(d, zz, start, sc + Zeros(64 - start - |sc|))
  }

  /** `WritesAt` for every position at once. */
  lemma WritesAll(d: seq<int16>, zz: seq<int>, start: nat, vals: seq<int16>)
    requires |d| == 64 && ZigzagOk(zz) && start + |vals| <= 64
    ensures forall k | 0 <= k < 64 ::
      Writes(d, zz, start, vals)[zz[k]] == if start <= k < start + |vals| then vals[k - start] else d[zz[k]]
  {
    forall k | 0 <= k < 64
      ensures Writes(d, zz, start, vals)[zz[k]] == if start <= k < start + |vals| then vals[k - start] else d[zz[k]]
    {
      WritesAt(d, zz, start, vals, k);
    }
  }

  /**
   * Zig-zag placement: after the writes, position `zz[k]` holds the value
   * written k-th from `start`, and the coefficients before `start` are as
   * they were.
   */
  lemma {:induction false} WritesAt(d: seq<int16>, zz: seq<int>, start: nat, vals: seq<int16>, k: nat)
    requires |d| == 64 && ZigzagOk(zz) && start + |vals| <= 64 && k < 64
    ensures Writes(d, zz, start, vals)[zz[k]] ==
      if start <= k < start + |vals| then vals[k - start] else d[zz[k]]
    decreases |vals|
  {
    if |vals| > 0 {
      var n := |vals| - 1;
      WritesAt(d, zz, start, vals[..n], k);
      if k != start + n {
        assert zz[k] != zz[start + n] by {
          if k < start + n { assert zz[k] != zz[start + n]; } else { assert zz[start + n] != zz[k]; }
        }
      }
    }
  }

  /** Every coefficient of the block: those before `start` kept, then the scan, then zeros. */
  lemma ExpandAt(d: seq<int16>, zz: seq<int>, start: nat, rls: seq<RunLevel>, k: nat)
    requires |d| == 64 && ZigzagOk(zz) && start + |Scan(rls)| <= 64 && k < 64
    ensures var sc := Scan(rls);
      Expand(d, zz, start, rls)[zz[k]] ==
        if k < start then d[zz[k]]
        else if k < start + |sc| then sc[k - start]
        else 0
  {
    var sc := Scan(rls);
    WritesAt(d, zz, start, sc + Zeros(64 - start - |sc|), k);
  }

  /** One pair more adds its run of zeros and its level to the scan. */
  lemma ScanSnoc(rls: seq<RunLevel>, i: nat)
    requires i < |rls|
    ensures Scan(rls[..i + 1]) == Scan(rls[..i]) + Zeros(rls[i].zeroCount) + [rls[i].coeff]
  {
    assert rls[..i + 1][..i] == rls[..i];
  }

  /** The pairs up to the i-th, with its run and level, fit in the whole scan. */
  lemma {:induction false} ScanCovers(rls: seq<RunLevel>, i: nat)
    requires i < |rls|
    ensures |Scan(rls[..i])| + rls[i].zeroCount + 1 <= |Scan(rls)|
    decreases |rls|
  {
    var n := |rls| - 1;
    assert rls[..n + 1] == rls;
    ScanSnoc(rls, n);
    if i < n {
      ScanCovers(rls[..n], i);
      assert rls[..n][..i] == rls[..i];
    }
  }

  /** One value more is one write more. */
  lemma WritesSnoc(d: seq<int16>, zz: seq<int>, start: nat, vals: seq<int16>, v: int16)
    requires |d| == 64 && ZigzagOk(zz) && start + |vals| < 64
    ensures Writes(d, zz, start, vals + [v]) == Writes(d, zz, start, vals)[zz[start + |vals|] := v]
  {
    assert (vals + [v])[..|vals|] == vals;
  }

  /**
   * The inner loop of the layout: `n` zeros from coefficient `idx` of the
   * zig-zag order on, after the values `vals` already written from `start`.
   */
  method PutZeros(dct: array<int16>, zz: seq<int>, start: nat, ghost d0: seq<int16>, ghost vals: seq<int16>, idx: nat, n: nat)
    returns (rc: Rc, idx': nat)
    requires dct.Length == 64 && |d0| == 64 && ZigzagOk(zz)
    requires idx == start + |vals| <= 64 && dct[..] == Writes(d0, zz, start, vals)
    modifies dct
    ensures rc == Ok || rc == Undefined
    ensures rc == Ok <==> idx + n <= 64
    ensures rc == Ok ==> idx' == idx + n && dct[..] == Writes(d0, zz, start, vals + Zeros(n))
  {
    idx' := idx;
    var j := 0;
    assert vals + Zeros(0) == vals;
    while j < n
      invariant 0 <= j <= n
      invariant idx' == idx + j <= 64
      invariant dct[..] == Writes(d0, zz, start, vals + Zeros(j))
    {
      if idx' >= 64 {
        return Undefined, idx';
      }
      WritesSnoc(d0, zz, start, vals + Zeros(j), 0);
      assert vals + Zeros(j) + [0] == vals + Zeros(j + 1);
      dct[zz[idx']] := 0;
      idx' := idx' + 1;
      j := j + 1;
    }
    rc := Ok;
  }

  /**
   * The layout loops of `mpg1_decode_coeffs`.  The first coefficient written
   * is `start` (1 when the DC coefficient is already in place); writing past
   * the 64th is undefined behaviour.
   */
  method Deploy(dct: array<int16>, zz: seq<int>, rls: seq<RunLevel>, start: nat) returns (rc: Rc)
    requires dct.Length == 64 && ZigzagOk(zz) && start <= 1
    modifies dct
    ensures rc == Ok || rc == Undefined
    ensures rc == Ok <==> start + |Scan(rls)| <= 64
    ensures rc == Ok ==> dct[..] == Expand(old(dct[..]), zz, start, rls)
  {
    ghost var d0 := dct[..];
    var idx := start;
    var i := 0;
    while i < |rls|
      invariant 0 <= i <= |rls|
      invariant idx == start + |Scan(rls[..i])| <= 64
      invariant dct[..] == Writes(d0, zz, start, Scan(rls[..i]))
    {
      ghost var before := Scan(rls[..i]);
      rc, idx := PutZeros(dct, zz, start, d0, before, idx, rls[i].zeroCount);
      if rc != Ok || idx >= 64 {
        ScanCovers(rls, i);
        return Undefined;
      }
      WritesSnoc(d0, zz, start, before + Zeros(rls[i].zeroCount), rls[i].coeff);
      ScanSnoc(rls, i);
      dct[zz[idx]] := rls[i].coeff;
      idx := idx + 1;
      i := i + 1;
    }
    assert rls[..i] == rls;
    ghost var tail := Zeros(64 - idx);
    assert Expand(d0, zz, start, rls) == Writes(d0, zz, start, Scan(rls) + tail);
    rc, idx := PutZeros(dct, zz, start, d0, Scan(rls), idx, 64 - idx);
  }

  // ---------------------------------------------------------------------
  // mpg1_decode_coeffs
  // ---------------------------------------------------------------------

  /** The code, the block and the stream after `mpg1_decode_coeffs`. */
  datatype Coeffs = Coeffs(rc: Rc, dct: seq<int16>, next: ReaderState)

  /**
   * `mpg1_decode_coeffs(dec, dct, read_dc)`: collect the pairs (the first
   * pass reads the DC coefficient when `read_dc` is set), discard the
   * end-of-block code, lay the pairs out from coefficient 0 or 1.  A failed
   * peek on the first pass returns its code with the block untouched.
   */
  function CoeffsSpec(s: ReaderState, env: Env, dct: seq<int16>, readDc: bool): (r: Coeffs)
    requires Good(s) && |dct| == 64 && EnvOk(env)
    ensures Advances(s, r.next) && |r.dct| == 64
  {
    var c := CollectSpec(s, env, if readDc then 0 else 1, 0, []);
    if c.rc != Ok then Coeffs(c.rc, dct, c.next)
    else
      var eob := DiscardSpec(c.next, 2);
      var start := if readDc then 0 else 1;
      StepAdvances(c.next, 2);
      AdvancesTrans(s, c.next, eob.next);
      if start + |Scan(c.rls)| > 64 then Coeffs(Undefined, dct, eob.next)
      else Coeffs(Ok, Expand(dct, env.zigzag, start, c.rls), eob.next)
  }

  method DecodeCoeffs(bs: BitReader, env: Env, dct: array<int16>, readDc: bool) returns (rc: Rc)
    requires bs.Valid() && dct.Length == 64 && EnvOk(env)
    modifies bs, bs.buffer, dct
    ensures bs.Valid()
    ensures rc == Undefined || Coeffs(rc, dct[..], bs.St()) == CoeffsSpec(old(bs.St()), env, old(dct[..]), readDc)
    ensures rc == Undefined <==> CoeffsSpec(old(bs.St()), env, old(dct[..]), readDc).rc == Undefined
  {
    var rls;
    rc, rls := CollectRunLevels(bs, env, if readDc then 0 else 1);
    if rc != Ok {
      return;
    }
    var _ := bs.DiscardBits(2);
    rc := Deploy(dct, env.zigzag, rls, if readDc then 0 else 1);
  }

  /**
   * The block `mpg1_decode_coeffs` leaves: coefficients before the first one
   * read are kept, the scan follows in zig-zag order, and every coefficient
   * after it is zero.
   */
  lemma CoeffsLayout(s: ReaderState, env: Env, dct: seq<int16>, readDc: bool, k: nat)
    requires Good(s) && |dct| == 64 && EnvOk(env) && k < 64
    requires CoeffsSpec(s, env, dct, readDc).rc == Ok
    ensures var c := CollectSpec(s, env, if readDc then 0 else 1, 0, []);
      var sc := Scan(c.rls);
      var start := if readDc then 0 else 1;
      && c.rc == Ok
      && start + |sc| <= 64
      && CoeffsSpec(s, env, dct, readDc).dct[env.zigzag[k]] ==
           if k < start then dct[env.zigzag[k]]
           else if k < start + |sc| then sc[k - start]
           else 0
  {
    var start := if readDc then 0 else 1;
    var c := CoeffsOk(s, env, dct, readDc, start);
    ExpandAt(dct, env.zigzag, start, c.rls, k);
  }

  /** A successful coefficient read is the expansion of the collected run/level pairs. */
  lemma CoeffsOk(s: ReaderState, env: Env, dct: seq<int16>, readDc: bool, start: nat) returns (c: Collected)
    requires Good(s) && |dct| == 64 && EnvOk(env) && start == if readDc then 0 else 1
    requires CoeffsSpec(s, env, dct, readDc).rc == Ok
    ensures c == CollectSpec(s, env, start, 0, [])
    ensures c.rc == Ok && start + |Scan(c.rls)| <= 64
    ensures CoeffsSpec(s, env, dct, readDc).dct == Expand(dct, env.zigzag, start, c.rls)
  {
    c := CollectSpec(s, env, start, 0, []);
  }
}
