// The constants of codec/mpeg1dec.h and the tables the decoder indexes.
//
// The tables themselves (zig-zag order, run/level pairs, the escape code,
// the aspect-ratio and frame-rate tables, the prefix-code tables and the
// default quantiser matrices) live in a header that is not part of this
// model.  They are parameters here, gathered in `Env`, and `EnvOk` states
// the facts about them that the decoder relies on.

module Mpeg1Tables {
  import opened MmfUtil
  import opened CInt
  import opened Vlc

  const SeqStartCode: nat := 0x1B3
  const GopStartCode: nat := 0x1B8
  const PictureStartCode: nat := 0x100
  const SliceMinStartCode: nat := 0x101
  const SliceMaxStartCode: nat := 0x1AF

  const FrameTypeI: int := 1
  const FrameTypeP: int := 2
  const FrameTypeB: int := 3
  const FrameTypeD: int := 4

  /** The two-bit end-of-block code `10`. */
  const EndOfBlock: nat := 2

  /** A `RunLevel`: `zero_cnt` zero coefficients, then `coeff`. */
  datatype RunLevel = RunLevel(zeroCount: byte, coeff: int16)

  /** The 64 values of an 8x8 block, as the `int16_t` arrays of the decoder hold them. */
  type Block = b: seq<int16> | |b| == 64 witness seq(64, _ => 0)

  /**
   * The decoder's tables and trees: `__zigzag_coords`, `__run_levels`,
   * `RL_ESCAPE_CODE`, the aspect-ratio and frame-rate pairs, the ten
   * decoding trees built by `vlc_tree_create2`, the two quantiser matrices
   * of the decoder context and `mmf_idct`, whose arithmetic is not modelled.
   */
  datatype Env = Env(
    zigzag: seq<int>,
    runLevels: seq<RunLevel>,
    escapeCode: byte,
    aspectRatio: seq<(int, int)>,
    frameRate: seq<(int, int)>,
    mbAddressIncrement: Tree,
    mbTypeI: Tree,
    mbTypeP: Tree,
    mbTypeB: Tree,
    mbTypeD: Tree,
    cbPattern: Tree,
    motionCode: Tree,
    dcSizeLuma: Tree,
    dcSizeChroma: Tree,
    runLevelTree: Tree,
    qmIntra: seq<int8>,
    qmInter: seq<int8>,
    idct: Block -> Block)

  /**
   * The zig-zag table is a permutation of 0..63 that starts at 0: every
   * entry is a coefficient index, no index appears twice, every index
   * appears.
   */
  predicate ZigzagOk(zz: seq<int>)
  {
    && |zz| == 64
    && zz[0] == 0
    && (forall k | 0 <= k < 64 :: 0 <= zz[k] < 64)
    && (forall a, b | 0 <= a < b < 64 :: zz[a] != zz[b])
    && (forall p | 0 <= p < 64 :: p in zz)
  }

  /** What the decoder relies on: a zig-zag permutation and two full matrices. */
  predicate EnvOk(env: Env)
  {
    && ZigzagOk(env.zigzag)
    && |env.qmIntra| == 64
    && |env.qmInter| == 64
  }
}
