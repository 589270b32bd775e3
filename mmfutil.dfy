// Result codes shared by every component (mmfutil.h, mmfutil.c).

module MmfUtil {

  /** An unsigned 8-bit value; every buffer in the model is a sequence or array of these. */
  type byte = x: int | 0 <= x < 256

  /**
   * The MMFRES return codes, in enum order.  `Undefined` is not a code of the
   * program: the model returns it where the C code has undefined behaviour
   * (an out-of-bounds access, a null dereference), where an `mmf_assert`
   * aborts, or where a loop would repeat forever without consuming input.
   * Every caller stops when it sees it.
   */
  datatype Rc =
    | Ok | False
    | Fail | OutOfMem | InvalidArg | External | NeedMoreInput
    | BufferOverflow | NotAllowed | EndOfStream | InvalidData
    | InvalidPointer | NotImplemented
    | Undefined

  /** The numeric value of each code, as the enum assigns it. */
  function Code(rc: Rc): nat
  {
    match rc
    case Ok => 0x00
    case False => 0x01
    case Fail => 0x02
    case OutOfMem => 0x03
    case InvalidArg => 0x04
    case External => 0x05
    case NeedMoreInput => 0x06
    case BufferOverflow => 0x07
    case NotAllowed => 0x08
    case EndOfStream => 0x09
    case InvalidData => 0x0A
    case InvalidPointer => 0x0B
    case NotImplemented => 0x0C
    case Undefined => 0x100
  }

  /** `succeeded`: a code at or below RC_FALSE. */
  predicate Succeeded(rc: Rc)
    ensures Succeeded(rc) <==> rc == Ok || rc == False
  {
    Code(rc) <= Code(False)
  }

  /** `failed`: a code above RC_FALSE. */
  predicate Failed(rc: Rc)
    ensures Failed(rc) <==> rc != Ok && rc != False
  {
    Code(rc) > Code(False)
  }

  /** Every code is classified exactly once. */
  lemma ExactlyOneClassification(rc: Rc)
    ensures Succeeded(rc) != Failed(rc)
  {
  }

  /** The two codes are distinct numbers, so the classification is by value. */
  lemma CodeInjective(a: Rc, b: Rc)
    requires Code(a) == Code(b)
    ensures a == b
  {
  }

  /** `mmf_allocz`: the contents of a freshly allocated, zeroed block. */
  function AllocZ(size: nat): (block: seq<byte>)
    ensures |block| == size
    ensures forall i | 0 <= i < |block| :: block[i] == 0
  {
    seq(size, _ => 0)
  }

  datatype Option<T> = None | Some(value: T)

  /**
   * The same value: a term for the link predicates (`SlicesIs`, `RowsIs`
   * and their kin) to quantify over, so that a loop carrying one does not
   * expand the specification function it names.
   */
  ghost predicate Same<T>(a: T, b: T)
  {
    a == b
  }
}
