/** Machine-integer ranges and the result types shared by the codec modules. */
module Basics {

  const TWO_32: int := 0x1_0000_0000
  const TWO_64: int := 0x1_0000_0000_0000_0000
  const INT_MAX: int := 0x7FFF_FFFF

  /** `EpsCopyInputStream::kSlopBytes`; `ReadSize` rejects lengths this close to INT_MAX. */
  const SLOP_BYTES: int := 16
  const MAX_LENGTH: int := INT_MAX - SLOP_BYTES

  type byte = x: int | 0 <= x < 256
  type uint32 = x: int | 0 <= x < TWO_32
  type uint64 = x: int | 0 <= x < TWO_64
  type int32 = x: int | -0x8000_0000 <= x <= INT_MAX

  datatype Option<+T> = None | Some(value: T) {
    function GetOr(default: T): T {
      if Some? then value else default
    }
  }

  /** A read from the front of a byte string: the value and the bytes that remain. */
  datatype Read<+T> = Bad | Got(value: T, rest: seq<byte>)

  /** The result of parsing into a message. */
  datatype Outcome<+M> = Failure | Success(msg: M)

  lemma Assoc3<T>(a: seq<T>, b: seq<T>, c: seq<T>)
    ensures a + b + c == a + (b + c)
  {
  }

  lemma Assoc4<T>(a: seq<T>, b: seq<T>, c: seq<T>, d: seq<T>)
    ensures a + b + c + d == a + (b + c + d)
  {
  }
}
