/** Definitions shared by several parts. */
module Basics {
  const TWO31: int := 0x8000_0000
  const TWO32: int := 0x1_0000_0000
  const INT_MAX: int := TWO31 - 1

  datatype Option<+T> = None | Some(value: T)

  /** An `int` of the source. */
  type Int32 = x: int | -TWO31 <= x < TWO31

  /** A value stored in an `int`, wrapping around. */
  function Wrap32(x: int): Int32 {
    var d := x % TWO32;
    if d > INT_MAX then d - TWO32 else d
  }

  lemma WrapIs(x: Int32)
    ensures Wrap32(x) == Wrap32(x + 0x1_0000_0000) == Wrap32(x - 0x1_0000_0000) == x
  {
  }

  function Flatten<T>(parts: seq<seq<T>>): seq<T> {
    if parts == [] then [] else parts[0] + Flatten(parts[1..])
  }
}
