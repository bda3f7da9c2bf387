/** Types shared by every part of the model. */
module Prelude {

  datatype Option<+T> = None | Some(value: T)

  /** An octet of a packet or of a message element. */
  type byte = x: int | 0 <= x < 256

  /** A 16-bit word in host order. */
  type word = x: int | 0 <= x < 0x1_0000

  /** A 32-bit word in host order. */
  type uint32 = x: int | 0 <= x < 0x1_0000_0000

  /** A 32-bit signed machine integer; assigning to one proves that the C `int` does not overflow. */
  type int32 = x: int | -0x8000_0000 <= x < 0x8000_0000

  /** What C makes of an unsigned 32-bit difference that is returned as an `int`. */
  function AsInt32(x: int): (r: int32)
    ensures (r - x) % 0x1_0000_0000 == 0
  {
    var m := x % 0x1_0000_0000;
    if m < 0x8000_0000 then m else m - 0x1_0000_0000
  }

  function Min(a: int, b: int): int { if a <= b then a else b }

  /** Concatenation of a sequence of byte strings. */
  function Flatten<T>(ss: seq<seq<T>>): seq<T>
  {
    if ss == [] then [] else ss[0] + Flatten(ss[1..])
  }

  lemma {:induction false} FlattenAppend<T>(a: seq<seq<T>>, b: seq<seq<T>>)
    ensures Flatten(a + b) == Flatten(a) + Flatten(b)
  {
    if a == [] {
      assert a + b == b;
    } else {
      assert (a + b)[1..] == a[1..] + b;
      FlattenAppend(a[1..], b);
    }
  }
}
