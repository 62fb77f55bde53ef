/** Byte strings and the few facts about joining them that every component needs. */
module Bytes {

  type byte = b: int | 0 <= b < 256

  /** `b & 0x1f`. */
  function LowFiveBits(b: byte): byte {
    b % 32
  }

  /** `(b & 0x80) != 0`. */
  predicate TopBitSet(b: byte) {
    b >= 128
  }

  /** The two masks the programs apply, on machine bytes, are the arithmetic used here. */
  lemma MasksAreArithmetic(b: bv8)
    ensures (b & 0x1f) as int == LowFiveBits(b as int)
    ensures (b & 0x80) != 0 <==> TopBitSet(b as int)
  {
    assert (b & 0x1f) == b % 32;
    assert (b & 0x80) != 0 <==> b >= 128;
  }

  datatype Option<+T> = None | Some(value: T)

  /** The pieces joined in order. */
  function Concat(parts: seq<seq<byte>>): seq<byte> {
    if parts == [] then [] else parts[0] + Concat(parts[1..])
  }

  lemma Regroup<T>(a: seq<T>, b: seq<T>, c: seq<T>)
    ensures a + (b + c) == (a + b) + c
  {
  }

  lemma {:induction false} ConcatAppend(left: seq<seq<byte>>, right: seq<seq<byte>>)
    ensures Concat(left + right) == Concat(left) + Concat(right)
  {
    if left == [] {
      assert left + right == right;
    } else {
      assert (left + right)[1..] == left[1..] + right;
      ConcatAppend(left[1..], right);
      Regroup(left[0], Concat(left[1..]), Concat(right));
    }
  }

  lemma ConcatLast(parts: seq<seq<byte>>, last: seq<byte>)
    ensures Concat(parts + [last]) == Concat(parts) + last
  {
    ConcatAppend(parts, [last]);
    assert Concat([last]) == last;
  }
}
