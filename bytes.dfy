/** Bytes as they travel over the serial link. */
module Bytes {

  /** An unsigned 8-bit value, `uint8_t` in the firmware. */
  type byte = bv8

  /**
   * The byte whose value is `n`. It is built by recursion rather than by a conversion
   * from `int`, which the solver handles far more slowly.
   */
  function ByteOf(n: nat): (b: byte)
    requires n < 256
    ensures b as int == n
  {
    if n == 0 then 0 else ByteOf(n - 1) + 1
  }

  /** No byte of `s` is the frame delimiter 0x00. */
  predicate ZeroFree(s: seq<byte>)
  {
    forall i :: 0 <= i < |s| ==> s[i] != 0
  }

  /** Two sequences without 0x00 make one without 0x00. */
  lemma ZeroFreeAppend(a: seq<byte>, b: seq<byte>)
    requires ZeroFree(a) && ZeroFree(b)
    ensures ZeroFree(a + b)
  {
  }

  /** Concatenation regrouped. */
  lemma Regroup<T>(a: seq<T>, b: seq<T>, c: seq<T>)
    ensures a + (b + c) == (a + b) + c
  {
  }
}
