/**
 * The djb2-style string hash that indexes the bucket table (NM/LRU.c, `hash`).
 *
 * A C string is modelled as the sequence of its characters before the
 * terminating NUL, each read as an unsigned char, so every code lies in 1..255.
 * The accumulator is an `unsigned int`; its 32-bit wrap-around is written out.
 */
module Hashing {

  /** One character of a NUL-terminated C string, read as unsigned. */
  type CChar = c: int | 1 <= c < 256 witness 1

  /** The characters of a C string, without its terminator. */
  type Name = seq<CChar>

  /** 2^32: the range of a 32-bit `unsigned int`. */
  const U32: int := 0x1_0000_0000

  /** The seed of the accumulator. */
  const Seed: nat := 5381

  /** The value of the accumulator after consuming all of `s`, left to right:
      each step computes `(h << 5) + h + c`, that is `33 * h + c`, modulo 2^32. */
  function Djb2(s: Name): (h: nat)
    ensures h < U32
  {
    if s == [] then Seed else (Djb2(s[..|s| - 1]) * 33 + s[|s| - 1]) % U32
  }

  /** The bucket a name falls into in a table of `size` slots. */
  function Bucket(s: Name, size: int): (index: nat)
    requires size > 0
    ensures index < size
  {
    Djb2(s) % size
  }

  /** One step of the loop: `(h << 5) + h + c` in 32-bit arithmetic is
      `33 * h + c` modulo 2^32, the step of `Djb2`. */
  lemma ShiftAddStep(h: nat, c: nat)
    ensures ((h * 32) % U32 + h + c) % U32 == (h * 33 + c) % U32
  {
    var q := (h * 32) / U32;
    assert h * 32 == q * U32 + (h * 32) % U32;
    assert h * 33 + c == ((h * 32) % U32 + h + c) + q * U32;
  }

  /** The hash routine itself: a loop over the characters updating a 32-bit
      accumulator, then reduced modulo the table size. */
  method Hash(str: Name, size: int) returns (index: nat)
    requires size > 0
    ensures index < size
    ensures index == Bucket(str, size)
  {
    var h: nat := Seed;
    var i := 0;
    while i < |str|
      invariant 0 <= i <= |str|
      invariant h == Djb2(str[..i])
    {
      assert str[..i + 1][..i] == str[..i];
      ShiftAddStep(h, str[i]);
      // (h << 5) + h + c, computed in 32-bit unsigned arithmetic
      h := ((h * 32) % U32 + h + str[i]) % U32;
      i := i + 1;
    }
    assert str[..i] == str;
    index := h % size;
  }
}
