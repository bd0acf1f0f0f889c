/**
 * The string hash of the table: a 32-bit accumulator that adds each byte of
 * the string and then rotates left by five bits, reduced modulo the table
 * size at the end (`Hash::hf` in hash_function.cpp).
 */
module HashFunction {

  /** An unsigned byte, the `unsigned char` the loop reads from a `std::string`. */
  type byte = bv8

  /** A `std::string`: a sequence of bytes. */
  type Bytes = seq<byte>

  const Two32: int := 0x1_0000_0000

  /** Left rotation of a 32-bit word by five bits, written as the source writes it. */
  function Rotl5(x: bv32): bv32
  {
    (x << 5) | (x >> 27)
  }

  /** One turn of the loop: wrap-around add of the byte, then rotate. */
  function Step(acc: bv32, c: byte): bv32
  {
    Rotl5(acc + c as bv32)
  }

  /** The accumulator after continuing from `acc` over every byte of `s`, in order. */
  function Run(acc: bv32, s: Bytes): bv32
  {
    if s == [] then acc else Step(Run(acc, s[..|s| - 1]), s[|s| - 1])
  }

  /** The 32-bit accumulator `string_sum` after the whole string. */
  function Accumulator(s: Bytes): bv32
  {
    Run(0, s)
  }

  /** The bucket index `hf` returns for `s` in a table of `size` buckets. */
  function HashIndex(s: Bytes, size: nat): (r: nat)
    requires size > 0
    ensures r < size
    ensures s == [] ==> r == 0
  {
    Accumulator(s) as int % size
  }

  /**
   * `Hash::hf`: the byte loop over a `uint32_t` accumulator; string_sum
   * starts at 0, each byte is added with wrap-around and the sum is rotated.
   */
  method Hf(input: Bytes, size: nat) returns (index: nat)
    requires size > 0
    ensures index == HashIndex(input, size)
    ensures index < size
  {
    var stringSum: bv32 := 0;
    for i := 0 to |input|
      invariant stringSum == Run(0, input[..i])
    {
      var c := input[i];
      RunSnoc(0, input[..i], c);
      assert input[..i] + [c] == input[..i + 1];
      ghost var next := Run(0, input[..i + 1]);
      assert next == (var x := stringSum + c as bv32; (x << 5) | (x >> 27));
      stringSum := stringSum + c as bv32;
      stringSum := (stringSum << 5) | (stringSum >> 27);
      assert stringSum == next;
    }
    assert input[..|input|] == input;
    index := stringSum as int % size;
  }

  /** Hashing a concatenation continues the accumulator of the first part over the second. */
  lemma {:induction false} RunAppend(acc: bv32, s1: Bytes, s2: Bytes)
    ensures Run(acc, s1 + s2) == Run(Run(acc, s1), s2)
    decreases |s2|
  {
    if s2 == [] {
      assert s1 + s2 == s1;
    } else {
      var last := |s2| - 1;
      assert (s1 + s2)[..|s1 + s2| - 1] == s1 + s2[..last];
      RunAppend(acc, s1, s2[..last]);
    }
  }

  /** The index of `s1 + s2` is the accumulator of `s1` carried over `s2`, then reduced. */
  lemma ConcatenationIndex(s1: Bytes, s2: Bytes, size: nat)
    requires size > 0
    ensures HashIndex(s1 + s2, size) == Run(Accumulator(s1), s2) as int % size
  {
    RunAppend(0, s1, s2);
  }

  /** Appending one byte is exactly one more loop step on the accumulator. */
  lemma RunSnoc(acc: bv32, s: Bytes, c: byte)
    ensures Run(acc, s + [c]) == (var x := Run(acc, s) + c as bv32; (x << 5) | (x >> 27))
  {
    assert (s + [c])[..|s|] == s;
  }

  /** The rotation's two shifted halves do not overlap, so the `|` is an add. */
  lemma Rotl5IsSum(x: bv32)
    ensures Rotl5(x) == (x << 5) + (x >> 27)
    ensures (x >> 27) < 32 && (x << 5) & 31 == 0
  {
  }

  /** As an integer, the rotation is the wrapped product by 32 plus the top five bits. */
  lemma Rotl5AsInt(x: bv32)
    ensures Rotl5(x) as int == (x as int * 32) % Two32 + x as int / 0x800_0000
  {
    Rotl5IsSum(x);
    ShiftsAsIntegers(x);
  }

  /** As integers, the left shift is a product wrapped to 32 bits and the right shift a quotient. */
  lemma ShiftsAsIntegers(x: bv32)
    ensures (x << 5) as int == (x as int * 32) % Two32
    ensures (x >> 27) as int == x as int / 0x800_0000
  {
  }
}
