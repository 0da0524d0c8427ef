/** hash_function of rmon.c: a multiplier-31 string hash plus the interface index, in 32-bit unsigned arithmetic. */
module Hashing {
  import opened Routes

  /** The value of a byte read through a signed `char` (the x86 Linux ABI). */
  function CharValue(b: Byte): (v: int)
    ensures -128 <= v < 128
    ensures v % 256 == b
  {
    if b < 128 then b else b - 256
  }

  /** The hash accumulated over `s` in an `unsigned int`, each step wrapping modulo 2^32. */
  function StringHash(s: seq<Byte>): (h: nat)
    ensures h < WORD
  {
    if |s| == 0 then 0 else (StringHash(s[..|s| - 1]) * 31 + CharValue(s[|s| - 1])) % WORD
  }

  /** The same hash over unbounded integers: the sum of CharValue(s[k]) * 31^(|s|-1-k). */
  function Polynomial(s: seq<Byte>): int {
    if |s| == 0 then 0 else Polynomial(s[..|s| - 1]) * 31 + CharValue(s[|s| - 1])
  }

  /** The bucket index of the key (destination, ifindex) in a table of `size` buckets. */
  function Hash(destination: CString, ifindex: Int32, size: nat): (index: nat)
    requires size > 0
    ensures index < size
  {
    ((StringHash(destination) + ifindex) % WORD) % size
  }

  lemma ModAddMultiple(x: int, k: int)
    ensures (x + k * WORD) % WORD == x % WORD
  {
  }

  /** Wrapping after every step gives the exact polynomial hash reduced modulo 2^32. */
  lemma {:induction false} StringHashIsPolynomial(s: seq<Byte>)
    ensures StringHash(s) == Polynomial(s) % WORD
  {
    if |s| > 0 {
      var p := s[..|s| - 1];
      var c := CharValue(s[|s| - 1]);
      StringHashIsPolynomial(p);
      var q := Polynomial(p) / WORD;
      assert Polynomial(p) == q * WORD + StringHash(p);
      assert Polynomial(s) == StringHash(p) * 31 + c + (q * 31) * WORD;
      ModAddMultiple(StringHash(p) * 31 + c, q * 31);
    }
  }

  /** Hash as a function of the exact (unwrapped) string hash. */
  lemma HashIsPolynomial(destination: CString, ifindex: Int32, size: nat)
    requires size > 0
    ensures Hash(destination, ifindex, size) == ((Polynomial(destination) + ifindex) % WORD) % size
  {
    StringHashIsPolynomial(destination);
    var q := Polynomial(destination) / WORD;
    ModAddMultiple(StringHash(destination) + ifindex, q);
  }

  /** Every byte of the destination reaches the hash: two strings differing only in their last byte hash apart. */
  lemma LastByteChangesStringHash(s: seq<Byte>, a: Byte, b: Byte)
    requires a != b
    ensures StringHash(s + [a]) != StringHash(s + [b])
  {
    assert (s + [a])[..|s|] == s && (s + [b])[..|s|] == s;
    var h := StringHash(s) * 31;
    var d := CharValue(a) - CharValue(b);
    assert d != 0 && -256 < d < 256;
    var q := (h + CharValue(a)) / WORD - (h + CharValue(b)) / WORD;
    assert d == q * WORD + ((h + CharValue(a)) % WORD - (h + CharValue(b)) % WORD);
  }

  /**
   * hash_function as written: the loop over the bytes up to the terminator,
   * then the interface index added as unsigned, then the reduction.
   */
  method HashFunction(destination: CString, ifindex: Int32, size: nat) returns (index: nat)
    requires size > 0
    ensures index == Hash(destination, ifindex, size)
  {
    var hash: nat := 0;
    var i := 0;
    while i < |destination|
      invariant 0 <= i <= |destination|
      invariant hash == StringHash(destination[..i])
    {
      assert destination[..i + 1][..i] == destination[..i];
      hash := (hash * 31 + CharValue(destination[i])) % WORD;
      i := i + 1;
    }
    assert destination[..i] == destination;
    hash := (hash + ifindex) % WORD;
    index := hash % size;
  }
}
