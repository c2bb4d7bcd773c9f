/**
 Fixed-width machine words as sequences of bits. Bit `i` of a word sits at index `i`, so index 0 is
 the least significant bit. The length of the sequence is the number of digits of the C++ integer type:
 shifts drop what leaves the word, exactly as a `static_cast` back to that type does.
 */
module Bits {

  type Word = seq<bool>

  /** The number of bits in a byte. */
  const CHAR_BIT: nat := 8

  /** An `unsigned char`. */
  type Byte = b: Word | |b| == 8 witness seq(8, i => false)

  function Zero(n: nat): (r: Word)
    ensures |r| == n && forall i :: 0 <= i < n ==> !r[i]
  {
    seq(n, i => false)
  }

  function Xor(a: Word, b: Word): (r: Word)
    requires |a| == |b|
    ensures |r| == |a| && forall i {:trigger r[i]} :: 0 <= i < |a| ==> r[i] == (a[i] != b[i])
  {
    seq(|a|, i requires 0 <= i < |a| => a[i] != b[i])
  }

  function Or(a: Word, b: Word): (r: Word)
    requires |a| == |b|
    ensures |r| == |a| && forall i {:trigger r[i]} :: 0 <= i < |a| ==> r[i] == (a[i] || b[i])
  {
    seq(|a|, i requires 0 <= i < |a| => a[i] || b[i])
  }

  function Shl(a: Word, k: nat): (r: Word)
    ensures |r| == |a| && forall i {:trigger r[i]} :: 0 <= i < |a| ==> r[i] == (i >= k && a[i - k])
  {
    seq(|a|, i requires 0 <= i < |a| => i >= k && a[i - k])
  }

  function Shr(a: Word, k: nat): (r: Word)
    ensures |r| == |a| && forall i {:trigger r[i]} :: 0 <= i < |a| ==> r[i] == (i + k < |a| && a[i + k])
  {
    seq(|a|, i requires 0 <= i < |a| => i + k < |a| && a[i + k])
  }

  /** Conversion to a type of `n` digits: zero extension, or truncation when `n` is smaller. */
  function Cast(a: Word, n: nat): (r: Word)
    ensures |r| == n && forall i {:trigger r[i]} :: 0 <= i < n ==> r[i] == (i < |a| && a[i])
  {
    seq(n, i => i < |a| && 0 <= i && a[i])
  }

  function Rev(a: Word): (r: Word)
    ensures |r| == |a| && forall i {:trigger r[i]} :: 0 <= i < |a| ==> r[i] == a[|a| - 1 - i]
  {
    seq(|a|, i requires 0 <= i < |a| => a[|a| - 1 - i])
  }

  /** `value & BIT_MASK` for a mask of `w` ones. */
  function Mask(a: Word, w: nat): (r: Word)
    ensures |r| == |a| && forall i {:trigger r[i]} :: 0 <= i < |a| ==> r[i] == (i < w && a[i])
  {
    seq(|a|, i requires 0 <= i < |a| => i < w && a[i])
  }

  /** No bit at or above position `w` is set. */
  predicate Fits(a: Word, w: nat) {
    forall i :: w <= i < |a| ==> !a[i]
  }

  lemma RevRev(a: Word)
    ensures Rev(Rev(a)) == a
  {
  }

  /** The number a word denotes, used where a word indexes a table. */
  function Value(a: Word): (v: nat)
  {
    if a == [] then 0 else (if a[0] then 1 else 0) + 2 * Value(a[1..])
  }

  function Pow2(n: nat): (p: nat)
    ensures p >= 1
  {
    if n == 0 then 1 else 2 * Pow2(n - 1)
  }

  /** The `n` low bits of a number. */
  function OfNat(v: nat, n: nat): (a: Word)
    ensures |a| == n
  {
    if n == 0 then [] else [v % 2 == 1] + OfNat(v / 2, n - 1)
  }

  lemma {:induction false} ValueBound(a: Word)
    ensures Value(a) < Pow2(|a|)
  {
    if a != [] { ValueBound(a[1..]); }
  }

  lemma {:induction false} OfNatValue(a: Word)
    ensures OfNat(Value(a), |a|) == a
  {
    if a != [] {
      OfNatValue(a[1..]);
      var v := Value(a[1..]);
      assert Value(a) / 2 == v;
      assert a == [a[0]] + a[1..];
    }
  }

  lemma {:induction false} ValueOfNat(v: nat, n: nat)
    requires v < Pow2(n)
    ensures Value(OfNat(v, n)) == v
  {
    if n > 0 {
      ValueOfNat(v / 2, n - 1);
      assert OfNat(v, n)[1..] == OfNat(v / 2, n - 1);
    }
  }
}
