/**
 The bit-serial form of a CRC: a register of W bits that consumes one message bit at a time, most
 significant end first. It is the common meaning of every branch of the engine, whatever the width of
 the machine word, the byte order of the bits or the use of a table.
 */
module Lfsr {
  import opened Bits

  /** One clock: shift up and, when the bit falling out differs from the incoming bit, add `g`. */
  function FeedBit(g: Word, r: Word, b: bool): (s: Word)
    requires |g| == |r| >= 1
    ensures |s| == |r|
    ensures forall i {:trigger s[i]} :: 0 <= i < |r| ==> s[i] == ((i > 0 && r[i - 1]) != ((r[|r| - 1] != b) && g[i]))
  {
    seq(|r|, i requires 0 <= i < |r| => (i > 0 && r[i - 1]) != ((r[|r| - 1] != b) && g[i]))
  }

  function Feed(g: Word, r: Word, bits: Word): (s: Word)
    requires |g| == |r| >= 1
    ensures |s| == |r|
  {
    if bits == [] then r
    else FeedBit(g, Feed(g, r, bits[..|bits| - 1]), bits[|bits| - 1])
  }

  lemma FeedSnoc(g: Word, r: Word, bits: Word, b: bool)
    requires |g| == |r| >= 1
    ensures Feed(g, r, bits + [b]) == FeedBit(g, Feed(g, r, bits), b)
  {
    assert (bits + [b])[..|bits|] == bits;
  }

  lemma FeedPrefix(g: Word, r: Word, bits: Word, k: nat)
    requires |g| == |r| >= 1 && k < |bits|
    ensures Feed(g, r, bits[..k + 1]) == FeedBit(g, Feed(g, r, bits[..k]), bits[k])
  {
    assert bits[..k + 1] == bits[..k] + [bits[k]];
    FeedSnoc(g, r, bits[..k], bits[k]);
  }

  lemma {:induction false} FeedAppend(g: Word, r: Word, a: Word, b: Word)
    requires |g| == |r| >= 1
    ensures Feed(g, r, a + b) == Feed(g, Feed(g, r, a), b)
  {
    if b == [] {
      assert a + b == a;
    } else {
      var n := |b| - 1;
      assert a + b == (a + b[..n]) + [b[n]];
      FeedSnoc(g, r, a + b[..n], b[n]);
      FeedAppend(g, r, a, b[..n]);
    }
  }

  lemma FeedBitLinear(g: Word, r: Word, r': Word, b: bool, b': bool)
    requires |g| == |r| == |r'| >= 1
    ensures FeedBit(g, Xor(r, r'), b != b') == Xor(FeedBit(g, r, b), FeedBit(g, r', b'))
  {
    var lhs, rhs := FeedBit(g, Xor(r, r'), b != b'), Xor(FeedBit(g, r, b), FeedBit(g, r', b'));
    assert Xor(r, r')[|r| - 1] == (r[|r| - 1] != r'[|r| - 1]);
    forall i | 0 <= i < |r|
      ensures lhs[i] == rhs[i]
    {
      if i > 0 { assert Xor(r, r')[i - 1] == (r[i - 1] != r'[i - 1]); }
    }
  }

  /** Feeding is linear over GF(2) in the register and the message together. */
  lemma {:induction false} FeedLinear(g: Word, r: Word, r': Word, bits: Word, bits': Word)
    requires |g| == |r| == |r'| >= 1 && |bits| == |bits'|
    ensures Feed(g, Xor(r, r'), Xor(bits, bits')) == Xor(Feed(g, r, bits), Feed(g, r', bits'))
  {
    if bits != [] {
      var n, x := |bits| - 1, Xor(bits, bits');
      assert x[..n] == Xor(bits[..n], bits'[..n]);
      assert x[n] == (bits[n] != bits'[n]);
      FeedLinear(g, r, r', bits[..n], bits'[..n]);
      FeedBitLinear(g, Feed(g, r, bits[..n]), Feed(g, r', bits'[..n]), bits[n], bits'[n]);
    }
  }

  /** The message with the register added to its first bits, the register's top bit first. */
  function Absorb(r: Word, bits: Word): (s: Word)
    ensures |s| == |bits|
    ensures forall k {:trigger s[k]} :: 0 <= k < |bits| ==> s[k] == (bits[k] != (k < |r| && r[|r| - 1 - k]))
  {
    seq(|bits|, k requires 0 <= k < |bits| => bits[k] != (k < |r| && r[|r| - 1 - k]))
  }

  lemma AbsorbStep(g: Word, r: Word, z: Word, n: nat, b: bool)
    requires |g| == |r| == |z| >= 1
    ensures FeedBit(g, Xor(Shl(r, n), z), b)
         == Xor(Shl(r, n + 1), FeedBit(g, z, b != (n < |r| && r[|r| - 1 - n])))
  {
    var w := |r|;
    var x := Xor(Shl(r, n), z);
    var c := b != (n < w && r[w - 1 - n]);
    assert (x[w - 1] != b) == (z[w - 1] != c);
    var lhs, rhs := FeedBit(g, x, b), Xor(Shl(r, n + 1), FeedBit(g, z, c));
    forall i | 0 <= i < w
      ensures lhs[i] == rhs[i]
    {
      if i > 0 { assert x[i - 1] == (Shl(r, n)[i - 1] != z[i - 1]); }
    }
  }

  /** Starting from `r` is starting from zero on a message that has absorbed `r`. This is what lets a
      table look eight bits up at once. */
  lemma {:induction false} FeedAbsorb(g: Word, r: Word, bits: Word)
    requires |g| == |r| >= 1
    ensures Feed(g, r, bits) == Xor(Shl(r, |bits|), Feed(g, Zero(|r|), Absorb(r, bits)))
  {
    if bits == [] {
      assert Xor(Shl(r, 0), Zero(|r|)) == r;
    } else {
      var n, a := |bits| - 1, Absorb(r, bits);
      var z := Feed(g, Zero(|r|), Absorb(r, bits[..n]));
      FeedAbsorb(g, r, bits[..n]);
      assert a[..n] == Absorb(r, bits[..n]);
      assert a[n] == (bits[n] != (n < |r| && r[|r| - 1 - n]));
      assert Feed(g, Zero(|r|), a) == FeedBit(g, z, a[n]);
      AbsorbStep(g, r, z, n, bits[n]);
    }
  }

  /** A register holding `burst` in its top bits, first bit topmost. */
  function Park(burst: Word, w: nat): (r: Word)
    requires |burst| <= w
    ensures |r| == w && forall i :: 0 <= i < w ==> r[i] == (w - 1 - i < |burst| && burst[w - 1 - i])
  {
    seq(w, i requires 0 <= i < w => w - 1 - i < |burst| && burst[w - 1 - i])
  }

  lemma ParkBits(burst: Word, w: nat)
    requires |burst| <= w
    ensures forall k :: 0 <= k < |burst| ==> burst[k] == Park(burst, w)[w - 1 - k]
    ensures Absorb(Park(burst, w), Zero(|burst|)) == burst
    ensures Shl(Park(burst, w), |burst|) == Zero(w)
  {
    var r := Park(burst, w);
    forall k | 0 <= k < |burst|
      ensures burst[k] == r[w - 1 - k]
    {
      assert r[w - 1 - k] == (k < |burst| && burst[k]);
    }
  }

  /** Feeding zeros to a parked burst replays it from a zero register. */
  lemma FeedReplay(g: Word, burst: Word)
    requires |g| >= 1 && |burst| <= |g|
    ensures Feed(g, Park(burst, |g|), Zero(|burst|)) == Feed(g, Zero(|g|), burst)
  {
    ParkBits(burst, |g|);
    FeedAbsorb(g, Park(burst, |g|), Zero(|burst|));
    XorZero(Feed(g, Zero(|g|), burst));
  }

  lemma XorZero(a: Word)
    ensures Xor(Zero(|a|), a) == a
  {
  }

  lemma {:induction false} FeedZero(g: Word, n: nat)
    requires |g| >= 1
    ensures Feed(g, Zero(|g|), Zero(n)) == Zero(|g|)
  {
    if n > 0 {
      FeedZero(g, n - 1);
      assert Zero(n)[..n - 1] == Zero(n - 1);
    }
  }

  lemma FeedBitInjective(g: Word, r: Word, r': Word, b: bool)
    requires |g| == |r| == |r'| >= 1 && g[0]
    requires FeedBit(g, r, b) == FeedBit(g, r', b)
    ensures r == r'
  {
    var s, s' := FeedBit(g, r, b), FeedBit(g, r', b);
    assert s[0] == s'[0];
    assert r[|r| - 1] == r'[|r| - 1];
    forall i | 0 <= i < |r| - 1
      ensures r[i] == r'[i]
    {
      assert s[i + 1] == s'[i + 1];
    }
  }

  lemma {:induction false} FeedInjective(g: Word, r: Word, r': Word, bits: Word)
    requires |g| == |r| == |r'| >= 1 && g[0]
    requires Feed(g, r, bits) == Feed(g, r', bits)
    ensures r == r'
  {
    if bits != [] {
      var n := |bits| - 1;
      FeedBitInjective(g, Feed(g, r, bits[..n]), Feed(g, r', bits[..n]), bits[n]);
      FeedInjective(g, r, r', bits[..n]);
    }
  }

  lemma FeedPadded(g: Word, lo: nat, burst: Word, hi: nat)
    requires |g| >= 1
    ensures Feed(g, Zero(|g|), Zero(lo) + burst + Zero(hi)) == Feed(g, Feed(g, Zero(|g|), burst), Zero(hi))
  {
    FeedAppend(g, Zero(|g|), Zero(lo) + burst, Zero(hi));
    FeedAppend(g, Zero(|g|), Zero(lo), burst);
    FeedZero(g, lo);
  }

  /** With `g[0]` set, a nonzero burst of at most W bits never leaves a zero register. */
  lemma BurstLeavesMark(g: Word, lo: nat, burst: Word, hi: nat)
    requires |g| >= 1 && g[0] && |burst| <= |g|
    requires burst != Zero(|burst|)
    ensures Feed(g, Zero(|g|), Zero(lo) + burst + Zero(hi)) != Zero(|g|)
  {
    var w, zero, k := |g|, Zero(|g|), |burst|;
    FeedPadded(g, lo, burst, hi);
    FeedZero(g, hi);
    FeedZero(g, k);
    // Park the burst in the top bits of a register: feeding zeros then replays it.
    FeedReplay(g, burst);
    ParkBits(burst, w);
    if Feed(g, Feed(g, zero, burst), Zero(hi)) == zero {
      FeedInjective(g, Feed(g, zero, burst), zero, Zero(hi));
      FeedInjective(g, Park(burst, w), zero, Zero(k));
      assert false;
    }
  }

  /** The register whose next clock clears it, when `g[0]` is not set. */
  function Blind(g: Word): (r: Word)
    requires |g| >= 1
    ensures |r| == |g| && r[|g| - 1] && forall i :: 0 <= i < |g| - 1 ==> r[i] == g[i + 1]
  {
    seq(|g|, i requires 0 <= i < |g| => i == |g| - 1 || g[i + 1])
  }

  lemma BlindParked(g: Word)
    requires |g| >= 1 && !g[0]
    ensures Park(Rev(Blind(g)), |g|) == Blind(g)
    ensures FeedBit(g, Blind(g), false) == Zero(|g|)
  {
  }

  lemma {:induction false} FeedCleared(g: Word, r: Word, n: nat)
    requires |g| == |r| >= 1 && n >= 1
    requires FeedBit(g, r, false) == Zero(|g|)
    ensures Feed(g, r, Zero(n)) == Zero(|g|)
  {
    assert Zero(n)[..n - 1] == Zero(n - 1);
    if n > 1 {
      FeedCleared(g, r, n - 1);
    }
  }

  /** Without `g[0]` some burst of W bits goes unseen, wherever it stands in the message. */
  lemma BlindBurst(g: Word, lo: nat, hi: nat)
    requires |g| >= 1 && !g[0]
    ensures Feed(g, Zero(|g|), Zero(lo) + Rev(Blind(g)) + Zero(hi)) == Zero(|g|)
  {
    var burst := Rev(Blind(g));
    BlindParked(g);
    FeedCleared(g, Blind(g), |g|);
    FeedReplay(g, burst);
    FeedPadded(g, lo, burst, hi);
    FeedZero(g, hi);
  }
}
