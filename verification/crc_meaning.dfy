/**
 What the engine's words mean: every branch, bit by bit or by table, drives the same W-bit serial
 register. The register occupies the low W bits of the word (reversed in the reflected branch); what
 the non-reflected branches leave above them is junk that never flows back.
 */
module CrcMeaning {
  import opened Bits
  import opened Lfsr
  import opened CrcModel

  /** The bits of a byte in the order the engine consumes them. */
  function ByteBits(reflectInput: bool, b: Byte): (bits: Word)
    ensures |bits| == 8
  {
    if reflectInput then b else Rev(b)
  }

  /** The message as the bit stream the engine consumes. */
  function Stream(reflectInput: bool, data: seq<Byte>): (bits: Word)
    ensures |bits| == 8 * |data|
  {
    if data == [] then []
    else Stream(reflectInput, data[..|data| - 1]) + ByteBits(reflectInput, data[|data| - 1])
  }

  // ---------- Non-reflected branches ----------

  /** Bit `i` of a word shifted up by `k`. */
  predicate BitAt(r: Word, k: int, i: int) {
    k <= i < k + |r| && r[i - k]
  }

  /** `x` holds register `r` in the top of its low `m` bits, over zeros. */
  predicate UpHolds(x: Word, r: Word, m: nat) {
    && |r| <= m <= |x|
    && forall i :: 0 <= i < m ==> x[i] == BitAt(r, m - |r|, i)
  }

  /** As UpHolds, with the byte `b` added at the top of the `m` bits after `k` of its bits are used. */
  predicate UpMixed(x: Word, r: Word, m: nat, b: Byte, k: nat) {
    && 1 <= |r| <= m <= |x| && 8 <= m && k <= 8
    && forall i :: 0 <= i < m ==> x[i] == (BitAt(r, m - |r|, i) != BitAt(b, m - 8 + k, i))
  }

  lemma UpEnter(x: Word, r: Word, m: nat, b: Byte)
    requires 1 <= |r| && 8 <= m && UpHolds(x, r, m)
    ensures UpMixed(Xor(x, Shl(Cast(b, |x|), m - 8)), r, m, b, 0)
  {
  }

  lemma FeedBitAt(g: Word, r: Word, b: bool, k: nat, i: int)
    requires |g| == |r| >= 1 && 0 <= i < k + |r|
    ensures BitAt(FeedBit(g, r, b), k, i) == (BitAt(r, k, i - 1) != ((r[|r| - 1] != b) && BitAt(g, k, i)))
  {
  }

  lemma UpRoundMixed(x: Word, r: Word, m: nat, b: Byte, k: nat, poly: Word, g: Word)
    requires UpMixed(x, r, m, b, k) && k < 8
    requires |g| == |r| && |poly| == |x| && UpHolds(poly, g, m)
    ensures UpMixed(UpRound(x, poly, m - 1), FeedBit(g, r, b[7 - k]), m, b, k + 1)
  {
    var w, y, s := |r|, UpRound(x, poly, m - 1), FeedBit(g, r, b[7 - k]);
    var f := r[w - 1] != b[7 - k];
    assert x[m - 1] == f;
    forall i | 0 <= i < m
      ensures y[i] == (BitAt(s, m - w, i) != BitAt(b, m - 8 + k + 1, i))
    {
      assert y[i] == ((i > 0 && x[i - 1]) != (f && poly[i]));
      FeedBitAt(g, r, b[7 - k], m - w, i);
      assert BitAt(b, m - 8 + k + 1, i) == BitAt(b, m - 8 + k, i - 1);
    }
  }

  lemma {:induction false} UpRoundsMixed(x: Word, r: Word, m: nat, b: Byte, k: nat, poly: Word, g: Word)
    requires UpMixed(x, r, m, b, 0) && k <= 8
    requires |g| == |r| && |poly| == |x| && UpHolds(poly, g, m)
    ensures UpMixed(UpRounds(x, poly, m - 1, k), Feed(g, r, Rev(b)[..k]), m, b, k)
  {
    var bits := Rev(b);
    if k == 0 {
      assert bits[..0] == [];
    } else {
      var y, s := UpRounds(x, poly, m - 1, k - 1), Feed(g, r, bits[..k - 1]);
      FeedPrefix(g, r, bits, k - 1);
      assert bits[k - 1] == b[7 - (k - 1)];
      assert Feed(g, r, bits[..k]) == FeedBit(g, s, b[7 - (k - 1)]);
      UpRoundsMixed(x, r, m, b, k - 1, poly, g);
      UpRoundMixed(y, s, m, b, k - 1, poly, g);
    }
  }

  lemma {:induction false} UpRunHolds(x: Word, r: Word, m: nat, poly: Word, g: Word, data: seq<Byte>)
    requires 1 <= |r| && 8 <= m && UpHolds(x, r, m)
    requires |g| == |r| && |poly| == |x| && UpHolds(poly, g, m)
    ensures UpHolds(UpRun(x, poly, m - 1, data), Feed(g, r, Stream(false, data)), m)
  {
    if data != [] {
      var n := |data| - 1;
      var y, s := UpRun(x, poly, m - 1, data[..n]), Feed(g, r, Stream(false, data[..n]));
      var b := data[n];
      UpRunHolds(x, r, m, poly, g, data[..n]);
      UpEnter(y, s, m, b);
      var y' := Xor(y, Shl(Cast(b, |x|), m - 8));
      UpRoundsMixed(y', s, m, b, CHAR_BIT, poly, g);
      assert Rev(b)[..8] == Rev(b);
      FeedAppend(g, r, Stream(false, data[..n]), Rev(b));
    }
  }

  // ---------- Reflected branch ----------

  /** `x` holds register `r` reversed in its low bits, and nothing above. */
  predicate DownHolds(x: Word, r: Word) {
    && |r| <= |x|
    && forall i :: 0 <= i < |x| ==> x[i] == (i < |r| && r[|r| - 1 - i])
  }

  predicate DownMixed(x: Word, r: Word, b: Byte, k: nat) {
    && 1 <= |r| <= |x| && 8 <= |x| && k <= 8
    && forall i :: 0 <= i < |x| ==> x[i] == ((i < |r| && r[|r| - 1 - i]) != (i + k < 8 && b[i + k]))
  }

  lemma DownRoundMixed(x: Word, r: Word, b: Byte, k: nat, poly: Word, g: Word)
    requires DownMixed(x, r, b, k) && k < 8
    requires |g| == |r| && |poly| == |x| && DownHolds(poly, g)
    ensures DownMixed(DownRound(x, poly), FeedBit(g, r, b[k]), b, k + 1)
  {
    var w, y, s := |r|, DownRound(x, poly), FeedBit(g, r, b[k]);
    assert x[0] == (r[w - 1] != b[k]);
    forall i | 0 <= i < |x|
      ensures y[i] == ((i < w && s[w - 1 - i]) != (i + k + 1 < 8 && b[i + k + 1]))
    {
      assert y[i] == ((i + 1 < |x| && x[i + 1]) != (x[0] && poly[i]));
      if i < w { assert s[w - 1 - i] == ((w - 1 - i > 0 && r[w - 2 - i]) != (x[0] && g[w - 1 - i])); }
    }
  }

  lemma {:induction false} DownRoundsMixed(x: Word, r: Word, b: Byte, k: nat, poly: Word, g: Word)
    requires DownMixed(x, r, b, 0) && k <= 8
    requires |g| == |r| && |poly| == |x| && DownHolds(poly, g)
    ensures DownMixed(DownRounds(x, poly, k), Feed(g, r, b[..k]), b, k)
  {
    if k == 0 {
      assert b[..0] == [];
    } else {
      var y, s := DownRounds(x, poly, k - 1), Feed(g, r, b[..k - 1]);
      FeedPrefix(g, r, b, k - 1);
      assert Feed(g, r, b[..k]) == FeedBit(g, s, b[k - 1]);
      DownRoundsMixed(x, r, b, k - 1, poly, g);
      DownRoundMixed(y, s, b, k - 1, poly, g);
    }
  }

  lemma {:induction false} DownRunHolds(x: Word, r: Word, poly: Word, g: Word, data: seq<Byte>)
    requires 1 <= |r| && 8 <= |x| && DownHolds(x, r)
    requires |g| == |r| && |poly| == |x| && DownHolds(poly, g)
    ensures DownHolds(DownRun(x, poly, data), Feed(g, r, Stream(true, data)))
  {
    if data != [] {
      var n := |data| - 1;
      var y, s := DownRun(x, poly, data[..n]), Feed(g, r, Stream(true, data[..n]));
      var b := data[n];
      DownRunHolds(x, r, poly, g, data[..n]);
      var y' := Xor(y, Cast(b, |x|));
      assert DownMixed(y', s, b, 0);
      DownRoundsMixed(y', s, b, CHAR_BIT, poly, g);
      assert b[..8] == b;
      FeedAppend(g, r, Stream(true, data[..n]), b);
    }
  }

  // ---------- Both forms of CalculateRemainder ----------

  /** The generator polynomial: the low W bits of the parameter. Bits above never matter. */
  function Gen(p: Params): (g: Word)
    requires p.WellTyped()
    ensures |g| == p.width
  {
    p.polynomial[..p.width]
  }

  /** The serial register that a remainder word stands for. */
  function Register(p: Params, x: Word): (r: Word)
    requires p.WellTyped() && |x| == p.digits
    ensures |r| == p.width
  {
    if p.reflectInput then Rev(x[..p.width]) else x[..p.width]
  }

  /** The reflected loop shifts every digit down, so there the word must carry nothing above bit W. */
  predicate Clean(p: Params, x: Word) {
    p.reflectInput ==> Fits(x, p.width)
  }

  /** The bit-by-bit loops compute the serial register, in all three branches. */
  lemma BitRemainderMeaning(p: Params, data: seq<Byte>, x: Word)
    requires p.WellTyped() && |x| == p.digits && Clean(p, x)
    ensures Register(p, BitRemainder(p, data, x)) == Feed(Gen(p), Register(p, x), Stream(p.reflectInput, data))
    ensures Clean(p, BitRemainder(p, data, x))
  {
    if p.reflectInput || p.width >= 8 { WideBranches(p, data, x); } else { NarrowBranch(p, data, x); }
  }

  lemma WideBranches(p: Params, data: seq<Byte>, x: Word)
    requires p.WellTyped() && |x| == p.digits && Clean(p, x) && (p.reflectInput || p.width >= 8)
    ensures Register(p, BitRemainder(p, data, x)) == Feed(Gen(p), Register(p, x), Stream(p.reflectInput, data))
    ensures Clean(p, BitRemainder(p, data, x))
  {
    var g, r, w := Gen(p), Register(p, x), p.width;
    ServesRegister(p, x);
    PolynomialHolds(p);
    if p.reflectInput {
      DownRunHolds(x, r, Reflect(p.polynomial, w), g, data);
    } else {
      UpRunHolds(x, r, w, p.polynomial, g, data);
    }
    RegisterServes(p, BitRemainder(p, data, x), Feed(g, r, Stream(p.reflectInput, data)));
  }

  lemma NarrowBranch(p: Params, data: seq<Byte>, x: Word)
    requires p.WellTyped() && |x| == p.digits && !p.reflectInput && p.width < 8
    ensures Register(p, BitRemainder(p, data, x)) == Feed(Gen(p), Register(p, x), Stream(false, data))
  {
    var g, r, shift := Gen(p), Register(p, x), 8 - p.width;
    ServesRegister(p, x);
    PolynomialHolds(p);
    UpRunHolds(Shl(x, shift), r, 8, Shl(p.polynomial, shift), g, data);
    RegisterServes(p, UpRun(Shl(x, shift), Shl(p.polynomial, shift), 7, data), Feed(g, r, Stream(false, data)));
  }

  /** The polynomial as each branch prepares it. */
  lemma PolynomialHolds(p: Params)
    requires p.WellTyped()
    ensures DownHolds(Reflect(p.polynomial, p.width), Gen(p))
    ensures p.width >= 8 ==> UpHolds(p.polynomial, Gen(p), p.width)
    ensures p.width < 8 ==> UpHolds(Shl(p.polynomial, 8 - p.width), Gen(p), 8)
  {
  }

  /** What the table loop needs of an entry standing for register `s`. Above bit W (bit 8 for narrow
      CRCs) the non-reflected branches accept anything. */
  predicate Serves(p: Params, s: Word, e: Word) {
    if p.reflectInput then DownHolds(e, s)
    else UpHolds(e, s, if p.width >= 8 then p.width else 8)
  }

  predicate EntryOk(p: Params, b: Byte, e: Word)
    requires p.WellTyped()
  {
    Serves(p, Feed(Gen(p), Zero(p.width), ByteBits(p.reflectInput, b)), e)
  }

  predicate TableOk(p: Params, table: seq<Word>)
    requires p.WellTyped()
  {
    TableTyped(p, table) && forall k :: 0 <= k < 256 ==> EntryOk(p, OfNat(k, 8), table[k])
  }

  lemma StreamOne(reflectInput: bool, b: Byte)
    ensures Stream(reflectInput, [b]) == ByteBits(reflectInput, b)
  {
    assert [b][..0] == [];
  }

  /** The bit loop fixes the low W bits of a word only; that is enough for an entry, masked or not. */
  lemma EntryFromWord(p: Params, crc: Word, masked: bool)
    requires p.WellTyped() && |crc| == p.digits && Clean(p, crc)
    ensures Serves(p, Register(p, crc), EntryOf(p, crc, masked))
  {
    var w, s, e := p.width, Register(p, crc), EntryOf(p, crc, masked);
    if p.reflectInput {
      forall i | 0 <= i < w
        ensures e[i] == s[w - 1 - i]
      {
        assert s[w - 1 - i] == crc[..w][i];
      }
    } else {
      assert forall i :: 0 <= i < w ==> crc[i] == s[i];
    }
  }

  /** A built entry serves, with or without the mask in `InitTable`. */
  lemma EntryServes(p: Params, b: Byte, masked: bool)
    requires p.WellTyped()
    ensures EntryOk(p, b, TableEntry(p, b, masked))
  {
    var x := Zero(p.digits);
    BitRemainderMeaning(p, [b], x);
    StreamOne(p.reflectInput, b);
    assert Register(p, x) == Zero(p.width);
    EntryFromWord(p, BitRemainder(p, [b], x), masked);
  }

  lemma BuiltTableOk(p: Params, masked: bool)
    requires p.WellTyped()
    ensures TableOk(p, BuildTable(p, masked))
  {
    forall k | 0 <= k < 256
      ensures EntryOk(p, OfNat(k, 8), BuildTable(p, masked)[k])
    {
      BuildTableAt(p, masked, k);
      EntryServes(p, OfNat(k, 8), masked);
    }
  }

  // ---------- Table-driven loops ----------

  lemma DownIndex(x: Word, r: Word, b: Byte)
    requires 8 <= |x| && DownHolds(x, r)
    ensures Cast(Xor(x, Cast(b, |x|)), 8) == Absorb(r, b)
  {
  }

  lemma DownLookupHolds(p: Params, table: seq<Word>, x: Word, r: Word, b: Byte)
    requires p.WellTyped() && p.reflectInput && TableOk(p, table)
    requires |x| == p.digits && |r| == p.width && DownHolds(x, r)
    ensures DownHolds(DownLookup(table, x, b), Feed(Gen(p), r, b))
  {
    var g, w, k := Gen(p), p.width, Index(Xor(x, Cast(b, |x|)));
    DownIndex(x, r, b);
    assert EntryOk(p, OfNat(k, 8), table[k]);
    FeedAbsorb(g, r, b);
    DownShift(x, r, table[k], Feed(g, Zero(w), Absorb(r, b)));
  }

  /** Shifting a word down by a byte shifts the register it holds up. */
  lemma DownShift(x: Word, r: Word, e: Word, z: Word)
    requires |e| == |x| && |z| == |r| && DownHolds(x, r) && DownHolds(e, z)
    ensures DownHolds(Xor(Shr(x, 8), e), Xor(Shl(r, 8), z))
  {
    var w, y, s := |r|, Xor(Shr(x, 8), e), Xor(Shl(r, 8), z);
    forall i | 0 <= i < |x|
      ensures y[i] == (i < w && s[w - 1 - i])
    {
      assert Shr(x, 8)[i] == (i + 8 < |x| && x[i + 8]);
      if i < w { assert s[w - 1 - i] == (Shl(r, 8)[w - 1 - i] != z[w - 1 - i]); }
    }
  }

  lemma UpIndex(x: Word, r: Word, b: Byte, m: nat)
    requires 8 <= m && |r| <= m && UpHolds(x, r, m)
    ensures Rev(Cast(Xor(Shr(x, m - 8), Cast(b, |x|)), 8)) == Absorb(r, Rev(b))
  {
    var idx, bits := Cast(Xor(Shr(x, m - 8), Cast(b, |x|)), 8), Absorb(r, Rev(b));
    forall k | 0 <= k < 8
      ensures Rev(idx)[k] == bits[k]
    {
      var j := 7 - k;
      assert idx[j] == (x[j + m - 8] != b[j]);
      assert x[j + m - 8] == BitAt(r, m - |r|, j + m - 8);
    }
  }

  lemma UpLookupHolds(p: Params, table: seq<Word>, x: Word, r: Word, b: Byte)
    requires p.WellTyped() && !p.reflectInput && p.width >= 8 && TableOk(p, table)
    requires |x| == p.digits && |r| == p.width && UpHolds(x, r, p.width)
    ensures UpHolds(UpLookup(table, p.width, x, b), Feed(Gen(p), r, Rev(b)), p.width)
  {
    var g, w, k := Gen(p), p.width, Index(Xor(Shr(x, p.width - 8), Cast(b, |x|)));
    UpIndex(x, r, b, w);
    assert EntryOk(p, OfNat(k, 8), table[k]);
    FeedAbsorb(g, r, Rev(b));
    UpShift(x, r, table[k], Feed(g, Zero(w), Absorb(r, Rev(b))));
  }

  lemma UpShift(x: Word, r: Word, e: Word, z: Word)
    requires |e| == |x| && |z| == |r| && UpHolds(x, r, |r|) && UpHolds(e, z, |r|)
    ensures UpHolds(Xor(Shl(x, 8), e), Xor(Shl(r, 8), z), |r|)
  {
    var w, y, s := |r|, Xor(Shl(x, 8), e), Xor(Shl(r, 8), z);
    forall i | 0 <= i < w
      ensures y[i] == BitAt(s, 0, i)
    {
      assert y[i] == ((i >= 8 && x[i - 8]) != e[i]);
      assert e[i] == BitAt(z, 0, i);
      assert s[i] == (Shl(r, 8)[i] != z[i]);
    }
  }

  lemma NarrowLookupHolds(p: Params, table: seq<Word>, x: Word, r: Word, b: Byte)
    requires p.WellTyped() && !p.reflectInput && p.width < 8 && TableOk(p, table)
    requires |x| == p.digits && |r| == p.width && UpHolds(x, r, 8)
    ensures UpHolds(NarrowLookup(table, x, b), Feed(Gen(p), r, Rev(b)), 8)
  {
    var g, w, k := Gen(p), p.width, Index(Xor(x, Cast(b, |x|)));
    assert Shr(x, 0) == x;
    UpIndex(x, r, b, 8);
    assert EntryOk(p, OfNat(k, 8), table[k]);
    FeedAbsorb(g, r, Rev(b));
    assert Shl(r, 8) == Zero(w);
    XorZero(Feed(g, Zero(w), Absorb(r, Rev(b))));
  }

  lemma LookupHolds(p: Params, table: seq<Word>, x: Word, r: Word, b: Byte)
    requires p.WellTyped() && TableOk(p, table)
    requires |x| == p.digits && |r| == p.width && Serves(p, r, x)
    ensures Serves(p, Feed(Gen(p), r, ByteBits(p.reflectInput, b)), LookupStep(p, table, x, b))
  {
    if p.reflectInput {
      DownLookupHolds(p, table, x, r, b);
    } else if p.width >= 8 {
      UpLookupHolds(p, table, x, r, b);
    } else {
      NarrowLookupHolds(p, table, x, r, b);
    }
  }

  lemma {:induction false} LookupRunHolds(p: Params, table: seq<Word>, data: seq<Byte>, x: Word, r: Word)
    requires p.WellTyped() && TableOk(p, table)
    requires |x| == p.digits && |r| == p.width && Serves(p, r, x)
    ensures Serves(p, Feed(Gen(p), r, Stream(p.reflectInput, data)), LookupRun(p, table, data, x))
  {
    if data != [] {
      var n := |data| - 1;
      var bits := Stream(p.reflectInput, data[..n]);
      FeedAppend(Gen(p), r, bits, ByteBits(p.reflectInput, data[n]));
      LookupRunHolds(p, table, data[..n], x, r);
      LookupHolds(p, table, LookupRun(p, table, data[..n], x), Feed(Gen(p), r, bits), data[n]);
    }
  }

  /** The word of a register, and back. */
  lemma ServesRegister(p: Params, x: Word)
    requires p.WellTyped() && |x| == p.digits && Clean(p, x)
    ensures p.reflectInput || p.width >= 8 ==> Serves(p, Register(p, x), x)
    ensures !p.reflectInput && p.width < 8 ==> Serves(p, Register(p, x), Shl(x, 8 - p.width))
  {
    EntryFromWord(p, x, false);
  }

  lemma RegisterServes(p: Params, x: Word, r: Word)
    requires p.WellTyped() && |x| == p.digits && |r| == p.width && Serves(p, r, x)
    ensures p.reflectInput || p.width >= 8 ==> Register(p, x) == r && Clean(p, x)
    ensures !p.reflectInput && p.width < 8 ==> Register(p, Shr(x, 8 - p.width)) == r
  {
    var w := p.width;
    if p.reflectInput {
      assert Rev(x[..w]) == r;
    } else if w >= 8 {
      assert x[..w] == r;
    } else {
      assert Shr(x, 8 - w)[..w] == r;
    }
  }

  /** The table loops compute the same serial register, for any table that serves. */
  lemma TableRemainderMeaning(p: Params, table: seq<Word>, data: seq<Byte>, x: Word)
    requires p.WellTyped() && TableOk(p, table) && |x| == p.digits && Clean(p, x)
    ensures Register(p, TableRemainder(p, table, data, x)) == Feed(Gen(p), Register(p, x), Stream(p.reflectInput, data))
    ensures Clean(p, TableRemainder(p, table, data, x))
  {
    var narrow := !p.reflectInput && p.width < 8;
    var r, y := Register(p, x), if narrow then Shl(x, 8 - p.width) else x;
    ServesRegister(p, x);
    LookupRunHolds(p, table, data, y, r);
    RegisterServes(p, LookupRun(p, table, data, y), Feed(Gen(p), r, Stream(p.reflectInput, data)));
  }

  // ---------- Finalize ----------

  /** The CRC word that a register yields: output order, final XOR, nothing above bit W. */
  function Emit(p: Params, r: Word): (c: Word)
    requires p.WellTyped() && |r| == p.width
    ensures |c| == p.digits && Fits(c, p.width)
  {
    Cast(Xor(if p.reflectOutput then Rev(r) else r, p.finalXOR[..p.width]), p.digits)
  }

  /** Only the register reaches the CRC: whatever lies above bit W is dropped. */
  lemma FinishMeaning(p: Params, x: Word)
    requires p.WellTyped() && |x| == p.digits
    ensures Finish(p, x) == Emit(p, Register(p, x))
  {
    var w, c, e := p.width, Finish(p, x), Emit(p, Register(p, x));
    forall i | 0 <= i < p.digits
      ensures c[i] == e[i]
    {
      if i < w { assert x[..w][i] == x[i] && x[..w][w - 1 - i] == x[w - 1 - i]; }
    }
  }

  lemma EmitAt(p: Params, r: Word, i: nat)
    requires p.WellTyped() && |r| == p.width && i < p.width
    ensures var j := if p.reflectOutput then p.width - 1 - i else i;
            Emit(p, r)[j] == (r[i] != p.finalXOR[j])
  {
    var j := if p.reflectOutput then p.width - 1 - i else i;
    var x, f := if p.reflectOutput then Rev(r) else r, p.finalXOR[..p.width];
    assert x[j] == r[i] && f[j] == p.finalXOR[j];
    assert Xor(x, f)[j] == (x[j] != f[j]);
    assert Cast(Xor(x, f), p.digits)[j] == Xor(x, f)[j];
  }

  lemma EmitInjective(p: Params, r: Word, r': Word)
    requires p.WellTyped() && |r| == |r'| == p.width
    requires Emit(p, r) == Emit(p, r')
    ensures r == r'
  {
    forall i | 0 <= i < p.width
      ensures r[i] == r'[i]
    {
      EmitAt(p, r, i);
      EmitAt(p, r', i);
    }
  }

  /** A final XOR that the reflected loop may take in: one that fits the CRC. */
  predicate Resumable(p: Params) {
    p.reflectInput && p.reflectOutput ==> Fits(p.finalXOR, p.width)
  }

  lemma ResumeClean(p: Params, crc: Word)
    requires p.WellTyped() && |crc| == p.digits && Resumable(p)
    ensures Clean(p, Resume(p, crc))
  {
  }

  /** Resuming from a CRC restores the register it came from. */
  lemma ResumeMeaning(p: Params, r: Word)
    requires p.WellTyped() && |r| == p.width
    ensures Register(p, Resume(p, Emit(p, r))) == r
  {
    var c := Emit(p, r);
    var x := Resume(p, c);
    var y := Register(p, x);
    forall i | 0 <= i < p.width
      ensures y[i] == r[i]
    {
      RegisterAt(p, x, i);
      ResumeAt(p, c, if p.reflectInput then p.width - 1 - i else i);
      EmitAt(p, r, i);
    }
  }

  lemma RegisterAt(p: Params, x: Word, i: nat)
    requires p.WellTyped() && |x| == p.digits && i < p.width
    ensures Register(p, x)[i] == x[if p.reflectInput then p.width - 1 - i else i]
  {
  }

  lemma ResumeAt(p: Params, c: Word, j: nat)
    requires p.WellTyped() && |c| == p.digits && j < p.width
    ensures var k := if p.reflectInput != p.reflectOutput then p.width - 1 - j else j;
            Resume(p, c)[j] == (c[k] != p.finalXOR[k])
  {
  }
}
