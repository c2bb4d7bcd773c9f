/**
 The laws of the CRC engine, for every width, every register size, every message.
 */
module CrcLaws {
  import opened Bits
  import opened Lfsr
  import opened Gf2
  import opened CrcModel
  import opened CrcMeaning

  // ---------- Table-driven and bit-by-bit forms agree ----------

  lemma RegisterBits(p: Params, x: Word, y: Word)
    requires p.WellTyped() && |x| == |y| == p.digits && Register(p, x) == Register(p, y)
    ensures x[..p.width] == y[..p.width]
  {
    RevRev(x[..p.width]);
    RevRev(y[..p.width]);
  }

  /** The table loop agrees with the bit loop on the low W bits, in all three branches. */
  lemma TableRemainderAgrees(p: Params, masked: bool, data: seq<Byte>, x: Word)
    requires p.WellTyped() && |x| == p.digits && Clean(p, x)
    ensures TableRemainder(p, BuildTable(p, masked), data, x)[..p.width] == BitRemainder(p, data, x)[..p.width]
  {
    BuiltTableOk(p, masked);
    TableRemainderMeaning(p, BuildTable(p, masked), data, x);
    BitRemainderMeaning(p, data, x);
    RegisterBits(p, TableRemainder(p, BuildTable(p, masked), data, x), BitRemainder(p, data, x));
  }

  /** `Calculate` as a function of the message's bit stream. */
  lemma CalculateMeaning(p: Params, data: seq<Byte>)
    requires p.WellTyped() && Clean(p, p.initialValue)
    ensures Calculate(p, data) == Emit(p, Feed(Gen(p), Register(p, p.initialValue), Stream(p.reflectInput, data)))
  {
    BitRemainderMeaning(p, data, p.initialValue);
    FinishMeaning(p, BitRemainder(p, data, p.initialValue));
  }

  // ---------- Long division ----------

  /** The remainder word carries the remainder of r * x^(8n) + M * x^W modulo x^W + polynomial. */
  lemma RemainderIsDivision(p: Params, data: seq<Byte>, x: Word, s: Word)
    requires p.WellTyped() && |x| == p.digits && Clean(p, x) && |s| == p.width
    ensures s == Register(p, BitRemainder(p, data, x)) <==>
            exists q: Poly ::
              IsDivision(Dividend(Register(p, x), Stream(p.reflectInput, data)), Divisor(Gen(p)), q, s)
  {
    BitRemainderMeaning(p, data, x);
    FeedIsTheRemainder(Gen(p), Register(p, x), Stream(p.reflectInput, data), s);
  }

  // ---------- Multi-part CRCs ----------

  lemma {:induction false} StreamAppend(reflectInput: bool, a: seq<Byte>, b: seq<Byte>)
    ensures Stream(reflectInput, a + b) == Stream(reflectInput, a) + Stream(reflectInput, b)
  {
    if b == [] {
      assert a + b == a;
    } else {
      var n := |b| - 1;
      assert (a + b)[..|a + b| - 1] == a + b[..n];
      StreamAppend(reflectInput, a, b[..n]);
    }
  }

  lemma MoreMeaning(p: Params, data: seq<Byte>, crc: Word)
    requires p.WellTyped() && |crc| == p.digits && Resumable(p)
    ensures CalculateMore(p, data, crc)
         == Emit(p, Feed(Gen(p), Register(p, Resume(p, crc)), Stream(p.reflectInput, data)))
  {
    ResumeClean(p, crc);
    BitRemainderMeaning(p, data, Resume(p, crc));
    FinishMeaning(p, BitRemainder(p, data, Resume(p, crc)));
  }

  lemma ResumeFeed(p: Params, r: Word, a: seq<Byte>, b: seq<Byte>)
    requires p.WellTyped() && |r| == p.width && Resumable(p)
    ensures CalculateMore(p, b, Emit(p, Feed(Gen(p), r, Stream(p.reflectInput, a))))
         == Emit(p, Feed(Gen(p), r, Stream(p.reflectInput, a + b)))
  {
    var s := Feed(Gen(p), r, Stream(p.reflectInput, a));
    StreamAppend(p.reflectInput, a, b);
    FeedAppend(Gen(p), r, Stream(p.reflectInput, a), Stream(p.reflectInput, b));
    ResumeMeaning(p, s);
    MoreMeaning(p, b, Emit(p, s));
  }

  /** Feeding the second part from the first part's CRC gives the CRC of the whole. */
  lemma MultiPart(p: Params, a: seq<Byte>, b: seq<Byte>)
    requires p.WellTyped() && Clean(p, p.initialValue) && Resumable(p)
    ensures CalculateMore(p, b, Calculate(p, a)) == Calculate(p, a + b)
  {
    CalculateMeaning(p, a);
    CalculateMeaning(p, a + b);
    ResumeFeed(p, Register(p, p.initialValue), a, b);
  }

  /** The same for a part that is itself resumed, from any word: so for any number of parts. */
  lemma MultiPartResumed(p: Params, a: seq<Byte>, b: seq<Byte>, crc: Word)
    requires p.WellTyped() && |crc| == p.digits && Resumable(p)
    ensures CalculateMore(p, b, CalculateMore(p, a, crc)) == CalculateMore(p, a + b, crc)
  {
    MoreMeaning(p, a, crc);
    MoreMeaning(p, a + b, crc);
    ResumeFeed(p, Register(p, Resume(p, crc)), a, b);
  }

  // ---------- Finalize and UndoFinalize ----------

  lemma ReflectTwice(x: Word, w: nat)
    requires w <= |x|
    ensures Reflect(Reflect(x, w), w) == Mask(x, w)
  {
    var y, z := Reflect(x, w), Reflect(Reflect(x, w), w);
    forall i | 0 <= i < |x|
      ensures z[i] == Mask(x, w)[i]
    {
      if i < w { assert z[i] == y[w - 1 - i]; }
    }
  }

  /** UndoFinalize after Finalize keeps the low W bits and puts there, above them, what finalXOR has
      above bit W (nothing after a reflection). So it returns the original remainder, as its comment
      promises for every value, exactly when the remainder agrees above bit W. */
  lemma UndoAfterFinalize(w: nat, x: Word, f: Word, reflect: bool)
    requires 1 <= w <= |x| == |f|
    ensures var z := UndoFinalize(w, Finalize(w, x, f, reflect), f, reflect);
            && z[..w] == x[..w]
            && (z == x <==> if reflect then Fits(x, w) else forall i :: w <= i < |x| ==> x[i] == f[i])
  {
    var y := Finalize(w, x, f, reflect);
    var z := UndoFinalize(w, y, f, reflect);
    if reflect {
      ReflectTwice(x, w);
      forall i | 0 <= i < |x|
        ensures z[i] == (i < w && x[i])
      {
        if i < w {
          var j := w - 1 - i;
          assert y[j] == (x[i] != f[j]);
          assert z[i] == (y[j] != f[j]);
        }
      }
    } else {
      assert forall i :: 0 <= i < |x| ==> z[i] == if i < w then x[i] else f[i];
    }
  }

  /** An 8-bit CRC in a 16-bit type: a remainder with bit 8 set does not come back. */
  lemma RoundTripLosesHighBits()
    ensures var x, f := Zero(8) + [true] + Zero(7), Zero(16);
            forall reflect :: UndoFinalize(8, Finalize(8, x, f, reflect), f, reflect) != x
  {
    var x, f := Zero(8) + [true] + Zero(7), Zero(16);
    assert x[8] && !f[8];
    UndoAfterFinalize(8, x, f, false);
    UndoAfterFinalize(8, x, f, true);
  }

  /** Finalize after UndoFinalize clears everything above bit W and keeps the rest. */
  lemma FinalizeAfterUndo(w: nat, c: Word, f: Word, reflect: bool)
    requires 1 <= w <= |c| == |f|
    ensures var z := Finalize(w, UndoFinalize(w, c, f, reflect), f, reflect);
            z == Mask(c, w) && (z == c <==> Fits(c, w))
  {
    var x := UndoFinalize(w, c, f, reflect);
    var z := Finalize(w, x, f, reflect);
    forall i | 0 <= i < |c|
      ensures z[i] == (i < w && c[i])
    {
      if reflect && i < w {
        var j := w - 1 - i;
        assert x[j] == (c[i] != f[i]);
        assert z[i] == (x[j] != f[i]);
      }
    }
    assert z == Mask(c, w);
    assert Fits(c, w) ==> Mask(c, w) == c;
    assert Fits(z, w);
  }

  // ---------- Mirror law ----------

  function RevByte(b: Byte): Byte {
    Rev(b)
  }

  function RevBytes(data: seq<Byte>): (r: seq<Byte>)
    ensures |r| == |data|
  {
    seq<Byte>(|data|, k requires 0 <= k < |data| => RevByte(data[k]))
  }

  lemma {:induction false} StreamMirror(data: seq<Byte>)
    ensures Stream(false, RevBytes(data)) == Stream(true, data)
  {
    if data != [] {
      var n := |data| - 1;
      assert RevBytes(data)[..n] == RevBytes(data[..n]);
      StreamMirror(data[..n]);
      RevRev(data[n]);
    }
  }

  /** The reflected engine is the non-reflected one seen in a mirror. */
  lemma Mirror(p: Params, data: seq<Byte>, x: Word)
    requires p.WellTyped() && p.reflectInput && |x| == p.digits && Fits(x, p.width)
    ensures BitRemainder(p, data, x)[..p.width]
         == Rev(BitRemainder(p.(reflectInput := false), RevBytes(data), Reflect(x, p.width))[..p.width])
  {
    var p', w := p.(reflectInput := false), p.width;
    var y, y' := BitRemainder(p, data, x), BitRemainder(p', RevBytes(data), Reflect(x, w));
    BitRemainderMeaning(p, data, x);
    BitRemainderMeaning(p', RevBytes(data), Reflect(x, w));
    StreamMirror(data);
    assert Register(p', Reflect(x, w)) == Register(p, x);
    RevRev(y[..w]);
  }
}
