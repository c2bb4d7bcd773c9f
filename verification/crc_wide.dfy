/**
 The reflected engine on words that carry more than the CRC: a word of R digits is also a CRC register
 of width R, so nothing has to fit the CRC's own width. This gives the exact reach of the two laws whose
 proofs on W bits need it.
 */
module CrcWide {
  import opened Bits
  import opened Lfsr
  import opened CrcModel
  import opened CrcMeaning
  import L = CrcLaws

  /** The same engine, its whole word taken as the CRC. */
  function Wide(p: Params): (q: Params)
    requires p.WellTyped()
    ensures q.WellTyped() && q.digits == q.width == p.digits && q.reflectInput == p.reflectInput
  {
    p.(width := p.digits, polynomial := Rev(Reflect(p.polynomial, p.width)))
  }

  lemma WidePolynomial(p: Params)
    requires p.WellTyped()
    ensures Reflect(Wide(p).polynomial, p.digits) == Reflect(p.polynomial, p.width)
  {
    var y := Reflect(p.polynomial, p.width);
    RevRev(y);
    assert Rev(y)[..p.digits] == Rev(y);
    assert Cast(y, p.digits) == y;
  }

  lemma WideRemainder(p: Params, data: seq<Byte>, x: Word)
    requires p.WellTyped() && p.reflectInput && |x| == p.digits
    ensures BitRemainder(Wide(p), data, x) == BitRemainder(p, data, x)
  {
    WidePolynomial(p);
  }

  // ---------- Table and bit loop agree on every word ----------

  lemma WideEntry(p: Params, masked: bool, b: Byte)
    requires p.WellTyped() && p.reflectInput
    ensures TableEntry(Wide(p), b, masked) == TableEntry(p, b, masked)
  {
    var crc := BitRemainder(p, [b], Zero(p.digits));
    WideRemainder(p, [b], Zero(p.digits));
    BitRemainderMeaning(p, [b], Zero(p.digits));
    assert Mask(crc, p.width) == crc && Mask(crc, p.digits) == crc;
  }

  lemma WideTable(p: Params, masked: bool)
    requires p.WellTyped() && p.reflectInput
    ensures BuildTable(Wide(p), masked) == BuildTable(p, masked)
  {
    forall k | 0 <= k < 256
      ensures BuildTable(Wide(p), masked)[k] == BuildTable(p, masked)[k]
    {
      BuildTableAt(p, masked, k);
      BuildTableAt(Wide(p), masked, k);
      WideEntry(p, masked, OfNat(k, 8));
    }
  }

  lemma {:induction false} WideLookups(p: Params, table: seq<Word>, data: seq<Byte>, x: Word)
    requires p.WellTyped() && p.reflectInput && TableTyped(p, table) && |x| == p.digits
    ensures LookupRun(Wide(p), table, data, x) == LookupRun(p, table, data, x)
  {
    if data != [] { WideLookups(p, table, data[..|data| - 1], x); }
  }

  /** In the reflected branch the two forms agree on all digits, from any start word. */
  lemma ReflectedAgrees(p: Params, masked: bool, data: seq<Byte>, x: Word)
    requires p.WellTyped() && p.reflectInput && |x| == p.digits
    ensures TableRemainder(p, BuildTable(p, masked), data, x) == BitRemainder(p, data, x)
  {
    WideTable(p, masked);
    WideLookups(p, BuildTable(p, masked), data, x);
    WideRemainder(p, data, x);
    L.TableRemainderAgrees(Wide(p), masked, data, x);
    var y, z := TableRemainder(p, BuildTable(p, masked), data, x), BitRemainder(p, data, x);
    assert y[..p.digits] == y && z[..p.digits] == z;
  }

  /** Both remainders finish as the same CRC, from any start word whatsoever. */
  lemma FinishAgrees(p: Params, masked: bool, data: seq<Byte>, x: Word)
    requires p.WellTyped() && |x| == p.digits
    ensures Finish(p, TableRemainder(p, BuildTable(p, masked), data, x)) == Finish(p, BitRemainder(p, data, x))
  {
    if p.reflectInput {
      ReflectedAgrees(p, masked, data, x);
    } else {
      BuiltTableOk(p, masked);
      TableRemainderMeaning(p, BuildTable(p, masked), data, x);
      BitRemainderMeaning(p, data, x);
      FinishMeaning(p, TableRemainder(p, BuildTable(p, masked), data, x));
      FinishMeaning(p, BitRemainder(p, data, x));
    }
  }

  /** Dropping `crc &= BIT_MASK` from `InitTable` changes no CRC, from any start value. */
  lemma MaskIsRedundant(p: Params, data: seq<Byte>, x: Word)
    requires p.WellTyped() && |x| == p.digits
    ensures Finish(p, TableRemainder(p, BuildTable(p, true), data, x))
         == Finish(p, TableRemainder(p, BuildTable(p, false), data, x))
  {
    FinishAgrees(p, true, data, x);
    FinishAgrees(p, false, data, x);
  }

  /** The four overloads pair up for every parameter set, whether or not its values fit the width. */
  lemma FormsAgree(p: Params, masked: bool, data: seq<Byte>, crc: Word)
    requires p.WellTyped() && |crc| == p.digits
    ensures CalculateByTable(p, BuildTable(p, masked), data) == Calculate(p, data)
    ensures CalculateMoreByTable(p, BuildTable(p, masked), data, crc) == CalculateMore(p, data, crc)
  {
    FinishAgrees(p, masked, data, p.initialValue);
    FinishAgrees(p, masked, data, Resume(p, crc));
  }

  // ---------- Exactly when a CRC can be computed in parts ----------

  /** Feeding the second part from the first part's CRC gives the CRC of the whole, for all parts. */
  ghost predicate ComputesInParts(p: Params)
    requires p.WellTyped()
  {
    forall a: seq<Byte>, b: seq<Byte> :: CalculateMore(p, b, Calculate(p, a)) == Calculate(p, a + b)
  }

  lemma {:induction false} DownRunAppend(x: Word, poly: Word, a: seq<Byte>, b: seq<Byte>)
    requires |x| == |poly| >= 8
    ensures DownRun(x, poly, a + b) == DownRun(DownRun(x, poly, a), poly, b)
  {
    if b == [] {
      assert a + b == a;
    } else {
      var n := |b| - 1;
      assert (a + b)[..|a + b| - 1] == a + b[..n];
      DownRunAppend(x, poly, a, b[..n]);
    }
  }

  function ZeroBytes(n: nat): (data: seq<Byte>)
    ensures |data| == n
  {
    if n == 0 then [] else ZeroBytes(n - 1) + [Zero(8)]
  }

  lemma {:induction false} ZeroStream(n: nat)
    ensures Stream(true, ZeroBytes(n)) == Zero(8 * n)
  {
    if n > 0 {
      ZeroStream(n - 1);
      var data := ZeroBytes(n);
      assert data[..n - 1] == ZeroBytes(n - 1);
      assert Zero(8 * n) == Zero(8 * (n - 1)) + Zero(8);
    }
  }

  lemma Whole(x: Word)
    ensures DownHolds(x, Rev(x))
  {
  }

  /** A run over a whole word as a serial register of the word's own width. */
  lemma WholeRun(x: Word, poly: Word, data: seq<Byte>)
    requires |x| == |poly| >= 8
    ensures DownRun(x, poly, data) == Rev(Feed(Rev(poly), Rev(x), Stream(true, data)))
  {
    Whole(x);
    Whole(poly);
    DownRunHolds(x, Rev(x), poly, Rev(poly), data);
    var y, s := DownRun(x, poly, data), Feed(Rev(poly), Rev(x), Stream(true, data));
    assert forall i :: 0 <= i < |x| ==> y[i] == Rev(s)[i];
  }

  lemma RevXor(x: Word, y: Word)
    requires |x| == |y|
    ensures Rev(Xor(x, y)) == Xor(Rev(x), Rev(y))
  {
  }

  lemma RevDifference(f: Word, f': Word, d: Word)
    requires |f| == |f'| && d == Xor(f, f')
    ensures Xor(Rev(f), Rev(f')) == Rev(d)
  {
  }

  /** What two runs differ in is a run of its own, over what start words and messages differ in. */
  lemma DifferenceRuns(x: Word, y: Word, poly: Word, a: seq<Byte>, b: seq<Byte>, c: seq<Byte>)
    requires |x| == |y| == |poly| >= 8 && |a| == |b|
    requires Stream(true, c) == Xor(Stream(true, a), Stream(true, b))
    ensures Xor(DownRun(x, poly, a), DownRun(y, poly, b)) == DownRun(Xor(x, y), poly, c)
  {
    var g, sa, sb := Rev(poly), Stream(true, a), Stream(true, b);
    WholeRun(x, poly, a);
    WholeRun(y, poly, b);
    WholeRun(Xor(x, y), poly, c);
    RevXor(x, y);
    FeedLinear(g, Rev(x), Rev(y), sa, sb);
    RevDifference(Feed(g, Rev(x), sa), Feed(g, Rev(y), sb), Feed(g, Rev(Xor(x, y)), Xor(sa, sb)));
  }

  lemma ZeroDifference(n: nat)
    ensures Stream(true, ZeroBytes(n)) == Xor(Stream(true, ZeroBytes(n)), Stream(true, ZeroBytes(n)))
  {
    ZeroStream(n);
  }

  lemma ZeroRun(x: Word, poly: Word, n: nat)
    requires |x| == |poly| >= 8
    ensures DownRun(x, poly, ZeroBytes(n)) == Rev(Feed(Rev(poly), Rev(x), Zero(8 * n)))
  {
    ZeroStream(n);
    WholeRun(x, poly, ZeroBytes(n));
  }

  lemma ZerosFeedOut(g: Word, r: Word, m: nat)
    requires |g| == |r| >= 1 && m <= |r| && forall i :: |r| - m <= i < |r| ==> !r[i]
    ensures Feed(g, r, Zero(m)) == Shl(r, m)
  {
    assert Absorb(r, Zero(m)) == Zero(m);
    FeedAbsorb(g, r, Zero(m));
    FeedZero(g, m);
    assert Xor(Shl(r, m), Zero(|r|)) == Shl(r, m);
  }

  lemma RevShift(j: Word, m: nat)
    ensures Rev(Shl(Rev(j), m)) == Shr(j, m)
  {
    var s, t := Shl(Rev(j), m), Shr(j, m);
    forall i | 0 <= i < |j|
      ensures Rev(s)[i] == t[i]
    {
      assert Rev(s)[i] == s[|j| - 1 - i];
      if i + m < |j| { assert Rev(j)[|j| - 1 - i - m] == j[i + m]; }
    }
  }

  /** Low zeros only shift out: no feedback until a set bit reaches bit 0. */
  lemma ZerosShiftOut(j: Word, poly: Word, n: nat)
    requires |j| == |poly| >= 8 && 8 * n <= |j| && forall i :: 0 <= i < 8 * n ==> !j[i]
    ensures DownRun(j, poly, ZeroBytes(n)) == Shr(j, 8 * n)
  {
    var r := Rev(j);
    forall i | |r| - 8 * n <= i < |r|
      ensures !r[i]
    {
      assert r[i] == j[|j| - 1 - i];
    }
    ZeroRun(j, poly, n);
    ZerosFeedOut(Rev(poly), r, 8 * n);
    RevShift(j, 8 * n);
  }

  /** After `n` zero bytes the two words differ on the low W bits. */
  predicate ApartAfter(x: Word, y: Word, poly: Word, w: nat, n: nat)
    requires |x| == |y| == |poly| && 8 <= w <= |x|
  {
    DownRun(x, poly, ZeroBytes(n))[..w] != DownRun(y, poly, ZeroBytes(n))[..w]
  }

  lemma DifferenceShifts(x: Word, y: Word, poly: Word, n: nat)
    requires |x| == |y| == |poly| >= 8 && 8 * n <= |x| && forall k :: 0 <= k < 8 * n ==> x[k] == y[k]
    ensures Xor(DownRun(x, poly, ZeroBytes(n)), DownRun(y, poly, ZeroBytes(n))) == Shr(Xor(x, y), 8 * n)
  {
    AgreedBitsVanish(x, y, 8 * n);
    ZerosShiftOut(Xor(x, y), poly, n);
    ZeroDifference(n);
    DifferenceRuns(x, y, poly, ZeroBytes(n), ZeroBytes(n), ZeroBytes(n));
  }

  lemma AgreedBitsVanish(x: Word, y: Word, m: nat)
    requires |x| == |y| && m <= |x| && forall k :: 0 <= k < m ==> x[k] == y[k]
    ensures forall k :: 0 <= k < m ==> !Xor(x, y)[k]
  {
  }

  /** Where the shifted difference of `x` and `y` has a low bit set, `u` and `v` differ on the low bits. */
  lemma LowBitsApart(x: Word, y: Word, u: Word, v: Word, w: nat, m: nat, i: nat)
    requires |x| == |y| == |u| == |v| && w <= |x| && Xor(u, v) == Shr(Xor(x, y), m)
    requires m <= i < |x| && i - m < w && x[i] != y[i]
    ensures u[..w] != v[..w]
  {
    var k := i - m;
    assert Shr(Xor(x, y), m)[k] == Xor(x, y)[i];
    assert Xor(u, v)[k] == (u[k] != v[k]);
    assert u[..w][k] == u[k] && v[..w][k] == v[k];
  }

  lemma ApartOnce(x: Word, y: Word, poly: Word, w: nat, i: nat, n: nat)
    requires |x| == |y| == |poly| && 8 <= w <= i < |x| && x[i] != y[i] && i - w < 8 * n <= i
    requires forall k :: 0 <= k < i ==> x[k] == y[k]
    ensures ApartAfter(x, y, poly, w, n)
  {
    DifferenceShifts(x, y, poly, n);
    LowBitsApart(x, y, DownRun(x, poly, ZeroBytes(n)), DownRun(y, poly, ZeroBytes(n)), w, 8 * n, i);
  }

  lemma FirstDifference(x: Word, y: Word) returns (i: nat)
    requires |x| == |y| && x != y
    ensures i < |x| && x[i] != y[i] && forall k :: 0 <= k < i ==> x[k] == y[k]
  {
    i := 0;
    while i < |x| && x[i] == y[i]
      invariant i <= |x|
      invariant forall k :: 0 <= k < i ==> x[k] == y[k]
    {
      i := i + 1;
    }
  }

  /** Two words that agree on the low W bits and differ above come apart on the low W bits after some
      number of zero bytes, for any CRC of at least a byte. */
  lemma JunkSurfaces(x: Word, y: Word, poly: Word, w: nat)
    requires |x| == |y| == |poly| && 8 <= w <= |x| && x[..w] == y[..w] && x != y
    ensures exists n: nat :: ApartAfter(x, y, poly, w, n)
  {
    assert forall k :: 0 <= k < w ==> x[k] == x[..w][k] && y[k] == y[..w][k];
    var i := FirstDifference(x, y);
    ApartOnce(x, y, poly, w, i, (i - w) / 8 + 1);
  }

  // ---------- Junk falls out of the word in the end ----------

  lemma RoundFits(x: Word, poly: Word, w: nat, m: nat)
    requires |x| == |poly| >= 1 && Fits(poly, w) && Fits(x, m) && 1 <= w <= m
    ensures Fits(DownRound(x, poly), if m > w then m - 1 else w)
  {
  }

  lemma {:induction false} RoundsFit(x: Word, poly: Word, w: nat, m: nat, k: nat)
    requires |x| == |poly| >= 1 && Fits(poly, w) && Fits(x, m) && 1 <= w <= m
    ensures Fits(DownRounds(x, poly, k), if m - k > w then m - k else w)
  {
    if k > 0 {
      RoundsFit(x, poly, w, m, k - 1);
      RoundFits(DownRounds(x, poly, k - 1), poly, w, if m - (k - 1) > w then m - (k - 1) else w);
    }
  }

  lemma {:induction false} RunFits(x: Word, poly: Word, w: nat, n: nat)
    requires |x| == |poly| >= 8 && Fits(poly, w) && 8 <= w <= |x|
    ensures Fits(DownRun(x, poly, ZeroBytes(n)), if |x| - 8 * n > w then |x| - 8 * n else w)
  {
    if n > 0 {
      var data, m := ZeroBytes(n), if |x| - 8 * (n - 1) > w then |x| - 8 * (n - 1) else w;
      assert data[..n - 1] == ZeroBytes(n - 1);
      RunFits(x, poly, w, n - 1);
      var y := Xor(DownRun(x, poly, ZeroBytes(n - 1)), Cast(Zero(8), |x|));
      assert Fits(y, m);
      RoundsFit(y, poly, w, m, CHAR_BIT);
    }
  }

  // ---------- The law ----------

  /** What resuming puts above bit W: the final XOR's own high bits, unless a reflection drops them. */
  lemma ResumeHigh(p: Params, crc: Word, i: nat)
    requires p.WellTyped() && |crc| == p.digits && p.reflectInput && p.width <= i < p.digits
    ensures Resume(p, crc)[i] == (p.reflectOutput && p.finalXOR[i])
  {
  }

  lemma ResumeLow(p: Params, x: Word)
    requires p.WellTyped() && |x| == p.digits
    ensures Resume(p, Finish(p, x))[..p.width] == x[..p.width]
  {
    FinishMeaning(p, x);
    ResumeMeaning(p, Register(p, x));
    L.RegisterBits(p, Resume(p, Finish(p, x)), x);
  }

  lemma FinishLow(p: Params, x: Word, y: Word)
    requires p.WellTyped() && |x| == |y| == p.digits && Finish(p, x) == Finish(p, y)
    ensures x[..p.width] == y[..p.width]
  {
    FinishMeaning(p, x);
    FinishMeaning(p, y);
    EmitInjective(p, Register(p, x), Register(p, y));
    L.RegisterBits(p, x, y);
  }

  /** If resuming after `a` restores a different word, some second part tells. */
  lemma PartsDiffer(p: Params, a: seq<Byte>) returns (b: seq<Byte>)
    requires p.WellTyped() && p.reflectInput && p.width >= 8
    requires Resume(p, Calculate(p, a)) != BitRemainder(p, a, p.initialValue)
    ensures CalculateMore(p, b, Calculate(p, a)) != Calculate(p, a + b)
  {
    var poly, y := Reflect(p.polynomial, p.width), BitRemainder(p, a, p.initialValue);
    var x := Resume(p, Calculate(p, a));
    ResumeLow(p, y);
    JunkSurfaces(x, y, poly, p.width);
    var n: nat :| ApartAfter(x, y, poly, p.width, n);
    b := ZeroBytes(n);
    DownRunAppend(p.initialValue, poly, a, b);
    if CalculateMore(p, b, Calculate(p, a)) == Calculate(p, a + b) {
      FinishLow(p, DownRun(x, poly, b), DownRun(y, poly, b));
    }
  }

  /** Parameters that do not fit break the law, for CRCs of at least a byte: junk in the initial value,
      or in the final XOR once the initial value's has run out. */
  lemma PartsFail(p: Params) returns (a: seq<Byte>, b: seq<Byte>)
    requires p.WellTyped() && p.width >= 8
    requires !(Clean(p, p.initialValue) && Resumable(p))
    ensures CalculateMore(p, b, Calculate(p, a)) != Calculate(p, a + b)
  {
    var w, init := p.width, p.initialValue;
    if Resume(p, Calculate(p, [])) != init {
      a := [];
    } else {
      // The initial value carries the same junk as the final XOR: let it run out first.
      a := ZeroBytes(p.digits);
      RunFits(init, Reflect(p.polynomial, w), w, p.digits);
      var i := HighBit(p);
      ResumeHigh(p, Calculate(p, a), i);
    }
    b := PartsDiffer(p, a);
  }

  /** The junk bit of the final XOR when the initial value is resumed unchanged. */
  lemma HighBit(p: Params) returns (i: nat)
    requires p.WellTyped() && p.reflectInput
    requires !(Clean(p, p.initialValue) && Resumable(p))
    requires Resume(p, Calculate(p, [])) == p.initialValue
    ensures p.width <= i < p.digits && p.reflectOutput && p.finalXOR[i]
  {
    var x := Resume(p, Calculate(p, []));
    if Clean(p, p.initialValue) {
      i :| p.width <= i < p.digits && p.finalXOR[i];
    } else {
      i :| p.width <= i < p.digits && p.initialValue[i];
      ResumeHigh(p, Calculate(p, []), i);
    }
  }

  /** For CRCs of at least a byte the multi-part law holds exactly of the parameter sets whose values fit
      where the reflected loop takes them in. */
  lemma ComputesInPartsIff(p: Params)
    requires p.WellTyped() && p.width >= 8
    ensures ComputesInParts(p) <==> Clean(p, p.initialValue) && Resumable(p)
  {
    if Clean(p, p.initialValue) && Resumable(p) {
      forall a: seq<Byte>, b: seq<Byte>
        ensures CalculateMore(p, b, Calculate(p, a)) == Calculate(p, a + b)
      {
        L.MultiPart(p, a, b);
      }
    } else {
      var a, b := PartsFail(p);
    }
  }

  /** The multi-part law for the table overloads. */
  lemma MultiPartByTable(p: Params, masked: bool, a: seq<Byte>, b: seq<Byte>)
    requires p.WellTyped() && Clean(p, p.initialValue) && Resumable(p)
    ensures var table := BuildTable(p, masked);
            CalculateMoreByTable(p, table, b, CalculateByTable(p, table, a)) == CalculateByTable(p, table, a + b)
  {
    FormsAgree(p, masked, a, p.initialValue);
    FormsAgree(p, masked, a + b, p.initialValue);
    FormsAgree(p, masked, b, Calculate(p, a));
    L.MultiPart(p, a, b);
  }
}
