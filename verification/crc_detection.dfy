/**
 What a CRC detects: every burst no longer than itself exactly when the polynomial has its low bit,
 and a wrong trailer through the residue.
 */
module CrcDetection {
  import opened Bits
  import opened Lfsr
  import opened CrcModel
  import opened CrcMeaning
  import opened CrcLaws
  import opened CrcWide

  // ---------- Messages and their bit streams ----------

  lemma ByteBitsTwice(reflectInput: bool, b: Byte)
    ensures ByteBits(reflectInput, ByteBits(reflectInput, b)) == b
  {
    RevRev(b);
  }

  lemma StreamSnoc(reflectInput: bool, data: seq<Byte>, b: Byte)
    ensures Stream(reflectInput, data + [b]) == Stream(reflectInput, data) + ByteBits(reflectInput, b)
  {
    assert (data + [b])[..|data|] == data;
  }

  lemma StreamExtend(reflectInput: bool, data: seq<Byte>, bits: Word, b: Byte)
    requires Stream(reflectInput, data) == bits
    ensures Stream(reflectInput, data + [ByteBits(reflectInput, b)]) == bits + b
  {
    ByteBitsTwice(reflectInput, b);
    StreamSnoc(reflectInput, data, ByteBits(reflectInput, b));
  }

  lemma SplitAt(bits: Word, n: nat)
    requires n <= |bits|
    ensures bits[..n] + bits[n..] == bits
  {
  }

  /** Every bit stream of whole bytes is the stream of some message. */
  lemma {:induction false} MessageOf(reflectInput: bool, bits: Word, k: nat) returns (data: seq<Byte>)
    requires |bits| == 8 * k
    ensures |data| == k && Stream(reflectInput, data) == bits
  {
    if k == 0 {
      data := [];
    } else {
      var n := 8 * (k - 1);
      var head := MessageOf(reflectInput, bits[..n], k - 1);
      data := head + [ByteBits(reflectInput, bits[n..])];
      StreamExtend(reflectInput, head, bits[..n], bits[n..]);
      SplitAt(bits, n);
    }
  }

  lemma StreamParts(reflectInput: bool, a: seq<Byte>)
    requires a != []
    ensures var n := |a| - 1;
            && Stream(reflectInput, a)[..8 * n] == Stream(reflectInput, a[..n])
            && Stream(reflectInput, a)[8 * n..] == ByteBits(reflectInput, a[n])
  {
  }

  lemma {:induction false} StreamInjective(reflectInput: bool, a: seq<Byte>, b: seq<Byte>)
    requires Stream(reflectInput, a) == Stream(reflectInput, b)
    ensures a == b
  {
    assert |a| == |b|;
    if a != [] {
      var n := |a| - 1;
      StreamParts(reflectInput, a);
      StreamParts(reflectInput, b);
      StreamInjective(reflectInput, a[..n], b[..n]);
      ByteBitsTwice(reflectInput, a[n]);
      ByteBitsTwice(reflectInput, b[n]);
      assert a == a[..n] + [a[n]] && b == b[..n] + [b[n]];
    }
  }

  // ---------- Bursts ----------

  /** The two messages differ, and only inside `len` consecutive bits of the order of consumption. */
  predicate Burst(p: Params, a: seq<Byte>, b: seq<Byte>, lo: nat, len: nat) {
    && |a| == |b| && a != b && lo + len <= 8 * |a|
    && forall k :: 0 <= k < 8 * |a| && !(lo <= k < lo + len) ==>
         Stream(p.reflectInput, a)[k] == Stream(p.reflectInput, b)[k]
  }

  lemma RegisterXor(p: Params, x: Word, y: Word)
    requires p.WellTyped() && |x| == |y| == p.digits
    ensures Register(p, Xor(x, y)) == Xor(Register(p, x), Register(p, y))
  {
    var d := Xor(x, y);
    forall i | 0 <= i < p.width
      ensures Register(p, d)[i] == Xor(Register(p, x), Register(p, y))[i]
    {
      RegisterAt(p, d, i);
      RegisterAt(p, x, i);
      RegisterAt(p, y, i);
    }
  }

  /** The registers after two messages of one length differ by the register of their difference, whatever
      the start word. */
  lemma RegistersDiffer(p: Params, a: seq<Byte>, b: seq<Byte>, x: Word)
    requires p.WellTyped() && |x| == p.digits && |a| == |b|
    ensures Xor(Register(p, BitRemainder(p, a, x)), Register(p, BitRemainder(p, b, x)))
         == Feed(Gen(p), Zero(p.width), Xor(Stream(p.reflectInput, a), Stream(p.reflectInput, b)))
  {
    var sa, sb := Stream(p.reflectInput, a), Stream(p.reflectInput, b);
    if p.reflectInput {
      var c := MessageOf(true, Xor(sa, sb), |a|);
      DifferenceRuns(x, x, Reflect(p.polynomial, p.width), a, b, c);
      assert Xor(x, x) == Zero(p.digits);
      BitRemainderMeaning(p, c, Zero(p.digits));
      assert Register(p, Zero(p.digits)) == Zero(p.width);
      RegisterXor(p, BitRemainder(p, a, x), BitRemainder(p, b, x));
    } else {
      var r := Register(p, x);
      BitRemainderMeaning(p, a, x);
      BitRemainderMeaning(p, b, x);
      FeedLinear(Gen(p), r, r, sa, sb);
      assert Xor(r, r) == Zero(p.width);
    }
  }

  lemma SameCrc(p: Params, a: seq<Byte>, b: seq<Byte>)
    requires p.WellTyped() && |a| == |b|
    ensures Calculate(p, a) == Calculate(p, b) <==>
            Feed(Gen(p), Zero(p.width), Xor(Stream(p.reflectInput, a), Stream(p.reflectInput, b))) == Zero(p.width)
  {
    var u, v := BitRemainder(p, a, p.initialValue), BitRemainder(p, b, p.initialValue);
    RegistersDiffer(p, a, b, p.initialValue);
    XorIsZero(Register(p, u), Register(p, v));
    FinishMeaning(p, u);
    FinishMeaning(p, v);
    if Calculate(p, a) == Calculate(p, b) { EmitInjective(p, Register(p, u), Register(p, v)); }
  }

  lemma XorIsZero(a: Word, b: Word)
    requires |a| == |b|
    ensures Xor(a, b) == Zero(|a|) <==> a == b
  {
    if Xor(a, b) == Zero(|a|) {
      forall i | 0 <= i < |a|
        ensures a[i] == b[i]
      {
        assert Xor(a, b)[i] == Zero(|a|)[i];
      }
    }
  }

  lemma BurstShape(sa: Word, sb: Word, lo: nat, len: nat)
    requires |sa| == |sb| && lo + len <= |sa|
    requires forall k :: 0 <= k < |sa| && !(lo <= k < lo + len) ==> sa[k] == sb[k]
    ensures var d := Xor(sa, sb);
            && d == Zero(lo) + d[lo..lo + len] + Zero(|d| - lo - len)
            && (d[lo..lo + len] == Zero(len) ==> d == Zero(|d|))
  {
    var d := Xor(sa, sb);
    assert Zero(lo) + Zero(len) + Zero(|d| - lo - len) == Zero(|d|);
  }

  lemma BurstFeeds(g: Word, sa: Word, sb: Word, lo: nat, len: nat)
    requires |g| >= 1 && g[0] && |sa| == |sb| && lo + len <= |sa| && len <= |g|
    requires forall k :: 0 <= k < |sa| && !(lo <= k < lo + len) ==> sa[k] == sb[k]
    requires Xor(sa, sb) != Zero(|sa|)
    ensures Feed(g, Zero(|g|), Xor(sa, sb)) != Zero(|g|)
  {
    var d := Xor(sa, sb);
    BurstShape(sa, sb, lo, len);
    BurstLeavesMark(g, lo, d[lo..lo + len], |d| - lo - len);
  }

  lemma StreamsDiffer(reflectInput: bool, a: seq<Byte>, b: seq<Byte>)
    requires |a| == |b| && a != b
    ensures Xor(Stream(reflectInput, a), Stream(reflectInput, b)) != Zero(8 * |a|)
  {
    XorIsZero(Stream(reflectInput, a), Stream(reflectInput, b));
    if Stream(reflectInput, a) == Stream(reflectInput, b) { StreamInjective(reflectInput, a, b); }
  }

  lemma BurstDetected(p: Params, a: seq<Byte>, b: seq<Byte>, lo: nat, len: nat)
    requires p.WellTyped() && p.polynomial[0]
    requires Burst(p, a, b, lo, len) && len <= p.width
    ensures Calculate(p, a) != Calculate(p, b)
  {
    var sa, sb := Stream(p.reflectInput, a), Stream(p.reflectInput, b);
    StreamsDiffer(p.reflectInput, a, b);
    BurstFeeds(Gen(p), sa, sb, lo, len);
    SameCrc(p, a, b);
  }

  lemma FromZero(burst: Word, n: nat)
    requires |burst| >= 1 && burst[0]
    ensures var bits, zeros := burst + Zero(n), Zero(|burst| + n);
            && bits != zeros
            && Xor(bits, zeros) == Zero(0) + burst + Zero(n)
            && forall k :: |burst| <= k < |bits| ==> bits[k] == zeros[k]
  {
    assert (burst + Zero(n))[0] && !Zero(|burst| + n)[0];
  }

  lemma BurstFromZero(p: Params, burst: Word, n: nat, k: nat) returns (a: seq<Byte>, b: seq<Byte>)
    requires p.WellTyped() && |burst| + n == 8 * k && |burst| >= 1 && burst[0]
    ensures Burst(p, a, b, 0, |burst|)
    ensures Xor(Stream(p.reflectInput, a), Stream(p.reflectInput, b)) == Zero(0) + burst + Zero(n)
  {
    var bits, zeros := burst + Zero(n), Zero(|burst| + n);
    a := MessageOf(p.reflectInput, bits, k);
    b := MessageOf(p.reflectInput, zeros, k);
    FromZero(burst, n);
  }

  /** A message that collides with the zero message, differing from it in a burst of W bits. */
  lemma BurstMissed(p: Params) returns (a: seq<Byte>, b: seq<Byte>)
    requires p.WellTyped() && !p.polynomial[0]
    ensures Burst(p, a, b, 0, p.width)
    ensures Calculate(p, a) == Calculate(p, b)
  {
    var g, w := Gen(p), p.width;
    a, b := BurstFromZero(p, Rev(Blind(g)), 7 * w, w);
    BlindBurst(g, 0, 7 * w);
    SameCrc(p, a, b);
  }

  ghost predicate DetectsBursts(p: Params)
    requires p.WellTyped()
  {
    forall a, b, lo: nat, len: nat ::
      Burst(p, a, b, lo, len) && len <= p.width ==> Calculate(p, a) != Calculate(p, b)
  }

  /** Every burst of at most W bits changes the CRC exactly when the polynomial's low bit is set. */
  lemma BurstsDetectedIff(p: Params)
    requires p.WellTyped()
    ensures DetectsBursts(p) <==> p.polynomial[0]
  {
    if p.polynomial[0] {
      forall a, b, lo: nat, len: nat | Burst(p, a, b, lo, len) && len <= p.width
        ensures Calculate(p, a) != Calculate(p, b)
      {
        BurstDetected(p, a, b, lo, len);
      }
    } else {
      var a, b := BurstMissed(p);
    }
  }

  // ---------- Residue ----------

  /** Byte `k` of a CRC as it is sent: low byte first when reflected, high byte first otherwise. */
  function CrcByte(p: Params, c: Word, k: nat): (b: Byte)
    requires p.WellTyped() && |c| == p.digits && 8 * k + 8 <= p.width
  {
    if p.reflectInput then c[8 * k..8 * k + 8] else c[p.width - 8 * k - 8..p.width - 8 * k]
  }

  function CrcBytes(p: Params, c: Word, k: nat): (bytes: seq<Byte>)
    requires p.WellTyped() && |c| == p.digits && 8 * k <= p.width
    ensures |bytes| == k
  {
    if k == 0 then [] else CrcBytes(p, c, k - 1) + [CrcByte(p, c, k - 1)]
  }

  /** The bytes appended to a message to protect it. */
  function Trailer(p: Params, c: Word): (bytes: seq<Byte>)
    requires p.WellTyped() && |c| == p.digits && p.width % 8 == 0
  {
    CrcBytes(p, c, p.width / 8)
  }

  /** The low W bits of `c` in the order the engine consumes them from its bytes. */
  function CrcStream(p: Params, c: Word): (bits: Word)
    requires p.WellTyped() && |c| == p.digits
    ensures |bits| == p.width
  {
    if p.reflectInput then c[..p.width] else Rev(c[..p.width])
  }

  lemma CrcByteBits(p: Params, c: Word, k: nat)
    requires p.WellTyped() && |c| == p.digits && 8 * k + 8 <= p.width
    ensures ByteBits(p.reflectInput, CrcByte(p, c, k)) == CrcStream(p, c)[8 * k..8 * k + 8]
  {
    var b, bits := CrcByte(p, c, k), CrcStream(p, c)[8 * k..8 * k + 8];
    if !p.reflectInput {
      forall i | 0 <= i < 8
        ensures Rev(b)[i] == bits[i]
      {
        assert bits[i] == CrcStream(p, c)[8 * k + i] == c[p.width - 1 - 8 * k - i];
      }
    }
  }

  /** Byte by byte, a stream that agrees with `bits` so far and in its next byte agrees through it. */
  lemma StreamGrows(reflectInput: bool, data: seq<Byte>, b: Byte, bits: Word, k: nat)
    requires 8 * k + 8 <= |bits|
    requires Stream(reflectInput, data) == bits[..8 * k] && ByteBits(reflectInput, b) == bits[8 * k..8 * k + 8]
    ensures Stream(reflectInput, data + [b]) == bits[..8 * k + 8]
  {
    StreamSnoc(reflectInput, data, b);
    assert bits[..8 * k + 8] == bits[..8 * k] + bits[8 * k..8 * k + 8];
  }

  lemma {:induction false} CrcBytesStream(p: Params, c: Word, k: nat)
    requires p.WellTyped() && |c| == p.digits && 8 * k <= p.width
    ensures Stream(p.reflectInput, CrcBytes(p, c, k)) == CrcStream(p, c)[..8 * k]
  {
    if k > 0 {
      var j := k - 1;
      CrcBytesStream(p, c, j);
      CrcByteBits(p, c, j);
      StreamGrows(p.reflectInput, CrcBytes(p, c, j), CrcByte(p, c, j), CrcStream(p, c), j);
    }
  }

  lemma TrailerStream(p: Params, c: Word)
    requires p.WellTyped() && |c| == p.digits && p.width % 8 == 0
    ensures Stream(p.reflectInput, Trailer(p, c)) == CrcStream(p, c)
  {
    CrcBytesStream(p, c, p.width / 8);
    assert CrcStream(p, c)[..p.width] == CrcStream(p, c);
  }

  /** The register left after a message and its own CRC. Only the parameters enter it. */
  function Residue(p: Params): (r: Word)
    requires p.WellTyped()
    ensures |r| == p.width
  {
    Feed(Gen(p), Zero(p.width), CrcStream(p, p.finalXOR))
  }

  lemma ResidueStream(p: Params, r: Word)
    requires p.WellTyped() && |r| == p.width && p.reflectInput == p.reflectOutput
    ensures Absorb(r, CrcStream(p, Emit(p, r))) == CrcStream(p, p.finalXOR)
  {
    var w, c := p.width, Emit(p, r);
    var s, f := CrcStream(p, c), CrcStream(p, p.finalXOR);
    forall k | 0 <= k < w
      ensures Absorb(r, s)[k] == f[k]
    {
      EmitAt(p, r, w - 1 - k);
      CrcStreamAt(p, c, k);
      CrcStreamAt(p, p.finalXOR, k);
    }
  }

  lemma CrcStreamAt(p: Params, c: Word, k: nat)
    requires p.WellTyped() && |c| == p.digits && k < p.width
    ensures CrcStream(p, c)[k] == c[if p.reflectInput then k else p.width - 1 - k]
  {
  }

  lemma TrailerFeed(p: Params, r: Word, t: Word)
    requires p.WellTyped() && |r| == |t| == p.width
    ensures Feed(Gen(p), r, t) == Feed(Gen(p), Zero(p.width), Absorb(r, t))
  {
    FeedAbsorb(Gen(p), r, t);
    assert Shl(r, p.width) == Zero(p.width);
    XorZero(Feed(Gen(p), Zero(p.width), Absorb(r, t)));
  }

  lemma RunWithTrailer(p: Params, data: seq<Byte>, c: Word, x: Word)
    requires p.WellTyped() && p.width % 8 == 0 && |c| == |x| == p.digits && Clean(p, x)
    ensures Register(p, BitRemainder(p, data + Trailer(p, c), x))
         == Feed(Gen(p), Feed(Gen(p), Register(p, x), Stream(p.reflectInput, data)), CrcStream(p, c))
  {
    var bytes := Trailer(p, c);
    BitRemainderMeaning(p, data + bytes, x);
    StreamAppend(p.reflectInput, data, bytes);
    TrailerStream(p, c);
    FeedAppend(Gen(p), Register(p, x), Stream(p.reflectInput, data), CrcStream(p, c));
  }

  /** Running the raw remainder over a message and its own CRC leaves the residue of the parameters,
      whatever the message. */
  lemma ResidueLaw(p: Params, data: seq<Byte>)
    requires p.WellTyped() && Clean(p, p.initialValue)
    requires p.width % 8 == 0 && p.reflectInput == p.reflectOutput
    ensures Register(p, BitRemainder(p, data + Trailer(p, Calculate(p, data)), p.initialValue)) == Residue(p)
  {
    var r := Feed(Gen(p), Register(p, p.initialValue), Stream(p.reflectInput, data));
    CalculateMeaning(p, data);
    RunWithTrailer(p, data, Emit(p, r), p.initialValue);
    TrailerFeed(p, r, CrcStream(p, Emit(p, r)));
    ResidueStream(p, r);
  }

  lemma AbsorbInjective(r: Word, t: Word, t': Word)
    requires |r| == |t| == |t'| && Absorb(r, t) == Absorb(r, t')
    ensures t == t'
  {
    forall k | 0 <= k < |t|
      ensures t[k] == t'[k]
    {
      assert Absorb(r, t)[k] == Absorb(r, t')[k];
    }
  }

  lemma ShortFeedInjective(g: Word, t: Word, t': Word)
    requires |g| == |t| == |t'| >= 1 && g[0]
    requires Feed(g, Zero(|g|), t) == Feed(g, Zero(|g|), t')
    ensures t == t'
  {
    FeedReplay(g, t);
    FeedReplay(g, t');
    FeedInjective(g, Park(t, |g|), Park(t', |g|), Zero(|g|));
    ParkBits(t, |g|);
    ParkBits(t', |g|);
  }

  /** With the polynomial's low bit set the residue accepts the right trailer and no other. */
  lemma ResidueAcceptsOnlyTheCrc(p: Params, data: seq<Byte>, c: Word)
    requires p.WellTyped() && Clean(p, p.initialValue) && p.polynomial[0]
    requires p.width % 8 == 0 && p.reflectInput == p.reflectOutput && |c| == p.digits
    ensures Register(p, BitRemainder(p, data + Trailer(p, c), p.initialValue)) == Residue(p)
            <==> c[..p.width] == Calculate(p, data)[..p.width]
  {
    var g, w, good := Gen(p), p.width, Calculate(p, data);
    var r := Feed(g, Register(p, p.initialValue), Stream(p.reflectInput, data));
    var t, t' := CrcStream(p, c), CrcStream(p, good);
    ResidueLaw(p, data);
    RunWithTrailer(p, data, c, p.initialValue);
    RunWithTrailer(p, data, good, p.initialValue);
    RevRev(c[..w]);
    RevRev(good[..w]);
    if Feed(g, r, t) == Feed(g, r, t') {
      TrailerFeed(p, r, t);
      TrailerFeed(p, r, t');
      ShortFeedInjective(g, Absorb(r, t), Absorb(r, t'));
      AbsorbInjective(r, t, t');
    }
  }

  // ---------- Parameter sets given as numbers ----------

  /** A parameter set as the library lists them: numbers stored in an integer type. */
  function FromNumbers(digits: nat, width: nat, polynomial: nat, initialValue: nat, finalXOR: nat,
                       reflectInput: bool, reflectOutput: bool): Params
  {
    Params(digits, width, OfNat(polynomial, digits), OfNat(initialValue, digits), OfNat(finalXOR, digits),
           reflectInput, reflectOutput)
  }

  lemma {:induction false} NumberFits(v: nat, n: nat, w: nat)
    requires v < Pow2(w) && w <= n
    ensures Fits(OfNat(v, n), w)
  {
    if n > 0 {
      if w == 0 {
        NumberFits(0, n - 1, 0);
      } else {
        NumberFits(v / 2, n - 1, w - 1);
      }
      var tail := OfNat(v / 2, n - 1);
      assert OfNat(v, n) == [v % 2 == 1] + tail;
    }
  }

  /** Numbers that fit their width meet every side condition of the laws, and an odd polynomial is all it
      takes to detect the bursts. */
  lemma NumbersServe(digits: nat, width: nat, polynomial: nat, initialValue: nat, finalXOR: nat,
                     reflectInput: bool, reflectOutput: bool)
    requires 8 <= digits && 1 <= width <= digits
    requires initialValue < Pow2(width) && finalXOR < Pow2(width)
    ensures var p := FromNumbers(digits, width, polynomial, initialValue, finalXOR, reflectInput, reflectOutput);
            && p.WellTyped() && Clean(p, p.initialValue) && Resumable(p)
            && (DetectsBursts(p) <==> polynomial % 2 == 1)
  {
    var p := FromNumbers(digits, width, polynomial, initialValue, finalXOR, reflectInput, reflectOutput);
    NumberFits(initialValue, digits, width);
    NumberFits(finalXOR, digits, width);
    BurstsDetectedIff(p);
    assert p.polynomial[0] == (polynomial % 2 == 1);
  }
}
