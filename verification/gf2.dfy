/**
 Polynomials over GF(2), coefficient of x^i at index i, and the law that the bit-serial CRC register
 is the remainder of a polynomial long division.
 */
module Gf2 {
  import opened Bits
  import opened Lfsr

  type Poly = seq<bool>

  function Coef(p: Poly, i: int): bool {
    0 <= i < |p| && p[i]
  }

  function Add(a: Poly, b: Poly): (r: Poly)
    ensures forall i: int {:trigger Coef(r, i)} :: Coef(r, i) == (Coef(a, i) != Coef(b, i))
  {
    var n := if |a| < |b| then |b| else |a|;
    seq(n, i => Coef(a, i) != Coef(b, i))
  }

  /** x^k times p. */
  function TimesX(p: Poly, k: nat): (r: Poly)
    ensures forall i: int :: Coef(r, i) == Coef(p, i - k)
  {
    Zero(k) + p
  }

  function Mul(q: Poly, p: Poly): (r: Poly)
  {
    if q == [] then []
    else Add(if q[0] then p else [], TimesX(Mul(q[1..], p), 1))
  }

  /** The divisor of a CRC: x^W plus the polynomial of the parameter set. */
  function Divisor(g: Word): Poly {
    g + [true]
  }

  /** r * x^n + M * x^W, where M has the message bits as coefficients, the first bit leading. */
  function Dividend(r: Word, bits: Word): Poly {
    Add(TimesX(r, |bits|), TimesX(Rev(bits), |r|))
  }

  /** The coefficients of x^i in `d` and in `q * p + s` agree. */
  predicate DivisionAt(d: Poly, p: Poly, q: Poly, s: Poly, i: int) {
    Coef(d, i) == (Coef(Mul(q, p), i) != Coef(s, i))
  }

  /** `d == q * p + s`: dividing `d` by `p` leaves `s`, with quotient `q`. */
  ghost predicate IsDivision(d: Poly, p: Poly, q: Poly, s: Poly) {
    forall i: int :: DivisionAt(d, p, q, s, i)
  }

  /** The quotient: the feedback bits, the last one being the constant coefficient. */
  function Quotient(g: Word, r: Word, bits: Word): Poly
    requires |g| == |r| >= 1
  {
    if bits == [] then []
    else
      var n := |bits| - 1;
      [Feed(g, r, bits[..n])[|r| - 1] != bits[n]] + Quotient(g, r, bits[..n])
  }

  lemma DividendSnoc(r: Word, bits: Word, b: bool, i: int)
    ensures Coef(Dividend(r, bits + [b]), i) == (Coef(Dividend(r, bits), i - 1) != (b && i == |r|))
  {
    var c := bits + [b];
    assert Rev(c) == [b] + Rev(bits);
    assert Coef(TimesX(Rev(c), |r|), i) == Coef(Rev(c), i - |r|);
    assert Coef(TimesX(r, |c|), i) == Coef(r, i - |c|);
  }

  lemma FeedBitCoef(g: Word, r: Word, b: bool, i: int)
    requires |g| == |r| >= 1
    ensures var f := r[|r| - 1] != b;
            (Coef(r, i - 1) != (b && i == |r|)) == ((f && Coef(Divisor(g), i)) != Coef(FeedBit(g, r, b), i))
  {
  }

  lemma MulCons(f: bool, q: Poly, p: Poly, i: int)
    ensures Coef(Mul([f] + q, p), i) == ((f && Coef(p, i)) != Coef(Mul(q, p), i - 1))
  {
    assert ([f] + q)[1..] == q;
  }

  lemma DivisionStepAt(g: Word, r: Word, bits: Word, q: Poly, s: Word, b: bool, i: int)
    requires |g| == |s| >= 1 && |r| == |g|
    requires DivisionAt(Dividend(r, bits), Divisor(g), q, s, i - 1)
    ensures DivisionAt(Dividend(r, bits + [b]), Divisor(g), [s[|s| - 1] != b] + q, FeedBit(g, s, b), i)
  {
    DividendSnoc(r, bits, b, i);
    FeedBitCoef(g, s, b, i);
    MulCons(s[|s| - 1] != b, q, Divisor(g), i);
  }

  lemma DivisionStep(g: Word, r: Word, bits: Word, q: Poly, s: Word, b: bool)
    requires |g| == |s| >= 1 && |r| == |g|
    requires IsDivision(Dividend(r, bits), Divisor(g), q, s)
    ensures IsDivision(Dividend(r, bits + [b]), Divisor(g), [s[|s| - 1] != b] + q, FeedBit(g, s, b))
  {
    var d', q', s' := Dividend(r, bits + [b]), [s[|s| - 1] != b] + q, FeedBit(g, s, b);
    forall i: int
      ensures DivisionAt(d', Divisor(g), q', s', i)
    {
      assert DivisionAt(Dividend(r, bits), Divisor(g), q, s, i - 1);
      DivisionStepAt(g, r, bits, q, s, b, i);
    }
  }

  lemma DivisionBase(r: Word, p: Poly)
    ensures IsDivision(Dividend(r, []), p, [], r)
  {
    assert Rev([]) == [];
    forall i: int
      ensures DivisionAt(Dividend(r, []), p, [], r, i)
    {
      assert Coef(TimesX(Rev([]), |r|), i) == Coef([], i - |r|);
      assert Coef(TimesX(r, 0), i) == Coef(r, i - 0);
    }
  }

  lemma SnocBits(bits: Word)
    requires bits != []
    ensures bits == bits[..|bits| - 1] + [bits[|bits| - 1]]
  {
  }

  /** The engine's register is a remainder: r * x^n + M * x^W = Q * P + r'. */
  lemma {:induction false} FeedDivides(g: Word, r: Word, bits: Word)
    requires |g| == |r| >= 1
    ensures IsDivision(Dividend(r, bits), Divisor(g), Quotient(g, r, bits), Feed(g, r, bits))
  {
    if bits == [] {
      DivisionBase(r, Divisor(g));
    } else {
      var n := |bits| - 1;
      SnocBits(bits);
      FeedDivides(g, r, bits[..n]);
      DivisionStep(g, r, bits[..n], Quotient(g, r, bits[..n]), Feed(g, r, bits[..n]), bits[n]);
    }
  }

  /** A multiple of a divisor of degree W that has degree below W is zero. */
  lemma {:induction false} SmallMultiple(q: Poly, g: Word)
    requires |g| >= 1
    requires forall i: int :: i >= |g| ==> !Coef(Mul(q, Divisor(g)), i)
    ensures forall i: int :: !Coef(Mul(q, Divisor(g)), i)
  {
    if q != [] {
      var p, rest := Divisor(g), Mul(q[1..], Divisor(g));
      forall i: int | i >= |g|
        ensures !Coef(rest, i)
      {
        MulStep(q, p, i + 1);
        assert !Coef(Mul(q, p), i + 1);
      }
      SmallMultiple(q[1..], g);
      MulStep(q, p, |g|);
      assert !q[0] by { assert !Coef(Mul(q, p), |g|) && !Coef(rest, |g| - 1) && Coef(p, |g|); }
      forall i: int
        ensures !Coef(Mul(q, p), i)
      {
        MulStep(q, p, i);
        assert !Coef(rest, i - 1);
      }
    }
  }

  lemma {:induction false} MulDistributes(q: Poly, q': Poly, p: Poly, i: int)
    ensures Coef(Mul(Add(q, q'), p), i) == (Coef(Mul(q, p), i) != Coef(Mul(q', p), i))
    decreases |q| + |q'|
  {
    if q == [] {
      assert Add(q, q') == q';
    } else if q' == [] {
      assert Add(q, q') == q;
    } else {
      AddParts(q, q');
      MulStep(q, p, i);
      MulStep(q', p, i);
      MulStep(Add(q, q'), p, i);
      MulDistributes(q[1..], q'[1..], p, i - 1);
    }
  }

  lemma MulStep(q: Poly, p: Poly, i: int)
    requires q != []
    ensures Coef(Mul(q, p), i) == ((q[0] && Coef(p, i)) != Coef(Mul(q[1..], p), i - 1))
  {
  }

  lemma AddParts(q: Poly, q': Poly)
    requires q != [] && q' != []
    ensures Add(q, q') != [] && Add(q, q')[0] == (q[0] != q'[0])
    ensures Add(q, q')[1..] == Add(q[1..], q'[1..])
  {
    var a, t := Add(q, q'), Add(q[1..], q'[1..]);
    assert a[0] == Coef(a, 0);
    forall j | 0 <= j < |a| - 1
      ensures a[1..][j] == t[j]
    {
      assert a[j + 1] == Coef(a, j + 1);
      assert t[j] == Coef(t, j);
    }
  }

  /** Remainders of degree below W are unique, whatever the quotients. */
  lemma RemainderUnique(d: Poly, g: Word, q: Poly, s: Word, q': Poly, s': Word)
    requires |g| >= 1 && |s| == |s'| == |g|
    requires IsDivision(d, Divisor(g), q, s) && IsDivision(d, Divisor(g), q', s')
    ensures s == s'
  {
    var p, a := Divisor(g), Add(q, q');
    forall i: int
      ensures Coef(Mul(a, p), i) == (Coef(s, i) != Coef(s', i))
    {
      MulDistributes(q, q', p, i);
      assert DivisionAt(d, p, q, s, i) && DivisionAt(d, p, q', s', i);
    }
    SmallMultiple(a, g);
    forall i | 0 <= i < |s|
      ensures s[i] == s'[i]
    {
      assert Coef(s, i) == s[i] && Coef(s', i) == s'[i];
      assert !Coef(Mul(a, p), i);
    }
  }

  /** The register after a message is the remainder of degree below W, and nothing else is. */
  lemma FeedIsTheRemainder(g: Word, r: Word, bits: Word, s: Word)
    requires |g| == |r| == |s| >= 1
    ensures s == Feed(g, r, bits) <==> exists q: Poly :: IsDivision(Dividend(r, bits), Divisor(g), q, s)
  {
    FeedDivides(g, r, bits);
    if q: Poly :| IsDivision(Dividend(r, bits), Divisor(g), q, s) {
      RemainderUnique(Dividend(r, bits), g, Quotient(g, r, bits), Feed(g, r, bits), q, s);
    }
  }
}
