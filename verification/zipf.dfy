/**
 The Zipf generators and how they grow with the key space. Floating-point arithmetic is left abstract:
 the growth laws use no property of addition, division or pow, so they hold of rounded doubles as they
 stand. What alpha and eta are for is stated over exact arithmetic.
 */
module Zipf {

  /** The floating-point operations the generator uses. */
  datatype Arith<!D> = Arith(
    ofNat: nat -> D,
    add: (D, D) -> D,
    sub: (D, D) -> D,
    div: (D, D) -> D,
    pow: (D, D) -> D)
  {
    function Term(i: nat, theta: D): D {
      pow(div(ofNat(1), ofNat(i)), theta)
    }

    /** `zeta`: the terms added one by one, from the first. */
    function Zeta(n: nat, theta: D): D {
      if n == 0 then ofNat(0) else add(Zeta(n - 1, theta), Term(n, theta))
    }

    function Eta(n: nat, theta: D, zetan: D): D {
      div(sub(ofNat(1), pow(div(ofNat(2), ofNat(n)), sub(ofNat(1), theta))),
          sub(ofNat(1), div(Zeta(2, theta), zetan)))
    }

    /** The running sum after the terms up to `m` are added to a sum that stands at `n`. */
    function Extend(sum: D, n: nat, m: nat, theta: D): D
      requires n <= m
      decreases m - n
    {
      if n == m then sum else add(Extend(sum, n, m - 1, theta), Term(m, theta))
    }
  }

  /** The fields of a ZipfGenerator. */
  datatype State<D> = State(n: nat, theta: D, alpha: D, zetan: D, eta: D)

  /** What `reset` leaves for a size of at least two. */
  function Fresh<D>(a: Arith<D>, n: nat, theta: D): State<D> {
    State(n, theta, a.div(a.ofNat(1), a.sub(a.ofNat(1), theta)), a.Zeta(n, theta), a.Eta(n, theta, a.Zeta(n, theta)))
  }

  /** What `growTo` (`adjustN` in workload D) makes of a state. */
  function Grow<D>(a: Arith<D>, s: State<D>, m: nat): State<D> {
    if m <= s.n then s
    else
      var z := a.Extend(s.zetan, s.n, m, s.theta);
      s.(n := m, zetan := z, eta := a.Eta(m, s.theta, z))
  }

  function MaxOf(n: nat, m: nat): nat {
    if m <= n then n else m
  }

  lemma {:induction false} ExtendIsZeta<D>(a: Arith<D>, n: nat, m: nat, theta: D)
    requires n <= m
    ensures a.Extend(a.Zeta(n, theta), n, m, theta) == a.Zeta(m, theta)
    decreases m - n
  {
    if n < m { ExtendIsZeta(a, n, m - 1, theta); }
  }

  /** Growing a fresh generator is resetting it at the larger size. */
  lemma GrowIsReset<D>(a: Arith<D>, n: nat, theta: D, m: nat)
    ensures Grow(a, Fresh(a, n, theta), m) == Fresh(a, MaxOf(n, m), theta)
  {
    if n < m { ExtendIsZeta(a, n, m, theta); }
  }

  function GrowAll<D>(a: Arith<D>, s: State<D>, sizes: seq<nat>): State<D> {
    if sizes == [] then s else Grow(a, GrowAll(a, s, sizes[..|sizes| - 1]), sizes[|sizes| - 1])
  }

  function MaxAll(n: nat, sizes: seq<nat>): (m: nat)
    ensures m >= n && (m == n || m in sizes) && forall k :: k in sizes ==> k <= m
  {
    if sizes == [] then n
    else
      assert sizes == sizes[..|sizes| - 1] + [sizes[|sizes| - 1]];
      MaxOf(MaxAll(n, sizes[..|sizes| - 1]), sizes[|sizes| - 1])
  }

  /** Any chain of growth leaves the generator as one reset at the largest size would. */
  lemma {:induction false} GrowthForgetsItsSteps<D>(a: Arith<D>, n: nat, theta: D, sizes: seq<nat>)
    ensures GrowAll(a, Fresh(a, n, theta), sizes) == Fresh(a, MaxAll(n, sizes), theta)
  {
    if sizes != [] {
      GrowthForgetsItsSteps(a, n, theta, sizes[..|sizes| - 1]);
      GrowIsReset(a, MaxAll(n, sizes[..|sizes| - 1]), theta, sizes[|sizes| - 1]);
    }
  }

  // ---------- Alpha and eta over exact arithmetic ----------

  /** The operations are those of the real numbers; of pow only that powers of positive numbers are
      positive. */
  ghost predicate Exact(a: Arith<real>) {
    && (forall n: nat :: a.ofNat(n) == n as real)
    && (forall x: real, y: real :: a.add(x, y) == x + y)
    && (forall x: real, y: real :: a.sub(x, y) == x - y)
    && (forall x: real, y: real :: y != 0.0 ==> a.div(x, y) == x / y)
    && (forall x: real, y: real :: x > 0.0 ==> a.pow(x, y) > 0.0)
  }

  lemma TermPositive(a: Arith<real>, i: nat, theta: real)
    requires Exact(a) && i >= 1
    ensures a.Term(i, theta) > 0.0
  {
    assert a.div(a.ofNat(1), a.ofNat(i)) == 1.0 / i as real > 0.0;
  }

  lemma {:induction false} ZetaGrows(a: Arith<real>, n: nat, m: nat, theta: real)
    requires Exact(a) && n < m
    ensures a.Zeta(n, theta) < a.Zeta(m, theta)
  {
    TermPositive(a, m, theta);
    if n < m - 1 { ZetaGrows(a, n, m - 1, theta); }
  }

  lemma QuotientIsOne(x: real, y: real)
    requires y > 0.0
    ensures x / y == 1.0 <==> x == y
  {
  }

  /** Alpha inverts `1 - theta`. */
  lemma AlphaExact(a: Arith<real>, n: nat, theta: real)
    requires Exact(a) && theta != 1.0
    ensures Fresh(a, n, theta).alpha * (1.0 - theta) == 1.0
  {
    var d := 1.0 - theta;
    assert Fresh(a, n, theta).alpha == 1.0 / d;
  }

  /** Eta's denominator vanishes at the smallest size that `reset` accepts and at no other. */
  lemma EtaDefinedIff(a: Arith<real>, n: nat, theta: real)
    requires Exact(a) && n >= 2
    ensures a.Zeta(n, theta) > 0.0
    ensures 1.0 - a.Zeta(2, theta) / a.Zeta(n, theta) == 0.0 <==> n == 2
  {
    ZetaGrows(a, 0, n, theta);
    if n > 2 { ZetaGrows(a, 2, n, theta); }
    QuotientIsOne(a.Zeta(2, theta), a.Zeta(n, theta));
  }

  /** Above it eta scales the one difference to the other. */
  lemma EtaExact(a: Arith<real>, n: nat, theta: real)
    requires Exact(a) && n > 2
    ensures a.Zeta(n, theta) > 0.0
    ensures Fresh(a, n, theta).eta * (1.0 - a.Zeta(2, theta) / a.Zeta(n, theta))
            == 1.0 - a.pow(2.0 / n as real, 1.0 - theta)
  {
    EtaDefinedIff(a, n, theta);
    var up, down := 1.0 - a.pow(2.0 / n as real, 1.0 - theta), 1.0 - a.Zeta(2, theta) / a.Zeta(n, theta);
    assert a.div(a.ofNat(2), a.ofNat(n)) == 2.0 / n as real;
    assert Fresh(a, n, theta).eta == up / down;
  }

  class ZipfGenerator<D> {
    const a: Arith<D>
    var n: nat
    var theta: D
    var alpha: D
    var zetan: D
    var eta: D

    ghost function View(): State<D>
      reads this
    {
      State(n, theta, alpha, zetan, eta)
    }

    constructor (ops: Arith<D>)
      ensures a == ops && View() == State(0, ops.ofNat(0), ops.ofNat(0), ops.ofNat(0), ops.ofNat(0))
    {
      a := ops;
      n := 0;
      theta, alpha, zetan, eta := ops.ofNat(0), ops.ofNat(0), ops.ofNat(0), ops.ofNat(0);
    }

    method Zeta(size: nat, exponent: D) returns (sum: D)
      ensures sum == a.Zeta(size, exponent)
    {
      sum := a.ofNat(0);
      for i := 1 to size + 1
        invariant sum == a.Zeta(i - 1, exponent)
      {
        sum := a.add(sum, a.Term(i, exponent));
      }
    }

    method SetEta()
      modifies this`eta
      ensures eta == a.Eta(n, theta, zetan)
    {
      var zeta2 := Zeta(2, theta);
      eta := a.div(a.sub(a.ofNat(1), a.pow(a.div(a.ofNat(2), a.ofNat(n)), a.sub(a.ofNat(1), theta))),
                   a.sub(a.ofNat(1), a.div(zeta2, zetan)));
    }

    /** Sizes below two are refused and change nothing. */
    method Reset(size: nat, exponent: D) returns (ok: bool)
      modifies this
      ensures ok == (size >= 2)
      ensures View() == if ok then Fresh(a, size, exponent) else old(View())
    {
      if size < 2 { return false; }
      n := size;
      theta := exponent;
      alpha := a.div(a.ofNat(1), a.sub(a.ofNat(1), exponent));
      zetan := Zeta(size, exponent);
      SetEta();
      return true;
    }

    method GrowTo(size: nat)
      modifies this
      ensures View() == Grow(a, old(View()), size)
    {
      if size <= n { return; }
      for i := n + 1 to size + 1
        invariant n == old(n) && theta == old(theta) && alpha == old(alpha)
        invariant zetan == a.Extend(old(zetan), old(n), i - 1, old(theta))
      {
        zetan := a.add(zetan, a.Term(i, theta));
      }
      n := size;
      SetEta();
    }
  }

  /** The generator of keys: its own size and the Zipf generator it owns. */
  class ScrambledZipfGenerator<D> {
    var n: nat
    const zipf: ZipfGenerator<D>

    /** Reset at `n` and grown since, in any number of steps. */
    ghost predicate Valid(theta: D)
      reads this, zipf
    {
      n >= 2 && zipf.View() == Fresh(zipf.a, n, theta)
    }

    constructor (ops: Arith<D>)
      ensures fresh(zipf) && n == 0 && zipf.a == ops && zipf.n == 0
    {
      n := 0;
      zipf := new ZipfGenerator<D>(ops);
    }

    /** A refused size has already been stored here when the inner reset throws. */
    method Reset(size: nat, exponent: D) returns (ok: bool)
      modifies this, zipf
      ensures ok == (size >= 2) && n == size
      ensures ok ==> Valid(exponent)
      ensures !ok ==> zipf.View() == old(zipf.View())
    {
      n := size;
      ok := zipf.Reset(size, exponent);
    }

    /** Both sizes grow together and the state is that of a reset at the larger size. */
    method GrowTo(size: nat, ghost theta: D)
      requires Valid(theta)
      modifies this, zipf
      ensures Valid(theta) && n == MaxOf(old(n), size)
    {
      if size <= n { return; }
      GrowIsReset(zipf.a, n, theta, size);
      zipf.GrowTo(size);
      n := size;
    }
  }
}
