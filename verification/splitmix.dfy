/**
 SplitMix64, the generator behind every benchmark worker, on 64-bit unsigned arithmetic written out
 modulo 2^64.
 */
module SplitMix {
  import opened Bits

  const M64: int := 0x1_0000_0000_0000_0000
  const GAMMA: int := 0x9e3779b97f4a7c15
  const MUL1: int := 0xbf58476d1ce4e5b9
  const MUL2: int := 0x94d049bb133111eb

  type U64 = x: int | 0 <= x < 0x1_0000_0000_0000_0000

  lemma Regroup(x: int, y: int)
    ensures 2 * (x * y) == x * (2 * y)
  {
  }

  lemma {:induction false} Pow2Add(a: nat, b: nat)
    ensures Pow2(a + b) == Pow2(a) * Pow2(b)
  {
    if b > 0 {
      Pow2Add(a, b - 1);
      Regroup(Pow2(a), Pow2(b - 1));
    }
  }

  lemma Pow2Small()
    ensures Pow2(8) == 256
  {
    assert Pow2(4) == 16;
    Pow2Add(4, 4);
  }

  lemma Pow2Is64()
    ensures Pow2(64) == M64
  {
    Pow2Small();
    Pow2Add(8, 8);
    Pow2Add(16, 16);
    Pow2Add(32, 32);
  }

  function OfBits(w: Word): (x: U64)
    requires |w| == 64
  {
    ValueBound(w);
    Pow2Is64();
    Value(w)
  }

  function XorU64(x: U64, y: U64): U64 {
    OfBits(Xor(OfNat(x, 64), OfNat(y, 64)))
  }

  /** `z ^ (z >> s)`. */
  function XorShift(z: U64, s: nat): U64 {
    OfBits(Xor(OfNat(z, 64), Shr(OfNat(z, 64), s)))
  }

  /** `(z ^ (z >> s)) * c`. */
  function Scramble(z: U64, s: nat, c: int): U64 {
    (XorShift(z, s) * c) % M64
  }

  /** The output function applied to the advanced state. */
  function Mix(state: U64): U64 {
    XorShift(Scramble(Scramble(state, 30, MUL1), 27, MUL2), 31)
  }

  function Advance(state: U64): U64 {
    (state + GAMMA) % M64
  }

  /** The state after `k` draws. */
  function StateAfter(seed: U64, k: nat): U64
  {
    if k == 0 then seed else Advance(StateAfter(seed, k - 1))
  }

  /** The `k`-th draw, counting from zero. */
  function Draw(seed: U64, k: nat): U64 {
    Mix(StateAfter(seed, k + 1))
  }

  class SplitMix64 {
    var state: U64

    constructor (seed: U64)
      ensures state == seed
    {
      state := seed;
    }

    /** One call is one step of the stream: the draw that the old state determines. */
    method Next() returns (r: U64)
      modifies this
      ensures state == StateAfter(old(state), 1) && r == Draw(old(state), 0)
    {
      state := (state + GAMMA) % M64;
      var z := state;
      z := (XorShift(z, 30) * MUL1) % M64;
      z := (XorShift(z, 27) * MUL2) % M64;
      r := XorShift(z, 31);
      assert StateAfter(old(state), 1) == Advance(StateAfter(old(state), 0));
    }
  }

  // ---------- Every step of Mix can be undone ----------

  const INV1: int := 0x96de1b173f119089
  const INV2: int := 0x319642b2d24d8ec3

  /** Undoes `z ^ (z >> s)` when three shifts by `s` leave the word. */
  function ShiftBack(y: Word, s: nat): (w: Word)
    ensures |w| == |y|
  {
    Xor(y, Xor(Shr(y, s), Shr(y, 2 * s)))
  }

  function XorShiftBack(z: U64, s: nat): U64 {
    OfBits(ShiftBack(OfNat(z, 64), s))
  }

  /** The state that an output came from. */
  function Unmix(r: U64): U64 {
    XorShiftBack((XorShiftBack((XorShiftBack(r, 31) * INV2) % M64, 27) * INV1) % M64, 30)
  }

  lemma XorShrAt(v: Word, s: nat, i: nat)
    requires i < |v|
    ensures Xor(v, Shr(v, s))[i] == (v[i] != (i + s < |v| && v[i + s]))
  {
  }

  lemma ShiftBackAt(y: Word, s: nat, i: nat)
    requires i < |y|
    ensures ShiftBack(y, s)[i] == (y[i] != ((i + s < |y| && y[i + s]) != (i + 2 * s < |y| && y[i + 2 * s])))
  {
    var u := Xor(Shr(y, s), Shr(y, 2 * s));
    assert u[i] == (Shr(y, s)[i] != Shr(y, 2 * s)[i]);
  }

  lemma ShiftUndone(v: Word, s: nat)
    requires 3 * s >= |v|
    ensures ShiftBack(Xor(v, Shr(v, s)), s) == v
  {
    var y := Xor(v, Shr(v, s));
    forall i | 0 <= i < |v|
      ensures ShiftBack(y, s)[i] == v[i]
    {
      ShiftBackAt(y, s, i);
      XorShrAt(v, s, i);
      if i + s < |v| { XorShrAt(v, s, i + s); }
      if i + 2 * s < |v| { XorShrAt(v, s, i + 2 * s); }
    }
  }

  lemma BitsOf(w: Word)
    requires |w| == 64
    ensures OfNat(OfBits(w), 64) == w
  {
    OfNatValue(w);
  }

  lemma OfBitsOf(x: U64)
    ensures OfBits(OfNat(x, 64)) == x
  {
    Pow2Is64();
    ValueOfNat(x, 64);
  }

  lemma XorShiftUndone(x: U64, s: nat)
    requires 3 * s >= 64
    ensures XorShiftBack(XorShift(x, s), s) == x
  {
    var v := OfNat(x, 64);
    BitsOf(Xor(v, Shr(v, s)));
    ShiftUndone(v, s);
    OfBitsOf(x);
  }

  lemma MulUndone(x: U64, c: int, inv: int, q: int)
    requires inv * c == 1 + q * M64
    ensures ((x * c) % M64 * inv) % M64 == x
  {
    var n := (x * c) / M64;
    assert (x * c) % M64 == x * c - n * M64;
    calc {
      (x * c - n * M64) * inv;
      x * (inv * c) - (n * inv) * M64;
      x * (1 + q * M64) - (n * inv) * M64;
      x + (x * q - n * inv) * M64;
    }
    PlusMultiple(x, x * q - n * inv);
  }

  lemma PlusMultiple(x: U64, k: int)
    ensures (x + k * M64) % M64 == x
  {
  }

  lemma ScrambleUndone(x: U64, s: nat, c: int, inv: int, q: int)
    requires 3 * s >= 64 && inv * c == 1 + q * M64
    ensures XorShiftBack((Scramble(x, s, c) * inv) % M64, s) == x
  {
    MulUndone(XorShift(x, s), c, inv, q);
    XorShiftUndone(x, s);
  }

  /** Every output names the state it came from. */
  lemma UnmixMix(x: U64)
    ensures Unmix(Mix(x)) == x
  {
    var x1 := Scramble(x, 30, MUL1);
    var x2 := Scramble(x1, 27, MUL2);
    XorShiftUndone(x2, 31);
    ScrambleUndone(x1, 27, MUL2, INV2, 0x1cd336eda85f1453);
    ScrambleUndone(x, 30, MUL1, INV1, 0x70c3bca78f27f46c);
  }

  lemma MixInjective(x: U64, y: U64)
    requires Mix(x) == Mix(y)
    ensures x == y
  {
    UnmixMix(x);
    UnmixMix(y);
  }

  /** An odd multiplier has an inverse modulo 2^64, so it never merges two values. */
  lemma OddMultiplierInjective(c: int, inv: int, q: int, x: int, y: int)
    requires inv * c == 1 + q * M64
    requires (x * c) % M64 == (y * c) % M64
    ensures (x - y) % M64 == 0
  {
    var k := (x * c) / M64 - (y * c) / M64;
    assert (x - y) * c == k * M64;
    var d := x - y;
    calc {
      inv * k * M64;
      inv * (d * c);
      d * (inv * c);
      d * (1 + q * M64);
      d + d * q * M64;
    }
    assert d == (inv * k - d * q) * M64;
    MultipleMod(inv * k - d * q);
  }

  lemma MultipleMod(k: int)
    ensures (k * M64) % M64 == 0
  {
  }

  // ---------- The stream ----------

  lemma AddMod(a: int, b: int)
    ensures (a % M64 + b) % M64 == (a + b) % M64
  {
  }

  lemma {:induction false} StateAfterClosed(seed: U64, k: nat)
    ensures StateAfter(seed, k) == (seed + k * GAMMA) % M64
  {
    if k > 0 {
      StateAfterClosed(seed, k - 1);
      AddMod(seed + (k - 1) * GAMMA, GAMMA);
    }
  }

  lemma {:induction false} StateAfterAdd(seed: U64, j: nat, k: nat)
    ensures StateAfter(StateAfter(seed, j), k) == StateAfter(seed, j + k)
  {
    if k > 0 { StateAfterAdd(seed, j, k - 1); }
  }

  lemma SumsModEqual(seed: int, x: int, y: int)
    requires (seed + x) % M64 == (seed + y) % M64
    ensures x % M64 == y % M64
  {
  }

  lemma GammaInjective(i: nat, j: nat)
    requires (i * GAMMA) % M64 == (j * GAMMA) % M64
    ensures (i - j) % M64 == 0
  {
    OddMultiplierInjective(GAMMA, 0xf1de83e19937733d, 0x957bbf35006ed677, i, j);
  }

  lemma GammaPeriod(seed: int, i: nat, j: nat)
    requires (i - j) % M64 == 0
    ensures (seed + i * GAMMA) % M64 == (seed + j * GAMMA) % M64
  {
    var n := (i - j) / M64;
    assert seed + i * GAMMA == seed + j * GAMMA + (n * GAMMA) * M64;
  }

  lemma StatesRepeatIff(seed: U64, i: nat, j: nat)
    ensures StateAfter(seed, i) == StateAfter(seed, j) <==> (i - j) % M64 == 0
  {
    StateAfterClosed(seed, i);
    StateAfterClosed(seed, j);
    if StateAfter(seed, i) == StateAfter(seed, j) {
      SumsModEqual(seed, i * GAMMA, j * GAMMA);
      GammaInjective(i, j);
    }
    if (i - j) % M64 == 0 { GammaPeriod(seed, i, j); }
  }

  /** Two draws of a stream are equal exactly when their positions agree modulo 2^64. */
  lemma DrawsRepeatIff(seed: U64, i: nat, j: nat)
    ensures Draw(seed, i) == Draw(seed, j) <==> (i - j) % M64 == 0
  {
    StatesRepeatIff(seed, i + 1, j + 1);
    if Draw(seed, i) == Draw(seed, j) {
      MixInjective(StateAfter(seed, i + 1), StateAfter(seed, j + 1));
    }
  }

  /** No output repeats within 2^64 consecutive draws, from any seed. */
  lemma NoRepeat(seed: U64, i: nat, j: nat)
    requires i < j < i + M64
    ensures Draw(seed, i) != Draw(seed, j)
  {
    DrawsRepeatIff(seed, i, j);
    NotMultiple(j - i);
  }

  lemma NotMultiple(d: int)
    requires 0 < d < M64
    ensures (-d) % M64 != 0
  {
  }

  // ---------- How the workers are seeded ----------

  function PhaseSeed(seed: U64, measured: bool): U64 {
    XorU64(seed, if measured then 0xD1B54A32D192ED03 else 0x9E3779B97F4A7C15)
  }

  lemma XorUndone(x: U64, k: U64)
    ensures XorU64(XorU64(x, k), k) == x
  {
    var v, w := OfNat(x, 64), OfNat(k, 64);
    BitsOf(Xor(v, w));
    assert Xor(Xor(v, w), w) == v;
    OfBitsOf(x);
  }

  /** Each phase adds its own constant to the configured seed: adding it again gives the seed back. */
  lemma PhaseSeedUndone(seed: U64)
    ensures XorU64(PhaseSeed(seed, true), 0xD1B54A32D192ED03) == seed
    ensures XorU64(PhaseSeed(seed, false), 0x9E3779B97F4A7C15) == seed
  {
    XorUndone(seed, 0xD1B54A32D192ED03);
    XorUndone(seed, 0x9E3779B97F4A7C15);
  }

  /** The seed of worker `t`. */
  function WorkerSeed(phaseSeed: U64, t: nat): U64 {
    (phaseSeed + GAMMA * (t + 1)) % M64
  }

  lemma WorkerState(phaseSeed: U64, t: nat, k: nat)
    ensures StateAfter(WorkerSeed(phaseSeed, t), k) == StateAfter(phaseSeed, t + 1 + k)
  {
    StateAfterClosed(phaseSeed, t + 1);
    StateAfterAdd(phaseSeed, t + 1, k);
  }

  /** Every worker starts `t + 1` draws into one sequence. */
  lemma WorkersShareOneSequence(phaseSeed: U64, t: nat, k: nat)
    ensures Draw(WorkerSeed(phaseSeed, t), k) == Draw(phaseSeed, t + 1 + k)
  {
    WorkerState(phaseSeed, t, k + 1);
    var n := t + 1 + k;
    assert StateAfter(WorkerSeed(phaseSeed, t), k + 1) == StateAfter(phaseSeed, n + 1);
  }

  lemma SameDraw(s: U64, j: nat, s': U64, k: nat)
    requires StateAfter(s, j + 1) == StateAfter(s', k + 1)
    ensures Draw(s, j) == Draw(s', k)
  {
  }

  /** The draws of a generator that has already made `n`. */
  lemma DrawAfter(seed: U64, n: nat, k: nat)
    ensures Draw(StateAfter(seed, n), k) == Draw(seed, n + k)
  {
    StateAfterAdd(seed, n, k + 1);
    SameDraw(StateAfter(seed, n), k, seed, n + k);
  }

  lemma OneStepAhead(s: U64, s': U64, k: nat)
    requires s' == Advance(s)
    ensures Draw(s, k + 1) == Draw(s', k)
  {
    assert StateAfter(s, 1) == Advance(StateAfter(s, 0));
    StateAfterAdd(s, 1, k + 1);
  }

  lemma WorkerSeedStep(phaseSeed: U64, t: nat)
    ensures WorkerSeed(phaseSeed, t + 1) == Advance(WorkerSeed(phaseSeed, t))
  {
    AddMod(phaseSeed + GAMMA * (t + 1), GAMMA);
  }

  /** So a worker's draws are those of the next worker, one position later. */
  lemma NextWorkerLagsByOne(phaseSeed: U64, t: nat, k: nat)
    ensures Draw(WorkerSeed(phaseSeed, t), k + 1) == Draw(WorkerSeed(phaseSeed, t + 1), k)
  {
    WorkerSeedStep(phaseSeed, t);
    OneStepAhead(WorkerSeed(phaseSeed, t), WorkerSeed(phaseSeed, t + 1), k);
  }
}
