/**
 YCSB-A: half reads, half updates, keys from a scrambled Zipf distribution, SplitMix64 throughout.
 */
module YcsbA {
  import opened SplitMix
  import opened Histogram
  import opened Workers
  import opened WorkersLaws

  /** `next01() < 0.5`. */
  predicate LowHalf(draw: U64) {
    draw as real / (M64 - 1) as real < 0.5
  }

  /** `rank` is the Zipf rank as a function of one draw and `hash` the scrambling hash. */
  datatype Keys = Keys(records: nat, rank: U64 -> nat, hash: nat -> nat)

  /** The operation drawn at a generator state: one draw for the key, one for the kind. */
  function OpFrom(keys: Keys, rng: U64): Op
    requires keys.records >= 1
  {
    Op(keys.hash(keys.rank(Draw(rng, 0))) % keys.records, LowHalf(Draw(rng, 1)))
  }

  function Phase(keys: Keys, seed: U64, measured: bool, threads: nat, lookups: nat): Config
    requires keys.records >= 1
  {
    Config(measured, threads, lookups, LatencyBounds(),
           (t: nat) => WorkerSeed(PhaseSeed(seed, measured), t),
           (rng: U64) => OpFrom(keys, rng),
           (rng: U64) => StateAfter(rng, 2))
  }

  lemma {:induction false} RngClosed(keys: Keys, seed: U64, measured: bool, threads: nat, lookups: nat, t: nat, k: nat)
    requires keys.records >= 1
    ensures Phase(keys, seed, measured, threads, lookups).RngAt(t, k)
         == StateAfter(PhaseSeed(seed, measured), t + 1 + 2 * k)
  {
    var phase := PhaseSeed(seed, measured);
    if k == 0 {
      WorkerState(phase, t, 0);
    } else {
      RngClosed(keys, seed, measured, threads, lookups, t, k - 1);
      StateAfterAdd(phase, t + 1 + 2 * (k - 1), 2);
    }
  }

  lemma RngsOverlap(keys: Keys, seed: U64, measured: bool, threads: nat, lookups: nat, t: nat, k: nat)
    requires keys.records >= 1
    ensures var c := Phase(keys, seed, measured, threads, lookups);
            c.RngAt(t, k + 1) == c.RngAt(t + 2, k)
  {
    RngClosed(keys, seed, measured, threads, lookups, t, k + 1);
    RngClosed(keys, seed, measured, threads, lookups, t + 2, k);
    assert t + 1 + 2 * (k + 1) == t + 2 + 1 + 2 * k;
  }

  lemma SameRng(c: Config, t: nat, k: nat, t': nat, k': nat)
    requires c.RngAt(t, k) == c.RngAt(t', k')
    ensures c.StreamOp(t, k) == c.StreamOp(t', k')
  {
  }

  /** Item `k + 1` of worker `t` is item `k` of worker `t + 2`: the seeds lie one draw apart and an item
      takes two. */
  lemma StreamsOverlap(keys: Keys, seed: U64, measured: bool, threads: nat, lookups: nat, t: nat, k: nat)
    requires keys.records >= 1
    ensures var c := Phase(keys, seed, measured, threads, lookups);
            c.StreamOp(t, k + 1) == c.StreamOp(t + 2, k)
  {
    RngsOverlap(keys, seed, measured, threads, lookups, t, k);
    SameRng(Phase(keys, seed, measured, threads, lookups), t, k + 1, t + 2, k);
  }

  /** In every run workers two apart commit the same operations, one position shifted. */
  lemma WorkersTwoApartRepeat(keys: Keys, seed: U64, measured: bool, threads: nat, lookups: nat,
                              events: seq<Event>, t: nat, k: nat)
    requires keys.records >= 1 && t + 2 < threads
    requires var c := Phase(keys, seed, measured, threads, lookups); Exec(c, events).Reached?
    requires var ws := Exec(Phase(keys, seed, measured, threads, lookups), events).state.workers;
             |ws| == threads && k + 1 < |ws[t].log| && k < |ws[t + 2].log|
    ensures var ws := Exec(Phase(keys, seed, measured, threads, lookups), events).state.workers;
            ws[t].log[k + 1].op == ws[t + 2].log[k].op
  {
    var c := Phase(keys, seed, measured, threads, lookups);
    CommittedIsStreamPrefix(c, events, t);
    CommittedIsStreamPrefix(c, events, t + 2);
    StreamsOverlap(keys, seed, measured, threads, lookups, t, k);
  }

  /** The kind in integers: the draw is below half of the largest. */
  lemma LowHalfIff(draw: U64)
    ensures LowHalf(draw) <==> 2 * draw < M64 - 1
  {
    var x, m := draw as real, (M64 - 1) as real;
    assert x / m < 0.5 <==> x < 0.5 * m;
  }

  /** The operation drawn at position `at` of a sequence has its key from draw `at` and its kind from
      draw `at + 1`. */
  lemma OpAt(keys: Keys, phase: U64, at: nat)
    requires keys.records >= 1
    ensures OpFrom(keys, StateAfter(phase, at)).key == keys.hash(keys.rank(Draw(phase, at))) % keys.records
    ensures OpFrom(keys, StateAfter(phase, at)).isRead <==> 2 * Draw(phase, at + 1) < M64 - 1
  {
    DrawAfter(phase, at, 0);
    DrawAfter(phase, at, 1);
    LowHalfIff(Draw(phase, at + 1));
  }

  /** What worker `t` commits as its `k`-th operation, in every run, is the one at position
      `t + 1 + 2k` of the one sequence that the phase's seed starts; `OpAt` says by which draws. */
  lemma CommittedOp(keys: Keys, seed: U64, measured: bool, threads: nat, lookups: nat,
                    events: seq<Event>, t: nat, k: nat)
    requires keys.records >= 1 && t < threads
    requires Exec(Phase(keys, seed, measured, threads, lookups), events).Reached?
    requires var ws := Exec(Phase(keys, seed, measured, threads, lookups), events).state.workers;
             |ws| == threads && k < |ws[t].log|
    ensures var op := Exec(Phase(keys, seed, measured, threads, lookups), events).state.workers[t].log[k].op;
            op == OpFrom(keys, StateAfter(PhaseSeed(seed, measured), t + 1 + 2 * k)) && op.key < keys.records
  {
    CommittedIsStreamPrefix(Phase(keys, seed, measured, threads, lookups), events, t);
    RngClosed(keys, seed, measured, threads, lookups, t, k);
  }
}
