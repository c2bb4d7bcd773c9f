/**
 YCSB-D: reads over a growing key space and inserts of fresh keys, in a warmup and a measured phase that
 share one key counter. Events are atomic actions of workers, interleaved freely; the engine decides
 which attempts abort. The counters of a phase are those of `Workers` and are not repeated here.
 */
module YcsbD {
  import opened SplitMix

  /** `start` gives a worker's generator in a phase, `step` one draw, `isRead` the kind that the first
      draw of an attempt decides and `rank` the scrambled Zipf rank, before the remainder, that the
      second draw gives a generator of a given size. */
  datatype Config = Config(
    total: nat,
    threads: nat,
    lookups: bool -> nat,
    start: (bool, nat) -> U64,
    step: U64 -> U64,
    isRead: U64 -> bool,
    rank: (nat, U64) -> nat)
  {
    /** The bulk load fills at least the two keys a Zipf generator needs. */
    predicate Valid() {
      threads >= 1 && total >= 2
    }

    function Quota(measured: bool, t: nat): nat
      requires threads >= 1
    {
      lookups(measured) / threads + if t < lookups(measured) % threads then 1 else 0
    }

    /** The generator once an operation's draws are taken: two for a read, one for an insert. */
    function After(rng: U64): U64 {
      if isRead(rng) then step(step(rng)) else step(rng)
    }

    /** The generator of worker `t` at its `k`-th operation. */
    function RngAt(measured: bool, t: nat, k: nat): U64 {
      if k == 0 then start(measured, t) else After(RngAt(measured, t, k - 1))
    }
  }

  datatype Pc =
    | Scheduled                              // before the first load of the key counter
    | AtHead
    | Began(isRead: bool)                    // the kind is drawn and the transaction started
    | Loaded(max: nat, rank: nat, key: nat)  // a read: counter loaded, generator adjusted, key chosen
    | Took(key: nat)                         // an insert: key taken from the counter
    | Finished

  /** A committed read: which operation of which worker in which phase, the counter value it had loaded,
      its rank and its key. */
  datatype Read = Read(measured: bool, t: nat, nth: nat, max: nat, rank: nat, key: nat)

  datatype Done = DidRead(read: Read) | DidInsert(key: nat)

  /** `cachedMax` and the generator's size are locals that an abort leaves as they are; `ops` is the
      history of the operations committed in the phase. */
  datatype Worker = Worker(
    rng: U64,
    snapshot: U64,
    cachedMax: nat,
    genSize: nat,
    pc: Pc,
    ops: seq<Done>)

  /** `inserted`, `lost` and `lookedUp` are the history of both phases: keys whose insert committed, keys
      whose insert aborted after taking them, reads that committed. */
  datatype State = State(
    measured: bool,
    nextInsertKey: nat,
    workers: seq<Worker>,
    inserted: seq<nat>,
    lost: seq<nat>,
    lookedUp: seq<Read>)

  function Crew(c: Config, measured: bool): seq<Worker> {
    seq(c.threads, t requires 0 <= t < c.threads =>
      Worker(c.start(measured, t), c.start(measured, t), 0, 0, Scheduled, []))
  }

  function Init(c: Config): State {
    State(false, c.total, Crew(c, false), [], [], [])
  }

  /** A relaxed load may return an older value of the counter, but never one before the last value the
      worker saw; `seen` is what it returns. */
  datatype Event =
    | Start(t: nat, seen: nat)
    | Begin(t: nat)
    | Load(t: nat, seen: nat)
    | Take(t: nat)
    | Abort(t: nat)
    | Commit(t: nat)
    | Leave(t: nat)
    | NextPhase

  predicate Enabled(c: Config, s: State, e: Event)
    requires c.threads >= 1
  {
    if e.NextPhase? then
      !s.measured && forall t :: 0 <= t < |s.workers| ==> s.workers[t].pc == Finished
    else
      && e.t < |s.workers|
      && var w := s.workers[e.t];
         match e
         case Start(_, seen) => w.pc == Scheduled && c.total <= seen <= s.nextInsertKey
         case Begin(t) => w.pc == AtHead && |w.ops| < c.Quota(s.measured, t)
         case Load(_, seen) => w.pc == Began(true) && w.cachedMax <= seen <= s.nextInsertKey
         case Take(_) => w.pc == Began(false)
         case Abort(_) => w.pc.Began? || w.pc.Loaded? || w.pc.Took?
         case Commit(_) => w.pc.Loaded? || w.pc.Took?
         case Leave(t) => w.pc == AtHead && !(|w.ops| < c.Quota(s.measured, t))
  }

  /** `adjustN` when the counter has moved. */
  function Adjusted(w: Worker, max: nat): Worker {
    if max == w.cachedMax then w
    else w.(cachedMax := max, genSize := if max <= w.genSize then w.genSize else max)
  }

  /** Rank and key of a read, the fallback to key zero included. */
  function Choose(c: Config, w: Worker, max: nat): Pc
  {
    var size := Adjusted(w, max).genSize;
    var rank := if size == 0 then 0 else c.rank(size, w.rng) % size;
    Loaded(max, rank, if max > rank then max - 1 - rank else 0)
  }

  /** The read that worker `t` is about to commit. */
  function ReadOf(s: State, t: nat, w: Worker): Read
    requires w.pc.Loaded?
  {
    Read(s.measured, t, |w.ops|, w.pc.max, w.pc.rank, w.pc.key)
  }

  function Local(c: Config, s: State, w: Worker, e: Event): Worker
  {
    match e
    case Start(_, seen) => w.(cachedMax := seen, genSize := seen, pc := AtHead)
    case Begin(_) => w.(snapshot := w.rng, rng := c.step(w.rng), pc := Began(c.isRead(w.rng)))
    case Load(_, seen) => Adjusted(w, seen).(pc := Choose(c, w, seen), rng := c.step(w.rng))
    case Take(_) => w.(pc := Took(s.nextInsertKey))
    case Abort(_) => w.(rng := w.snapshot, pc := AtHead)
    case Commit(t) =>
      if w.pc.Loaded? then w.(pc := AtHead, ops := w.ops + [DidRead(ReadOf(s, t, w))])
      else if w.pc.Took? then w.(pc := AtHead, ops := w.ops + [DidInsert(w.pc.key)])
      else w
    case Leave(_) => w.(pc := Finished)
    case NextPhase => w
  }

  function Apply(c: Config, s: State, e: Event): State
    requires e.NextPhase? || e.t < |s.workers|
  {
    if e.NextPhase? then s.(measured := true, workers := Crew(c, true))
    else
      var w := s.workers[e.t];
      var s' := s.(workers := s.workers[e.t := Local(c, s, w, e)]);
      match e
      case Take(_) => s'.(nextInsertKey := s.nextInsertKey + 1)
      case Abort(_) => if w.pc.Took? then s'.(lost := s.lost + [w.pc.key]) else s'
      case Commit(_) =>
        if w.pc.Took? then s'.(inserted := s.inserted + [w.pc.key])
        else if w.pc.Loaded? then s'.(lookedUp := s.lookedUp + [ReadOf(s, e.t, w)])
        else s'
      case _ => s'
  }

  datatype Outcome = Blocked | Reached(state: State)

  function Exec(c: Config, events: seq<Event>): Outcome
    requires c.Valid()
  {
    if events == [] then Reached(Init(c))
    else
      var n := |events| - 1;
      match Exec(c, events[..n])
      case Blocked => Blocked
      case Reached(s) => if Enabled(c, s, events[n]) then Reached(Apply(c, s, events[n])) else Blocked
  }

  // ---------- Who holds which key ----------

  function Holds(w: Worker, k: nat): nat {
    if w.pc.Took? && w.pc.key == k then 1 else 0
  }

  function Holding(w: Worker): nat {
    if w.pc.Took? then 1 else 0
  }

  /** How many open transactions hold key `k`. */
  function Holders(ws: seq<Worker>, k: nat): nat {
    if ws == [] then 0 else Holders(ws[..|ws| - 1], k) + Holds(ws[|ws| - 1], k)
  }

  /** How many open transactions hold a key. */
  function Held(ws: seq<Worker>): nat {
    if ws == [] then 0 else Held(ws[..|ws| - 1]) + Holding(ws[|ws| - 1])
  }

  lemma {:induction false} HoldersUpdate(ws: seq<Worker>, i: nat, w: Worker, k: nat)
    requires i < |ws|
    ensures Holders(ws[i := w], k) + Holds(ws[i], k) == Holders(ws, k) + Holds(w, k)
    ensures Held(ws[i := w]) + Holding(ws[i]) == Held(ws) + Holding(w)
  {
    var n := |ws| - 1;
    if i == n {
      assert ws[i := w][..n] == ws[..n];
    } else {
      HoldersUpdate(ws[..n], i, w, k);
      assert ws[i := w][..n] == ws[..n][i := w];
    }
  }

  lemma {:induction false} NoHolders(ws: seq<Worker>, k: nat)
    requires forall t :: 0 <= t < |ws| ==> !ws[t].pc.Took?
    ensures Holders(ws, k) == 0 && Held(ws) == 0
  {
    if ws != [] { NoHolders(ws[..|ws| - 1], k); }
  }

  /** How often a key occurs. */
  function Times(a: seq<nat>, k: nat): nat {
    if a == [] then 0 else Times(a[..|a| - 1], k) + if a[|a| - 1] == k then 1 else 0
  }

  lemma TimesSnoc(a: seq<nat>, x: nat, k: nat)
    ensures Times(a + [x], k) == Times(a, k) + if x == k then 1 else 0
  {
    assert (a + [x])[..|a|] == a;
  }

  /** In how many places key `k` is: inserted, lost, or held by an open transaction. */
  function Places(s: State, k: nat): nat {
    Times(s.inserted, k) + Times(s.lost, k) + Holders(s.workers, k)
  }

  /** Every key handed out is in exactly one place, and no other key is anywhere. */
  ghost predicate KeysAccounted(c: Config, s: State) {
    && c.total <= s.nextInsertKey
    && (forall k: nat :: Places(s, k) == if c.total <= k < s.nextInsertKey then 1 else 0)
    && s.nextInsertKey == c.total + |s.inserted| + |s.lost| + Held(s.workers)
  }

  lemma PlacesKept(c: Config, s: State, e: Event, k: nat)
    requires c.Valid() && Enabled(c, s, e)
    ensures Places(Apply(c, s, e), k) == Places(s, k) + if e.Take? && k == s.nextInsertKey then 1 else 0
  {
    if e.NextPhase? {
      NoHolders(s.workers, k);
      NoHolders(Crew(c, true), k);
    } else {
      var w := s.workers[e.t];
      HoldersUpdate(s.workers, e.t, Local(c, s, w, e), k);
      if w.pc.Took? {
        TimesSnoc(s.inserted, w.pc.key, k);
        TimesSnoc(s.lost, w.pc.key, k);
      }
    }
  }

  lemma KeysKept(c: Config, s: State, e: Event)
    requires c.Valid() && Enabled(c, s, e) && KeysAccounted(c, s)
    ensures KeysAccounted(c, Apply(c, s, e))
  {
    var s' := Apply(c, s, e);
    forall k: nat
      ensures Places(s', k) == if c.total <= k < s'.nextInsertKey then 1 else 0
    {
      PlacesKept(c, s, e, k);
    }
    if e.NextPhase? {
      NoHolders(s.workers, 0);
      NoHolders(Crew(c, true), 0);
    } else {
      HoldersUpdate(s.workers, e.t, Local(c, s, s.workers[e.t], e), 0);
    }
  }

  // ---------- Reads ----------

  /** A started worker's generator has the size of the counter value it cached. */
  ghost predicate Tuned(c: Config, s: State, w: Worker) {
    w.pc != Scheduled ==> 2 <= w.cachedMax == w.genSize <= s.nextInsertKey
  }

  /** The read key is the one counted down from the newest, so the fallback was not taken. */
  ghost predicate InSpace(s: State, max: nat, rank: nat, key: nat) {
    rank < max <= s.nextInsertKey && key == max - 1 - rank
  }

  ghost predicate ReadsInSpace(c: Config, s: State) {
    && 2 <= s.nextInsertKey
    && (forall t :: 0 <= t < |s.workers| ==> Tuned(c, s, s.workers[t]))
    && (forall t :: 0 <= t < |s.workers| && s.workers[t].pc.Loaded? ==>
          var pc := s.workers[t].pc; InSpace(s, pc.max, pc.rank, pc.key))
    && (forall i :: 0 <= i < |s.lookedUp| ==> var r := s.lookedUp[i]; InSpace(s, r.max, r.rank, r.key))
  }

  lemma ReadsKept(c: Config, s: State, e: Event)
    requires c.Valid() && Enabled(c, s, e) && ReadsInSpace(c, s)
    ensures ReadsInSpace(c, Apply(c, s, e))
  {
  }

  // ---------- Streams ----------

  /** The rank of a read is the one its stream position gives a generator of the size it had loaded. */
  ghost predicate Pinned(c: Config, r: Read) {
    var here := c.RngAt(r.measured, r.t, r.nth);
    r.max >= 1 && c.isRead(here) && r.rank == c.rank(r.max, c.step(here)) % r.max
  }

  /** Operation `k` of worker `t` is of the kind its stream gives, and if it is a read its rank is. */
  ghost predicate StreamOp(c: Config, measured: bool, t: nat, k: nat, d: Done) {
    match d
    case DidRead(r) => r.measured == measured && r.t == t && r.nth == k && Pinned(c, r)
    case DidInsert(_) => !c.isRead(c.RngAt(measured, t, k))
  }

  /** What a worker has committed are the first operations of its stream, whatever was aborted. */
  ghost predicate OnStream(c: Config, measured: bool, t: nat, w: Worker) {
    && (forall k :: 0 <= k < |w.ops| ==> StreamOp(c, measured, t, k, w.ops[k]))
    && var here := c.RngAt(measured, t, |w.ops|);
       match w.pc
       case Began(r) => w.snapshot == here && w.rng == c.step(here) && r == c.isRead(here)
       case Loaded(max, rank, key) =>
         && w.snapshot == here && w.rng == c.step(c.step(here))
         && Pinned(c, Read(measured, t, |w.ops|, max, rank, key))
       case Took(_) => w.snapshot == here && !c.isRead(here) && w.rng == c.step(here)
       case _ => w.rng == here
  }

  ghost predicate AllOnStream(c: Config, s: State) {
    && |s.workers| == c.threads
    && (forall t :: 0 <= t < c.threads ==> OnStream(c, s.measured, t, s.workers[t]))
    && (forall i :: 0 <= i < |s.lookedUp| ==> Pinned(c, s.lookedUp[i]))
  }

  lemma WorkerOnStream(c: Config, s: State, e: Event)
    requires c.Valid() && Enabled(c, s, e) && !e.NextPhase? && Tuned(c, s, s.workers[e.t])
    requires OnStream(c, s.measured, e.t, s.workers[e.t])
    ensures OnStream(c, s.measured, e.t, Local(c, s, s.workers[e.t], e))
  {
  }

  lemma StreamKept(c: Config, s: State, e: Event)
    requires c.Valid() && Enabled(c, s, e) && ReadsInSpace(c, s) && AllOnStream(c, s)
    ensures AllOnStream(c, Apply(c, s, e))
  {
    if !e.NextPhase? {
      WorkerOnStream(c, s, e);
      assert Apply(c, s, e).workers == s.workers[e.t := Local(c, s, s.workers[e.t], e)];
    }
  }

  // ---------- Every run ----------

  lemma {:induction false} RunKeeps(c: Config, events: seq<Event>)
    requires c.Valid() && Exec(c, events).Reached?
    ensures var s := Exec(c, events).state; KeysAccounted(c, s) && ReadsInSpace(c, s) && AllOnStream(c, s)
  {
    if events == [] {
      InitKeys(c);
    } else {
      var n := |events| - 1;
      var s := Exec(c, events[..n]).state;
      RunKeeps(c, events[..n]);
      KeysKept(c, s, events[n]);
      ReadsKept(c, s, events[n]);
      StreamKept(c, s, events[n]);
    }
  }

  lemma InitKeys(c: Config)
    requires c.Valid()
    ensures KeysAccounted(c, Init(c))
  {
    forall k: nat
      ensures Places(Init(c), k) == 0
    {
      NoHolders(Crew(c, false), k);
    }
    NoHolders(Crew(c, false), 0);
  }

  // ---------- The laws ----------

  lemma {:induction false} TimesPositive(a: seq<nat>, i: nat)
    requires i < |a|
    ensures Times(a, a[i]) >= 1
  {
    var n := |a| - 1;
    if i < n { TimesPositive(a[..n], i); }
  }

  lemma {:induction false} TimesTwice(a: seq<nat>, i: nat, j: nat)
    requires i < j < |a| && a[i] == a[j]
    ensures Times(a, a[i]) >= 2
  {
    var n := |a| - 1;
    if j == n { TimesPositive(a[..n], i); } else { TimesTwice(a[..n], i, j); }
  }

  /** Over both phases and any schedule: inserted keys are pairwise distinct, none was loaded before, and
      none of them was also lost to an abort. */
  lemma InsertedKeysDistinct(c: Config, events: seq<Event>, i: nat, j: nat)
    requires c.Valid() && Exec(c, events).Reached?
    requires var s := Exec(c, events).state; i < |s.inserted| && j < |s.inserted|
    ensures var s := Exec(c, events).state;
            && c.total <= s.inserted[i] < s.nextInsertKey
            && (i != j ==> s.inserted[i] != s.inserted[j])
            && s.inserted[i] !in s.lost
  {
    var s := Exec(c, events).state;
    RunKeeps(c, events);
    var k := s.inserted[i];
    TimesPositive(s.inserted, i);
    assert Places(s, k) == 1;
    if i != j && s.inserted[j] == k { TimesTwice(s.inserted, if i < j then i else j, if i < j then j else i); }
    if k in s.lost {
      var l: nat :| l < |s.lost| && s.lost[l] == k;
      TimesPositive(s.lost, l);
    }
  }

  /** Every committed read chose its key below the counter value it had loaded, counting down from the
      newest key by the rank its stream position fixes: the fallback to key zero is never taken. The key
      was loaded, inserted, lost to an abort or is held by an open insert. */
  lemma ReadsStayInSpace(c: Config, events: seq<Event>, i: nat)
    requires c.Valid() && Exec(c, events).Reached? && i < |Exec(c, events).state.lookedUp|
    ensures var s := Exec(c, events).state;
            var r := s.lookedUp[i];
            && r.rank < r.max && r.key == r.max - 1 - r.rank && r.key < r.max <= s.nextInsertKey
            && r.rank == c.rank(r.max, c.step(c.RngAt(r.measured, r.t, r.nth))) % r.max
            && (r.key < c.total || Places(s, r.key) == 1)
  {
    RunKeeps(c, events);
    var s := Exec(c, events).state;
    var r := s.lookedUp[i];
    assert InSpace(s, r.max, r.rank, r.key) && Pinned(c, r);
  }

  /** The kinds a worker commits in a phase are fixed by its generator, however often it aborts. */
  lemma KindsAreStream(c: Config, events: seq<Event>, t: nat, k: nat)
    requires c.Valid() && Exec(c, events).Reached? && t < c.threads
    requires var ws := Exec(c, events).state.workers; |ws| == c.threads && k < |ws[t].ops|
    ensures var s := Exec(c, events).state;
            s.workers[t].ops[k].DidRead? == c.isRead(c.RngAt(s.measured, t, k))
  {
    RunKeeps(c, events);
    assert StreamOp(c, Exec(c, events).state.measured, t, k, Exec(c, events).state.workers[t].ops[k]);
  }

  /** If operation `k` of a worker is a read, its rank is that of the stream's draw in a generator of the
      size the counter had when it was loaded, whatever the worker aborted before and whatever size its
      generator had then. */
  lemma RanksAreStream(c: Config, events: seq<Event>, t: nat, k: nat)
    requires c.Valid() && Exec(c, events).Reached? && t < c.threads
    requires var ws := Exec(c, events).state.workers; |ws| == c.threads && k < |ws[t].ops| && ws[t].ops[k].DidRead?
    ensures var s := Exec(c, events).state;
            var r := s.workers[t].ops[k].read;
            && r.measured == s.measured && r.t == t && r.nth == k && r.max >= 1
            && r.rank == c.rank(r.max, c.step(c.RngAt(s.measured, t, k))) % r.max
  {
    RunKeeps(c, events);
    assert StreamOp(c, Exec(c, events).state.measured, t, k, Exec(c, events).state.workers[t].ops[k]);
  }

  /** The reads among the first `n` operations of a stream. */
  function StreamReads(c: Config, measured: bool, t: nat, n: nat): nat {
    if n == 0 then 0 else StreamReads(c, measured, t, n - 1) + if c.isRead(c.RngAt(measured, t, n - 1)) then 1 else 0
  }

  // ---------- The benchmark's parameters ----------

  /** `op < 0.95`. */
  predicate MostlyRead(draw: U64) {
    draw as real / (M64 - 1) as real < 0.95
  }

  /** What the command line fixes: `zipf` is the rank that a generator of a given size makes of one draw
      and `hash` the scrambling hash. */
  datatype Setup = Setup(
    total: nat,
    threads: nat,
    lookups: bool -> nat,
    seed: U64,
    zipf: (nat, U64) -> nat,
    hash: nat -> nat)

  function Benchmark(b: Setup): Config {
    Config(b.total, b.threads, b.lookups,
           (measured: bool, t: nat) => WorkerSeed(PhaseSeed(b.seed, measured), t),
           (rng: U64) => Advance(rng),
           (rng: U64) => MostlyRead(Draw(rng, 0)),
           (size: nat, rng: U64) => b.hash(b.zipf(size, Draw(rng, 0))))
  }

  /** The kind in integers: the draw is below nineteen twentieths of the largest. */
  lemma MostlyReadIff(draw: U64)
    ensures MostlyRead(draw) <==> 20 * draw < 19 * (M64 - 1)
  {
    var x, m := draw as real, (M64 - 1) as real;
    assert x / m < 0.95 <==> x < 0.95 * m;
  }

  /** Worker `t` takes its draws from the phase's sequence, starting at draw `t + 1`: one for every
      operation and another for every read. */
  function Position(c: Config, measured: bool, t: nat, k: nat): nat {
    t + 1 + k + StreamReads(c, measured, t, k)
  }

  lemma {:induction false} RngPosition(c: Config, measured: bool, phase: U64, t: nat, k: nat)
    requires c.start(measured, t) == StateAfter(phase, t + 1)
    requires forall rng: U64 :: c.step(rng) == Advance(rng)
    ensures c.RngAt(measured, t, k) == StateAfter(phase, Position(c, measured, t, k))
  {
    if k > 0 { RngPosition(c, measured, phase, t, k - 1); }
  }

  lemma BenchmarkRng(b: Setup, c: Config, measured: bool, t: nat, k: nat)
    requires c == Benchmark(b)
    ensures c.RngAt(measured, t, k) == StateAfter(PhaseSeed(b.seed, measured), Position(c, measured, t, k))
  {
    WorkerState(PhaseSeed(b.seed, measured), t, 0);
    RngPosition(c, measured, PhaseSeed(b.seed, measured), t, k);
  }

  /** The choices of an operation, by the generator it was drawn from. */
  ghost predicate ChosenFrom(c: Config, here: U64, op: Done) {
    && (op.DidRead? <==> c.isRead(here))
    && (op.DidRead? ==> op.read.max >= 1 && op.read.rank == c.rank(op.read.max, c.step(here)) % op.read.max)
  }

  /** The choices of an operation, by two neighbouring draws: `kind` decides whether it is a read, and a
      read of a key space of size `max` ranks as `draw` does. */
  predicate ChosenBy(b: Setup, kind: U64, draw: U64, op: Done) {
    && (op.DidRead? <==> MostlyRead(kind))
    && (op.DidRead? ==> op.read.max >= 1 && op.read.rank == b.hash(b.zipf(op.read.max, draw)) % op.read.max)
  }

  /** The kind and the raw rank that a generator gives, by draws of the sequence it is on. */
  lemma ChoiceAt(b: Setup, phase: U64, at: nat, max: nat)
    ensures var c := Benchmark(b);
            && (c.isRead(StateAfter(phase, at)) <==> MostlyRead(Draw(phase, at)))
            && c.rank(max, c.step(StateAfter(phase, at))) == b.hash(b.zipf(max, Draw(phase, at + 1)))
  {
    DrawAfter(phase, at, 0);
    DrawAfter(phase, at + 1, 0);
  }

  /** An operation chosen by the generator at position `at` of a sequence has its kind from draw `at` and,
      if it is a read, its rank from draw `at + 1`. */
  lemma DrawsChoose(b: Setup, c: Config, here: U64, phase: U64, at: nat, op: Done)
    requires c == Benchmark(b) && here == StateAfter(phase, at)
    ensures ChosenFrom(c, here, op) <==> ChosenBy(b, Draw(phase, at), Draw(phase, at + 1), op)
  {
    ChoiceAt(b, phase, at, if op.DidRead? then op.read.max else 1);
  }

  /** What worker `t` commits as its `k`-th operation of a phase, in every run, is chosen by the
      generator at that position of the one sequence that the phase's seed starts; `DrawsChoose` says by
      which draws. */
  lemma CommittedOp(b: Setup, c: Config, events: seq<Event>, s: State, t: nat, k: nat)
    requires c == Benchmark(b) && c.Valid() && Exec(c, events) == Reached(s)
    requires t < |s.workers| == c.threads && k < |s.workers[t].ops|
    ensures ChosenFrom(c, StateAfter(PhaseSeed(b.seed, s.measured), Position(c, s.measured, t, k)), s.workers[t].ops[k])
  {
    KindsAreStream(c, events, t, k);
    if s.workers[t].ops[k].DidRead? { RanksAreStream(c, events, t, k); }
    BenchmarkRng(b, c, s.measured, t, k);
  }

  /** Generators that meet stay together. */
  lemma {:induction false} StreamsCoalesce(c: Config, measured: bool, t: nat, k: nat, t': nat, k': nat, j: nat)
    requires c.RngAt(measured, t, k) == c.RngAt(measured, t', k')
    ensures c.RngAt(measured, t, k + j) == c.RngAt(measured, t', k' + j)
  {
    if j > 0 { StreamsCoalesce(c, measured, t, k, t', k', j - 1); }
  }

  /** Worker `t + 1` starts one draw ahead of worker `t`, as the benchmark seeds them. */
  lemma BenchmarkSeeds(b: Setup, measured: bool, t: nat)
    ensures var c := Benchmark(b); c.start(measured, t + 1) == c.step(c.start(measured, t))
  {
    WorkerSeedStep(PhaseSeed(b.seed, measured), t);
  }

  /** So a worker whose first operation is an insert goes on exactly as the next worker does from its
      start: same kinds, same draws. */
  lemma InsertFirstTwins(c: Config, measured: bool, t: nat, j: nat)
    requires c.start(measured, t + 1) == c.step(c.start(measured, t)) && !c.isRead(c.start(measured, t))
    ensures c.RngAt(measured, t, j + 1) == c.RngAt(measured, t + 1, j)
  {
    assert c.RngAt(measured, t, 1) == c.After(c.RngAt(measured, t, 0));
    StreamsCoalesce(c, measured, t, 1, t + 1, 0, j);
  }
}
