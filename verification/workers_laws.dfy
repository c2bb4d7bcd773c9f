/**
 What every run of the benchmark phase keeps, and what it has done when it ends.
 */
module WorkersLaws {
  import opened SplitMix
  import opened Histogram
  import opened HistogramLaws
  import opened Workers

  // ---------- Sums over the workers ----------

  function Sum(ws: seq<Worker>, f: Worker -> nat): nat {
    if ws == [] then 0 else Sum(ws[..|ws| - 1], f) + f(ws[|ws| - 1])
  }

  lemma {:induction false} SumUpdate(ws: seq<Worker>, i: nat, w: Worker, f: Worker -> nat)
    requires i < |ws|
    ensures Sum(ws[i := w], f) + f(ws[i]) == Sum(ws, f) + f(w)
  {
    var n := |ws| - 1;
    if i == n {
      assert ws[i := w][..n] == ws[..n];
    } else {
      SumUpdate(ws[..n], i, w, f);
      assert ws[i := w][..n] == ws[..n][i := w];
    }
  }

  lemma {:induction false} SumZero(ws: seq<Worker>, f: Worker -> nat)
    requires forall w :: w in ws ==> f(w) == 0
    ensures Sum(ws, f) == 0
  {
    if ws != [] {
      var n := |ws| - 1;
      assert ws[n] in ws;
      assert forall w :: w in ws[..n] ==> w in ws;
      SumZero(ws[..n], f);
    }
  }

  // ---------- What each worker has contributed to each shared counter ----------

  /** Committed operations of which `p` holds. */
  function Tally(log: seq<Entry>, p: Entry -> bool): nat {
    if log == [] then 0 else Tally(log[..|log| - 1], p) + if p(log[|log| - 1]) then 1 else 0
  }

  function Reads(): Entry -> bool { (x: Entry) => x.op.isRead }
  function Writes(): Entry -> bool { (x: Entry) => !x.op.isRead }
  function Hits(): Entry -> bool { (x: Entry) => x.found }
  function Misses(): Entry -> bool { (x: Entry) => !x.found }

  /** The committed operations already counted in `read_ops` and `write_ops`. */
  function OpsCounted(w: Worker): seq<Entry> {
    if w.pc.Committed? && w.log != [] then w.log[..|w.log| - 1] else w.log
  }

  function FoundsCounted(w: Worker): seq<Entry> {
    if (w.pc.Committed? || w.pc.OpCounted?) && w.log != [] then w.log[..|w.log| - 1] else w.log
  }

  /** The operation is committed but `local_done` does not show it yet. */
  predicate Behind(w: Worker) {
    w.pc.Committed? || w.pc.OpCounted? || w.pc == FoundCounted
  }

  function ReadShare(): Worker -> nat { (w: Worker) => Tally(OpsCounted(w), Reads()) }
  function WriteShare(): Worker -> nat { (w: Worker) => Tally(OpsCounted(w), Writes()) }
  function FoundShare(): Worker -> nat { (w: Worker) => Tally(FoundsCounted(w), Hits()) }
  function NotFoundShare(): Worker -> nat { (w: Worker) => Tally(FoundsCounted(w), Misses()) }
  function DoneShare(): Worker -> nat { (w: Worker) => if w.pc == Recorded && w.localDone > 0 then w.localDone - 1 else w.localDone }

  /** How many parts of the local histogram are in the global one. */
  function PartsMerged(c: Config, w: Worker): nat {
    if w.pc.Merging? then w.pc.next else if w.pc == Finished && c.measured then |c.bounds| + 3 else 0
  }

  function BucketShare(c: Config, b: nat): Worker -> nat
    requires b <= |c.bounds|
  {
    (w: Worker) => if PartsMerged(c, w) > b && w.local.Over(c.bounds) then w.local.buckets[b] else 0
  }
  function SumShare(c: Config): Worker -> nat {
    (w: Worker) => if PartsMerged(c, w) > |c.bounds| + 1 then w.local.sum else 0
  }
  function CountShare(c: Config): Worker -> nat {
    (w: Worker) => if PartsMerged(c, w) > |c.bounds| + 2 then w.local.count else 0
  }

  // ---------- The invariant ----------

  /** A worker has committed exactly the first items of its stream, and its generator stands where the
      next one starts. */
  ghost predicate OnStream(c: Config, t: nat, w: Worker) {
    && (forall k :: 0 <= k < |w.log| ==> w.log[k].op == c.StreamOp(t, k))
    && (if w.pc.InTx? then
          && w.snapshot == c.RngAt(t, |w.log|)
          && w.rng == c.RngAt(t, |w.log| + 1)
          && w.pc.op == c.StreamOp(t, |w.log|)
        else w.rng == c.RngAt(t, |w.log|))
  }

  /** Every commit is known to `local_done`, save the one being counted, and a committed update found
      its record. */
  ghost predicate Booked(c: Config, t: nat, w: Worker)
    requires c.threads >= 1
  {
    && |w.log| == w.localDone + (if Behind(w) then 1 else 0)
    && |w.log| <= c.Quota(t)
    && (w.pc.InTx? ==> |w.log| < c.Quota(t))
    && (w.pc.Committed? ==> w.log[|w.log| - 1] == Entry(w.pc.op, w.pc.found))
    && (w.pc.OpCounted? ==> w.log[|w.log| - 1].found == w.pc.found)
    && (w.pc == Recorded ==> w.localDone > 0)
    && (w.pc.Merging? ==> c.measured && w.pc.next <= |c.bounds| + 2)
    && (w.pc.Merging? || w.pc == Finished ==> w.localDone == c.Quota(t))
    && (forall k :: 0 <= k < |w.log| && !w.log[k].op.isRead ==> w.log[k].found)
  }

  /** The local histogram is that of the latencies measured, one per operation in a measured phase. */
  ghost predicate Measured(c: Config, w: Worker) {
    && w.local == RecordAll(c.bounds, w.latencies)
    && |w.latencies| == (if c.measured then w.localDone else 0)
  }

  ghost predicate HistInv(c: Config, h: Hist, ws: seq<Worker>)
    requires h.Over(c.bounds)
  {
    && (forall b :: 0 <= b <= |c.bounds| ==> h.buckets[b] == Sum(ws, BucketShare(c, b)))
    && h.sum == Sum(ws, SumShare(c))
    && h.count == Sum(ws, CountShare(c))
  }

  ghost predicate CountersInv(g: Shared, ws: seq<Worker>) {
    && g.done == Sum(ws, DoneShare())
    && g.readOps == Sum(ws, ReadShare())
    && g.writeOps == Sum(ws, WriteShare())
    && g.founds == Sum(ws, FoundShare())
    && g.notFounds == Sum(ws, NotFoundShare())
  }

  ghost predicate AllKept(c: Config, ws: seq<Worker>)
    requires c.threads >= 1
  {
    && |ws| == c.threads
    && forall t :: 0 <= t < c.threads ==> OnStream(c, t, ws[t]) && Booked(c, t, ws[t]) && Measured(c, ws[t])
  }

  ghost predicate Inv(c: Config, s: State)
    requires c.threads >= 1 && Shaped(c, s)
  {
    && AllKept(c, s.workers)
    && CountersInv(s.shared, s.workers)
    && HistInv(c, s.shared.hist, s.workers)
  }

  lemma InitCounters(c: Config)
    requires c.threads >= 1
    ensures CountersInv(Init(c).shared, Init(c).workers)
  {
    var ws := Init(c).workers;
    SumZero(ws, DoneShare());
    SumZero(ws, ReadShare());
    SumZero(ws, WriteShare());
    SumZero(ws, FoundShare());
    SumZero(ws, NotFoundShare());
  }

  lemma InitHist(c: Config)
    requires c.threads >= 1
    ensures HistInv(c, Init(c).shared.hist, Init(c).workers)
  {
    var ws := Init(c).workers;
    forall b | 0 <= b <= |c.bounds|
      ensures Sum(ws, BucketShare(c, b)) == 0
    {
      SumZero(ws, BucketShare(c, b));
    }
    SumZero(ws, SumShare(c));
    SumZero(ws, CountShare(c));
  }

  lemma InitInv(c: Config)
    requires c.threads >= 1
    ensures Shaped(c, Init(c)) && Inv(c, Init(c))
  {
    InitCounters(c);
    InitHist(c);
  }

  /** No event of a worker takes it off its stream: an abort puts the generator back where it was. */
  lemma StreamKept(c: Config, s: State, e: Event)
    requires c.threads >= 1 && Shaped(c, s) && Enabled(c, s, e) && OnStream(c, e.t, s.workers[e.t])
    ensures OnStream(c, e.t, Local(c, s.workers[e.t], e))
  {
  }

  lemma BooksKept(c: Config, s: State, e: Event)
    requires c.threads >= 1 && Shaped(c, s) && Enabled(c, s, e) && Booked(c, e.t, s.workers[e.t])
    ensures Booked(c, e.t, Local(c, s.workers[e.t], e))
  {
  }

  lemma MeasuredKept(c: Config, s: State, e: Event)
    requires c.threads >= 1 && Shaped(c, s) && Enabled(c, s, e) && Measured(c, s.workers[e.t])
    ensures Measured(c, Local(c, s.workers[e.t], e))
  {
    if e.CountLocal? { RecordSnoc(c.bounds, s.workers[e.t].latencies, e.latency); }
  }

  lemma DoneDelta(c: Config, s: State, e: Event)
    requires c.threads >= 1 && Shaped(c, s) && Enabled(c, s, e) && Booked(c, e.t, s.workers[e.t])
    ensures DoneShare()(Local(c, s.workers[e.t], e)) == DoneShare()(s.workers[e.t]) + if e.CountDone? then 1 else 0
  {
  }

  /** Counting an operation adds its log entry to the counted ones; nothing else moves them. */
  lemma OpsDelta(c: Config, s: State, e: Event, p: Entry -> bool)
    requires c.threads >= 1 && Shaped(c, s) && Enabled(c, s, e) && Booked(c, e.t, s.workers[e.t])
    ensures var w := s.workers[e.t];
            Tally(OpsCounted(Local(c, w, e)), p)
            == Tally(OpsCounted(w), p) + if e.CountOp? && p(Entry(w.pc.op, w.pc.found)) then 1 else 0
  {
    var w := s.workers[e.t];
    var w' := Local(c, w, e);
    if e.Commit? { assert w'.log[..|w.log|] == w.log; }
  }

  lemma FoundsDelta(c: Config, s: State, e: Event, p: Entry -> bool)
    requires c.threads >= 1 && Shaped(c, s) && Enabled(c, s, e) && Booked(c, e.t, s.workers[e.t])
    ensures var w := s.workers[e.t];
            Tally(FoundsCounted(Local(c, w, e)), p)
            == Tally(FoundsCounted(w), p) + if e.CountFound? && p(w.log[|w.log| - 1]) then 1 else 0
  {
    var w := s.workers[e.t];
    var w' := Local(c, w, e);
    if e.Commit? { assert w'.log[..|w.log|] == w.log; }
  }

  lemma OpsKept(c: Config, s: State, e: Event)
    requires c.threads >= 1 && Shaped(c, s) && Enabled(c, s, e) && Booked(c, e.t, s.workers[e.t])
    requires s.shared.readOps == Sum(s.workers, ReadShare()) && s.shared.writeOps == Sum(s.workers, WriteShare())
    ensures var s' := Apply(c, s, e);
            s'.shared.readOps == Sum(s'.workers, ReadShare()) && s'.shared.writeOps == Sum(s'.workers, WriteShare())
  {
    var t, ws, w' := e.t, s.workers, Local(c, s.workers[e.t], e);
    OpsDelta(c, s, e, Reads());
    OpsDelta(c, s, e, Writes());
    SumUpdate(ws, t, w', ReadShare());
    SumUpdate(ws, t, w', WriteShare());
  }

  lemma FoundsKept(c: Config, s: State, e: Event)
    requires c.threads >= 1 && Shaped(c, s) && Enabled(c, s, e) && Booked(c, e.t, s.workers[e.t])
    requires s.shared.founds == Sum(s.workers, FoundShare()) && s.shared.notFounds == Sum(s.workers, NotFoundShare())
    ensures var s' := Apply(c, s, e);
            s'.shared.founds == Sum(s'.workers, FoundShare()) && s'.shared.notFounds == Sum(s'.workers, NotFoundShare())
  {
    var t, ws, w' := e.t, s.workers, Local(c, s.workers[e.t], e);
    FoundsDelta(c, s, e, Hits());
    FoundsDelta(c, s, e, Misses());
    SumUpdate(ws, t, w', FoundShare());
    SumUpdate(ws, t, w', NotFoundShare());
  }

  lemma CountersKept(c: Config, s: State, e: Event)
    requires c.threads >= 1 && Shaped(c, s) && Enabled(c, s, e) && Booked(c, e.t, s.workers[e.t])
    requires CountersInv(s.shared, s.workers)
    ensures CountersInv(Apply(c, s, e).shared, Apply(c, s, e).workers)
  {
    OpsKept(c, s, e);
    FoundsKept(c, s, e);
    DoneDelta(c, s, e);
    SumUpdate(s.workers, e.t, Local(c, s.workers[e.t], e), DoneShare());
  }

  lemma BucketKept(c: Config, s: State, e: Event, b: nat)
    requires c.threads >= 1 && Shaped(c, s) && Enabled(c, s, e) && Booked(c, e.t, s.workers[e.t]) && b <= |c.bounds|
    requires s.shared.hist.buckets[b] == Sum(s.workers, BucketShare(c, b))
    ensures var s' := Apply(c, s, e); s'.shared.hist.buckets[b] == Sum(s'.workers, BucketShare(c, b))
  {
    SumUpdate(s.workers, e.t, Local(c, s.workers[e.t], e), BucketShare(c, b));
  }

  lemma HistKept(c: Config, s: State, e: Event)
    requires c.threads >= 1 && Shaped(c, s) && Enabled(c, s, e) && Booked(c, e.t, s.workers[e.t])
    requires HistInv(c, s.shared.hist, s.workers)
    ensures HistInv(c, Apply(c, s, e).shared.hist, Apply(c, s, e).workers)
  {
    var s', w' := Apply(c, s, e), Local(c, s.workers[e.t], e);
    forall b | 0 <= b <= |c.bounds|
      ensures s'.shared.hist.buckets[b] == Sum(s'.workers, BucketShare(c, b))
    {
      BucketKept(c, s, e, b);
    }
    SumUpdate(s.workers, e.t, w', SumShare(c));
    SumUpdate(s.workers, e.t, w', CountShare(c));
  }

  lemma StepKeeps(c: Config, s: State, e: Event)
    requires c.threads >= 1 && Shaped(c, s) && Enabled(c, s, e) && Inv(c, s)
    ensures Inv(c, Apply(c, s, e))
  {
    WorkersKept(c, s, e);
    CountersKept(c, s, e);
    HistKept(c, s, e);
  }

  lemma WorkersKept(c: Config, s: State, e: Event)
    requires c.threads >= 1 && Shaped(c, s) && Enabled(c, s, e) && AllKept(c, s.workers)
    ensures AllKept(c, Apply(c, s, e).workers)
  {
    StreamKept(c, s, e);
    BooksKept(c, s, e);
    MeasuredKept(c, s, e);
    KeptUpdate(c, s.workers, e.t, Local(c, s.workers[e.t], e));
  }

  lemma KeptUpdate(c: Config, ws: seq<Worker>, t: nat, w: Worker)
    requires c.threads >= 1 && AllKept(c, ws) && t < |ws|
    requires OnStream(c, t, w) && Booked(c, t, w) && Measured(c, w)
    ensures AllKept(c, ws[t := w])
  {
  }

  /** The invariant holds after every run. */
  lemma {:induction false} RunKeeps(c: Config, events: seq<Event>)
    requires c.threads >= 1 && Exec(c, events).Reached?
    ensures Inv(c, Exec(c, events).state)
  {
    if events == [] {
      InitInv(c);
    } else {
      var n := |events| - 1;
      RunKeeps(c, events[..n]);
      StepKeeps(c, Exec(c, events[..n]).state, events[n]);
    }
  }

  // ---------- The stream theorem ----------

  /** In every run, under any interleaving and any pattern of aborts, what a worker has committed is
      exactly the beginning of its stream: nothing skipped, repeated or reordered. */
  lemma CommittedIsStreamPrefix(c: Config, events: seq<Event>, t: nat)
    requires c.threads >= 1 && Exec(c, events).Reached? && t < c.threads
    ensures var w := Exec(c, events).state.workers;
            |w| == c.threads && w[t].localDone <= |w[t].log| <= w[t].localDone + 1
    ensures var w := Exec(c, events).state.workers[t];
            forall k :: 0 <= k < |w.log| ==> w.log[k].op == c.StreamOp(t, k)
  {
    RunKeeps(c, events);
  }

  // ---------- Attempts ----------

  function Begins(events: seq<Event>): nat {
    if events == [] then 0 else Begins(events[..|events| - 1]) + if events[|events| - 1].Begin? then 1 else 0
  }

  function Aborts(events: seq<Event>): nat {
    if events == [] then 0 else Aborts(events[..|events| - 1]) + if events[|events| - 1].Abort? then 1 else 0
  }

  function CommitShare(): Worker -> nat { (w: Worker) => |w.log| }
  function OpenShare(): Worker -> nat { (w: Worker) => if w.pc.InTx? then 1 else 0 }

  /** The events a worker has gone through for what it has kept, aborted attempts aside. */
  function Work(c: Config, w: Worker): nat {
    match w.pc
    case AtHead => 6 * |w.log|
    case InTx(_) => 6 * |w.log| + 1
    case Committed(_, _) => if |w.log| == 0 then 0 else 6 * |w.log| - 4
    case OpCounted(_) => if |w.log| == 0 then 0 else 6 * |w.log| - 3
    case FoundCounted => if |w.log| == 0 then 0 else 6 * |w.log| - 2
    case Recorded => if |w.log| == 0 then 0 else 6 * |w.log| - 1
    case Merging(k) => 6 * |w.log| + 1 + k
    case Finished => 6 * |w.log| + 1 + if c.measured then |c.bounds| + 3 else 0
  }

  function WorkShare(c: Config): Worker -> nat { (w: Worker) => Work(c, w) }

  ghost predicate History(c: Config, s: State, events: seq<Event>) {
    && s.shared.aborts == Aborts(events)
    && Begins(events) == s.shared.aborts + Sum(s.workers, CommitShare()) + Sum(s.workers, OpenShare())
    && |events| == 2 * s.shared.aborts + Sum(s.workers, WorkShare(c))
  }

  lemma WorkDelta(c: Config, s: State, e: Event)
    requires c.threads >= 1 && Shaped(c, s) && Enabled(c, s, e) && Booked(c, e.t, s.workers[e.t])
    ensures var w := s.workers[e.t];
            Work(c, Local(c, w, e)) == if e.Abort? then Work(c, w) - 1 else Work(c, w) + 1
  {
  }

  lemma AttemptDelta(c: Config, s: State, e: Event)
    requires c.threads >= 1 && Shaped(c, s) && Enabled(c, s, e)
    ensures var w := s.workers[e.t];
            var w' := Local(c, w, e);
            |w'.log| + OpenShare()(w') == |w.log| + OpenShare()(w) + (if e.Begin? then 1 else if e.Abort? then -1 else 0)
  {
  }

  lemma HistoryStep(c: Config, s: State, e: Event, events: seq<Event>)
    requires c.threads >= 1 && Shaped(c, s) && Enabled(c, s, e) && Booked(c, e.t, s.workers[e.t])
    requires History(c, s, events)
    ensures History(c, Apply(c, s, e), events + [e])
  {
    var w' := Local(c, s.workers[e.t], e);
    assert (events + [e])[..|events|] == events;
    WorkDelta(c, s, e);
    AttemptDelta(c, s, e);
    SumUpdate(s.workers, e.t, w', CommitShare());
    SumUpdate(s.workers, e.t, w', OpenShare());
    SumUpdate(s.workers, e.t, w', WorkShare(c));
  }

  lemma InitHistory(c: Config)
    requires c.threads >= 1
    ensures History(c, Init(c), [])
  {
    var ws := Init(c).workers;
    SumZero(ws, CommitShare());
    SumZero(ws, OpenShare());
    SumZero(ws, WorkShare(c));
  }

  /** The abort counter counts the failed attempts; every attempt committed, aborted or is open. */
  lemma {:induction false} RunHistory(c: Config, events: seq<Event>)
    requires c.threads >= 1 && Exec(c, events).Reached?
    ensures History(c, Exec(c, events).state, events)
  {
    if events == [] {
      InitHistory(c);
    } else {
      var n := |events| - 1;
      assert events[..n] + [events[n]] == events;
      RunKeeps(c, events[..n]);
      RunHistory(c, events[..n]);
      HistoryStep(c, Exec(c, events[..n]).state, events[n], events[..n]);
    }
  }

  // ---------- Quotas ----------

  /** The quotas of the first `n` workers. */
  function QuotaSum(c: Config, n: nat): nat
    requires c.threads >= 1
  {
    if n == 0 then 0 else QuotaSum(c, n - 1) + c.Quota(n - 1)
  }

  lemma {:induction false} QuotaPrefix(c: Config, n: nat)
    requires c.threads >= 1
    ensures QuotaSum(c, n) == n * (c.lookups / c.threads) + if n < c.lookups % c.threads then n else c.lookups % c.threads
  {
    var q := c.lookups / c.threads;
    if n > 0 {
      QuotaPrefix(c, n - 1);
      assert (n - 1) * q + q == n * q;
    }
  }

  /** The quotas share out the lookups exactly, and evenly. */
  lemma QuotasSumUp(c: Config)
    requires c.threads >= 1
    ensures QuotaSum(c, c.threads) == c.lookups
    ensures forall t: nat, t': nat :: c.Quota(t) <= c.Quota(t') + 1
  {
    QuotaPrefix(c, c.threads);
  }
}
