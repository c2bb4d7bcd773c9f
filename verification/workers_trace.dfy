/**
 What the events of a run say by themselves: the latencies measured, the lookups that found their
 record and the reads due. The workers' locals and the shared counters are shown to hold just that.
 */
module WorkersTrace {
  import opened Histogram
  import opened HistogramLaws
  import opened Workers
  import opened WorkersLaws

  // ---------- Reading the events ----------

  /** The latencies worker `t` measured, in order. */
  function LatenciesOf(events: seq<Event>, t: nat): seq<nat> {
    if events == [] then []
    else
      var e := events[|events| - 1];
      LatenciesOf(events[..|events| - 1], t) + if e.CountLocal? && e.t == t then [e.latency] else []
  }

  /** The latencies of all workers, in the order in which they were measured. */
  function AllLatencies(events: seq<Event>): seq<nat> {
    if events == [] then []
    else
      var e := events[|events| - 1];
      AllLatencies(events[..|events| - 1]) + if e.CountLocal? then [e.latency] else []
  }

  /** Whether each commit of worker `t` found its record, in order. */
  function FoundsOf(events: seq<Event>, t: nat): seq<bool> {
    if events == [] then []
    else
      var e := events[|events| - 1];
      FoundsOf(events[..|events| - 1], t) + if e.Commit? && e.t == t then [e.found] else []
  }

  /** The commits, of all workers, that did or did not find their record. */
  function Commits(events: seq<Event>, found: bool): nat {
    if events == [] then 0
    else
      var e := events[|events| - 1];
      Commits(events[..|events| - 1], found) + if e.Commit? && e.found == found then 1 else 0
  }

  // ---------- The workers' locals ----------

  /** A worker's latencies and found flags are those of its events; outside a measured phase it keeps
      no latency. */
  ghost predicate Traced(c: Config, events: seq<Event>, t: nat, w: Worker) {
    && w.latencies == (if c.measured then LatenciesOf(events, t) else [])
    && |w.log| == |FoundsOf(events, t)|
    && forall k :: 0 <= k < |w.log| ==> w.log[k].found == FoundsOf(events, t)[k]
  }

  lemma TracedKept(c: Config, s: State, events: seq<Event>, e: Event, t: nat)
    requires c.threads >= 1 && Shaped(c, s) && Enabled(c, s, e) && t < |s.workers| && Traced(c, events, t, s.workers[t])
    ensures Traced(c, events + [e], t, Apply(c, s, e).workers[t])
  {
    assert (events + [e])[..|events|] == events;
  }

  /** In every run a worker's latencies are those of its `CountLocal` events and its log holds the
      found flags of its `Commit` events, in order. */
  lemma {:induction false} WorkerTraced(c: Config, events: seq<Event>, t: nat)
    requires c.threads >= 1 && Exec(c, events).Reached? && t < c.threads
    ensures |Exec(c, events).state.workers| == c.threads
    ensures Traced(c, events, t, Exec(c, events).state.workers[t])
  {
    if events != [] {
      var n := |events| - 1;
      assert events[..n] + [events[n]] == events;
      WorkerTraced(c, events[..n], t);
      TracedKept(c, Exec(c, events[..n]).state, events[..n], events[n], t);
    }
  }

  // ---------- The sums over the workers ----------

  function HitShare(found: bool): Worker -> nat {
    (w: Worker) => Tally(w.log, if found then Hits() else Misses())
  }

  lemma HitDelta(c: Config, s: State, e: Event, found: bool)
    requires c.threads >= 1 && Shaped(c, s) && Enabled(c, s, e)
    ensures var w := s.workers[e.t];
            HitShare(found)(Local(c, w, e)) == HitShare(found)(w) + if e.Commit? && e.found == found then 1 else 0
  {
    var w := s.workers[e.t];
    if e.Commit? { assert Local(c, w, e).log[..|w.log|] == w.log; }
  }

  lemma {:induction false} HitsTraced(c: Config, events: seq<Event>, found: bool)
    requires c.threads >= 1 && Exec(c, events).Reached?
    ensures Sum(Exec(c, events).state.workers, HitShare(found)) == Commits(events, found)
  {
    if events == [] {
      SumZero(Init(c).workers, HitShare(found));
    } else {
      var n := |events| - 1;
      var s, e := Exec(c, events[..n]).state, events[n];
      HitsTraced(c, events[..n], found);
      HitDelta(c, s, e, found);
      SumUpdate(s.workers, e.t, Local(c, s.workers[e.t], e), HitShare(found));
    }
  }

  function LocalBucket(c: Config, b: nat): Worker -> nat
    requires b <= |c.bounds|
  {
    (w: Worker) => if w.local.Over(c.bounds) then w.local.buckets[b] else 0
  }
  function LocalSum(): Worker -> nat { (w: Worker) => w.local.sum }
  function LocalCount(): Worker -> nat { (w: Worker) => w.local.count }

  /** The latencies that a phase records. */
  function Samples(c: Config, events: seq<Event>): seq<nat> {
    if c.measured then AllLatencies(events) else []
  }

  /** What an event makes of the histogram of all that was measured. */
  function Measure(c: Config, h: Hist, e: Event): (h': Hist)
    requires h.Over(c.bounds)
    ensures h'.Over(c.bounds)
  {
    if c.measured && e.CountLocal? then Record(c.bounds, h, e.latency) else h
  }

  lemma SamplesSnoc(c: Config, events: seq<Event>, e: Event)
    ensures RecordAll(c.bounds, Samples(c, events + [e]))
            == Measure(c, RecordAll(c.bounds, Samples(c, events)), e)
  {
    assert (events + [e])[..|events|] == events;
    if e.CountLocal? {
      RecordSnoc(c.bounds, AllLatencies(events), e.latency);
    } else {
      assert AllLatencies(events + [e]) == AllLatencies(events);
    }
  }

  /** The local histograms together hold the latencies of the events. */
  ghost predicate LocalsHold(c: Config, ws: seq<Worker>, h: Hist)
    requires h.Over(c.bounds)
  {
    && (forall b :: 0 <= b <= |c.bounds| ==> Sum(ws, LocalBucket(c, b)) == h.buckets[b])
    && Sum(ws, LocalSum()) == h.sum
    && Sum(ws, LocalCount()) == h.count
  }

  lemma LocalDelta(c: Config, s: State, e: Event)
    requires c.threads >= 1 && Shaped(c, s) && Enabled(c, s, e)
    ensures Local(c, s.workers[e.t], e).local == Measure(c, s.workers[e.t].local, e)
  {
  }

  lemma LocalBucketKept(c: Config, s: State, e: Event, h: Hist, b: nat)
    requires c.threads >= 1 && Shaped(c, s) && Enabled(c, s, e) && h.Over(c.bounds) && b <= |c.bounds|
    requires Sum(s.workers, LocalBucket(c, b)) == h.buckets[b]
    ensures Sum(Apply(c, s, e).workers, LocalBucket(c, b)) == Measure(c, h, e).buckets[b]
  {
    LocalDelta(c, s, e);
    SumUpdate(s.workers, e.t, Local(c, s.workers[e.t], e), LocalBucket(c, b));
  }

  lemma LocalSumsKept(c: Config, s: State, e: Event, h: Hist)
    requires c.threads >= 1 && Shaped(c, s) && Enabled(c, s, e) && h.Over(c.bounds)
    requires Sum(s.workers, LocalSum()) == h.sum && Sum(s.workers, LocalCount()) == h.count
    ensures var ws, h' := Apply(c, s, e).workers, Measure(c, h, e);
            Sum(ws, LocalSum()) == h'.sum && Sum(ws, LocalCount()) == h'.count
  {
    var w' := Local(c, s.workers[e.t], e);
    LocalDelta(c, s, e);
    SumUpdate(s.workers, e.t, w', LocalSum());
    SumUpdate(s.workers, e.t, w', LocalCount());
  }

  lemma LocalsKept(c: Config, s: State, e: Event, h: Hist)
    requires c.threads >= 1 && Shaped(c, s) && Enabled(c, s, e) && h.Over(c.bounds) && LocalsHold(c, s.workers, h)
    ensures LocalsHold(c, Apply(c, s, e).workers, Measure(c, h, e))
  {
    forall b | 0 <= b <= |c.bounds|
      ensures Sum(Apply(c, s, e).workers, LocalBucket(c, b)) == Measure(c, h, e).buckets[b]
    {
      LocalBucketKept(c, s, e, h, b);
    }
    LocalSumsKept(c, s, e, h);
  }

  lemma InitLocals(c: Config)
    ensures LocalsHold(c, Init(c).workers, Empty(c.bounds))
  {
    var ws := Init(c).workers;
    forall b | 0 <= b <= |c.bounds|
      ensures Sum(ws, LocalBucket(c, b)) == 0
    {
      SumZero(ws, LocalBucket(c, b));
    }
    SumZero(ws, LocalSum());
    SumZero(ws, LocalCount());
  }

  lemma {:induction false} LocalsTraced(c: Config, events: seq<Event>)
    requires c.threads >= 1 && Exec(c, events).Reached?
    ensures LocalsHold(c, Exec(c, events).state.workers, RecordAll(c.bounds, Samples(c, events)))
  {
    if events == [] {
      InitLocals(c);
    } else {
      var n := |events| - 1;
      assert events[..n] + [events[n]] == events;
      LocalsTraced(c, events[..n]);
      SamplesSnoc(c, events[..n], events[n]);
      LocalsKept(c, Exec(c, events[..n]).state, events[n], RecordAll(c.bounds, Samples(c, events[..n])));
    }
  }

  // ---------- The reads due ----------

  /** The reads among the first `n` items of worker `t`'s stream. */
  function StreamReads(c: Config, t: nat, n: nat): nat {
    if n == 0 then 0 else StreamReads(c, t, n - 1) + if c.StreamOp(t, n - 1).isRead then 1 else 0
  }

  /** The reads in what the first `n` workers have to do. */
  function ReadsDue(c: Config, n: nat): nat
    requires c.threads >= 1
  {
    if n == 0 then 0 else ReadsDue(c, n - 1) + StreamReads(c, n - 1, c.Quota(n - 1))
  }

  lemma {:induction false} ReadsTallied(c: Config, t: nat, log: seq<Entry>)
    requires forall k :: 0 <= k < |log| ==> log[k].op == c.StreamOp(t, k)
    ensures Tally(log, Reads()) == StreamReads(c, t, |log|)
  {
    if log != [] { ReadsTallied(c, t, log[..|log| - 1]); }
  }

  lemma {:induction false} ReadsSum(c: Config, ws: seq<Worker>)
    requires c.threads >= 1 && forall t :: 0 <= t < |ws| ==> ReadShare()(ws[t]) == StreamReads(c, t, c.Quota(t))
    ensures Sum(ws, ReadShare()) == ReadsDue(c, |ws|)
  {
    if ws != [] { ReadsSum(c, ws[..|ws| - 1]); }
  }
}
