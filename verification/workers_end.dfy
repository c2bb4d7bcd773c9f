/**
 What a finished phase reports, for every number of threads and every schedule.
 */
module WorkersEnd {
  import opened Histogram
  import opened HistogramLaws
  import opened Workers
  import opened WorkersLaws
  import opened WorkersTrace

  predicate AllFinished(s: State) {
    forall t :: 0 <= t < |s.workers| ==> s.workers[t].pc == Finished
  }

  lemma {:induction false} SumIsQuotas(c: Config, ws: seq<Worker>, f: Worker -> nat)
    requires c.threads >= 1 && forall t :: 0 <= t < |ws| ==> f(ws[t]) == c.Quota(t)
    ensures Sum(ws, f) == QuotaSum(c, |ws|)
  {
    if ws != [] { SumIsQuotas(c, ws[..|ws| - 1], f); }
  }

  lemma {:induction false} SumPair(c: Config, ws: seq<Worker>, f: Worker -> nat, g: Worker -> nat)
    requires c.threads >= 1 && forall t :: 0 <= t < |ws| ==> f(ws[t]) + g(ws[t]) == c.Quota(t)
    ensures Sum(ws, f) + Sum(ws, g) == QuotaSum(c, |ws|)
  {
    if ws != [] { SumPair(c, ws[..|ws| - 1], f, g); }
  }

  lemma {:induction false} TallySplit(log: seq<Entry>, p: Entry -> bool, q: Entry -> bool)
    requires forall x :: p(x) != q(x)
    ensures Tally(log, p) + Tally(log, q) == |log|
  {
    if log != [] { TallySplit(log[..|log| - 1], p, q); }
  }

  lemma {:induction false} SumBelow(ws: seq<Worker>, f: Worker -> nat, g: Worker -> nat)
    requires forall t :: 0 <= t < |ws| ==> f(ws[t]) <= g(ws[t])
    ensures Sum(ws, f) <= Sum(ws, g)
  {
    if ws != [] { SumBelow(ws[..|ws| - 1], f, g); }
  }

  lemma {:induction false} TallyBelow(log: seq<Entry>, p: Entry -> bool, q: Entry -> bool)
    requires forall k :: 0 <= k < |log| && p(log[k]) ==> q(log[k])
    ensures Tally(log, p) <= Tally(log, q)
  {
    if log != [] { TallyBelow(log[..|log| - 1], p, q); }
  }

  /** Done, found plus not found, and reads plus writes all come to the number of lookups. */
  lemma CountersAtEnd(c: Config, s: State)
    requires c.threads >= 1 && Shaped(c, s) && Inv(c, s) && AllFinished(s)
    ensures var g := s.shared;
            g.done == g.founds + g.notFounds == g.readOps + g.writeOps == c.lookups
    ensures s.shared.writeOps <= s.shared.founds
  {
    var ws := s.workers;
    QuotasSumUp(c);
    forall t | 0 <= t < |ws|
      ensures ReadShare()(ws[t]) + WriteShare()(ws[t]) == c.Quota(t)
      ensures FoundShare()(ws[t]) + NotFoundShare()(ws[t]) == c.Quota(t)
      ensures WriteShare()(ws[t]) <= FoundShare()(ws[t])
    {
      TallySplit(ws[t].log, Reads(), Writes());
      TallySplit(ws[t].log, Hits(), Misses());
      TallyBelow(ws[t].log, Writes(), Hits());
    }
    SumIsQuotas(c, ws, DoneShare());
    SumPair(c, ws, ReadShare(), WriteShare());
    SumPair(c, ws, FoundShare(), NotFoundShare());
    SumBelow(ws, WriteShare(), FoundShare());
  }

  // ---------- The merged histogram ----------

  /** The latencies each worker measured. */
  function Latencies(ws: seq<Worker>): (parts: seq<seq<nat>>)
    ensures |parts| == |ws|
  {
    if ws == [] then [] else Latencies(ws[..|ws| - 1]) + [ws[|ws| - 1].latencies]
  }

  lemma {:induction false} MergedBucket(c: Config, ws: seq<Worker>, b: nat)
    requires b <= |c.bounds|
    requires forall t :: 0 <= t < |ws| ==> BucketShare(c, b)(ws[t]) == RecordAll(c.bounds, ws[t].latencies).buckets[b]
    ensures MergeAll(c.bounds, Latencies(ws)).buckets[b] == Sum(ws, BucketShare(c, b))
  {
    if ws != [] { MergedBucket(c, ws[..|ws| - 1], b); }
  }

  lemma {:induction false} MergedSum(c: Config, ws: seq<Worker>)
    requires forall t :: 0 <= t < |ws| ==> SumShare(c)(ws[t]) == RecordAll(c.bounds, ws[t].latencies).sum
    requires forall t :: 0 <= t < |ws| ==> CountShare(c)(ws[t]) == RecordAll(c.bounds, ws[t].latencies).count
    ensures MergeAll(c.bounds, Latencies(ws)).sum == Sum(ws, SumShare(c))
    ensures MergeAll(c.bounds, Latencies(ws)).count == Sum(ws, CountShare(c))
  {
    if ws != [] { MergedSum(c, ws[..|ws| - 1]); }
  }

  lemma {:induction false} LatencyCount(c: Config, ws: seq<Worker>)
    requires c.threads >= 1 && forall t :: 0 <= t < |ws| ==> |ws[t].latencies| == c.Quota(t)
    ensures |Flatten(Latencies(ws))| == QuotaSum(c, |ws|)
  {
    if ws != [] {
      LatencyCount(c, ws[..|ws| - 1]);
      var parts := Latencies(ws);
      assert parts[..|parts| - 1] == Latencies(ws[..|ws| - 1]);
    }
  }

  /** However the part-by-part merges interleaved, the global histogram of a measured phase is the merge
      of the workers' own. */
  lemma MergedAtEnd(c: Config, s: State)
    requires c.threads >= 1 && Shaped(c, s) && Inv(c, s) && AllFinished(s) && c.measured
    ensures s.shared.hist == MergeAll(c.bounds, Latencies(s.workers))
    ensures s.shared.hist == RecordAll(c.bounds, Flatten(Latencies(s.workers)))
    ensures |Flatten(Latencies(s.workers))| == s.shared.hist.count == c.lookups
  {
    var ws, t, all := s.workers, c.bounds, Flatten(Latencies(s.workers));
    var m := MergeAll(t, Latencies(ws));
    forall b | 0 <= b <= |t|
      ensures m.buckets[b] == s.shared.hist.buckets[b]
    {
      MergedBucket(c, ws, b);
    }
    MergedSum(c, ws);
    assert m == s.shared.hist;
    MergeAllFlattens(t, Latencies(ws));
    LatencyCount(c, ws);
    QuotasSumUp(c);
    BucketsCount(t, all, 0);
  }

  lemma {:induction false} SumEqual(ws: seq<Worker>, f: Worker -> nat, g: Worker -> nat)
    requires forall t :: 0 <= t < |ws| ==> f(ws[t]) == g(ws[t])
    ensures Sum(ws, f) == Sum(ws, g)
  {
    if ws != [] { SumEqual(ws[..|ws| - 1], f, g); }
  }

  /** At the end all of every local histogram is in the global one. */
  lemma AllMerged(c: Config, s: State, h: Hist)
    requires c.threads >= 1 && Shaped(c, s) && Inv(c, s) && AllFinished(s) && c.measured
    requires h.Over(c.bounds) && LocalsHold(c, s.workers, h)
    ensures s.shared.hist == h
  {
    var ws, g := s.workers, s.shared.hist;
    forall b | 0 <= b <= |c.bounds|
      ensures g.buckets[b] == h.buckets[b]
    {
      SumEqual(ws, BucketShare(c, b), LocalBucket(c, b));
    }
    assert g.buckets == h.buckets;
    SumEqual(ws, SumShare(c), LocalSum());
    SumEqual(ws, CountShare(c), LocalCount());
  }

  lemma NothingMerged(c: Config, s: State)
    requires c.threads >= 1 && Shaped(c, s) && Inv(c, s) && !c.measured
    ensures s.shared.hist == Empty(c.bounds)
  {
    var ws, g := s.workers, s.shared.hist;
    forall w | w in ws
      ensures PartsMerged(c, w) == 0
    {
      var t :| 0 <= t < |ws| && ws[t] == w;
    }
    forall b | 0 <= b <= |c.bounds|
      ensures g.buckets[b] == 0
    {
      SumZero(ws, BucketShare(c, b));
    }
    assert g.buckets == Empty(c.bounds).buckets;
    SumZero(ws, SumShare(c));
    SumZero(ws, CountShare(c));
  }

  /** The global histogram of a finished phase is that of the latencies its events measured, one per
      lookup, and its sum is their total; a phase that is not measured leaves it empty. */
  lemma HistogramAtEnd(c: Config, events: seq<Event>)
    requires c.threads >= 1 && Exec(c, events).Reached? && AllFinished(Exec(c, events).state)
    ensures var h := Exec(c, events).state.shared.hist;
            if c.measured then
              && h == RecordAll(c.bounds, AllLatencies(events))
              && h.count == |AllLatencies(events)| == c.lookups
              && h.sum == Total(AllLatencies(events))
            else h == Empty(c.bounds)
  {
    var s := Exec(c, events).state;
    RunKeeps(c, events);
    if c.measured {
      LocalsTraced(c, events);
      AllMerged(c, s, RecordAll(c.bounds, AllLatencies(events)));
      MergedAtEnd(c, s);
      BucketsCount(c.bounds, AllLatencies(events), 0);
      SumIsTotal(c.bounds, AllLatencies(events));
    } else {
      NothingMerged(c, s);
    }
  }

  // ---------- Found and read ----------

  /** The found counters count the commits that did and did not find their record. */
  lemma FoundsAtEnd(c: Config, events: seq<Event>)
    requires c.threads >= 1 && Exec(c, events).Reached? && AllFinished(Exec(c, events).state)
    ensures Exec(c, events).state.shared.founds == Commits(events, true)
    ensures Exec(c, events).state.shared.notFounds == Commits(events, false)
  {
    var ws := Exec(c, events).state.workers;
    RunKeeps(c, events);
    HitsTraced(c, events, true);
    HitsTraced(c, events, false);
    SumEqual(ws, FoundShare(), HitShare(true));
    SumEqual(ws, NotFoundShare(), HitShare(false));
  }

  /** The number of reads is decided by the streams alone, whatever the schedule and the aborts. */
  lemma ReadsAtEnd(c: Config, events: seq<Event>)
    requires c.threads >= 1 && Exec(c, events).Reached? && AllFinished(Exec(c, events).state)
    ensures Exec(c, events).state.shared.readOps == ReadsDue(c, c.threads)
  {
    var ws := Exec(c, events).state.workers;
    RunKeeps(c, events);
    forall t | 0 <= t < |ws|
      ensures ReadShare()(ws[t]) == StreamReads(c, t, c.Quota(t))
    {
      ReadsTallied(c, t, ws[t].log);
    }
    ReadsSum(c, ws);
  }

  // ---------- Attempts and length ----------

  /** The events of one worker that are not part of an operation. */
  function Epilogue(c: Config): nat {
    1 + if c.measured then |c.bounds| + 3 else 0
  }

  lemma {:induction false} WorkAtEnd(c: Config, ws: seq<Worker>)
    requires c.threads >= 1
    requires forall t :: 0 <= t < |ws| ==> WorkShare(c)(ws[t]) == 6 * c.Quota(t) + Epilogue(c)
    ensures Sum(ws, WorkShare(c)) == 6 * QuotaSum(c, |ws|) + |ws| * Epilogue(c)
  {
    if ws != [] {
      WorkAtEnd(c, ws[..|ws| - 1]);
      assert (|ws| - 1) * Epilogue(c) + Epilogue(c) == |ws| * Epilogue(c);
    }
  }

  /** Every lookup took one committed attempt; the other attempts are the counted aborts; and the run
      is as long as these make it. */
  lemma AttemptsAtEnd(c: Config, events: seq<Event>)
    requires c.threads >= 1 && Exec(c, events).Reached? && AllFinished(Exec(c, events).state)
    ensures var g := Exec(c, events).state.shared;
            && g.aborts == Aborts(events)
            && Begins(events) == c.lookups + g.aborts
            && |events| == 6 * c.lookups + 2 * g.aborts + c.threads * Epilogue(c)
  {
    var s := Exec(c, events).state;
    RunKeeps(c, events);
    RunHistory(c, events);
    QuotasSumUp(c);
    SumIsQuotas(c, s.workers, CommitShare());
    assert Sum(s.workers, OpenShare()) == 0 by {
      forall w | w in s.workers
        ensures OpenShare()(w) == 0
      {
        var t :| 0 <= t < |s.workers| && s.workers[t] == w;
      }
      SumZero(s.workers, OpenShare());
    }
    WorkAtEnd(c, s.workers);
  }

  /** The phase's report in full, read off the streams and the events, for every run that ends. */
  lemma PhaseReport(c: Config, events: seq<Event>)
    requires c.threads >= 1 && Exec(c, events).Reached? && AllFinished(Exec(c, events).state)
    ensures var g := Exec(c, events).state.shared;
            && g.done == g.founds + g.notFounds == g.readOps + g.writeOps == c.lookups
            && g.founds == Commits(events, true) && g.notFounds == Commits(events, false)
            && g.readOps == ReadsDue(c, c.threads)
            && g.writeOps <= g.founds
            && g.aborts == Aborts(events) == Begins(events) - c.lookups
    ensures var h := Exec(c, events).state.shared.hist;
            if c.measured then
              && h == RecordAll(c.bounds, AllLatencies(events))
              && h.count == |AllLatencies(events)| == c.lookups
              && h.sum == Total(AllLatencies(events))
            else h == Empty(c.bounds)
  {
    RunKeeps(c, events);
    CountersAtEnd(c, Exec(c, events).state);
    AttemptsAtEnd(c, events);
    FoundsAtEnd(c, events);
    ReadsAtEnd(c, events);
    HistogramAtEnd(c, events);
  }

  /** The percentiles that a measured phase reports are rank statistics of the latencies its events
      measured. */
  lemma ReportedPercentile(c: Config, events: seq<Event>, pct: real)
    requires c.threads >= 1 && Exec(c, events).Reached? && AllFinished(Exec(c, events).state)
    requires c.measured && c.lookups >= 1 && 0.0 < pct <= 100.0
    ensures var h, all, t := Exec(c, events).state.shared.hist, AllLatencies(events), c.bounds;
            && |all| == c.lookups
            && var k := Rank(all, pct);
               var b := RankBucket(t, all, k);
               && Lower(t, b) as real <= Percentile(t, h, pct) <= Upper(t, b) as real
               && EvenlyPlaced(Percentile(t, h, pct), Lower(t, b), Upper(t, b), RankSize(t, all, k), RankPlace(t, all, k))
  {
    HistogramAtEnd(c, events);
    PercentileIsRank(c.bounds, AllLatencies(events), pct);
    PercentileExact(c.bounds, AllLatencies(events), pct);
  }

  // ---------- Progress ----------

  /** What a worker that is not finished does next when nothing aborts. */
  function NextEvent(c: Config, w: Worker, t: nat): (e: Event)
    requires c.threads >= 1
    ensures e.t == t && !e.Abort?
  {
    match w.pc
    case AtHead => if w.localDone < c.Quota(t) then Begin(t) else Leave(t)
    case InTx(_) => Commit(t, true)
    case Committed(_, _) => CountOp(t)
    case OpCounted(_) => CountFound(t)
    case FoundCounted => CountLocal(t, 0)
    case Recorded => CountDone(t)
    case Merging(_) => MergePart(t)
    case Finished => Leave(t)
  }

  lemma NextEnabled(c: Config, s: State, t: nat)
    requires c.threads >= 1 && t < |s.workers| && Booked(c, t, s.workers[t]) && s.workers[t].pc != Finished
    ensures Enabled(c, s, NextEvent(c, s.workers[t], t))
  {
  }

  lemma ExecSnoc(c: Config, events: seq<Event>, e: Event)
    requires c.threads >= 1 && Exec(c, events).Reached? && Enabled(c, Exec(c, events).state, e)
    ensures Exec(c, events + [e]).Reached?
  {
    assert (events + [e])[..|events|] == events;
  }

  /** Until all workers are finished some event other than an abort is enabled. */
  lemma NeverStuck(c: Config, events: seq<Event>) returns (e: Event)
    requires c.threads >= 1 && Exec(c, events).Reached? && !AllFinished(Exec(c, events).state)
    ensures Exec(c, events + [e]).Reached? && !e.Abort?
  {
    var s := Exec(c, events).state;
    RunKeeps(c, events);
    var t :| 0 <= t < |s.workers| && s.workers[t].pc != Finished;
    NextEnabled(c, s, t);
    e := NextEvent(c, s.workers[t], t);
    ExecSnoc(c, events, e);
  }

  lemma {:induction false} WorkBound(c: Config, ws: seq<Worker>)
    requires c.threads >= 1
    requires forall t :: 0 <= t < |ws| ==> WorkShare(c)(ws[t]) <= 6 * c.Quota(t) + Epilogue(c)
    ensures Sum(ws, WorkShare(c)) <= 6 * QuotaSum(c, |ws|) + |ws| * Epilogue(c)
  {
    if ws != [] {
      WorkBound(c, ws[..|ws| - 1]);
      assert (|ws| - 1) * Epilogue(c) + Epilogue(c) == |ws| * Epilogue(c);
    }
  }

  /** Only aborts can prolong a phase: without them it ends within a fixed number of events. */
  lemma OnlyAbortsProlong(c: Config, events: seq<Event>)
    requires c.threads >= 1 && Exec(c, events).Reached?
    ensures |events| <= 6 * c.lookups + c.threads * Epilogue(c) + 2 * Aborts(events)
  {
    var s := Exec(c, events).state;
    RunKeeps(c, events);
    RunHistory(c, events);
    QuotasSumUp(c);
    WorkBound(c, s.workers);
  }
}
