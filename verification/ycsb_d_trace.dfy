/**
 What the events of a YCSB-D run say by themselves: how many reads and inserts committed, which counter
 values the reads had loaded, how many keys aborts lost; and what the streams say of a run that ends.
 */
module YcsbDTrace {
  import opened YcsbD

  // ---------- Reading the events ----------

  datatype Option<T> = None | Some(value: T)

  /** The last event of worker `t`. */
  function Latest(events: seq<Event>, t: nat): Option<Event> {
    if events == [] then None
    else
      var e := events[|events| - 1];
      if !e.NextPhase? && e.t == t then Some(e) else Latest(events[..|events| - 1], t)
  }

  /** Worker `t` has loaded the counter and neither committed nor aborted since. */
  predicate HasLoaded(events: seq<Event>, t: nat) {
    Latest(events, t).Some? && Latest(events, t).value.Load?
  }

  predicate HasTaken(events: seq<Event>, t: nat) {
    Latest(events, t).Some? && Latest(events, t).value.Take?
  }

  /** The counter values that the committed reads had loaded, in the order of the commits. */
  function ReadMaxes(events: seq<Event>): seq<nat> {
    if events == [] then []
    else
      var past, e := events[..|events| - 1], events[|events| - 1];
      ReadMaxes(past) + if e.Commit? && HasLoaded(past, e.t) then [Latest(past, e.t).value.seen] else []
  }

  /** The commits that follow a `Take` of the same worker. */
  function InsertCommits(events: seq<Event>): nat {
    if events == [] then 0
    else
      var past, e := events[..|events| - 1], events[|events| - 1];
      InsertCommits(past) + if e.Commit? && HasTaken(past, e.t) then 1 else 0
  }

  /** The aborts that follow a `Take` of the same worker. */
  function LostTakes(events: seq<Event>): nat {
    if events == [] then 0
    else
      var past, e := events[..|events| - 1], events[|events| - 1];
      LostTakes(past) + if e.Abort? && HasTaken(past, e.t) then 1 else 0
  }

  // ---------- The state holds just that ----------

  ghost predicate PcTraced(events: seq<Event>, t: nat, pc: Pc) {
    && (pc.Loaded? <==> HasLoaded(events, t))
    && (pc.Took? <==> HasTaken(events, t))
    && (pc.Loaded? ==> pc.max == Latest(events, t).value.seen)
  }

  ghost predicate Traced(s: State, events: seq<Event>) {
    && (forall t :: 0 <= t < |s.workers| ==> PcTraced(events, t, s.workers[t].pc))
    && |s.lookedUp| == |ReadMaxes(events)|
    && (forall i :: 0 <= i < |s.lookedUp| ==> s.lookedUp[i].max == ReadMaxes(events)[i])
    && |s.inserted| == InsertCommits(events)
    && |s.lost| == LostTakes(events)
  }

  lemma LatestSnoc(events: seq<Event>, e: Event, t: nat)
    ensures Latest(events + [e], t) == if !e.NextPhase? && e.t == t then Some(e) else Latest(events, t)
  {
    assert (events + [e])[..|events|] == events;
  }

  lemma PcKept(c: Config, s: State, events: seq<Event>, e: Event, t: nat)
    requires c.Valid() && Enabled(c, s, e) && t < |s.workers| && |s.workers| == c.threads
    requires PcTraced(events, t, s.workers[t].pc)
    ensures PcTraced(events + [e], t, Apply(c, s, e).workers[t].pc)
  {
    LatestSnoc(events, e, t);
  }

  lemma TracedKept(c: Config, s: State, events: seq<Event>, e: Event)
    requires c.Valid() && Enabled(c, s, e) && |s.workers| == c.threads && Traced(s, events)
    ensures Traced(Apply(c, s, e), events + [e])
  {
    assert (events + [e])[..|events|] == events;
    forall t | 0 <= t < |s.workers|
      ensures PcTraced(events + [e], t, Apply(c, s, e).workers[t].pc)
    {
      PcKept(c, s, events, e, t);
    }
  }

  /** In every run: as many reads are recorded as commits follow a load, each with the counter value that
      load returned; as many inserts as commits follow a `Take`; as many keys lost as aborts do. */
  lemma {:induction false} RunTraced(c: Config, events: seq<Event>)
    requires c.Valid() && Exec(c, events).Reached?
    ensures Traced(Exec(c, events).state, events)
  {
    if events != [] {
      var n := |events| - 1;
      assert events[..n] + [events[n]] == events;
      RunTraced(c, events[..n]);
      RunKeeps(c, events[..n]);
      TracedKept(c, Exec(c, events[..n]).state, events[..n], events[n]);
    }
  }

  /** When no transaction is open the counter has advanced by the committed inserts and by the attempts
      that aborted after taking a key. */
  lemma CounterAtRest(c: Config, events: seq<Event>)
    requires c.Valid() && Exec(c, events).Reached?
    requires forall t :: 0 <= t < |Exec(c, events).state.workers| ==> !Exec(c, events).state.workers[t].pc.Took?
    ensures Exec(c, events).state.nextInsertKey == c.total + InsertCommits(events) + LostTakes(events)
  {
    RunKeeps(c, events);
    RunTraced(c, events);
    NoHolders(Exec(c, events).state.workers, 0);
  }

  /** What the workers committed is in the history of both phases. */
  ghost predicate Kept(s: State, d: Done) {
    match d
    case DidRead(r) => r in s.lookedUp
    case DidInsert(k) => k in s.inserted
  }

  lemma {:induction false} CommitsAreKept(c: Config, events: seq<Event>, t: nat, k: nat)
    requires c.Valid() && Exec(c, events).Reached? && t < |Exec(c, events).state.workers|
    requires k < |Exec(c, events).state.workers[t].ops|
    ensures Kept(Exec(c, events).state, Exec(c, events).state.workers[t].ops[k])
  {
    var n := |events| - 1;
    if events != [] && !events[n].NextPhase? {
      var s, s' := Exec(c, events[..n]).state, Exec(c, events).state;
      if k < |s.workers[t].ops| {
        CommitsAreKept(c, events[..n], t, k);
      }
    }
  }

  // ---------- What the streams demand ----------

  function ReadsIn(ops: seq<Done>): nat {
    if ops == [] then 0 else ReadsIn(ops[..|ops| - 1]) + if ops[|ops| - 1].DidRead? then 1 else 0
  }

  /** The reads and the operations that the workers have committed in the phase. */
  function ReadsDone(ws: seq<Worker>): nat {
    if ws == [] then 0 else ReadsDone(ws[..|ws| - 1]) + ReadsIn(ws[|ws| - 1].ops)
  }
  function OpsDone(ws: seq<Worker>): nat {
    if ws == [] then 0 else OpsDone(ws[..|ws| - 1]) + |ws[|ws| - 1].ops|
  }

  /** The reads and the operations that the first `n` workers have to do in a phase. */
  function ReadsDue(c: Config, measured: bool, n: nat): nat
    requires c.threads >= 1
  {
    if n == 0 then 0 else ReadsDue(c, measured, n - 1) + StreamReads(c, measured, n - 1, c.Quota(measured, n - 1))
  }
  function OpsDue(c: Config, measured: bool, n: nat): nat
    requires c.threads >= 1
  {
    if n == 0 then 0 else OpsDue(c, measured, n - 1) + c.Quota(measured, n - 1)
  }

  /** The quotas share out the lookups of a phase. */
  lemma {:induction false} QuotaPrefix(c: Config, measured: bool, n: nat)
    requires c.threads >= 1
    ensures var l := c.lookups(measured);
            OpsDue(c, measured, n) == n * (l / c.threads) + if n < l % c.threads then n else l % c.threads
  {
    var q := c.lookups(measured) / c.threads;
    if n > 0 {
      QuotaPrefix(c, measured, n - 1);
      assert (n - 1) * q + q == n * q;
    }
  }

  lemma QuotasSumUp(c: Config, measured: bool)
    requires c.threads >= 1
    ensures OpsDue(c, measured, c.threads) == c.lookups(measured)
  {
    QuotaPrefix(c, measured, c.threads);
  }

  lemma {:induction false} DoneUpdate(ws: seq<Worker>, i: nat, w: Worker)
    requires i < |ws|
    ensures ReadsDone(ws[i := w]) + ReadsIn(ws[i].ops) == ReadsDone(ws) + ReadsIn(w.ops)
    ensures OpsDone(ws[i := w]) + |ws[i].ops| == OpsDone(ws) + |w.ops|
  {
    var n := |ws| - 1;
    if i == n {
      assert ws[i := w][..n] == ws[..n];
    } else {
      DoneUpdate(ws[..n], i, w);
      assert ws[i := w][..n] == ws[..n][i := w];
    }
  }

  lemma {:induction false} NothingDone(ws: seq<Worker>)
    requires forall t :: 0 <= t < |ws| ==> ws[t].ops == []
    ensures ReadsDone(ws) == 0 && OpsDone(ws) == 0
  {
    if ws != [] { NothingDone(ws[..|ws| - 1]); }
  }

  lemma {:induction false} ReadsOnStream(c: Config, measured: bool, t: nat, ops: seq<Done>)
    requires forall k :: 0 <= k < |ops| ==> StreamOp(c, measured, t, k, ops[k])
    ensures ReadsIn(ops) == StreamReads(c, measured, t, |ops|)
  {
    if ops != [] {
      var n := |ops| - 1;
      ReadsOnStream(c, measured, t, ops[..n]);
      assert StreamOp(c, measured, t, n, ops[n]);
    }
  }

  lemma {:induction false} PhaseDone(c: Config, measured: bool, ws: seq<Worker>)
    requires c.threads >= 1
    requires forall t :: 0 <= t < |ws| ==> OnStream(c, measured, t, ws[t]) && |ws[t].ops| == c.Quota(measured, t)
    ensures ReadsDone(ws) == ReadsDue(c, measured, |ws|) && OpsDone(ws) == OpsDue(c, measured, |ws|)
  {
    if ws != [] {
      var n := |ws| - 1;
      PhaseDone(c, measured, ws[..n]);
      ReadsOnStream(c, measured, n, ws[n].ops);
    }
  }

  /** What the phases before this one had to do. */
  function EarlierReads(c: Config, s: State): nat
    requires c.threads >= 1
  {
    if s.measured then ReadsDue(c, false, c.threads) else 0
  }
  function EarlierOps(c: Config, s: State): nat
    requires c.threads >= 1
  {
    if s.measured then c.lookups(false) else 0
  }

  /** A worker keeps to its quota and leaves when it is reached. */
  ghost predicate KeepsQuota(c: Config, measured: bool, t: nat, w: Worker)
    requires c.threads >= 1
  {
    && |w.ops| <= c.Quota(measured, t)
    && (w.pc.Began? || w.pc.Loaded? || w.pc.Took? ==> |w.ops| < c.Quota(measured, t))
    && (w.pc == Finished ==> |w.ops| == c.Quota(measured, t))
  }

  ghost predicate AllKeepQuota(c: Config, measured: bool, ws: seq<Worker>)
    requires c.threads >= 1
  {
    forall t :: 0 <= t < |ws| ==> KeepsQuota(c, measured, t, ws[t])
  }

  ghost predicate Counted(c: Config, s: State)
    requires c.threads >= 1
  {
    && |s.lookedUp| == EarlierReads(c, s) + ReadsDone(s.workers)
    && |s.lookedUp| + |s.inserted| == EarlierOps(c, s) + OpsDone(s.workers)
  }

  ghost predicate Tallied(c: Config, s: State)
    requires c.threads >= 1
  {
    AllKeepQuota(c, s.measured, s.workers) && Counted(c, s)
  }

  lemma OpDelta(c: Config, s: State, e: Event)
    requires c.Valid() && Enabled(c, s, e) && !e.NextPhase?
    ensures var w, s' := s.workers[e.t], Apply(c, s, e);
            && ReadsIn(s'.workers[e.t].ops) - ReadsIn(w.ops) == |s'.lookedUp| - |s.lookedUp|
            && |s'.workers[e.t].ops| - |w.ops| == |s'.lookedUp| + |s'.inserted| - |s.lookedUp| - |s.inserted|
  {
    var w := s.workers[e.t];
    if e.Commit? { assert Local(c, s, w, e).ops[..|w.ops|] == w.ops; }
  }

  lemma QuotaKept(c: Config, s: State, e: Event)
    requires c.Valid() && Enabled(c, s, e) && AllKeepQuota(c, s.measured, s.workers)
    ensures AllKeepQuota(c, Apply(c, s, e).measured, Apply(c, s, e).workers)
  {
  }

  lemma CountedKept(c: Config, s: State, e: Event)
    requires c.Valid() && Enabled(c, s, e) && !e.NextPhase? && Counted(c, s)
    ensures Counted(c, Apply(c, s, e))
  {
    OpDelta(c, s, e);
    DoneUpdate(s.workers, e.t, Local(c, s, s.workers[e.t], e));
  }

  lemma PhaseCounted(c: Config, s: State)
    requires c.Valid() && Enabled(c, s, NextPhase) && AllOnStream(c, s) && Tallied(c, s)
    ensures Counted(c, Apply(c, s, NextPhase))
  {
    PhaseDone(c, false, s.workers);
    QuotasSumUp(c, false);
    NothingDone(Crew(c, true));
  }

  lemma TalliedKept(c: Config, s: State, e: Event)
    requires c.Valid() && Enabled(c, s, e) && AllOnStream(c, s) && Tallied(c, s)
    ensures Tallied(c, Apply(c, s, e))
  {
    QuotaKept(c, s, e);
    if e.NextPhase? { PhaseCounted(c, s); } else { CountedKept(c, s, e); }
  }

  lemma {:induction false} RunTallied(c: Config, events: seq<Event>)
    requires c.Valid() && Exec(c, events).Reached?
    ensures Tallied(c, Exec(c, events).state)
  {
    if events == [] {
      NothingDone(Crew(c, false));
    } else {
      var n := |events| - 1;
      RunTallied(c, events[..n]);
      RunKeeps(c, events[..n]);
      TalliedKept(c, Exec(c, events[..n]).state, events[n]);
    }
  }

  /** A run of both phases that ends has done the lookups of both: as many reads as the streams hold,
      the other lookups inserts, and the counter moved by the inserts and the lost keys. */
  lemma RunReport(c: Config, events: seq<Event>)
    requires c.Valid() && Exec(c, events).Reached? && Exec(c, events).state.measured
    requires forall t :: 0 <= t < |Exec(c, events).state.workers| ==> Exec(c, events).state.workers[t].pc == Finished
    ensures var s := Exec(c, events).state;
            var all := c.lookups(false) + c.lookups(true);
            var due := ReadsDue(c, false, c.threads) + ReadsDue(c, true, c.threads);
            && |s.lookedUp| == |ReadMaxes(events)| == due
            && |s.inserted| == InsertCommits(events) == all - due
            && s.nextInsertKey == c.total + (all - due) + LostTakes(events)
  {
    var s := Exec(c, events).state;
    RunKeeps(c, events);
    RunTallied(c, events);
    RunTraced(c, events);
    PhaseDone(c, true, s.workers);
    QuotasSumUp(c, true);
    CounterAtRest(c, events);
  }
}
