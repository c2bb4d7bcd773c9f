/**
 The YCSB-A benchmark phase: workers that share atomic counters and retry aborted transactions from a
 snapshot of their random generator. One event is one atomic action of one worker; a run interleaves
 the workers' events in any order, and the engine decides freely which attempts abort.
 */
module Workers {
  import opened SplitMix
  import opened Histogram

  datatype Op = Op(key: nat, isRead: bool)

  /** A phase. `start` gives each worker's generator, `draw` the operation that a generator state
      determines and `after` the state its draws leave behind; `YcsbA` fills them in. */
  datatype Config = Config(
    measured: bool,
    threads: nat,
    lookups: nat,
    bounds: BoundTable,
    start: nat -> U64,
    draw: U64 -> Op,
    after: U64 -> U64)
  {
    function Quota(t: nat): nat
      requires threads >= 1
    {
      lookups / threads + if t < lookups % threads then 1 else 0
    }

    /** The generator of worker `t` once `k` operations have been drawn from it. */
    function RngAt(t: nat, k: nat): U64 {
      if k == 0 then start(t) else after(RngAt(t, k - 1))
    }

    /** Item `k` of worker `t`'s stream. */
    function StreamOp(t: nat, k: nat): Op {
      draw(RngAt(t, k))
    }
  }

  // ---------- States ----------

  datatype Pc =
    | AtHead                          // testing local_done < quota
    | InTx(op: Op)                    // between the draws and the return of commitTX
    | Committed(op: Op, found: bool)  // commitTX has returned
    | OpCounted(found: bool)          // read_ops or write_ops bumped
    | FoundCounted                    // founds or not_founds bumped
    | Recorded                        // local_done bumped, latency recorded
    | Merging(next: nat)              // adding the local histogram to the global one, part by part
    | Finished

  datatype Entry = Entry(op: Op, found: bool)

  /** A worker's locals. `log` is the history of its committed operations. */
  datatype Worker = Worker(
    rng: U64,
    snapshot: U64,
    localDone: nat,
    pc: Pc,
    local: Hist,
    latencies: seq<nat>,
    log: seq<Entry>)

  datatype Shared = Shared(
    done: nat,
    aborts: nat,
    founds: nat,
    notFounds: nat,
    readOps: nat,
    writeOps: nat,
    hist: Hist)

  datatype State = State(shared: Shared, workers: seq<Worker>)

  function InitWorker(c: Config, t: nat): Worker {
    Worker(c.start(t), c.start(t), 0, AtHead, Empty(c.bounds), [], [])
  }

  function Init(c: Config): State {
    State(Shared(0, 0, 0, 0, 0, 0, Empty(c.bounds)), seq(c.threads, t requires 0 <= t < c.threads => InitWorker(c, t)))
  }

  // ---------- Events ----------

  datatype Event =
    | Begin(t: nat)
    | Abort(t: nat)
    | Commit(t: nat, found: bool)
    | CountOp(t: nat)
    | CountFound(t: nat)
    | CountLocal(t: nat, latency: nat)
    | CountDone(t: nat)
    | Leave(t: nat)
    | MergePart(t: nat)

  predicate Enabled(c: Config, s: State, e: Event)
    requires c.threads >= 1
  {
    && e.t < |s.workers|
    && var w := s.workers[e.t];
       match e
       case Begin(t) => w.pc == AtHead && w.localDone < c.Quota(t)
       case Abort(_) => w.pc.InTx?
       case Commit(_, found) => w.pc.InTx? && (!w.pc.op.isRead ==> found)
       case CountOp(_) => w.pc.Committed?
       case CountFound(_) => w.pc.OpCounted?
       case CountLocal(_, _) => w.pc == FoundCounted
       case CountDone(_) => w.pc == Recorded
       case Leave(t) => w.pc == AtHead && !(w.localDone < c.Quota(t))
       case MergePart(_) => w.pc.Merging? && w.pc.next <= |c.bounds| + 2
  }

  /** What the event does to the worker's own variables. */
  function Local(c: Config, w: Worker, e: Event): (w': Worker)
    requires w.local.Over(c.bounds)
    ensures w'.local.Over(c.bounds)
  {
    match e
    case Begin(_) => w.(snapshot := w.rng, rng := c.after(w.rng), pc := InTx(c.draw(w.rng)))
    case Abort(_) => w.(rng := w.snapshot, pc := AtHead)
    case Commit(_, found) =>
      if w.pc.InTx? then w.(pc := Committed(w.pc.op, found), log := w.log + [Entry(w.pc.op, found)]) else w
    case CountOp(_) => if w.pc.Committed? then w.(pc := OpCounted(w.pc.found)) else w
    case CountFound(_) => w.(pc := FoundCounted)
    case CountLocal(_, latency) =>
      var w' := w.(pc := Recorded, localDone := w.localDone + 1);
      if c.measured then w'.(local := Record(c.bounds, w.local, latency), latencies := w.latencies + [latency]) else w'
    case CountDone(_) => w.(pc := AtHead)
    case Leave(_) => w.(pc := if c.measured then Merging(0) else Finished)
    case MergePart(_) =>
      if w.pc.Merging? then w.(pc := if w.pc.next == |c.bounds| + 2 then Finished else Merging(w.pc.next + 1)) else w
  }

  /** Part `k` of a merge: a bucket, then the sum, then the count. */
  function AddPart(t: BoundTable, h: Hist, other: Hist, k: nat): (h': Hist)
    requires h.Over(t) && other.Over(t)
    ensures h'.Over(t)
  {
    if k <= |t| then h.(buckets := h.buckets[k := h.buckets[k] + other.buckets[k]])
    else if k == |t| + 1 then h.(sum := h.sum + other.sum)
    else h.(count := h.count + other.count)
  }

  /** What the event does to the shared counters, each a single `fetch_add`. */
  function Global(c: Config, g: Shared, w: Worker, e: Event): (g': Shared)
    requires g.hist.Over(c.bounds) && w.local.Over(c.bounds)
    ensures g'.hist.Over(c.bounds)
  {
    match e
    case Abort(_) => g.(aborts := g.aborts + 1)
    case CountOp(_) =>
      if w.pc.Committed? && w.pc.op.isRead then g.(readOps := g.readOps + 1) else g.(writeOps := g.writeOps + 1)
    case CountFound(_) =>
      if w.pc.OpCounted? && w.pc.found then g.(founds := g.founds + 1) else g.(notFounds := g.notFounds + 1)
    case CountDone(_) => g.(done := g.done + 1)
    case MergePart(_) => if w.pc.Merging? then g.(hist := AddPart(c.bounds, g.hist, w.local, w.pc.next)) else g
    case _ => g
  }

  predicate Shaped(c: Config, s: State) {
    && s.shared.hist.Over(c.bounds)
    && forall t :: 0 <= t < |s.workers| ==> s.workers[t].local.Over(c.bounds)
  }

  function Apply(c: Config, s: State, e: Event): (s': State)
    requires c.threads >= 1 && Shaped(c, s) && e.t < |s.workers|
    ensures Shaped(c, s')
  {
    var w := s.workers[e.t];
    State(Global(c, s.shared, w, e), s.workers[e.t := Local(c, w, e)])
  }

  datatype Outcome = Blocked | Reached(state: State)

  /** A run is a sequence of events, each enabled where the ones before it lead. */
  function Exec(c: Config, events: seq<Event>): (o: Outcome)
    requires c.threads >= 1
    ensures o.Reached? ==> Shaped(c, o.state)
  {
    if events == [] then Reached(Init(c))
    else
      var n := |events| - 1;
      match Exec(c, events[..n])
      case Blocked => Blocked
      case Reached(s) => if Enabled(c, s, events[n]) then Reached(Apply(c, s, events[n])) else Blocked
  }
}
