// lib/core/ogs-queue.c: threads at the mutex and the two conditions, as steps of one run.
module QueueRun {
  import opened Prelude
  import opened QueueRing
  import opened QueueSpec

  // Where a thread is.
  datatype Pc<V> =
    | Out(res: Result<V>)               // outside, with the result of its last call
    | Entering(op: Op<V>)               // waiting for the mutex
    | Testing(op: Op<V>)                // holding it
    | Asleep(op: Op<V>)                 // in the wait on its condition
    | Awake(op: Op<V>, late: bool)      // woken, or timed out; waiting for the mutex again
    | Resumed(op: Op<V>, late: bool)    // holding it again
    | Changed(op: Op<V>, res: Result<V>) // holding it, before the signal
    | Leaving(res: Result<V>)           // holding it, before the unlock
    | Unlocked                          // about to read terminated without the mutex
    | Ending | Setting | HasSet         // ogs_queue_term: before the mutex, holding it, flag set
    | Calling(term: bool)               // ogs_queue_interrupt_all, called by ogs_queue_term or not: before the mutex
    | Waking(side: Side, term: bool)    // before the broadcast to a side

  predicate Holds<V>(pc: Pc<V>) {
    pc.Testing? || pc.Resumed? || pc.Changed? || pc.Leaving? || pc.Setting? || pc.HasSet? || pc.Waking?
  }

  // The queue, its threads and the history of what was put in and taken out.  swept holds the
  // conditions that were broadcast after terminated was set.
  datatype State<V> = State(core: Core<V>, holder: Option<nat>, threads: seq<Pc<V>>, pushed: seq<V>, popped: seq<V>, swept: set<Side>)

  // Whether a timed wait can still report a timeout after a signal has ended it, and whether
  // callers use positive timeouts.
  datatype Config = Config(greedy: bool, timed: bool)

  datatype Step<V> =
    | Call(t: nat, op: Op<V>)
    | Term(t: nat)
    | Interrupt(t: nat)
    | Lock(t: nat)
    | Act(t: nat, w: nat)      // the next step of a thread that needs no mutex or holds it; w is the thread a signal wakes
    | TimeOut(t: nat)
    | Spurious(t: nat)
    | Snatch(t: nat)           // a timeout reported in spite of a signal

  predicate Sleeping<V>(pc: Pc<V>, side: Side) { pc.Asleep? && pc.op.Of() == side }

  predicate Enabled<V>(c: Config, s: State<V>, step: Step<V>) {
    && step.t < |s.threads|
    && var pc := s.threads[step.t];
      match step
      case Call(_, op) => pc.Out? && (op.wait == Timed ==> c.timed)
      case Term(_) => pc.Out?
      case Interrupt(_) => pc.Out?
      case Lock(_) => s.holder == None && (pc.Entering? || pc.Awake? || pc.Ending? || pc.Calling?)
      case Act(_, w) =>
        && (Holds(pc) || pc.Unlocked?)
        && (pc.Changed? && (exists x :: 0 <= x < |s.threads| && Sleeping(s.threads[x], Other(pc.op.Of())))
            ==> w < |s.threads| && Sleeping(s.threads[w], Other(pc.op.Of())))
      case TimeOut(_) => pc.Asleep? && pc.op.wait == Timed
      case Spurious(_) => pc.Asleep?
      case Snatch(_) => c.greedy && pc.Awake? && !pc.late && pc.op.wait == Timed
  }

  // Thread t goes to pc, and the mutex to holder.
  function At<V>(s: State<V>, t: nat, pc: Pc<V>, holder: Option<nat>): State<V>
    requires t < |s.threads|
  {
    State(s.core, holder, s.threads[t := pc], s.pushed, s.popped, s.swept)
  }

  // ogs_thread_cond_signal
  function Signal<V>(threads: seq<Pc<V>>, side: Side, w: nat): (r: seq<Pc<V>>)
    ensures |r| == |threads|
  {
    if w < |threads| && Sleeping(threads[w], side) then threads[w := Awake(threads[w].op, false)] else threads
  }

  // ogs_thread_cond_broadcast
  function Broadcast<V>(threads: seq<Pc<V>>, side: Side): (r: seq<Pc<V>>)
    ensures |r| == |threads|
    ensures forall x :: 0 <= x < |r| ==> r[x] == if Sleeping(threads[x], side) then Awake(threads[x].op, false) else threads[x]
  {
    if threads == [] then []
    else [if Sleeping(threads[0], side) then Awake(threads[0].op, false) else threads[0]] + Broadcast(threads[1..], side)
  }

  // What a section of the code did to the queue, and where it leaves the thread.
  function Settle<V>(s: State<V>, t: nat, op: Op<V>, r: (Core<V>, Outcome<V>)): State<V>
    requires t < |s.threads|
  {
    State(r.0, if r.1.Sleeps? then None else s.holder, s.threads[t := Landing(op, r.1)],
          if r.1.Changes? && op.Push? then s.pushed + [op.data] else s.pushed,
          if r.1.Changes? && r.1.res.Value? then s.popped + [r.1.res.v] else s.popped, s.swept)
  }

  function Landing<V>(op: Op<V>, o: Outcome<V>): Pc<V> {
    match o
    case Sleeps => Asleep(op)
    case Leaves(res) => Leaving(res)
    case Changes(res) => Changed(op, res)
  }

  function Signals<V>(s: State<V>, t: nat, side: Side, res: Result<V>, w: nat): State<V>
    requires t < |s.threads|
  {
    var threads := if s.core.Waiters(side) > 0 then Signal(s.threads, side, w) else s.threads;
    State(s.core, s.holder, threads[t := Leaving(res)], s.pushed, s.popped, s.swept)
  }

  function Wakes<V>(s: State<V>, t: nat, side: Side, term: bool): State<V>
    requires t < |s.threads|
  {
    State(s.core, s.holder,
          Broadcast(s.threads, side)[t := if side == Poppers then Waking(Pushers, term) else Leaving(if term then Ended else Ok)],
          s.pushed, s.popped, if s.core.terminated then s.swept + {side} else s.swept)
  }

  function After<V>(s: State<V>, step: Step<V>): (r: State<V>)
    requires s.core.Valid() && step.t < |s.threads|
    ensures |r.threads| == |s.threads|
  {
    var t, pc := step.t, s.threads[step.t];
    match step
    case Call(_, op) => At(s, t, if s.core.terminated then Out(Done) else Entering(op), s.holder)
    case Term(_) => At(s, t, Ending, s.holder)
    case Interrupt(_) => At(s, t, Calling(false), s.holder)
    case Lock(_) => At(s, t, Entered(pc), Some(t))
    case Act(_, w) => Acted(s, t, w)
    case TimeOut(_) => if pc.Asleep? then At(s, t, Awake(pc.op, true), s.holder) else s
    case Spurious(_) => if pc.Asleep? then At(s, t, Awake(pc.op, false), s.holder) else s
    case Snatch(_) => if pc.Awake? then At(s, t, Awake(pc.op, true), s.holder) else s
  }

  // A thread that has got the mutex.
  function Entered<V>(pc: Pc<V>): Pc<V> {
    match pc
    case Entering(op) => Testing(op)
    case Awake(op, late) => Resumed(op, late)
    case Ending => Setting
    case _ => Waking(Poppers, pc.Calling? && pc.term)
  }

  function Acted<V>(s: State<V>, t: nat, w: nat): (r: State<V>)
    requires s.core.Valid() && t < |s.threads|
    ensures |r.threads| == |s.threads|
  {
    match s.threads[t]
    case Testing(op) => Settle(s, t, op, s.core.Enter(op))
    case Resumed(op, late) => Settle(s, t, op, s.core.Resume(op, late))
    case Changed(op, res) => Signals(s, t, Other(op.Of()), res, w)
    case Leaving(res) => At(s, t, if res == Failed then Unlocked else Out(res), None)
    case Unlocked => At(s, t, Out(if s.core.terminated then Done else Failed), s.holder)
    case Setting => At(s, t, HasSet, s.holder).(core := s.core.(terminated := true))
    case HasSet => At(s, t, Calling(true), None)
    case Waking(side, term) => Wakes(s, t, side, term)
    case _ => s
  }

  ghost predicate Init<V>(s: State<V>) {
    && s.core.Valid() && s.core.ring.nelts == 0 && s.core.fullWaiters == s.core.emptyWaiters == 0 && !s.core.terminated
    && s.holder == None && s.pushed == s.popped == [] && s.swept == {}
    && forall t :: 0 <= t < |s.threads| ==> s.threads[t] == Out(Ok)
  }

  ghost predicate Next<V(!new)>(c: Config, s: State<V>, u: State<V>) {
    s.core.Valid() && exists step :: Enabled(c, s, step) && u == After(s, step)
  }

  ghost predicate Run<V(!new)>(c: Config, run: seq<State<V>>) {
    run != [] && Init(run[0]) && forall i :: 0 <= i < |run| - 1 ==> Next(c, run[i], run[i + 1])
  }
}
