// lib/core/ogs-queue.c: order of elements over a run, and what termination brings.
module QueueEnd {
  import opened Prelude
  import opened QueueRing
  import opened QueueSpec
  import opened QueueRun
  import opened QueueProof
  import opened QueueLaws

  // ---------- Order ----------

  // Pops give the elements in the order of the pushes, none lost and none twice: what was popped
  // comes first in what was pushed, and the queue holds the rest.
  lemma RunFifo<V(!new)>(c: Config, run: seq<State<V>>, n: nat)
    requires Run(c, run) && n < |run|
    ensures var s, r := run[n], run[n].core.ring;
      && r.Valid() && 0 <= r.nelts <= r.Bounds() && (r.Bounds() > 0 ==> r.in_ == (r.out + r.nelts) % r.Bounds())
      && s.popped <= s.pushed && s.pushed[|s.popped|..] == r.Contents()
  {
    RunInv(c, run, n);
    var r := run[n].core.ring;
    if r.Bounds() > 0 {
      InIs(r);
    }
  }

  // A step that takes an element takes the one pushed next in order, and its thread returns it.
  lemma TakesNext<V>(c: Config, s: State<V>, step: Step<V>)
    requires Inv(s) && Enabled(c, s, step) && After(s, step).popped != s.popped
    ensures var u, pc := After(s, step), After(s, step).threads[step.t];
      && |s.popped| < |s.pushed| && u.popped == s.popped + [s.pushed[|s.popped|]]
      && pc.Changed? && pc.op.Pop? && pc.res == Value(s.pushed[|s.popped|])
  {
    var ring := s.core.ring;
    if ring.nelts > 0 {
      ContentsAt(ring, 0);
      assert s.pushed[|s.popped|] == ring.Contents()[0];
      assert ring.Wrap(ring.out + 0) == ring.out;
    }
  }

  // A result once obtained is the one returned.
  lemma ResultKept<V>(c: Config, s: State<V>, step: Step<V>, x: nat, res: Result<V>)
    requires s.core.Valid() && Enabled(c, s, step) && x < |s.threads| && res != Failed
    requires (s.threads[x].Changed? && s.threads[x].res == res) || s.threads[x] == Leaving(res)
    ensures var pc := After(s, step).threads[x];
      (pc.Changed? && pc.res == res) || pc == Leaving(res) || pc == Out(res)
  {
    hide Ring.Valid, Core.Enter, Core.Resume;
    if x != step.t {
      OtherPc(s, step, x);
    }
  }

  // ---------- Termination ----------

  // How far each thread in ogs_queue_term has come.
  ghost predicate TermAt<V>(s: State<V>, x: nat)
    requires x < |s.threads|
  {
    match s.threads[x]
    case HasSet => s.core.terminated
    case Calling(term) => term ==> s.core.terminated
    case Waking(side, term) => term ==> s.core.terminated && (side == Pushers ==> Poppers in s.swept)
    case Leaving(res) => res == Ended ==> Swept(s)
    case Out(res) => res == Ended ==> Swept(s)
    case Changed(_, res) => res != Ended
    case _ => true
  }

  // Both broadcasts were made after terminated was set.
  ghost predicate Swept<V>(s: State<V>) { s.core.terminated && Pushers in s.swept && Poppers in s.swept }

  ghost predicate TermInv<V>(s: State<V>) {
    forall x :: 0 <= x < |s.threads| ==> TermAt(s, x)
  }

  lemma Latches<V>(s: State<V>, step: Step<V>)
    requires s.core.Valid() && step.t < |s.threads|
    ensures (s.core.terminated ==> After(s, step).core.terminated) && s.swept <= After(s, step).swept
  {
    hide Ring.Valid;
  }

  lemma TermAtKept<V>(c: Config, s: State<V>, step: Step<V>, x: nat)
    requires s.core.Valid() && Enabled(c, s, step) && x < |s.threads| && TermAt(s, x)
    ensures TermAt(After(s, step), x)
  {
    Latches(s, step);
    if x != step.t {
      OtherPc(s, step, x);
      hide After, Enabled;
    } else {
      OwnTermAt(c, s, step);
    }
  }

  lemma OwnTermAt<V>(c: Config, s: State<V>, step: Step<V>)
    requires s.core.Valid() && Enabled(c, s, step) && TermAt(s, step.t)
    ensures TermAt(After(s, step), step.t)
  {
    hide Ring.Valid, Signal, Broadcast, Ring.Bounds, Core.AddWaiter;
  }

  lemma {:induction false} RunTerm<V(!new)>(c: Config, run: seq<State<V>>, n: nat)
    requires Run(c, run) && n < |run|
    ensures TermInv(run[n])
  {
    if n == 0 {
    } else {
      RunTerm(c, run, n - 1);
      var step := StepOf(c, run, n - 1);
      forall x | 0 <= x < |run[n].threads|
        ensures TermAt(run[n], x)
      {
        TermAtKept(c, run[n - 1], step, x);
      }
    }
  }

  lemma {:induction false} RunLatches<V(!new)>(c: Config, run: seq<State<V>>, i: nat, j: nat)
    requires Run(c, run) && i <= j < |run|
    ensures (run[i].core.terminated ==> run[j].core.terminated) && run[i].swept <= run[j].swept
    ensures |run[i].threads| == |run[j].threads|
    decreases j
  {
    hide After, Enabled, Run;
    if i == j {
    } else {
      RunLatches(c, run, i, j - 1);
      var step := StepOf(c, run, j - 1);
      Latches(run[j - 1], step);
    }
  }

  // Once a call of ogs_queue_term has returned, nobody sleeps, then or ever after.
  lemma NobodySleeps<V(!new)>(c: Config, run: seq<State<V>>, i: nat, j: nat, t: nat, x: nat)
    requires Run(c, run) && i <= j < |run| && t < |run[i].threads| && run[i].threads[t] == Out(Ended)
    requires x < |run[j].threads|
    ensures Swept(run[j]) && !run[j].threads[x].Asleep?
  {
    RunTerm(c, run, i);
    assert TermAt(run[i], t);
    RunLatches(c, run, i, j);
    SweptAwake(c, run, j, x);
  }

  lemma SweptAwake<V(!new)>(c: Config, run: seq<State<V>>, j: nat, x: nat)
    requires Run(c, run) && j < |run| && x < |run[j].threads| && Swept(run[j])
    ensures !run[j].threads[x].Asleep?
  {
    RunInv(c, run, j);
    var s := run[j];
    if s.threads[x].Asleep? {
      CountsOne(s.threads, x, Role(s.threads[x].op.Of(), Sleeper));
    }
  }

  lemma {:induction false} StaysOut<V(!new)>(c: Config, run: seq<State<V>>, i: nat, j: nat, x: nat)
    requires Run(c, run) && i <= j < |run| && x < |run[i].threads| && x < |run[j].threads|
    requires run[i].core.terminated && OpOf(run[i].threads[x]) == None
    ensures OpOf(run[j].threads[x]) == None
    decreases j
  {
    hide After, Enabled, Run, OpOf;
    if i == j {
    } else {
      RunLatches(c, run, i, j - 1);
      StaysOut(c, run, i, j - 1, x);
      var step := StepOf(c, run, j - 1);
      OpKept(c, run[j - 1], step, x);
    }
  }

  // A thread outside when the queue is terminated never performs an operation again: in every
  // later state, whatever it calls ends at once with Done and leaves everything else as it is.
  lemma LateFails<V(!new)>(c: Config, run: seq<State<V>>, i: nat, j: nat, x: nat)
    requires Run(c, run) && i <= j < |run| && x < |run[i].threads| && x < |run[j].threads|
    requires run[i].core.terminated && OpOf(run[i].threads[x]) == None
    ensures OpOf(run[j].threads[x]) == None && run[j].core.Valid()
    ensures forall op: Op<V> :: After(run[j], Call(x, op)) == run[j].(threads := run[j].threads[x := Out(Done)])
  {
    StaysOut(c, run, i, j, x);
    RunLatches(c, run, i, j);
    RunInv(c, run, j);
    hide Run, OpOf;
  }

  // ---------- Draining ----------

  // The steps a thread has at most before it is outside, once nobody can sleep any more.
  function Weight<V>(pc: Pc<V>): nat {
    match pc
    case Out(_) => 0
    case Unlocked => 1
    case Leaving(_) => 2
    case Changed(_, _) => 3
    case Testing(_) => 4
    case Entering(_) => 5
    case Resumed(_, _) => 4
    case Awake(_, late) => if late then 5 else 6
    case Asleep(_) => 7
    case Waking(side, _) => if side == Pushers then 3 else 4
    case Calling(_) => 5
    case HasSet => 6
    case Setting => 7
    case Ending => 8
  }

  function Total<V>(threads: seq<Pc<V>>): nat {
    if threads == [] then 0 else Weight(threads[0]) + Total(threads[1..])
  }

  lemma {:induction false} TotalAt<V>(threads: seq<Pc<V>>, t: nat, pc: Pc<V>)
    requires t < |threads|
    ensures Total(threads[t := pc]) == Total(threads) - Weight(threads[t]) + Weight(pc)
    decreases t
  {
    var us := threads[t := pc];
    if t == 0 {
      assert us[1..] == threads[1..];
    } else {
      assert us[1..] == threads[1..][t - 1 := pc] && us[0] == threads[0];
      TotalAt(threads[1..], t - 1, pc);
    }
  }

  predicate Starts<V>(step: Step<V>) { step.Call? || step.Term? || step.Interrupt? }

  ghost predicate AllAwake<V>(s: State<V>) {
    forall x :: 0 <= x < |s.threads| ==> !s.threads[x].Asleep?
  }

  // With nobody asleep only the moving thread changes.
  lemma MovesAlone<V>(s: State<V>, step: Step<V>)
    requires s.core.Valid() && step.t < |s.threads| && AllAwake(s)
    ensures After(s, step).threads == s.threads[step.t := After(s, step).threads[step.t]]
  {
    var us := After(s, step).threads;
    hide After;
    forall x | 0 <= x < |s.threads| && x != step.t
      ensures us[x] == s.threads[x]
    {
      OtherPc(s, step, x);
    }
  }

  lemma Lighter<V>(c: Config, s: State<V>, step: Step<V>)
    requires s.core.Valid() && s.core.terminated && Enabled(c, s, step) && AllAwake(s) && !Starts(step)
    ensures Weight(After(s, step).threads[step.t]) < Weight(s.threads[step.t])
  {
    hide Ring.Valid, Signal, Broadcast;
  }

  lemma Drains<V>(c: Config, s: State<V>, step: Step<V>)
    requires s.core.Valid() && s.core.terminated && Enabled(c, s, step) && AllAwake(s) && !Starts(step)
    ensures Total(After(s, step).threads) < Total(s.threads)
  {
    MovesAlone(s, step);
    Lighter(c, s, step);
    TotalAt(s.threads, step.t, After(s, step).threads[step.t]);
  }

  // A step that is not a new call.
  ghost predicate GoesOn<V(!new)>(c: Config, s: State<V>, u: State<V>) {
    s.core.Valid() && exists step :: Enabled(c, s, step) && !Starts(step) && u == After(s, step)
  }

  ghost predicate GoesOnAt<V(!new)>(c: Config, run: seq<State<V>>, k: nat) {
    k + 1 < |run| && GoesOn(c, run[k], run[k + 1])
  }

  lemma DrainStep<V(!new)>(c: Config, run: seq<State<V>>, k: nat)
    requires Run(c, run) && GoesOnAt(c, run, k) && Swept(run[k])
    ensures Total(run[k + 1].threads) < Total(run[k].threads)
  {
    var s := run[k];
    var step :| Enabled(c, s, step) && !Starts(step) && run[k + 1] == After(s, step);
    forall x | 0 <= x < |s.threads|
      ensures !s.threads[x].Asleep?
    {
      SweptAwake(c, run, k, x);
    }
    Drains(c, s, step);
  }

  // After termination, and without new calls, the threads still inside are outside within a
  // bounded number of steps.
  lemma {:induction false} WindsDown<V(!new)>(c: Config, run: seq<State<V>>, i: nat, j: nat)
    requires Run(c, run) && i <= j < |run| && Swept(run[i])
    requires forall k :: i <= k < j ==> GoesOnAt(c, run, k)
    ensures Total(run[j].threads) + (j - i) <= Total(run[i].threads)
    decreases j
  {
    hide GoesOn, Run;
    if i == j {
    } else {
      WindsDown(c, run, i, j - 1);
      RunLatches(c, run, i, j - 1);
      assert GoesOnAt(c, run, j - 1);
      DrainStep(c, run, j - 1);
    }
  }

  // And until they are all outside, one of them can move.
  lemma CanMove<V>(c: Config, s: State<V>, x: nat) returns (step: Step<V>)
    requires Inv(s) && AllAwake(s) && x < |s.threads| && !s.threads[x].Out?
    ensures Enabled(c, s, step) && !Starts(step)
  {
    match s.holder
    case Some(t) =>
      step := Act(t, 0);
    case None =>
      assert !Holds(s.threads[x]);
      step := if s.threads[x].Unlocked? then Act(x, 0) else Lock(x);
  }
}
