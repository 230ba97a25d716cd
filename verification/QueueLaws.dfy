// lib/core/ogs-queue.c: the laws of whole runs.
module QueueLaws {
  import opened Prelude
  import opened QueueRing
  import opened QueueSpec
  import opened QueueRun
  import opened QueueProof

  // A thread that does not move itself stays where it is or is woken.
  lemma OtherPc<V>(s: State<V>, step: Step<V>, x: nat)
    requires s.core.Valid() && step.t < |s.threads| && x < |s.threads| && x != step.t
    ensures var pc, pc' := s.threads[x], After(s, step).threads[x];
      pc' == pc || (pc.Asleep? && pc' == Awake(pc.op, false))
  {
    hide Ring.Valid, Core.Enter, Core.Resume;
  }

  // ---------- Every run ----------

  lemma StepOf<V(!new)>(c: Config, run: seq<State<V>>, n: nat) returns (step: Step<V>)
    requires Run(c, run) && n + 1 < |run|
    ensures run[n].core.Valid() && Enabled(c, run[n], step) && run[n + 1] == After(run[n], step)
  {
    assert Next(c, run[n], run[n + 1]);
    step :| Enabled(c, run[n], step) && run[n + 1] == After(run[n], step);
  }

  lemma {:induction false} RunInv<V(!new)>(c: Config, run: seq<State<V>>, n: nat)
    requires Run(c, run) && n < |run|
    ensures Inv(run[n])
  {
    if n == 0 {
      InitInv(run[0]);
    } else {
      RunInv(c, run, n - 1);
      var step := StepOf(c, run, n - 1);
      InvKept(c, run[n - 1], step);
    }
  }

  // The op a thread is performing.
  function OpOf<V>(pc: Pc<V>): Option<Op<V>> {
    match pc
    case Entering(op) => Some(op)
    case Testing(op) => Some(op)
    case Asleep(op) => Some(op)
    case Awake(op, _) => Some(op)
    case Resumed(op, _) => Some(op)
    case Changed(op, _) => Some(op)
    case _ => None
  }

  // A thread's op stays the same until it ends, and a new one starts by a call.
  lemma OpKept<V>(c: Config, s: State<V>, step: Step<V>, x: nat)
    requires s.core.Valid() && Enabled(c, s, step) && x < |s.threads|
    ensures var op' := OpOf(After(s, step).threads[x]);
      op' == None || op' == OpOf(s.threads[x]) || (step.Call? && x == step.t && op' == Some(step.op) && !s.core.terminated)
  {
    hide Ring.Valid, Core.Enter, Core.Resume;
    if x != step.t {
      OtherPc(s, step, x);
    }
  }

  ghost predicate Untimed<V>(s: State<V>) {
    forall x :: 0 <= x < |s.threads| && OpOf(s.threads[x]).Some? ==> OpOf(s.threads[x]).value.wait != Timed
  }

  lemma UntimedKept<V>(c: Config, s: State<V>, step: Step<V>)
    requires !c.timed && s.core.Valid() && Untimed(s) && Enabled(c, s, step)
    ensures Untimed(After(s, step)) && !step.Snatch?
  {
    assert step.Snatch? ==> OpOf(s.threads[step.t]).Some?;
    forall x | 0 <= x < |s.threads|
      ensures var op := OpOf(After(s, step).threads[x]); op.Some? ==> op.value.wait != Timed
    {
      OpKept(c, s, step, x);
    }
  }

  lemma HeardStep<V>(c: Config, s: State<V>, step: Step<V>)
    requires Inv(s) && AllHeard(s) && Enabled(c, s, step) && !(c.greedy && c.timed) && (!c.timed ==> Untimed(s))
    ensures AllHeard(After(s, step)) && (!c.timed ==> Untimed(After(s, step)))
  {
    assert s.core.Valid() && (step.Snatch? ==> c.greedy);
    hide Inv, After, Enabled, Heard, Untimed;
    if !c.timed {
      UntimedKept(c, s, step);
    }
    HeardKept(c, s, step, Pushers);
    HeardKept(c, s, step, Poppers);
  }

  // No wakeup is lost: while a thread sleeps, what its side could take is never more than the
  // threads already woken for it, or about to wake one.
  lemma {:induction false} RunHeard<V(!new)>(c: Config, run: seq<State<V>>, n: nat)
    requires Run(c, run) && n < |run| && !(c.greedy && c.timed)
    ensures AllHeard(run[n]) && (!c.timed ==> Untimed(run[n]))
  {
    hide After, Enabled, Inv, AllHeard, Untimed;
    if n == 0 {
      InitInv(run[0]);
      InitUntimed(run[0]);
    } else {
      RunHeard(c, run, n - 1);
      RunInv(c, run, n - 1);
      var step := StepOf(c, run, n - 1);
      HeardStep(c, run[n - 1], step);
    }
  }

  lemma InitUntimed<V>(s: State<V>)
    requires Init(s)
    ensures Untimed(s)
  {
  }

  // ---------- A lost wakeup ----------

  ghost predicate Reached<V(!new)>(c: Config, s: State<V>) {
    exists run :: Ends(c, run, s)
  }

  ghost predicate Ends<V(!new)>(c: Config, run: seq<State<V>>, s: State<V>) { Run(c, run) && run[|run| - 1] == s }

  lemma Go<V(!new)>(c: Config, s: State<V>, step: Step<V>, u: State<V>)
    requires Reached(c, s) && s.core.Valid() && Enabled(c, s, step) && u == After(s, step)
    ensures Reached(c, u)
  {
    var run :| Ends(c, run, s);
    var more := run + [u];
    forall i | 0 <= i < |more| - 1
      ensures Next(c, more[i], more[i + 1])
    {
      assert i < |run| - 1 ==> Next(c, run[i], run[i + 1]);
    }
    assert Ends(c, more, u);
  }

  // Threads a and b pop, with and without a timeout, and d pushes v into a queue of one place.
  function Scene<V>(v: V, full: bool, empty: nat, holder: Option<nat>, a: Pc<V>, b: Pc<V>, d: Pc<V>): State<V> {
    State(Core(Ring([v], if full then 1 else 0, 0, 0), 0, empty, false), holder, [a, b, d], if full then [v] else [], [], {})
  }

  const GREEDY := Config(true, true)

  lemma OneSleeps<V(!new)>(v: V, a: Op<V>, o: Pc<V>)
    requires a == Pop(Timed) && o == Out(Ok)
    ensures Reached(GREEDY, Scene(v, false, 1, None, Asleep(a), o, o))
  {
    var s0, s1 := Scene(v, false, 0, None, o, o, o), Scene(v, false, 0, None, Entering(a), o, o);
    var s2 := Scene(v, false, 0, Some(0), Testing(a), o, o);
    assert Ends(GREEDY, [s0], s0);
    Go(GREEDY, s0, Call(0, a), s1);
    Go(GREEDY, s1, Lock(0), s2);
    Go(GREEDY, s2, Act(0, 0), Scene(v, false, 1, None, Asleep(a), o, o));
  }

  lemma BothSleep<V(!new)>(v: V, a: Op<V>, b: Op<V>, o: Pc<V>)
    requires a == Pop(Timed) && b == Pop(Forever) && o == Out(Ok)
    ensures Reached(GREEDY, Scene(v, false, 2, None, Asleep(a), Asleep(b), o))
  {
    OneSleeps(v, a, o);
    var s4, s5 := Scene(v, false, 1, None, Asleep(a), Entering(b), o), Scene(v, false, 1, Some(1), Asleep(a), Testing(b), o);
    Go(GREEDY, Scene(v, false, 1, None, Asleep(a), o, o), Call(1, b), s4);
    Go(GREEDY, s4, Lock(1), s5);
    Go(GREEDY, s5, Act(1, 0), Scene(v, false, 2, None, Asleep(a), Asleep(b), o));
  }

  lemma OnePushes<V(!new)>(v: V, a: Op<V>, b: Op<V>, d: Op<V>)
    requires a == Pop(Timed) && b == Pop(Forever) && d == Push(v, Forever)
    ensures Reached(GREEDY, Scene(v, true, 2, Some(2), Asleep(a), Asleep(b), Changed(d, Ok)))
  {
    BothSleep(v, a, b, Out(Ok));
    var s1, s2 := Scene(v, false, 2, None, Asleep(a), Asleep(b), Entering(d)), Scene(v, false, 2, Some(2), Asleep(a), Asleep(b), Testing(d));
    Go(GREEDY, Scene(v, false, 2, None, Asleep(a), Asleep(b), Out(Ok)), Call(2, d), s1);
    Go(GREEDY, s1, Lock(2), s2);
    Go(GREEDY, s2, Act(2, 0), Scene(v, true, 2, Some(2), Asleep(a), Asleep(b), Changed(d, Ok)));
  }

  lemma OneWakes<V(!new)>(v: V, a: Op<V>, b: Op<V>, d: Op<V>)
    requires a == Pop(Timed) && b == Pop(Forever) && d == Push(v, Forever)
    ensures Reached(GREEDY, Scene(v, true, 2, None, Awake(a, true), Asleep(b), Out(Ok)))
  {
    OnePushes(v, a, b, d);
    var s1, s2 := Scene(v, true, 2, Some(2), Awake(a, false), Asleep(b), Leaving(Ok)), Scene(v, true, 2, None, Awake(a, false), Asleep(b), Out(Ok));
    Go(GREEDY, Scene(v, true, 2, Some(2), Asleep(a), Asleep(b), Changed(d, Ok)), Act(2, 0), s1);
    Go(GREEDY, s1, Act(2, 0), s2);
    Go(GREEDY, s2, Snatch(0), Scene(v, true, 2, None, Awake(a, true), Asleep(b), Out(Ok)));
  }

  // The timed popper takes the signal of the push, and times out all the same: the other one
  // goes on sleeping, with an element in the queue and every other thread outside.
  lemma LostWakeup<V(!new)>(v: V)
    ensures var s := Scene(v, true, 1, None, Out(TimeUp), Asleep(Pop(Forever)), Out(Ok));
      Reached(GREEDY, s) && !AllHeard(s)
  {
    var a, b, o: Pc<V> := Pop(Timed), Pop(Forever), Out(Ok);
    OneWakes(v, a, b, Push(v, Forever));
    var s2, s3 := Scene(v, true, 2, Some(0), Resumed(a, true), Asleep(b), o), Scene(v, true, 1, Some(0), Leaving(TimeUp), Asleep(b), o);
    var s4 := Scene(v, true, 1, None, Out(TimeUp), Asleep(b), o);
    Go(GREEDY, Scene(v, true, 2, None, Awake(a, true), Asleep(b), o), Lock(0), s2);
    Go(GREEDY, s2, Act(0, 0), s3);
    Go(GREEDY, s3, Act(0, 0), s4);
    NobodyComes(s4);
  }

  lemma NobodyComes<V>(s: State<V>)
    requires |s.threads| == 3 && s.threads[0].Out? && Sleeping(s.threads[1], Poppers) && s.threads[2].Out? && s.core.ring.nelts == 1
    ensures !AllHeard(s)
  {
    CountsOne(s.threads, 1, Role(Poppers, Sleeper));
    forall phase | phase != Sleeper
      ensures Count(s.threads, Role(Poppers, phase)) == 0
    {
      if Count(s.threads, Role(Poppers, phase)) > 0 { var x := Counted(s.threads, Role(Poppers, phase)); }
    }
    if Count(s.threads, Role(Pushers, Told)) > 0 { var x := Counted(s.threads, Role(Pushers, Told)); }
  }

  // Wakeups can be lost exactly when a signalled timed wait can still time out and callers use
  // such waits.
  lemma HeardExactly<V(!new)>(c: Config, v: V)
    ensures (forall s: State<V> :: Reached(c, s) ==> AllHeard(s)) <==> !(c.greedy && c.timed)
  {
    if c.greedy && c.timed {
      LostWakeup(v);
    } else {
      forall s: State<V> | Reached(c, s)
        ensures AllHeard(s)
      {
        var run :| Ends(c, run, s);
        RunHeard(c, run, |run| - 1);
      }
    }
  }
}
