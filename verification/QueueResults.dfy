// lib/core/ogs-queue.c: what the result of a call says about what the call did.
module QueueResults {
  import opened Prelude
  import opened QueueRing
  import opened QueueSpec
  import opened QueueRun
  import opened QueueProof
  import opened QueueLaws
  import opened QueueEnd

  // ---------- One section of the code ----------

  // A thread is about to run its section: to test the queue, for the first time or after a wait.
  predicate AtSection<V>(pc: Pc<V>) { pc.Testing? || pc.Resumed? }

  // The section of a push stores its element, or a pop takes one, exactly when it lands with Ok, or
  // with that element.  It does so if and only if the queue can take the operation and no timeout
  // was reported.  A call that the queue cannot take answers Retry, without a timeout, and leaves it
  // as it was; otherwise it waits, and gives up after that or when the queue is terminated.
  lemma SectionTells<V>(c: Config, s: State<V>, step: Step<V>, op: Op<V>)
    requires Inv(s) && Enabled(c, s, step) && step.Act? && AtSection(s.threads[step.t]) && s.threads[step.t].op == op
    ensures var u, was, pc := After(s, step), s.threads[step.t], After(s, step).threads[step.t];
      && (op.Push? ==> u.popped == s.popped && (pc == Changed(op, Ok) <==> u.pushed == s.pushed + [op.data])
                       && (pc != Changed(op, Ok) ==> u.pushed == s.pushed))
      && (op.Pop? ==> u.pushed == s.pushed && (forall v :: pc == Changed(op, Value(v)) <==> u.popped == s.popped + [v])
                      && (!pc.Changed? ==> u.popped == s.popped))
      && (pc.Changed? <==> !s.core.Blocked(op.Of()) && !(was.Resumed? && was.late))
      && (was.Testing? && s.core.Blocked(op.Of()) && op.wait == Try ==> u.core == s.core && pc == Leaving(Retry))
      && (was.Testing? && s.core.Blocked(op.Of()) && op.wait != Try ==> pc == if s.core.terminated then Leaving(Failed) else Asleep(op))
      && (was.Resumed? && was.late ==> pc == Leaving(TimeUp))
      && (was.Resumed? && !was.late && s.core.Blocked(op.Of()) ==> pc == Leaving(Failed))
  {
    hide Ring.Contents, Ring.Valid, Exclusive, SideInv, Fifo;
    assert forall v :: (s.popped + [v])[|s.popped|] == v;
  }

  // ---------- One call in a run ----------

  // What the result of op tells, when puts and gets are what the call has stored and taken.
  ghost predicate Truth<V>(op: Op<V>, res: Result<V>, puts: seq<V>, gets: seq<V>) {
    && res != Ended
    && (op.Push? ==> gets == [] && !res.Value? && puts == if res == Ok then [op.data] else [])
    && (op.Pop? ==> puts == [] && res != Ok && gets == if res.Value? then [res.v] else [])
    && (res == Retry ==> op.wait == Try) && (res == TimeUp ==> op.wait == Timed) && (res == Failed ==> op.wait != Try)
  }

  // How far a call of op has come.
  ghost predicate Within<V>(op: Op<V>, pc: Pc<V>, puts: seq<V>, gets: seq<V>) {
    match pc
    case Out(res) => Truth(op, res, puts, gets)
    case Entering(o) => o == op && puts == gets == []
    case Testing(o) => o == op && puts == gets == []
    case Asleep(o) => o == op && puts == gets == [] && op.wait != Try
    case Awake(o, late) => o == op && puts == gets == [] && op.wait != Try && (late ==> op.wait == Timed)
    case Resumed(o, late) => o == op && puts == gets == [] && op.wait != Try && (late ==> op.wait == Timed)
    case Changed(o, res) => o == op && (res == Ok || res.Value?) && Truth(op, res, puts, gets)
    case Leaving(res) => res != Done && Truth(op, res, puts, gets)
    case Unlocked => puts == gets == [] && op.wait != Try
    case _ => false
  }

  // What a step put into the queue, or took out, when thread x held the mutex.
  function Puts<V>(s: State<V>, u: State<V>, x: nat): seq<V> {
    if s.holder == Some(x) && |s.pushed| <= |u.pushed| then u.pushed[|s.pushed|..] else []
  }

  function Gets<V>(s: State<V>, u: State<V>, x: nat): seq<V> {
    if s.holder == Some(x) && |s.popped| <= |u.popped| then u.popped[|s.popped|..] else []
  }

  // What thread x stored and took between two states of a run.
  function Stored<V>(run: seq<State<V>>, x: nat, i: nat, j: nat): seq<V>
    requires i <= j < |run|
    decreases j
  {
    if i == j then [] else Stored(run, x, i, j - 1) + Puts(run[j - 1], run[j], x)
  }

  function Taken<V>(run: seq<State<V>>, x: nat, i: nat, j: nat): seq<V>
    requires i <= j < |run|
    decreases j
  {
    if i == j then [] else Taken(run, x, i, j - 1) + Gets(run[j - 1], run[j], x)
  }

  // A step of another thread leaves a call where it is, or wakes it.
  lemma OthersTell<V>(c: Config, s: State<V>, step: Step<V>, x: nat, op: Op<V>, puts: seq<V>, gets: seq<V>)
    requires Inv(s) && Enabled(c, s, step) && x < |s.threads| && x != step.t && Within(op, s.threads[x], puts, gets)
    ensures var u := After(s, step); Within(op, u.threads[x], puts + Puts(s, u, x), gets + Gets(s, u, x))
  {
    var u := After(s, step);
    OtherPc(s, step, x);
    NotHolding(c, s, step, x);
    assert puts + [] == puts && gets + [] == gets;
  }

  // What a thread stores and takes, it does under the mutex.
  lemma NotHolding<V>(c: Config, s: State<V>, step: Step<V>, x: nat)
    requires Inv(s) && Enabled(c, s, step) && x != step.t
    ensures Puts(s, After(s, step), x) == [] && Gets(s, After(s, step), x) == []
  {
    hide Ring.Valid, Core.Enter, Core.Resume, SideInv, Fifo;
  }

  // A step of the thread itself.
  lemma OwnTells<V>(c: Config, s: State<V>, step: Step<V>, op: Op<V>, puts: seq<V>, gets: seq<V>)
    requires Inv(s) && Enabled(c, s, step) && !s.threads[step.t].Out? && Within(op, s.threads[step.t], puts, gets)
    ensures var u, t := After(s, step), step.t; Within(op, u.threads[t], puts + Puts(s, u, t), gets + Gets(s, u, t))
  {
    hide Ring.Valid, SideInv, Fifo, Signal, Broadcast;
    assert puts + [] == puts && gets + [] == gets;
  }

  // A thread woken up learns from its result whether the queue is terminated.
  lemma EndTells<V>(c: Config, s: State<V>, step: Step<V>, op: Op<V>, puts: seq<V>, gets: seq<V>)
    requires Inv(s) && Enabled(c, s, step) && !s.threads[step.t].Out? && Within(op, s.threads[step.t], puts, gets)
    ensures After(s, step).threads[step.t] == Out(Done) ==> s.core.terminated
    ensures After(s, step).threads[step.t] == Out(Failed) ==> !s.core.terminated
  {
    hide Ring.Valid, SideInv, Fifo, Signal, Broadcast;
  }

  // Thread x calls op in state i and is outside again, with the result of the call, in state j.
  ghost predicate Called<V(!new)>(c: Config, run: seq<State<V>>, x: nat, op: Op<V>, i: nat, j: nat) {
    && Run(c, run) && i < j < |run| && x < |run[i].threads| && x < |run[j].threads|
    && run[i].core.Valid() && Enabled(c, run[i], Call(x, op)) && run[i + 1] == After(run[i], Call(x, op))
    && (forall k :: i < k < j ==> x < |run[k].threads| && !run[k].threads[x].Out?) && run[j].threads[x].Out?
  }

  lemma {:induction false} CallGoes<V(!new)>(c: Config, run: seq<State<V>>, x: nat, op: Op<V>, i: nat, j: nat, k: nat)
    requires Called(c, run, x, op, i, j) && i < k <= j
    ensures x < |run[k].threads| && Within(op, run[k].threads[x], Stored(run, x, i, k), Taken(run, x, i, k))
    ensures k == j ==> (run[k].threads[x] == Out(Done) ==> run[k - 1].core.terminated)
    ensures k == j ==> (run[k].threads[x] == Out(Failed) ==> !run[k - 1].core.terminated)
    decreases k
  {
    hide Inv, Within, Enabled, After, Run, Puts, Gets, Called, Truth;
    Inside(c, run, x, op, i, j, k - 1);
    RunInv(c, run, k - 1);
    if k == i + 1 {
      CallStarts(run[i], x, op);
      assert Stored(run, x, i, i) == [] && Taken(run, x, i, i) == [];
    } else {
      CallGoes(c, run, x, op, i, j, k - 1);
      var step := StepOf(c, run, k - 1);
      CallStep(c, run[k - 1], step, x, op, Stored(run, x, i, k - 1), Taken(run, x, i, k - 1));
    }
  }

  // Between the call and its return the thread is inside.
  lemma Inside<V(!new)>(c: Config, run: seq<State<V>>, x: nat, op: Op<V>, i: nat, j: nat, k: nat)
    requires Called(c, run, x, op, i, j) && i <= k < j
    ensures Run(c, run) && j < |run| && x < |run[k].threads| && run[k].core.Valid() && (i < k ==> !run[k].threads[x].Out?)
    ensures k == i ==> Enabled(c, run[k], Call(x, op)) && run[k + 1] == After(run[k], Call(x, op))
  {
    RunInv(c, run, k);
    hide After, Enabled, Run;
  }

  lemma CallStep<V>(c: Config, s: State<V>, step: Step<V>, x: nat, op: Op<V>, puts: seq<V>, gets: seq<V>)
    requires Inv(s) && s.core.Valid() && Enabled(c, s, step) && x < |s.threads| && !s.threads[x].Out? && Within(op, s.threads[x], puts, gets)
    ensures var u := After(s, step); x < |u.threads| && Within(op, u.threads[x], puts + Puts(s, u, x), gets + Gets(s, u, x))
    ensures After(s, step).threads[x] == Out(Done) ==> s.core.terminated
    ensures After(s, step).threads[x] == Out(Failed) ==> !s.core.terminated
  {
    assert step.t < |s.threads|;
    hide Inv, Within, Enabled, Puts, Gets, After;
    if step.t == x {
      OwnTells(c, s, step, op, puts, gets);
      EndTells(c, s, step, op, puts, gets);
    } else {
      OthersTell(c, s, step, x, op, puts, gets);
      OtherPc(s, step, x);
    }
  }

  lemma CallStarts<V>(s: State<V>, x: nat, op: Op<V>)
    requires Inv(s) && x < |s.threads|
    ensures var u := After(s, Call(x, op));
      && Within(op, u.threads[x], [] + Puts(s, u, x), [] + Gets(s, u, x))
      && (u.threads[x].Out? ==> u.threads[x] == Out(Done) && s.core.terminated)
  {
    hide Inv;
  }

  // In every run the result of a call tells what it did, whatever other threads did meanwhile: a
  // push has stored its element if and only if it answers Ok, a pop has taken v if and only if it
  // answers with v, and neither has done anything else.  Retry is for calls without a timeout,
  // TimeUp for those with a positive one; Done means that the queue was terminated when the call
  // returned, and Failed that it was not.
  lemma CallTells<V(!new)>(c: Config, run: seq<State<V>>, x: nat, op: Op<V>, i: nat, j: nat)
    requires Called(c, run, x, op, i, j)
    ensures var res := run[j].threads[x].res;
      && Truth(op, res, Stored(run, x, i, j), Taken(run, x, i, j))
      && (res == Done ==> run[j - 1].core.terminated) && (res == Failed ==> !run[j - 1].core.terminated)
  {
    CallGoes(c, run, x, op, i, j, j);
  }

  ghost predicate Told<V>(pc: Pc<V>, res: Result<V>) {
    (pc.Changed? && pc.res == res) || pc == Leaving(res) || pc == Out(res)
  }

  lemma ToldKept<V>(c: Config, s: State<V>, step: Step<V>, x: nat, res: Result<V>)
    requires s.core.Valid() && Enabled(c, s, step) && x < |s.threads| && res != Failed && Told(s.threads[x], res)
    requires !s.threads[x].Out?
    ensures x < |After(s, step).threads| && Told(After(s, step).threads[x], res)
  {
    hide Enabled;
    ResultKept(c, s, step, x, res);
    hide After;
  }

  // A result obtained in a call is the one the call returns.
  lemma {:induction false} CallKeeps<V(!new)>(c: Config, run: seq<State<V>>, x: nat, op: Op<V>, i: nat, j: nat, k: nat, m: nat, res: Result<V>)
    requires Called(c, run, x, op, i, j) && i < k <= m <= j && res != Failed
    requires x < |run[k].threads| && Told(run[k].threads[x], res)
    ensures x < |run[m].threads| && Told(run[m].threads[x], res)
    decreases m
  {
    hide After, Enabled, Run, Called, Told, Core.Valid;
    if k == m {
    } else {
      Inside(c, run, x, op, i, j, m - 1);
      CallKeeps(c, run, x, op, i, j, k, m - 1, res);
      var step := StepOf(c, run, m - 1);
      ToldKept(c, run[m - 1], step, x, res);
    }
  }

  // A call without a timeout comes to its section in state k: it answers Retry if and only if the
  // queue could not take it then, and has left it as it was.
  lemma RetryExactly<V(!new)>(c: Config, run: seq<State<V>>, x: nat, op: Op<V>, i: nat, j: nat, k: nat)
    requires Called(c, run, x, op, i, j) && op.wait == Try && i < k < j
    requires run[k].threads[x] == Testing(op) && x < |run[k + 1].threads| && run[k + 1].threads[x] != Testing(op)
    ensures run[j].threads[x] == Out(Retry) <==> run[k].core.Blocked(op.Of())
    ensures run[k].core.Blocked(op.Of()) ==> run[k + 1].core == run[k].core
  {
    hide After, Enabled, Run, Inv, Called, Core.Valid;
    Inside(c, run, x, op, i, j, k);
    RunInv(c, run, k);
    var step := StepOf(c, run, k);
    OwnStep(c, run[k], step, x, op);
    SectionTells(c, run[k], step, op);
    SectionEnds(c, run[k], step, op);
    CallKeeps(c, run, x, op, i, j, k + 1, j, if run[k].core.Blocked(op.Of()) then Retry else run[k + 1].threads[x].res);
    Inside(c, run, x, op, i, j, i);
    assert run[j].threads[x].Out? by { Returns(c, run, x, op, i, j); }
  }

  lemma Returns<V(!new)>(c: Config, run: seq<State<V>>, x: nat, op: Op<V>, i: nat, j: nat)
    requires Called(c, run, x, op, i, j)
    ensures run[j].threads[x].Out?
  {
    hide After, Enabled, Run;
  }

  lemma OwnStep<V>(c: Config, s: State<V>, step: Step<V>, x: nat, op: Op<V>)
    requires s.core.Valid() && Enabled(c, s, step) && x < |s.threads| && s.threads[x] == Testing(op)
    requires After(s, step).threads[x] != Testing(op)
    ensures step.t == x && step.Act?
  {
    assert step.t < |s.threads|;
    hide After;
    if step.t != x {
      OtherPc(s, step, x);
    }
    hide Core.Valid;
    OwnAct(c, s, step);
  }

  lemma OwnAct<V>(c: Config, s: State<V>, step: Step<V>)
    requires step.t < |s.threads| && Enabled(c, s, step) && AtSection(s.threads[step.t])
    ensures step.Act?
  {
  }

  // A section that changes the queue has Ok or the element to tell.
  lemma SectionEnds<V>(c: Config, s: State<V>, step: Step<V>, op: Op<V>)
    requires s.core.Valid() && Enabled(c, s, step) && step.Act? && AtSection(s.threads[step.t]) && s.threads[step.t].op == op
    ensures var pc := After(s, step).threads[step.t]; pc.Changed? ==> pc.op == op && (pc.res == Ok || pc.res.Value?)
  {
    hide Ring.Contents, Ring.Valid;
  }
}
