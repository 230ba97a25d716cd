// lib/core/ogs-queue.c: what every run of the queue's threads keeps.
module QueueProof {
  import opened Prelude
  import opened QueueRing
  import opened QueueSpec
  import opened QueueRun

  // ---------- Counting threads ----------

  datatype Phase = Sleeper | Woken | Late | Back | BackLate | Told

  datatype Role = Role(side: Side, phase: Phase)

  function RoleOf<V>(pc: Pc<V>): Option<Role> {
    match pc
    case Asleep(op) => Some(Role(op.Of(), Sleeper))
    case Awake(op, late) => Some(Role(op.Of(), if late then Late else Woken))
    case Resumed(op, late) => Some(Role(op.Of(), if late then BackLate else Back))
    case Changed(op, _) => Some(Role(op.Of(), Told))
    case _ => None
  }

  function Is<V>(pc: Pc<V>, role: Role): nat { if RoleOf(pc) == Some(role) then 1 else 0 }

  function Count<V>(threads: seq<Pc<V>>, role: Role): nat {
    if threads == [] then 0 else Is(threads[0], role) + Count(threads[1..], role)
  }

  lemma {:induction false} CountAt<V>(threads: seq<Pc<V>>, t: nat, pc: Pc<V>, role: Role)
    requires t < |threads|
    ensures Count(threads[t := pc], role) == Count(threads, role) - Is(threads[t], role) + Is(pc, role)
    decreases t
  {
    var us := threads[t := pc];
    if t == 0 {
      assert us[1..] == threads[1..];
    } else {
      assert us[1..] == threads[1..][t - 1 := pc] && us[0] == threads[0];
      CountAt(threads[1..], t - 1, pc, role);
    }
  }

  lemma CountsAt<V>(threads: seq<Pc<V>>, t: nat, pc: Pc<V>)
    requires t < |threads|
    ensures forall role :: Count(threads[t := pc], role) == Count(threads, role) - Is(threads[t], role) + Is(pc, role)
  {
    forall role
      ensures Count(threads[t := pc], role) == Count(threads, role) - Is(threads[t], role) + Is(pc, role)
    {
      CountAt(threads, t, pc, role);
    }
  }

  // A thread is counted in its role.
  lemma {:induction false} CountsOne<V>(threads: seq<Pc<V>>, t: nat, role: Role)
    requires t < |threads| && RoleOf(threads[t]) == Some(role)
    ensures Count(threads, role) > 0
    decreases t
  {
    if t == 0 {
    } else {
      CountsOne(threads[1..], t - 1, role);
    }
  }

  lemma {:induction false} Counted<V>(threads: seq<Pc<V>>, role: Role) returns (t: nat)
    requires Count(threads, role) > 0
    ensures t < |threads| && RoleOf(threads[t]) == Some(role)
  {
    if Is(threads[0], role) > 0 {
      t := 0;
    } else {
      t := Counted(threads[1..], role);
      t := t + 1;
    }
  }

  function BroadcastCount<V>(threads: seq<Pc<V>>, side: Side, role: Role): nat {
    if role == Role(side, Sleeper) then 0
    else if role == Role(side, Woken) then Count(threads, role) + Count(threads, Role(side, Sleeper))
    else Count(threads, role)
  }

  lemma {:induction false} CountBroadcast<V>(threads: seq<Pc<V>>, side: Side, role: Role)
    ensures Count(Broadcast(threads, side), role) == BroadcastCount(threads, side, role)
    decreases threads
  {
    if threads == [] {
    } else {
      CountBroadcast(threads[1..], side, role);
      assert Broadcast(threads, side)[1..] == Broadcast(threads[1..], side);
    }
  }

  lemma CountsBroadcast<V>(threads: seq<Pc<V>>, side: Side)
    ensures forall role :: Count(Broadcast(threads, side), role) == BroadcastCount(threads, side, role)
  {
    forall role
      ensures Count(Broadcast(threads, side), role) == BroadcastCount(threads, side, role)
    {
      CountBroadcast(threads, side, role);
    }
  }

  // ---------- The invariant ----------

  ghost predicate Exclusive<V>(s: State<V>) {
    && (s.holder.Some? ==> s.holder.value < |s.threads|)
    && forall t :: 0 <= t < |s.threads| ==> (Holds(s.threads[t]) <==> s.holder == Some(t))
  }

  ghost function Waiting<V>(threads: seq<Pc<V>>, side: Side): nat {
    Count(threads, Role(side, Sleeper)) + Count(threads, Role(side, Woken)) + Count(threads, Role(side, Late))
      + Count(threads, Role(side, Back)) + Count(threads, Role(side, BackLate))
  }

  // The threads that are bound to look at the queue or to signal for this side.
  ghost function Alert<V>(threads: seq<Pc<V>>, side: Side): nat {
    Count(threads, Role(side, Woken)) + Count(threads, Role(side, Back)) + Count(threads, Role(Other(side), Told))
  }

  // No lost wakeup: while a thread of this side sleeps, there is no more room for its side than
  // threads already on their way to it.
  ghost predicate Heard<V>(s: State<V>, side: Side) {
    Count(s.threads, Role(side, Sleeper)) > 0 ==> s.core.Room(side) <= Alert(s.threads, side)
  }

  ghost predicate SideInv<V>(s: State<V>, side: Side) {
    && s.core.Waiters(side) == Waiting(s.threads, side)
    && (side in s.swept ==> s.core.terminated && Count(s.threads, Role(side, Sleeper)) == 0)
  }

  ghost predicate Fifo<V>(s: State<V>) {
    s.core.Valid() && s.pushed == s.popped + s.core.ring.Contents()
  }

  ghost predicate Inv<V>(s: State<V>) {
    Fifo(s) && Exclusive(s) && SideInv(s, Pushers) && SideInv(s, Poppers)
  }

  ghost predicate AllHeard<V>(s: State<V>) { Heard(s, Pushers) && Heard(s, Poppers) }

  lemma {:induction false} NoneCounted<V>(threads: seq<Pc<V>>, role: Role)
    requires forall t :: 0 <= t < |threads| ==> threads[t] == Out(Ok)
    ensures Count(threads, role) == 0
  {
    if Count(threads, role) > 0 {
      var t := Counted(threads, role);
    }
  }

  lemma InitInv<V>(s: State<V>)
    requires Init(s)
    ensures Inv(s) && AllHeard(s)
  {
    forall role
      ensures Count(s.threads, role) == 0
    {
      NoneCounted(s.threads, role);
    }
  }

  // ---------- Steps ----------

  lemma FifoChange<V>(s: State<V>, t: nat, op: Op<V>, core: Core<V>)
    requires Fifo(s) && t < |s.threads| && core.ring == s.core.ring && !core.Blocked(op.Of())
    ensures Fifo(Settle(s, t, op, core.Change(op)))
  {
    var ring := s.core.ring;
    match op {
      case Push(data, _) =>
        PutAppends(ring, data);
      case Pop(_) =>
        TakeDrops(ring);
        assert s.popped + ([ring.data[ring.out]] + ring.Take().Contents()) == s.popped + [ring.data[ring.out]] + ring.Take().Contents();
    }
  }

  lemma FifoKept<V>(c: Config, s: State<V>, step: Step<V>)
    requires Inv(s) && Enabled(c, s, step)
    ensures Fifo(After(s, step))
  {
    if step.Act? {
      match s.threads[step.t]
      case Testing(op) =>
        if !s.core.Blocked(op.Of()) { FifoChange(s, step.t, op, s.core); }
      case Resumed(op, late) =>
        var core := s.core.AddWaiter(op.Of(), -1);
        if !late && !core.Blocked(op.Of()) { FifoChange(s, step.t, op, core); }
      case _ =>
    }
  }

  // Waking a thread does not give it the mutex.
  lemma OthersHold<V>(s: State<V>, step: Step<V>, x: nat)
    requires s.core.Valid() && step.t < |s.threads| && x < |s.threads| && x != step.t
    ensures Holds(After(s, step).threads[x]) == Holds(s.threads[x])
  {
    hide Ring.Valid, Core.Enter, Core.Resume;
  }

  lemma OwnHolds<V>(c: Config, s: State<V>, step: Step<V>)
    requires s.core.Valid() && Exclusive(s) && Enabled(c, s, step)
    ensures var t, u := step.t, After(s, step);
      && (Holds(u.threads[t]) <==> u.holder == Some(t))
      && (u.holder != s.holder ==> (s.holder == None || s.holder == Some(t)) && (u.holder == None || u.holder == Some(t)))
  {
    hide Ring.Valid, Core.Enter, Core.Resume;
    assert Holds(s.threads[step.t]) <==> s.holder == Some(step.t);
  }

  lemma ExclusiveKept<V>(c: Config, s: State<V>, step: Step<V>)
    requires Inv(s) && Enabled(c, s, step)
    ensures Exclusive(After(s, step))
  {
    OwnHolds(c, s, step);
    hide After, Enabled, Holds;
    forall x | 0 <= x < |s.threads| && x != step.t
      ensures Holds(After(s, step).threads[x]) == Holds(s.threads[x])
    {
      OthersHold(s, step, x);
    }
  }

  // A step that only moves its own thread.
  predicate Alone<V>(s: State<V>, step: Step<V>)
    requires step.t < |s.threads|
  {
    step.Act? ==> !s.threads[step.t].Changed? && !s.threads[step.t].Waking?
  }

  lemma CountsAlone<V>(c: Config, s: State<V>, step: Step<V>)
    requires Inv(s) && Enabled(c, s, step) && Alone(s, step)
    ensures var t, u := step.t, After(s, step);
      forall role :: Count(u.threads, role) == Count(s.threads, role) - Is(s.threads[t], role) + Is(u.threads[t], role)
  {
    var t, u := step.t, After(s, step);
    CountsAt(s.threads, t, u.threads[t]);
    assert u.threads == s.threads[t := u.threads[t]];
  }

  // A step on which its thread looks at the queue.
  predicate Looks<V>(s: State<V>, step: Step<V>)
    requires step.t < |s.threads|
  {
    step.Act? && (s.threads[step.t].Testing? || s.threads[step.t].Resumed?)
  }

  // The roles between which a thread moves while it does not look at the queue.
  predicate Shifts(a: Option<Role>, b: Option<Role>, snatch: bool) {
    if a == None || b == None then a == b
    else b.value.side == a.value.side && PhaseShifts(a.value.phase, b.value.phase, snatch)
  }

  predicate PhaseShifts(a: Phase, b: Phase, snatch: bool) {
    || (a == Sleeper && (b == Woken || b == Late))
    || (a == Woken && b == if snatch then Late else Back)
    || (a == Late && b == BackLate)
  }

  lemma MovesAre<V>(c: Config, s: State<V>, step: Step<V>)
    requires Inv(s) && Enabled(c, s, step) && Alone(s, step) && !Looks(s, step)
    ensures var t, u := step.t, After(s, step);
      && u.core.ring == s.core.ring && u.core.fullWaiters == s.core.fullWaiters && u.core.emptyWaiters == s.core.emptyWaiters
      && (s.core.terminated ==> u.core.terminated) && u.swept == s.swept
      && Shifts(RoleOf(s.threads[t]), RoleOf(u.threads[t]), step.Snatch?)
  {
  }

  lemma SideMoves<V>(c: Config, s: State<V>, step: Step<V>, side: Side)
    requires Inv(s) && Enabled(c, s, step) && Alone(s, step) && !Looks(s, step)
    ensures SideInv(After(s, step), side)
  {
    hide After, Enabled, Alone, Looks, Exclusive, Fifo, Count, RoleOf;
    CountsAlone(c, s, step);
    MovesAre(c, s, step);
  }

  lemma SettleCounts<V>(s: State<V>, t: nat, op: Op<V>, r: (Core<V>, Outcome<V>))
    requires t < |s.threads|
    ensures var u := Settle(s, t, op, r);
      && u.core == r.0 && u.swept == s.swept
      && forall role :: Count(u.threads, role) == Count(s.threads, role) - Is(s.threads[t], role) + Is(Landing(op, r.1), role)
  {
    CountsAt(s.threads, t, Landing(op, r.1));
  }

  lemma SideTests<V>(s: State<V>, t: nat, w: nat, side: Side)
    requires Inv(s) && t < |s.threads| && s.threads[t].Testing?
    ensures SideInv(Acted(s, t, w), side)
  {
    hide Count, Exclusive, Fifo, Acted, Settle, Core.Enter, Core.Valid;
    var op := s.threads[t].op;
    ActsTesting(s, t, w);
    SettleCounts(s, t, op, s.core.Enter(op));
    EnterIs(s.core, op);
  }

  lemma SideResumes<V>(s: State<V>, t: nat, w: nat, side: Side)
    requires Inv(s) && t < |s.threads| && s.threads[t].Resumed?
    ensures SideInv(Acted(s, t, w), side)
  {
    hide Count, Exclusive, Fifo, Acted, Settle, Core.Resume, Core.Valid;
    var pc := s.threads[t];
    ActsResumed(s, t, w);
    SettleCounts(s, t, pc.op, s.core.Resume(pc.op, pc.late));
    ResumeIs(s.core, pc.op, pc.late);
  }

  lemma ActsTesting<V>(s: State<V>, t: nat, w: nat)
    requires Inv(s) && t < |s.threads| && s.threads[t].Testing?
    ensures s.core.Valid() && Acted(s, t, w) == Settle(s, t, s.threads[t].op, s.core.Enter(s.threads[t].op))
  {
  }

  lemma ActsResumed<V>(s: State<V>, t: nat, w: nat)
    requires Inv(s) && t < |s.threads| && s.threads[t].Resumed?
    ensures var pc := s.threads[t];
      s.core.Valid() && s.core.Waiters(pc.op.Of()) > 0 && Acted(s, t, w) == Settle(s, t, pc.op, s.core.Resume(pc.op, pc.late))
  {
    ResumedWaits(s, t);
  }

  lemma ResumedWaits<V>(s: State<V>, t: nat)
    requires Inv(s) && t < |s.threads| && s.threads[t].Resumed?
    ensures s.core.Waiters(s.threads[t].op.Of()) > 0
  {
    CountsOne(s.threads, t, RoleOf(s.threads[t]).value);
    assert SideInv(s, s.threads[t].op.Of());
  }

  lemma HeardMoves<V>(c: Config, s: State<V>, step: Step<V>, side: Side)
    requires Inv(s) && AllHeard(s) && Enabled(c, s, step) && Alone(s, step) && !Looks(s, step) && !step.Snatch?
    ensures Heard(After(s, step), side)
  {
    hide After, Enabled, Alone, Looks, Exclusive, Fifo, SideInv, Count, RoleOf;
    CountsAlone(c, s, step);
    MovesAre(c, s, step);
  }

  lemma HeardTests<V>(s: State<V>, t: nat, w: nat, side: Side)
    requires Inv(s) && AllHeard(s) && t < |s.threads| && s.threads[t].Testing?
    ensures Heard(Acted(s, t, w), side)
  {
    hide Count, Exclusive, Fifo, Acted, Settle, Core.Enter, Core.Valid;
    var op := s.threads[t].op;
    ActsTesting(s, t, w);
    SettleCounts(s, t, op, s.core.Enter(op));
    EnterIs(s.core, op);
  }

  lemma HeardResumes<V>(s: State<V>, t: nat, w: nat, side: Side)
    requires Inv(s) && AllHeard(s) && t < |s.threads| && s.threads[t].Resumed?
    ensures Heard(Acted(s, t, w), side)
  {
    hide Count, Exclusive, Fifo, Acted, Settle, Core.Resume, Core.Valid;
    var pc := s.threads[t];
    ActsResumed(s, t, w);
    SettleCounts(s, t, pc.op, s.core.Resume(pc.op, pc.late));
    ResumeIs(s.core, pc.op, pc.late);
  }

  // ---------- Signals ----------

  lemma SignalCounts<V>(s: State<V>, t: nat, w: nat)
    requires t < |s.threads| && s.threads[t].Changed? && w < |s.threads|
    requires Sleeping(s.threads[w], Other(s.threads[t].op.Of())) && s.core.Valid() && s.core.Waiters(Other(s.threads[t].op.Of())) > 0
    ensures var u, side := Acted(s, t, w), s.threads[t].op.Of();
      && u.core == s.core && u.swept == s.swept
      && forall role :: Count(u.threads, role) == Count(s.threads, role) - Same(role, Role(side, Told))
           - Same(role, Role(Other(side), Sleeper)) + Same(role, Role(Other(side), Woken))
  {
    var pc := s.threads[t];
    var us := s.threads[w := Awake(s.threads[w].op, false)];
    CountsAt(s.threads, w, us[w]);
    CountsAt(us, t, Leaving(pc.res));
    assert Acted(s, t, w).threads == us[t := Leaving(pc.res)];
  }

  lemma SomebodySleeps<V>(s: State<V>, side: Side)
    ensures Count(s.threads, Role(side, Sleeper)) == 0 || exists x :: 0 <= x < |s.threads| && Sleeping(s.threads[x], side)
  {
    if Count(s.threads, Role(side, Sleeper)) > 0 {
      var x := Counted(s.threads, Role(side, Sleeper));
      assert Sleeping(s.threads[x], side);
    }
  }

  function Same(a: Role, b: Role): nat { if a == b then 1 else 0 }

  // A signal wakes one thread of the other side, unless none sleeps.
  lemma SignalIs<V>(c: Config, s: State<V>, t: nat, w: nat) returns (woke: nat)
    requires Inv(s) && Enabled(c, s, Act(t, w)) && s.threads[t].Changed?
    ensures var u, side := Acted(s, t, w), s.threads[t].op.Of();
      && u.core == s.core && u.swept == s.swept
      && (woke == 1 || (woke == 0 && Count(s.threads, Role(Other(side), Sleeper)) == 0))
      && forall role :: Count(u.threads, role) == Count(s.threads, role) - Same(role, Role(side, Told))
           - woke * Same(role, Role(Other(side), Sleeper)) + woke * Same(role, Role(Other(side), Woken))
  {
    var pc, signalled := s.threads[t], Other(s.threads[t].op.Of());
    CountsOne(s.threads, t, Role(pc.op.Of(), Told));
    if w < |s.threads| && Sleeping(s.threads[w], signalled) {
      SleeperWaits(s, w, signalled);
      SignalCounts(s, t, w);
      woke := 1;
    } else {
      SomebodySleeps(s, signalled);
      SignalsNobody(s, t, w);
      woke := 0;
    }
  }

  lemma SleeperWaits<V>(s: State<V>, w: nat, side: Side)
    requires Inv(s) && w < |s.threads| && Sleeping(s.threads[w], side)
    ensures s.core.Waiters(side) > 0 && Count(s.threads, Role(side, Sleeper)) > 0
  {
    CountsOne(s.threads, w, Role(side, Sleeper));
    assert SideInv(s, side);
  }

  lemma SignalsNobody<V>(s: State<V>, t: nat, w: nat)
    requires s.core.Valid() && t < |s.threads| && s.threads[t].Changed?
    requires w < |s.threads| ==> !Sleeping(s.threads[w], Other(s.threads[t].op.Of()))
    ensures var u := Acted(s, t, w);
      && u.core == s.core && u.swept == s.swept
      && forall role :: Count(u.threads, role) == Count(s.threads, role) - Same(role, Role(s.threads[t].op.Of(), Told))
  {
    var pc := s.threads[t];
    CountsAt(s.threads, t, Leaving(pc.res));
    assert Acted(s, t, w).threads == s.threads[t := Leaving(pc.res)];
  }

  lemma SignalSide<V>(c: Config, s: State<V>, t: nat, w: nat, side: Side)
    requires Inv(s) && Enabled(c, s, Act(t, w)) && s.threads[t].Changed?
    ensures SideInv(Acted(s, t, w), side)
  {
    hide Enabled, Sleeping, Other, Core.Waiters;
    var woke := SignalIs(c, s, t, w);
    hide Count, Exclusive, Fifo, Enabled, Acted;
  }

  lemma SignalHeard<V>(c: Config, s: State<V>, t: nat, w: nat, side: Side)
    requires Inv(s) && AllHeard(s) && Enabled(c, s, Act(t, w)) && s.threads[t].Changed?
    ensures Heard(Acted(s, t, w), side)
  {
    var woke := SignalIs(c, s, t, w);
    hide Count, Exclusive, Fifo, Enabled, Acted;
  }

  lemma WakingCounts<V>(threads: seq<Pc<V>>, t: nat, side: Side, pc: Pc<V>)
    requires t < |threads| && threads[t].Waking? && RoleOf(pc) == None
    ensures forall role :: Count(Broadcast(threads, side)[t := pc], role) == BroadcastCount(threads, side, role)
  {
    CountsBroadcast(threads, side);
    CountsAt(Broadcast(threads, side), t, pc);
  }

  lemma WakingIs<V>(s: State<V>, t: nat, w: nat)
    requires Inv(s) && t < |s.threads| && s.threads[t].Waking?
    ensures var u, side := Acted(s, t, w), s.threads[t].side;
      && u.core == s.core && u.swept == (if s.core.terminated then s.swept + {side} else s.swept)
      && forall role :: Count(u.threads, role) == BroadcastCount(s.threads, side, role)
  {
    var side, term := s.threads[t].side, s.threads[t].term;
    assert Acted(s, t, w) == Wakes(s, t, side, term);
    hide Acted, Inv, Count, BroadcastCount, Broadcast;
    WakingCounts(s.threads, t, side, if side == Poppers then Waking(Pushers, term) else Leaving(if term then Ended else Ok));
  }

  lemma WakingSide<V>(s: State<V>, t: nat, w: nat, side: Side)
    requires Inv(s) && t < |s.threads| && s.threads[t].Waking?
    ensures SideInv(Acted(s, t, w), side)
  {
    WakingIs(s, t, w);
    hide Count, Exclusive, Fifo, Acted;
  }

  lemma WakingHeard<V>(s: State<V>, t: nat, w: nat, side: Side)
    requires Inv(s) && AllHeard(s) && t < |s.threads| && s.threads[t].Waking?
    ensures Heard(Acted(s, t, w), side)
  {
    WakingIs(s, t, w);
    hide Count, Exclusive, Fifo, Acted;
  }

  lemma SideKept<V>(c: Config, s: State<V>, step: Step<V>, side: Side)
    requires Inv(s) && Enabled(c, s, step)
    ensures SideInv(After(s, step), side)
  {
    var pc := s.threads[step.t];
    hide Acted, Enabled, Inv, SideInv;
    if !Alone(s, step) {
      if pc.Changed? { SignalSide(c, s, step.t, step.w, side); } else { WakingSide(s, step.t, step.w, side); }
    } else if Looks(s, step) {
      if pc.Testing? { SideTests(s, step.t, step.w, side); } else { SideResumes(s, step.t, step.w, side); }
    } else {
      SideMoves(c, s, step, side);
    }
  }

  lemma HeardKept<V>(c: Config, s: State<V>, step: Step<V>, side: Side)
    requires Inv(s) && AllHeard(s) && Enabled(c, s, step) && !step.Snatch?
    ensures Heard(After(s, step), side)
  {
    var pc := s.threads[step.t];
    hide Acted, Enabled, Inv, Heard;
    if !Alone(s, step) {
      if pc.Changed? { SignalHeard(c, s, step.t, step.w, side); } else { WakingHeard(s, step.t, step.w, side); }
    } else if Looks(s, step) {
      if pc.Testing? { HeardTests(s, step.t, step.w, side); } else { HeardResumes(s, step.t, step.w, side); }
    } else {
      HeardMoves(c, s, step, side);
    }
  }

  lemma InvKept<V>(c: Config, s: State<V>, step: Step<V>)
    requires Inv(s) && Enabled(c, s, step)
    ensures Inv(After(s, step))
  {
    FifoKept(c, s, step);
    ExclusiveKept(c, s, step);
    SideKept(c, s, step, Pushers);
    SideKept(c, s, step, Poppers);
  }
}
