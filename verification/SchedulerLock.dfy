// Any number of schedulers contending for one session-level advisory lock.
module SchedulerLock {
  import opened Prelude

  // Active is between a granted acquire and the start of the release.
  datatype Phase = Starting | Active | Closing | Gone

  // PostgreSQL counts how often the holding session has taken the lock.
  datatype System = System(holder: Option<nat>, count: nat, phases: map<nat, Phase>)

  datatype Action =
    | Start(p: nat)
    | TryLock(p: nat, committed: bool)  // not committed: the statement ran, the commit raised
    | Unlock(p: nat, reached: bool)     // not reached: the unlock statement raised
    | Close(p: nat)
    | Lose(p: nat)                      // the server drops the session, the process lives on

  function Init(): System {
    System(None, 0, map[])
  }

  function PhaseOf(s: System, p: nat): Phase {
    if p in s.phases then s.phases[p] else Gone
  }

  function Dropped(s: System, p: nat): System {
    if s.holder == Some(p) then s.(holder := None, count := 0) else s
  }

  // An action that is not enabled changes nothing.
  function Step(s: System, a: Action): System {
    match a
    case Start(p) =>
      if p in s.phases then s else s.(phases := s.phases[p := Starting])
    case TryLock(p, committed) =>
      if PhaseOf(s, p) != Starting then s
      else
        var granted := s.holder.None? || s.holder == Some(p);
        var s' := if granted then s.(holder := Some(p), count := s.count + 1) else s;
        if !committed then s'
        else s'.(phases := s.phases[p := if granted then Active else Closing])
    case Unlock(p, reached) =>
      if PhaseOf(s, p) != Active then s
      else
        var s' := s.(phases := s.phases[p := Closing]);
        if !reached || s.holder != Some(p) then s'
        else if s.count == 1 then s'.(holder := None, count := 0)
        else s'.(count := if s.count == 0 then 0 else s.count - 1)
    case Close(p) =>
      if PhaseOf(s, p) in {Gone, Active} then s
      else Dropped(s, p).(phases := s.phases[p := Gone])
    case Lose(p) => Dropped(s, p)
  }

  function Run(s: System, actions: seq<Action>): System {
    if actions == [] then s else Step(Run(s, actions[..|actions| - 1]), actions[|actions| - 1])
  }

  // An active scheduler holds the lock, unless the server has dropped its session.
  ghost predicate Inv(s: System, actions: seq<Action>) {
    && (s.holder.Some? <==> s.count > 0)
    && (s.holder.Some? ==> PhaseOf(s, s.holder.value) != Gone)
    && forall p | p in s.phases && s.phases[p] == Active :: s.holder == Some(p) || Lose(p) in actions
  }

  lemma {:induction false} RunKeepsInv(actions: seq<Action>)
    ensures Inv(Run(Init(), actions), actions)
  {
    if actions != [] {
      var before := actions[..|actions| - 1];
      RunKeepsInv(before);
      assert forall a | a in before :: a in actions;
      assert actions[|actions| - 1] in actions;
    }
  }

  // In every run, however acquires, failed commits, failed unlocks, closings and lost
  // sessions interleave, at most one scheduler is active whose session was never lost; and
  // once every scheduler has closed its connection the lock is free, however often it was
  // taken.
  lemma AtMostOneActive(actions: seq<Action>, p: nat, q: nat)
    ensures var s := Run(Init(), actions);
            && (PhaseOf(s, p) == Active && PhaseOf(s, q) == Active && p != q ==>
                  Lose(p) in actions || Lose(q) in actions)
            && ((forall r | r in s.phases :: s.phases[r] == Gone) ==> s.holder == None)
  {
    RunKeepsInv(actions);
  }

  // Starting, Active, Closing, Gone: a process never goes back, so it is active at most once.
  function Rank(phase: Phase): nat {
    match phase
    case Starting => 0
    case Active => 1
    case Closing => 2
    case Gone => 3
  }

  lemma StepAdvances(s: System, a: Action, p: nat)
    requires p in s.phases
    ensures p in Step(s, a).phases && Rank(PhaseOf(s, p)) <= Rank(PhaseOf(Step(s, a), p))
  {
  }

  lemma {:induction false} PhasesOnlyAdvance(actions: seq<Action>, more: seq<Action>, p: nat)
    requires p in Run(Init(), actions).phases
    ensures p in Run(Init(), actions + more).phases
    ensures Rank(PhaseOf(Run(Init(), actions), p)) <= Rank(PhaseOf(Run(Init(), actions + more), p))
    decreases |more|
  {
    if more == [] {
      assert actions + more == actions;
    } else {
      var last := |more| - 1;
      PhasesOnlyAdvance(actions, more[..last], p);
      StepAdvances(Run(Init(), actions + more[..last]), more[last], p);
      RunSnoc(actions + more[..last], more[last]);
      assert actions + more == actions + more[..last] + [more[last]];
    }
  }

  // How often a process has asked for the lock.
  function Tries(actions: seq<Action>, p: nat): nat {
    if actions == [] then 0
    else
      var last := actions[|actions| - 1];
      Tries(actions[..|actions| - 1], p) + (if last.TryLock? && last.p == p then 1 else 0)
  }

  lemma {:induction false} CountIsBounded(actions: seq<Action>)
    ensures var s := Run(Init(), actions);
            s.holder.Some? ==> s.count <= Tries(actions, s.holder.value)
  {
    if actions != [] {
      CountIsBounded(actions[..|actions| - 1]);
      RunKeepsInv(actions[..|actions| - 1]);
    }
  }

  // A scheduler that asked once and releases what it holds leaves the lock free: whichever
  // of those that have connected asks next is granted it and becomes active.
  lemma ReleaseHandsOver(actions: seq<Action>, p: nat, q: nat)
    requires PhaseOf(Run(Init(), actions), p) == Active && Tries(actions, p) == 1
    requires Run(Init(), actions).holder == Some(p) && PhaseOf(Run(Init(), actions), q) == Starting
    ensures var s := Run(Init(), actions + [Unlock(p, true)]);
            && s.holder == None && PhaseOf(s, p) == Closing
            && var s' := Step(s, TryLock(q, true));
               s'.holder == Some(q) && PhaseOf(s', q) == Active
  {
    RunKeepsInv(actions);
    CountIsBounded(actions);
    RunSnoc(actions, Unlock(p, true));
  }

  // In any run, an acquire makes a second scheduler active exactly when the lock is not
  // held by a third, and then the session of every scheduler active before was lost.
  lemma SecondActiveExactlyWhen(actions: seq<Action>, p: nat, q: nat)
    requires PhaseOf(Run(Init(), actions), p) == Active && PhaseOf(Run(Init(), actions), q) == Starting
    ensures var s := Run(Init(), actions);
            var s' := Step(s, TryLock(q, true));
            && (PhaseOf(s', p) == PhaseOf(s', q) == Active <==> s.holder == None || s.holder == Some(q))
            && (PhaseOf(s', q) == Active ==> Lose(p) in actions)
  {
    RunKeepsInv(actions);
  }

  // What happens around scheduler p that p does not do itself; its session may be lost.
  ghost predicate AroundOf(p: nat, actions: seq<Action>) {
    forall a | a in actions :: a.p != p || a.Lose?
  }

  // What one process goes through: everything before its acquire, and everything around it
  // from then on, tick by tick.
  datatype Life = Life(p: nat, before: seq<Action>, around: nat -> seq<Action>)
  {
    // The process has connected, and the answer to its acquire is the one it gets.
    ghost predicate Fits(granted: bool) {
      var s := Run(Init(), before);
      && PhaseOf(s, p) == Starting && (forall n: nat :: AroundOf(p, around(n)))
      && (granted <==> s.holder == None || s.holder == Some(p))
    }
  }

  ghost predicate IsActive(history: seq<Action>, p: nat) {
    PhaseOf(Run(Init(), history), p) == Active
  }

  lemma RunSnoc(actions: seq<Action>, a: Action)
    ensures Run(Init(), actions + [a]) == Step(Run(Init(), actions), a)
  {
    assert (actions + [a])[..|actions|] == actions;
  }

  lemma AcquireActivates(life: Life, granted: bool)
    requires life.Fits(granted)
    ensures IsActive(life.before + [TryLock(life.p, true)], life.p) <==> granted
  {
    RunSnoc(life.before, TryLock(life.p, true));
  }

  // Once granted, p is active whatever happens around it.
  lemma {:induction false} StaysActive(history: seq<Action>, p: nat, more: seq<Action>)
    requires IsActive(history, p) && AroundOf(p, more)
    ensures IsActive(history + more, p)
    decreases |more|
  {
    if more == [] {
      assert history + more == history;
    } else {
      var last := |more| - 1;
      StaysActive(history, p, more[..last]);
      RunSnoc(history + more[..last], more[last]);
      assert history + more == history + more[..last] + [more[last]];
      assert more[last] in more;
    }
  }

  // The process is active, and was whenever a tick began and ended.
  ghost predicate Ticking(life: Life, history: seq<Action>, ticked: seq<seq<Action>>) {
    && life.before <= history && IsActive(history, life.p)
    && forall i | 0 <= i < |ticked| ::
         IsActive(ticked[i], life.p) && IsActive(ticked[i] + life.around(i), life.p)
  }

  lemma TickingBegins(life: Life)
    requires life.Fits(true)
    ensures Ticking(life, life.before + [TryLock(life.p, true)], [])
  {
    AcquireActivates(life, true);
  }

  lemma TickingGoesOn(life: Life, history: seq<Action>, ticked: seq<seq<Action>>)
    requires life.Fits(true) && Ticking(life, history, ticked)
    ensures Ticking(life, history + life.around(|ticked|), ticked + [history])
  {
    StaysActive(history, life.p, life.around(|ticked|));
  }

  // It has released the lock, and was active in all its ticks.
  ghost predicate HasTicked(life: Life, history: seq<Action>, ticked: seq<seq<Action>>, n: nat) {
    && life.before <= history && !IsActive(history, life.p) && n <= |ticked| <= n + 1
    && forall i | 0 <= i < |ticked| ::
         IsActive(ticked[i], life.p) && IsActive(ticked[i] + life.around(i), life.p)
  }

  lemma TickingEnds(life: Life, history: seq<Action>, ticked: seq<seq<Action>>, reached: bool, n: nat)
    requires Ticking(life, history, ticked) && n <= |ticked| <= n + 1
    ensures HasTicked(life, history + [Unlock(life.p, reached)], ticked, n)
  {
    ReleaseEnds(history, life.p, reached);
  }

  lemma ReleaseEnds(history: seq<Action>, p: nat, reached: bool)
    requires IsActive(history, p)
    ensures !IsActive(history + [Unlock(p, reached)], p)
  {
    RunSnoc(history, Unlock(p, reached));
  }

  // Taken twice by a retried acquire, the lock outlives its unlock and is freed only by
  // the close that follows.
  lemma RetriedAcquireIsFreedByClose()
    ensures var taken := [Start(0), TryLock(0, false), TryLock(0, true), Unlock(0, true)];
            Run(Init(), taken).holder == Some(0) && Run(Init(), taken + [Close(0)]).holder == None
  {
    var a := [Start(0)];
    var b := a + [TryLock(0, false)];
    var c := b + [TryLock(0, true)];
    var d := c + [Unlock(0, true)];
    assert Run(Init(), []) == Init();
    assert a[..0] == [] && Run(Init(), a) == Step(Init(), Start(0));
    assert b[..1] == a && Run(Init(), b) == Step(Run(Init(), a), TryLock(0, false));
    assert c[..2] == b && Run(Init(), c) == Step(Run(Init(), b), TryLock(0, true));
    assert d[..3] == c && Run(Init(), d) == Step(Run(Init(), c), Unlock(0, true));
    assert d == [Start(0), TryLock(0, false), TryLock(0, true), Unlock(0, true)];
    assert (d + [Close(0)])[..4] == d;
  }

  // The promise is about the lock: when the server drops a session, its scheduler stays
  // active until its next ping, and a second one may already have been granted the lock.
  lemma LostLockAllowsTwoActive()
    ensures var s := Run(Init(), [Start(0), Start(1), TryLock(0, true), Lose(0), TryLock(1, true)]);
            PhaseOf(s, 0) == Active && PhaseOf(s, 1) == Active
  {
    var a := [Start(0)];
    var b := a + [Start(1)];
    var c := b + [TryLock(0, true)];
    var d := c + [Lose(0)];
    var e := d + [TryLock(1, true)];
    assert Run(Init(), []) == Init();
    assert a[..0] == [] && Run(Init(), a) == Step(Init(), Start(0));
    assert b[..1] == a && Run(Init(), b) == Step(Run(Init(), a), Start(1));
    assert c[..2] == b && Run(Init(), c) == Step(Run(Init(), b), TryLock(0, true));
    assert d[..3] == c && Run(Init(), d) == Step(Run(Init(), c), Lose(0));
    assert e[..4] == d && Run(Init(), e) == Step(Run(Init(), d), TryLock(1, true));
    assert e == [Start(0), Start(1), TryLock(0, true), Lose(0), TryLock(1, true)];
  }
}
