// The single-active scheduler: due times, failure isolation and the life cycle of
// the lock, against an injected clock and injected actions.
module Scheduler {
  import opened Prelude
  import Lock = SchedulerLock

  datatype Spec = Spec(name: string, interval: real)

  // What one action did within one tick; `finished` is the clock reading after it.
  datatype Outcome = NotDue | Failed | Succeeded(finished: real)

  datatype Tick = Tick(start: real, outcomes: seq<Outcome>)

  // ---- Due times over whole runs -------------------------------------------------------

  // When action i last finished successfully.
  function LastSuccess(trace: seq<Tick>, i: nat): Option<real> {
    if trace == [] then None
    else
      var last := trace[|trace| - 1];
      if i < |last.outcomes| && last.outcomes[i].Succeeded? then Some(last.outcomes[i].finished)
      else LastSuccess(trace[..|trace| - 1], i)
  }

  predicate IsDue(last: Option<real>, now: real, interval: real) {
    last.None? || now - last.value >= interval
  }

  // In every tick each action is attempted exactly when it is due.
  ghost predicate Scheduled(specs: seq<Spec>, trace: seq<Tick>) {
    forall t | 0 <= t < |trace| ::
      && |trace[t].outcomes| == |specs|
      && forall i | 0 <= i < |specs| ::
           !trace[t].outcomes[i].NotDue? <==>
             IsDue(LastSuccess(trace[..t], i), trace[t].start, specs[i].interval)
  }

  // Readings of a non-decreasing clock.
  ghost predicate Timely(trace: seq<Tick>) {
    && (forall t, u | 0 <= t < u < |trace| :: trace[t].start <= trace[u].start)
    && (forall t, i | 0 <= t < |trace| && 0 <= i < |trace[t].outcomes| && trace[t].outcomes[i].Succeeded? ::
          trace[t].start <= trace[t].outcomes[i].finished)
    && (forall t, u, i | 0 <= t < u < |trace| && 0 <= i < |trace[t].outcomes| &&
                         trace[t].outcomes[i].Succeeded? ::
          trace[t].outcomes[i].finished <= trace[u].start)
  }

  ghost predicate SucceededAt(trace: seq<Tick>, t: nat, i: nat) {
    t < |trace| && i < |trace[t].outcomes| && trace[t].outcomes[i].Succeeded?
  }

  ghost predicate AttemptedAt(trace: seq<Tick>, t: nat, i: nat) {
    t < |trace| && i < |trace[t].outcomes| && !trace[t].outcomes[i].NotDue?
  }

  lemma {:induction false} LastSuccessIsSome(trace: seq<Tick>, t: nat, i: nat) returns (s: nat)
    requires SucceededAt(trace, t, i)
    ensures t <= s && SucceededAt(trace, s, i)
    ensures LastSuccess(trace, i) == Some(trace[s].outcomes[i].finished)
    decreases |trace|
  {
    var n := |trace| - 1;
    if SucceededAt(trace, n, i) {
      s := n;
    } else {
      assert trace[..n][t] == trace[t];
      s := LastSuccessIsSome(trace[..n], t, i);
      assert trace[..n][s] == trace[s];
    }
  }

  // Without a success in between, the last success stays what it was.
  lemma {:induction false} LastSuccessStays(trace: seq<Tick>, t: nat, u: nat, i: nat)
    requires t <= u <= |trace| && forall v | t <= v < u :: !SucceededAt(trace, v, i)
    ensures LastSuccess(trace[..u], i) == LastSuccess(trace[..t], i)
    decreases u
  {
    if t < u {
      LastSuccessStays(trace, t, u - 1, i);
      assert trace[..u][..u - 1] == trace[..u - 1];
      assert !SucceededAt(trace, u - 1, i);
    }
  }

  // A later attempt never starts sooner than the interval after an earlier success.
  lemma SuccessesAreSpaced(specs: seq<Spec>, trace: seq<Tick>, t: nat, u: nat, i: nat)
    requires Scheduled(specs, trace) && Timely(trace)
    requires t < u && SucceededAt(trace, t, i) && AttemptedAt(trace, u, i)
    ensures trace[u].start >= trace[t].outcomes[i].finished + specs[i].interval
  {
    var before := trace[..u];
    assert before[t] == trace[t];
    var s := LastSuccessIsSome(before, t, i);
    assert before[s] == trace[s];
    if t < s {
      assert trace[t].outcomes[i].finished <= trace[s].start <= trace[s].outcomes[i].finished;
    }
  }

  // A failed action is attempted again in the very next tick.
  lemma FailureIsRetried(specs: seq<Spec>, trace: seq<Tick>, t: nat, i: nat)
    requires Scheduled(specs, trace) && Timely(trace) && t + 1 < |trace|
    requires i < |specs| && trace[t].outcomes[i] == Failed
    ensures AttemptedAt(trace, t + 1, i)
  {
    LastSuccessStays(trace, t, t + 1, i);
    assert !trace[t].outcomes[i].NotDue? && !SucceededAt(trace, t, i);
    assert |trace[t + 1].outcomes| == |specs|;
  }

  // The first tick after a success at which the interval has passed.
  lemma FirstLateTick(trace: seq<Tick>, t: nat, v: nat, at: real) returns (u: nat)
    requires t < v < |trace| && trace[v].start >= at
    ensures t < u <= v && trace[u].start >= at
    ensures forall w | t < w < u :: trace[w].start < at
  {
    u := t + 1;
    while trace[u].start < at
      invariant t < u <= v && forall w | t < w < u :: trace[w].start < at
      decreases v - u
    {
      u := u + 1;
    }
  }

  // With tick starts at most d apart, the next attempt after a success starts within
  // the interval plus d, and not before the interval has passed.
  lemma NextAttemptIsPrompt(specs: seq<Spec>, trace: seq<Tick>, t: nat, i: nat, v: nat, d: real)
    returns (u: nat)
    requires Scheduled(specs, trace) && Timely(trace) && SucceededAt(trace, t, i)
    requires specs[i].interval >= 0.0
    requires forall w | 0 <= w < |trace| - 1 :: trace[w + 1].start - trace[w].start <= d
    requires t < v < |trace| && trace[v].start >= trace[t].outcomes[i].finished + specs[i].interval
    ensures t < u <= v && AttemptedAt(trace, u, i)
    ensures forall w | t < w < u :: !AttemptedAt(trace, w, i)
    ensures var due := trace[t].outcomes[i].finished + specs[i].interval;
            due <= trace[u].start <= due + d
  {
    var finished := trace[t].outcomes[i].finished;
    var due := finished + specs[i].interval;
    u := FirstLateTick(trace, t, v, due);
    forall w | t < w < u ensures !AttemptedAt(trace, w, i) {
      if AttemptedAt(trace, w, i) {
        SuccessesAreSpaced(specs, trace, t, w, i);
      }
    }
    assert forall w | t + 1 <= w < u :: !AttemptedAt(trace, w, i) ==> !SucceededAt(trace, w, i);
    LastSuccessStays(trace, t + 1, u, i);
    assert LastSuccess(trace[..t + 1], i) == Some(finished);
    assert |trace[u].outcomes| == |specs|;
    assert trace[u - 1 + 1].start - trace[u - 1].start <= d;
  }

  // ---- Liveness ------------------------------------------------------------------------

  class Liveness {
    const window: real
    var lockHeld: bool
    var lastTick: Option<real>

    constructor (window: real)
      ensures this.window == window && !lockHeld && lastTick == None && forall now :: !Healthy(now)
    {
      this.window := window;
      lockHeld, lastTick := false, None;
    }

    method SetLockHeld(value: bool)
      modifies this`lockHeld
      ensures lockHeld == value && (!value ==> forall now :: !Healthy(now))
    {
      lockHeld := value;
    }

    method RecordTick(now: real)
      modifies this`lastTick
      ensures lastTick == Some(now)
      ensures forall later :: Healthy(later) <==> lockHeld && later <= now + window
    {
      lastTick := Some(now);
    }

    // Healthy exactly when the lock is held and a tick ended within the window.
    predicate Healthy(now: real)
      reads this
    {
      lockHeld && lastTick.Some? && now - lastTick.value <= window
    }
  }

  // ---- The scheduler ---------------------------------------------------------------------

  // A call returns, raises an Exception, or is cancelled (not an Exception).
  datatype CallResult = Returns | Raises | Cancelled

  datatype Acquire = Granted | Held | AcquireRaises

  // Everything a run meets: readings of the clock, results by tick number, and the tick
  // before which (or, if `stopDuring`, during which) stop is requested.
  datatype World = World(
    clock: nat -> real,
    acquire: Acquire,
    ping: nat -> CallResult,
    act: (nat, nat) -> CallResult,
    sleep: nat -> CallResult,
    release: CallResult,
    stopAt: nat,
    stopDuring: bool)

  ghost predicate NonDecreasing(clock: nat -> real) {
    forall m: nat, n: nat :: m <= n ==> clock(m) <= clock(n)
  }

  predicate DistinctNames(specs: seq<Spec>) {
    forall i, j | 0 <= i < j < |specs| :: specs[i].name != specs[j].name
  }

  datatype TickResult = Alive | LockLost | Interrupted

  datatype Exit = Returned(code: int) | Propagated

  class Scheduler {
    const specs: seq<Spec>
    const liveness: Liveness
    var lastRun: map<string, Option<real>>  // None is minus infinity
    var readings: nat
    var started: nat
    var releases: nat
    ghost var trace: seq<Tick>

    ghost predicate Valid(world: World)
      reads this
    {
      DistinctNames(specs) && Faithful(specs, trace, lastRun, world.clock, readings)
    }

    constructor (specs: seq<Spec>, liveness: Liveness, ghost world: World)
      requires DistinctNames(specs)
      ensures Valid(world) && this.specs == specs && this.liveness == liveness
      ensures trace == [] && started == 0 && releases == 0 && readings == 0
    {
      this.specs, this.liveness := specs, liveness;
      lastRun := map s | s in specs :: s.name := None;
      readings, started, releases, trace := 0, 0, 0, [];
      new;
      assert forall i | 0 <= i < |specs| :: specs[i] in specs;
    }

    method Now(world: World) returns (now: real)
      modifies this`readings
      ensures now == world.clock(old(readings)) && readings == old(readings) + 1
    {
      now := world.clock(readings);
      readings := readings + 1;
    }

    // One action of one tick; None when it was cancelled. Only a success moves its
    // last-run time.
    method FireOne(world: World, n: nat, k: nat, now: real) returns (outcome: Option<Outcome>)
      requires k < |specs| && specs[k].name in lastRun
      modifies this`lastRun, this`readings, this`started
      ensures readings >= old(readings)
      ensures outcome.Some? ==>
                && (!outcome.value.NotDue? <==> IsDue(old(lastRun)[specs[k].name], now, specs[k].interval))
                && (!outcome.value.NotDue? ==> (outcome.value.Succeeded? <==> world.act(n, k).Returns?))
                && lastRun == (if outcome.value.Succeeded?
                               then old(lastRun)[specs[k].name := Some(outcome.value.finished)]
                               else old(lastRun))
                && (outcome.value.Succeeded? ==>
                      readings == old(readings) + 1 && outcome.value.finished == world.clock(old(readings)))
      ensures outcome.None? ==> world.act(n, k).Cancelled?
    {
      var spec := specs[k];
      if !IsDue(lastRun[spec.name], now, spec.interval) {
        return Some(NotDue);
      }
      started := started + 1;
      match world.act(n, k)
      case Cancelled =>
        return None;
      case Raises =>
        return Some(Failed);
      case Returns =>
        var finished := Now(world);
        lastRun := lastRun[spec.name := Some(finished)];
        return Some(Succeeded(finished));
    }

    // The loop of `tick` over the actions, after the ping and the first clock reading.
    method FireDue(world: World, n: nat, now: real) returns (interrupted: bool, ghost outcomes: seq<Outcome>)
      requires Valid(world)
      requires readings > 0 && now == world.clock(readings - 1)
      modifies this`lastRun, this`readings, this`started
      ensures readings >= old(readings)
      ensures interrupted ==> exists k :: 0 <= k < |specs| && world.act(n, k).Cancelled?
      ensures !interrupted ==>
                |outcomes| == |specs| && FiredSoFar(specs, trace, lastRun, world, n, now, outcomes)
      ensures NonDecreasing(world.clock) ==> FinishedWithin(outcomes, now, world.clock(readings - 1))
    {
      outcomes := [];
      for k := 0 to |specs|
        invariant readings >= old(readings) && |outcomes| == k
        invariant FiredSoFar(specs, trace, lastRun, world, n, now, outcomes)
        invariant NonDecreasing(world.clock) ==> FinishedWithin(outcomes, now, world.clock(readings - 1))
      {
        ghost var before, first: nat := lastRun, readings;
        var outcome := FireOne(world, n, k, now);
        if outcome.None? {
          return true, outcomes;
        }
        FiredOneMore(specs, trace, before, lastRun, world, n, now, outcomes, outcome.value);
        assert NonDecreasing(world.clock) ==> now <= world.clock(first - 1);
        FinishedOneMore(outcomes, outcome.value, now, world.clock, first, readings);
        outcomes := outcomes + [outcome.value];
      }
      return false, outcomes;
    }

    // `tick`, the n-th of this run.
    method TickOnce(world: World, n: nat) returns (result: TickResult, ghost tick: Tick)
      requires Valid(world)
      modifies this`lastRun, this`readings, this`started, this`trace, liveness`lastTick
      ensures result.LockLost? <==> world.ping(n).Raises?
      ensures !world.ping(n).Returns? ==>
                started == old(started) && trace == old(trace) && lastRun == old(lastRun)
      ensures result.Interrupted? ==> trace == old(trace)
      ensures result.Interrupted? ==>
                world.ping(n).Cancelled? || exists k :: 0 <= k < |specs| && world.act(n, k).Cancelled?
      ensures !result.Interrupted? ==> Valid(world)
      ensures result.Alive? ==> readings > 0
      ensures result.Alive? ==>
                && trace == old(trace) + [tick] && |tick.outcomes| == |specs|
                && tick.start == world.clock(old(readings))
                && liveness.lastTick == Some(world.clock(readings - 1))
                && (forall now :: liveness.Healthy(now) <==>
                      liveness.lockHeld && now <= world.clock(readings - 1) + liveness.window)
                && forall i | 0 <= i < |specs| && !tick.outcomes[i].NotDue? ::
                     tick.outcomes[i].Succeeded? <==> world.act(n, i).Returns?
    {
      tick := Tick(0.0, []);
      if world.ping(n).Raises? {
        return LockLost, tick;
      }
      if world.ping(n).Cancelled? {
        return Interrupted, tick;
      }
      var now := Now(world);
      var interrupted; ghost var outcomes;
      interrupted, outcomes := FireDue(world, n, now);
      if interrupted {
        return Interrupted, tick;
      }
      tick := Tick(now, outcomes);
      TickExtends(specs, trace, lastRun, world, n, tick, old(readings), readings);
      trace := trace + [tick];
      var end := Now(world);
      liveness.RecordTick(end);
      return Alive, tick;
    }

    // `run`: acquire, tick until stop, then always mark unhealthy and release. `ticked` are
    // the histories of the lock at which its ticks began.
    method Run(world: World, ghost life: Lock.Life)
      returns (exit: Exit, ghost history: seq<Lock.Action>, ghost ticked: seq<seq<Lock.Action>>)
      requires Valid(world) && !liveness.lockHeld && releases == 0
      requires !world.acquire.AcquireRaises? ==> life.Fits(world.acquire.Granted?)
      modifies this, liveness
      ensures !liveness.lockHeld && forall now :: !liveness.Healthy(now)
      ensures releases == if world.acquire.Granted? then 1 else 0
      ensures world.acquire.Held? <==> exit == Returned(1) && started == old(started) && releases == 0
      ensures exit == Returned(0) ==> world.acquire.Granted? && Valid(world)
      // Stop ends the run after the tick it was requested before or during.
      ensures exit == Returned(0) ==> |trace| == |old(trace)| + world.stopAt
      ensures exit == Returned(1) ==> Valid(world)
      ensures exit == Returned(1) && world.acquire.Granted? ==>
                exists n :: 0 <= n < world.stopAt && world.ping(n).Raises? && |trace| == |old(trace)| + n
      // Every tick begins and ends while the lock's state machine has the process active,
      // and after the release it no longer is; without the lock there is no tick.
      ensures if world.acquire.Granted?
              then |trace| >= |old(trace)| &&
                   Lock.HasTicked(life, history, ticked, |trace| - |old(trace)|)
              else ticked == [] && started == old(started) && trace == old(trace)
    {
      history, ticked := life.before, [];
      if world.acquire.AcquireRaises? {
        return Propagated, history, ticked;
      }
      if world.acquire.Held? {
        return Returned(1), history, ticked;
      }
      liveness.SetLockHeld(true);
      Lock.TickingBegins(life);
      exit, history, ticked := TickUntilStop(world, life);
      liveness.SetLockHeld(false);
      // The attempt counts even when it raises: that is only logged, and closing the
      // connection frees the lock.
      releases := releases + 1;
      Lock.TickingEnds(life, history, ticked, world.release.Returns?, |trace| - |old(trace)|);
      history := history + [Lock.Unlock(life.p, world.release.Returns?)];
      if world.release.Cancelled? {
        exit := Propagated;
      }
    }

    // The loop of `run`, from the granted acquire on.
    method TickUntilStop(world: World, ghost life: Lock.Life)
      returns (exit: Exit, ghost history: seq<Lock.Action>, ghost ticked: seq<seq<Lock.Action>>)
      requires Valid(world) && life.Fits(true)
      requires Lock.Ticking(life, life.before + [Lock.TryLock(life.p, true)], [])
      modifies this`lastRun, this`readings, this`started, this`trace, liveness`lastTick
      ensures exit in {Returned(0), Returned(1), Propagated} && (!exit.Propagated? ==> Valid(world))
      // Stop ends the run after the tick it was requested before or during.
      ensures exit == Returned(0) ==> |trace| == |old(trace)| + world.stopAt
      ensures exit == Returned(1) ==>
                exists n :: 0 <= n < world.stopAt && world.ping(n).Raises? && |trace| == |old(trace)| + n
      ensures Lock.Ticking(life, history, ticked)
      ensures |old(trace)| <= |trace| && |trace| - |old(trace)| <= |ticked| <= |trace| - |old(trace)| + 1
    {
      history, ticked := life.before + [Lock.TryLock(life.p, true)], [];
      var n: nat := 0;
      while n < world.stopAt
        invariant n <= world.stopAt && Valid(world)
        invariant |trace| == |old(trace)| + n
        invariant Lock.Ticking(life, history, ticked) && |ticked| == n
      {
        Lock.TickingGoesOn(life, history, ticked);
        history, ticked := history + life.around(n), ticked + [history];
        var result, _ := TickOnce(world, n);
        if result.Interrupted? {
          return Propagated, history, ticked;
        }
        if result.LockLost? {
          return Returned(1), history, ticked;
        }
        n := n + 1;
        if n == world.stopAt && world.stopDuring {
          break;
        }
        if !world.sleep(n).Returns? {
          return Propagated, history, ticked;
        }
      }
      return Returned(0), history, ticked;
    }
  }

  // What the outcomes of the first actions mean for the rest of the tick.
  ghost predicate FiredSoFar(
      specs: seq<Spec>, trace: seq<Tick>, lastRun: map<string, Option<real>>,
      world: World, n: nat, now: real, outcomes: seq<Outcome>)
    requires |outcomes| <= |specs|
  {
    && (forall i | 0 <= i < |specs| ::
          specs[i].name in lastRun &&
          lastRun[specs[i].name] ==
            (if i < |outcomes| && outcomes[i].Succeeded? then Some(outcomes[i].finished)
             else LastSuccess(trace, i)))
    && (forall i | 0 <= i < |outcomes| ::
          && (!outcomes[i].NotDue? <==> IsDue(LastSuccess(trace, i), now, specs[i].interval))
          && (!outcomes[i].NotDue? ==> (outcomes[i].Succeeded? <==> world.act(n, i).Returns?)))
  }

  ghost predicate FinishedWithin(outcomes: seq<Outcome>, first: real, last: real) {
    forall i | 0 <= i < |outcomes| && outcomes[i].Succeeded? :: first <= outcomes[i].finished <= last
  }

  lemma FiredOneMore(
      specs: seq<Spec>, trace: seq<Tick>, before: map<string, Option<real>>,
      after: map<string, Option<real>>, world: World, n: nat, now: real,
      outcomes: seq<Outcome>, outcome: Outcome)
    requires DistinctNames(specs) && |outcomes| < |specs|
    requires FiredSoFar(specs, trace, before, world, n, now, outcomes)
    requires var spec := specs[|outcomes|];
             && (!outcome.NotDue? <==> IsDue(before[spec.name], now, spec.interval))
             && (!outcome.NotDue? ==> (outcome.Succeeded? <==> world.act(n, |outcomes|).Returns?))
             && after == if outcome.Succeeded? then before[spec.name := Some(outcome.finished)] else before
    ensures FiredSoFar(specs, trace, after, world, n, now, outcomes + [outcome])
  {
  }

  lemma FinishedOneMore(
      outcomes: seq<Outcome>, outcome: Outcome, now: real, clock: nat -> real, first: nat, last: nat)
    requires 0 < first <= last
    requires outcome.Succeeded? ==> last == first + 1 && outcome.finished == clock(first)
    ensures NonDecreasing(clock) && now <= clock(first - 1) &&
            FinishedWithin(outcomes, now, clock(first - 1)) ==>
              FinishedWithin(outcomes + [outcome], now, clock(last - 1))
  {
    assert NonDecreasing(clock) ==> clock(first - 1) <= clock(last - 1) && clock(first - 1) <= clock(first);
  }

  ghost predicate BeforeReading(trace: seq<Tick>, clock: nat -> real, readings: nat) {
    forall t | 0 <= t < |trace| ::
      && trace[t].start <= clock(readings)
      && forall i | 0 <= i < |trace[t].outcomes| && trace[t].outcomes[i].Succeeded? ::
           trace[t].outcomes[i].finished <= clock(readings)
  }

  // A tick fired by the due rule extends a scheduled trace to a scheduled trace.
  lemma AppendScheduled(specs: seq<Spec>, trace: seq<Tick>, tick: Tick)
    requires Scheduled(specs, trace) && |tick.outcomes| == |specs|
    requires forall i | 0 <= i < |specs| ::
      !tick.outcomes[i].NotDue? <==> IsDue(LastSuccess(trace, i), tick.start, specs[i].interval)
    ensures Scheduled(specs, trace + [tick])
  {
    var after := trace + [tick];
    forall t, i | 0 <= t < |after| && 0 <= i < |specs|
      ensures |after[t].outcomes| == |specs|
      ensures !after[t].outcomes[i].NotDue? <==>
                IsDue(LastSuccess(after[..t], i), after[t].start, specs[i].interval)
    {
      CutOfAppend(trace, [tick], t);
      assert trace[..|trace|] == trace;
    }
  }

  lemma AppendLastSuccess(trace: seq<Tick>, tick: Tick, i: nat)
    requires i < |tick.outcomes|
    ensures LastSuccess(trace + [tick], i) ==
              if tick.outcomes[i].Succeeded? then Some(tick.outcomes[i].finished) else LastSuccess(trace, i)
  {
    assert (trace + [tick])[..|trace|] == trace;
  }

  // The due rule held in every tick, the last-run times are those of the history, and a
  // non-decreasing clock keeps it in order of time.
  ghost predicate Faithful(
      specs: seq<Spec>, trace: seq<Tick>, lastRun: map<string, Option<real>>,
      clock: nat -> real, readings: nat)
  {
    && Scheduled(specs, trace)
    && (forall i | 0 <= i < |specs| ::
          specs[i].name in lastRun && lastRun[specs[i].name] == LastSuccess(trace, i))
    && (NonDecreasing(clock) ==> Timely(trace) && BeforeReading(trace, clock, readings))
  }

  // What one whole tick means for the history.
  lemma TickExtends(
      specs: seq<Spec>, trace: seq<Tick>, lastRun: map<string, Option<real>>, world: World, n: nat,
      tick: Tick, first: nat, last: nat)
    requires Scheduled(specs, trace) && |tick.outcomes| == |specs|
    requires FiredSoFar(specs, trace, lastRun, world, n, tick.start, tick.outcomes)
    requires first < last && tick.start == world.clock(first)
    requires NonDecreasing(world.clock) ==>
      && Timely(trace) && BeforeReading(trace, world.clock, first)
      && FinishedWithin(tick.outcomes, tick.start, world.clock(last - 1))
    ensures Faithful(specs, trace + [tick], lastRun, world.clock, last + 1)
  {
    AppendScheduled(specs, trace, tick);
    forall i | 0 <= i < |specs|
      ensures specs[i].name in lastRun && lastRun[specs[i].name] == LastSuccess(trace + [tick], i)
    {
      AppendLastSuccess(trace, tick, i);
    }
    if NonDecreasing(world.clock) {
      AppendTimely(trace, tick, world.clock, first, last);
    }
  }

  lemma AppendTimely(trace: seq<Tick>, tick: Tick, clock: nat -> real, first: nat, last: nat)
    requires NonDecreasing(clock) && first < last && tick.start == clock(first)
    requires Timely(trace) && BeforeReading(trace, clock, first)
    requires FinishedWithin(tick.outcomes, tick.start, clock(last - 1))
    ensures Timely(trace + [tick])
    ensures BeforeReading(trace + [tick], clock, last + 1)
  {
    assert clock(first) <= clock(last - 1) <= clock(last + 1);
  }

  // ---- Bounded retries at start-up ----------------------------------------------------------

  datatype TryResult = Answer(granted: bool) | Unreachable

  // `acquire_lock_with_retry`: retries only while the database is unreachable, and an
  // answer, also "held by another", is final. None is the last error raised again.
  method AcquireLockWithRetry(attempt: nat -> TryResult, retries: nat, backoff: real)
    returns (granted: Option<bool>, delays: seq<real>)
    ensures granted.Some? ==>
              exists k :: 1 <= k <= retries && attempt(k) == Answer(granted.value) && |delays| == k - 1 &&
                          forall j | 1 <= j < k :: attempt(j).Unreachable?
    ensures granted.None? <==> forall k | 1 <= k <= retries :: attempt(k).Unreachable?
    ensures granted.None? ==> |delays| == Max(retries - 1, 0)
    ensures forall k | 0 <= k < |delays| :: delays[k] == backoff * (k + 1) as real
  {
    delays := [];
    for k := 1 to retries + 1
      invariant |delays| == Min(k - 1, Max(retries - 1, 0))
      invariant forall j | 1 <= j < k :: attempt(j).Unreachable?
      invariant forall j | 0 <= j < |delays| :: delays[j] == backoff * (j + 1) as real
    {
      var r := attempt(k);
      if r.Answer? {
        return Some(r.granted), delays;
      }
      if k < retries {
        delays := delays + [backoff * k as real];
      }
    }
    return None, delays;
  }
}
