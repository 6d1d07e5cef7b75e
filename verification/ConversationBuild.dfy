// `ConversationContextService.build` and the stored conversation it works on, step
// by step, with arbitrary activity of others between its database accesses.
module ConversationBuild {
  import opened Prelude
  import opened ConversationMemory

  datatype Error = ExecutionConfigInvalid

  datatype Loaded = Loaded(
    summary: Option<string>, through: nat, version: nat, current: nat, turns: seq<Turn>)

  // The provider's answer to the n-th call; None is a ProviderError.
  type Summariser = (nat, Option<string>, string) -> Option<string>

  // What others do to the row before the n-th database access of a build.
  type Interference = (nat, Row) -> Row

  class Conversation {
    const owner: nat
    var messages: seq<Message>
    var lastMessageSequence: nat
    var summary: Option<string>
    var through: nat
    var version: nat
    var fed: seq<Turn>  // history only: never read by the protocol

    function Stored(): Row
      reads this
    {
      Row(messages, summary, through, version, fed)
    }

    constructor (owner: nat)
      ensures this.owner == owner && lastMessageSequence == 0
      ensures Stored() == Row([], None, 0, 0, []) && RowInv(Stored())
    {
      this.owner := owner;
      messages, lastMessageSequence := [], 0;
      summary, through, version, fed := None, 0, 0, [];
    }

    // The insert trigger: the counter moves first, and a message that does not carry
    // the counter's new value is refused, which rolls the statement back.
    method Insert(m: Message) returns (accepted: bool)
      requires RowInv(Stored()) && lastMessageSequence == |messages|
      modifies this`messages, this`lastMessageSequence
      ensures accepted <==> m.sequence == old(lastMessageSequence) + 1
      ensures messages == if accepted then old(messages) + [m] else old(messages)
      ensures lastMessageSequence == |messages|
      ensures Evolves(old(Stored()), Stored())
    {
      lastMessageSequence := lastMessageSequence + 1;
      if m.sequence != lastMessageSequence {
        lastMessageSequence := lastMessageSequence - 1;
        return false;
      }
      AppendEvolves(Stored(), m);
      messages := messages + [m];
      return true;
    }

    method Interfere(env: Interference, access: nat)
      modifies this
      ensures Stored() == env(access, old(Stored()))
    {
      var row := env(access, Stored());
      messages, lastMessageSequence := row.messages, |row.messages|;
      summary, through, version, fed := row.summary, row.through, row.version, row.fed;
    }

    // `_load`. Messages below the current one never change, so its three reads see
    // the same rows as one read would.
    method Load(currentId: nat, caller: nat) returns (r: Result<Loaded, Error>)
      ensures r.Ok? <==> caller == owner && CurrentSequence(Stored(), currentId).Some?
      ensures r.Ok? ==>
                var current := CurrentSequence(Stored(), currentId).value;
                r.value == Loaded(summary, through, version, current, Eligible(Stored(), current))
    {
      var current := CurrentSequence(Stored(), currentId);
      if caller != owner || current.None? {
        return Err(ExecutionConfigInvalid);
      }
      var turns := CompletedTurns(Query(messages, through, current.value));
      return Ok(Loaded(summary, through, version, current.value, turns));
    }

    // `_compare_and_set_summary`; `newFed` only extends the history.
    method CompareAndSetSummary(
        expectedVersion: nat, expectedThrough: nat, newSummary: string, newThrough: nat, newFed: seq<Turn>)
      returns (updated: bool)
      modifies this`summary, this`through, this`version, this`fed
      ensures updated <==>
                old(version) == expectedVersion && old(through) == expectedThrough
                && newThrough > expectedThrough
      ensures updated ==>
                Stored() == Row(messages, Some(newSummary), newThrough, old(version) + 1, newFed)
      ensures !updated ==> Stored() == old(Stored())
    {
      if version != expectedVersion || through != expectedThrough || newThrough <= expectedThrough {
        return false;
      }
      summary, through, version, fed := Some(newSummary), newThrough, version + 1, newFed;
      return true;
    }
  }

  lemma AppendEvolves(row: Row, m: Message)
    requires RowInv(row) && m.sequence == |row.messages| + 1
    ensures Evolves(row, row.(messages := row.messages + [m]))
  {
    var ms := row.messages + [m];
    assert ms[..row.through] == row.messages[..row.through];
    if row.through > 0 {
      assert ms[..row.through - 1] == row.messages[..row.through - 1];
    }
  }

  method CompletedTurns(ms: seq<Message>) returns (turns: seq<Turn>)
    ensures turns == Turns(ms)
  {
    turns := [];
    var pending: Option<Message> := None;
    for i := 0 to |ms|
      invariant turns == Turns(ms[..i]) && pending == Pending(ms[..i])
    {
      assert ms[..i + 1] == ms[..i] + [ms[i]];
      TurnsSnoc(ms[..i], ms[i]);
      if ms[i].role.User? {
        pending := Some(ms[i]);
      } else if ms[i].role.Assistant? {
        if pending.Some? {
          turns := turns + [Turn(pending.value, ms[i])];
        }
        pending := None;
      }
    }
    assert ms[..|ms|] == ms;
  }

  // The loop of `_result`: walk back from the latest turn until one does not fit.
  method SelectRecent(turns: seq<Turn>, base: nat, budget: int, minimumRecent: int, est: Estimator)
    returns (selected: seq<Turn>)
    requires minimumRecent >= 0
    ensures selected == turns[|turns| - Kept(turns, 0, base, budget, minimumRecent, est)..]
  {
    selected := [];
    var used: nat := base;
    while |selected| < |turns|
      invariant |selected| <= |turns| && selected == turns[|turns| - |selected|..]
      invariant used == base + SizeOf(selected, est)
      invariant Kept(turns, 0, base, budget, minimumRecent, est)
             == Kept(turns, |selected|, base, budget, minimumRecent, est)
      decreases |turns| - |selected|
    {
      var turn := turns[|turns| - |selected| - 1];
      assert turns[|turns| - (|selected| + 1)..] == [turn] + selected;
      if |selected| >= minimumRecent && used + TurnSize(turn, est) > budget {
        return;
      }
      selected := [turn] + selected;
      used := used + TurnSize(turn, est);
    }
  }

  // `_bounded_prefix`.
  method BoundedPrefix(turns: seq<Turn>, limit: int, est: Estimator) returns (batch: seq<Turn>)
    requires limit > 0
    ensures batch == turns[..Fitting(turns, limit, est)]
  {
    batch := [];
    var used: nat := 0;
    while |batch| < |turns|
      invariant |batch| <= |turns| && batch == turns[..|batch|]
      invariant Fitting(turns, limit, est) == |batch| + Fitting(turns[|batch|..], limit - used, est)
      decreases |turns| - |batch|
    {
      var turn := turns[|batch|];
      assert turns[|batch|..][0] == turn && turns[|batch|..][1..] == turns[|batch| + 1..];
      if used + TurnSize(turn, est) > limit {
        return;
      }
      batch := batch + [turn];
      used := used + TurnSize(turn, est);
    }
  }

  // `_result`.
  method Answer(
      turns: seq<Turn>, summary: Option<string>, through: nat, policy: Policy, budget: int,
      est: Estimator)
    returns (context: Context)
    requires policy.Valid()
    ensures context.summary == summary && context.through == through
    ensures var kept := Kept(turns, 0, est(SummaryText(summary)), budget, policy.minimumRecent, est);
            && context.recent == Flatten(turns[|turns| - kept..])
            && Carries(context.recent, turns[|turns| - kept..])
            && context.degraded == (kept < |turns|)
  {
    var selected := SelectRecent(turns, est(SummaryText(summary)), budget, policy.minimumRecent, est);
    FlattenCarries(selected);
    return Context(summary, Flatten(selected), through, |selected| < |turns|);
  }

  // ---- Assumptions about the surroundings of one call -----------------------------

  // Others only ever move the row the way the protocol itself may move it.
  ghost predicate Lawful(env: Interference) {
    forall n: nat, row: Row :: RowInv(row) ==> Evolves(row, env(n, row))
  }

  // No competing writer: others append messages at most.
  ghost predicate Quiet(env: Interference) {
    forall n: nat, row: Row :: env(n, row).version == row.version
  }

  // Every summariser call answers with a text of which something is left to store, be it
  // cut to the target.
  ghost predicate Answers(summarise: Summariser, policy: Policy, est: Estimator) {
    forall n: nat, previous: Option<string>, transcript: string ::
      !Unusable(summarise(n, previous, transcript), policy.target, est)
  }

  ghost predicate FitsInPasses(turns: seq<Turn>, policy: Policy, est: Estimator, passes: int) {
    && |turns| - policy.minimumRecent <= policy.maxPasses - passes
    && forall i | 0 <= i < |turns| :: TurnSize(turns[i], est) <= policy.summaryInput
  }

  function EffectiveBudget(historyBudget: Option<int>, policy: Policy): int {
    if historyBudget.Some? && historyBudget.value > 0 then historyBudget.value
    else policy.historyBudget
  }

  // What one summariser call and swap make of a row when everybody cooperates.
  ghost predicate Cooperative(
      row: Row, currentId: nat, policy: Policy, est: Estimator, summarise: Summariser,
      env: Interference, passes: int)
  {
    && RowInv(row) && Lawful(env) && Quiet(env) && Answers(summarise, policy, est)
    && CurrentSequence(row, currentId).Some?
    && FitsInPasses(
         Eligible(row, CurrentSequence(row, currentId).value), policy, est, passes)
  }

  lemma CooperationSurvivesOthers(
      row: Row, row': Row, currentId: nat, policy: Policy, est: Estimator, summarise: Summariser,
      env: Interference, passes: int)
    requires Cooperative(row, currentId, policy, est, summarise, env, passes)
    requires Evolves(row, row') && row'.version == row.version
    ensures Cooperative(row', currentId, policy, est, summarise, env, passes)
  {
    CurrentIsStable(row, row', currentId);
    EligibleIsStable(row, row', CurrentSequence(row, currentId).value);
  }

  lemma CooperationSurvivesSwap(
      seen: Row, met: Row, currentId: nat, policy: Policy, est: Estimator, summarise: Summariser,
      env: Interference, passes: int, n: nat, text: string)
    requires policy.Valid()
    requires Cooperative(seen, currentId, policy, est, summarise, env, passes)
    requires Evolves(seen, met) && met.version == seen.version
    requires 0 < n <= |Eligible(seen, CurrentSequence(seen, currentId).value)|
    ensures Cooperative(
      Swapped(met, Eligible(seen, CurrentSequence(seen, currentId).value)[..n], text),
      currentId, policy, est, summarise, env, passes + 1)
  {
    var current := CurrentSequence(seen, currentId).value;
    CurrentIsStable(seen, met, currentId);
    StaleFreeSwap(seen, met, current, n, text);
    CurrentIsStable(met, Swapped(met, Eligible(seen, current)[..n], text), currentId);
  }

  // A cooperative row that fits its pass budget is never answered degraded, unless
  // there is still a batch and a pass left for it.
  lemma CooperativeAnswerIsComplete(call: Call, row: Row, passes: nat)
    requires call.Valid() && FitsInPasses(Eligible(row, call.current), call.policy, call.est, passes)
    requires Decide(call, row, passes).Finish?
    ensures !ResultOf(call, row).degraded
  {
    DegradedExactlyWhen(call, row);
    EmptyBatchMeans(call, row);
  }

  // The row after a compare-and-set against the row `seen` meets the row `met`.
  function AfterSwap(seen: Row, met: Row, batch: seq<Turn>, text: string): Row
    requires batch != []
  {
    if met.version == seen.version && met.through == seen.through &&
       batch[|batch| - 1].assistant.sequence > seen.through
    then Swapped(met, batch, text)
    else met
  }

  lemma ExchangeIsLawful(seen: Row, met: Row, current: nat, batch: seq<Turn>, text: string)
    requires RowInv(seen) && Evolves(seen, met) && 0 < current <= |seen.messages|
    requires batch != [] && batch <= Eligible(seen, current)
    ensures Evolves(seen, AfterSwap(seen, met, batch, text))
    ensures met.version == seen.version ==> AfterSwap(seen, met, batch, text) == Swapped(met, batch, text)
  {
    if met.version == seen.version {
      assert batch == Eligible(seen, current)[..|batch|];
      StaleFreeSwap(seen, met, current, |batch|, text);
      EvolvesTransitive(seen, met, Swapped(met, batch, text));
    }
  }

  // Store the summary of `batch`, unless someone else got there first.
  method Exchange(
      c: Conversation, env: Interference, access: nat, version: nat, through: nat,
      batch: seq<Turn>, text: string, ghost seen: Row)
    requires c.Stored() == seen && version == seen.version && through == seen.through
    requires batch != []
    modifies c
    ensures c.Stored() == AfterSwap(seen, env(access, seen), batch, text)
  {
    c.Interfere(env, access);
    var newThrough := batch[|batch| - 1].assistant.sequence;
    var updated := c.CompareAndSetSummary(version, through, text, newThrough, c.fed + batch);
  }

  datatype Look =
    | Missing(error: Error)
    | Done(context: Context)
    | Work(context: Context, summary: Option<string>, through: nat, version: nat,
           current: nat, batch: seq<Turn>)

  // Load, and decide whether another batch has to be summarised; `context` is what
  // a failure further on would return.
  method LookAt(
      c: Conversation, currentId: nat, caller: nat, policy: Policy, est: Estimator,
      budget: int, passes: nat)
    returns (r: Look)
    requires policy.Valid() && Monotone(est) && budget > 0
    ensures r.Missing? <==> caller != c.owner || CurrentSequence(c.Stored(), currentId).None?
    ensures !r.Missing? ==>
              var call := Call(CurrentSequence(c.Stored(), currentId).value, policy, budget, est);
              && r.context == ResultOf(call, c.Stored())
              && match Decide(call, c.Stored(), passes)
                 case Finish => r.Done?
                 case Compress(batch) =>
                   r == Work(r.context, c.summary, c.through, c.version, call.current, batch)
  {
    var loaded := c.Load(currentId, caller);
    if loaded.Err? {
      return Missing(loaded.error);
    }
    var Loaded(summary, through, version, current, turns) := loaded.value;
    ghost var call, row := Call(current, policy, budget, est), c.Stored();
    assert turns == Eligible(row, current);
    var context := Answer(turns, summary, through, policy, budget, est);
    assert context == ResultOf(call, row);
    if ContextSize(summary, turns, est) <= Min(policy.trigger, budget) {
      assert Decide(call, row, passes) == Finish;
      return Done(context);
    }
    var batch := BoundedPrefix(Compressible(turns, policy.minimumRecent), policy.summaryInput, est);
    assert batch == Batch(call, turns);
    if batch == [] {
      assert Decide(call, row, passes) == Finish;
      return Done(context);
    }
    if passes >= policy.maxPasses {
      assert Decide(call, row, passes) == Finish;
      return Done(context);
    }
    assert Decide(call, row, passes) == ConversationMemory.Compress(batch);
    return Work(context, summary, through, version, current, batch);
  }

  // Ask for a summary of the batch and try to store it: what is stored answers exactly
  // the loaded summary and the transcript of the batch.
  method Compress(
      c: Conversation, look: Look, policy: Policy, est: Estimator,
      summarise: Summariser, env: Interference, passes: nat, ghost seen: Row)
    returns (attempted: bool, ghost text: string, ghost shown: string)
    requires policy.Valid() && Monotone(est) && c.Stored() == seen
    requires look.Work? && look.batch != []
    requires look.summary == seen.summary && look.version == seen.version && look.through == seen.through
    modifies c
    ensures Shows(shown, look.batch)
    ensures var reply := summarise(passes, seen.summary, shown);
            if attempted
            then BoundedReply(reply, text, policy.target, est) &&
                 c.Stored() == AfterSwap(seen, env(2 * passes + 1, seen), look.batch, text)
            else c.Stored() == seen && Unusable(reply, policy.target, est)
  {
    text, shown := "", Transcript(look.batch);
    TranscriptShows(look.batch);
    var reply := summarise(passes, look.summary, Transcript(look.batch));
    if reply.None? {
      return false, text, shown;
    }
    var bounded := BoundedText(reply.value, policy.target, est);
    if bounded == "" {
      return false, text, shown;
    }
    text := bounded;
    Exchange(c, env, 2 * passes + 1, look.version, look.through, look.batch, bounded, seen);
    return true, text, shown;
  }

  // A reply that leaves nothing to store.
  ghost predicate Unusable(reply: Option<string>, budget: int, est: Estimator) {
    reply.None? || IsBounded(reply.value, "", budget, est)
  }

  lemma CurrentIsInside(row: Row, currentId: nat)
    requires CurrentSequence(row, currentId).Some? && Numbered(row.messages)
    ensures 0 < CurrentSequence(row, currentId).value <= |row.messages|
  {
  }

  lemma CooperationSurvivesExchange(
      seen: Row, currentId: nat, policy: Policy, est: Estimator,
      summarise: Summariser, env: Interference, passes: nat, batch: seq<Turn>, text: string)
    requires policy.Valid() && batch != []
    requires Cooperative(seen, currentId, policy, est, summarise, env, passes)
    requires batch <= Eligible(seen, CurrentSequence(seen, currentId).value)
    ensures Cooperative(AfterSwap(seen, env(2 * passes + 1, seen), batch, text),
                        currentId, policy, est, summarise, env, passes + 1)
  {
    var met := env(2 * passes + 1, seen);
    var current := CurrentSequence(seen, currentId).value;
    assert Evolves(seen, met) && met.version == seen.version;
    CurrentIsInside(seen, currentId);
    ExchangeIsLawful(seen, met, current, batch, text);
    assert batch == Eligible(seen, current)[..|batch|];
    CooperationSurvivesSwap(
      seen, met, currentId, policy, est, summarise, env, passes, |batch|, text);
  }

  // One call of the summariser: after which snapshot, about which turns, what it was shown,
  // and what of its answer was kept to be stored.
  datatype Inquiry = Inquiry(seen: Row, batch: seq<Turn>, shown: string, kept: Option<string>)

  // The n-th call was made because the context exceeded the trigger; it showed a non-empty
  // batch of turns, from the oldest one on and none of them protected, that fits one
  // transcript, together with the loaded summary; what was kept is its bounded answer.
  ghost predicate WellAsked(
      a: Inquiry, n: nat, currentId: nat, policy: Policy, budget: int, est: Estimator, summarise: Summariser)
  {
    && CurrentSequence(a.seen, currentId).Some?
    && var ts := Eligible(a.seen, CurrentSequence(a.seen, currentId).value);
       var reply := summarise(n, a.seen.summary, a.shown);
       && ContextSize(a.seen.summary, ts, est) > Min(policy.trigger, budget)
       && a.batch != [] && a.batch <= ts && |a.batch| <= |ts| - policy.minimumRecent
       && SizeOf(a.batch, est) <= policy.summaryInput
       && Shows(a.shown, a.batch)
       && if a.kept.Some? then BoundedReply(reply, a.kept.value, policy.target, est)
          else Unusable(reply, policy.target, est)
  }

  ghost predicate AllWellAsked(
      asked: seq<Inquiry>, currentId: nat, policy: Policy, budget: int, est: Estimator, summarise: Summariser)
  {
    forall n | 0 <= n < |asked| :: WellAsked(asked[n], n, currentId, policy, budget, est, summarise)
  }

  lemma OneMoreAsked(
      asked: seq<Inquiry>, ask: Inquiry, currentId: nat, policy: Policy, budget: int, est: Estimator,
      summarise: Summariser)
    requires AllWellAsked(asked, currentId, policy, budget, est, summarise)
    requires WellAsked(ask, |asked|, currentId, policy, budget, est, summarise)
    ensures AllWellAsked(asked + [ask], currentId, policy, budget, est, summarise)
  {
  }

  // Why a build answers from this snapshot after so many calls.
  ghost predicate MayStop(
      seen: Row, current: nat, policy: Policy, budget: int, est: Estimator, asked: seq<Inquiry>)
    requires policy.Valid()
  {
    var ts := Eligible(seen, current);
    || ContextSize(seen.summary, ts, est) <= Min(policy.trigger, budget)
    || |ts| <= policy.minimumRecent || TurnSize(ts[0], est) > policy.summaryInput
    || |asked| >= policy.maxPasses
    || (asked != [] && asked[|asked| - 1].kept.None?)
  }

  // One turn of the loop: None means go round again, which always costs one call.
  method Attempt(
      c: Conversation, currentId: nat, caller: nat, policy: Policy, est: Estimator,
      budget: int, summarise: Summariser, env: Interference, passes: nat)
    returns (r: Option<Result<Context, Error>>, called: bool, ghost seen: Row, ghost ask: Option<Inquiry>)
    requires policy.Valid() && Monotone(est) && budget > 0
    modifies c
    ensures r.None? ==> called
    ensures called ==> passes < policy.maxPasses
    ensures called <==> ask.Some?
    ensures ask.Some? ==>
              WellAsked(ask.value, passes, currentId, policy, budget, est, summarise) &&
              (r.None? <==> ask.value.kept.Some?)
    ensures r.Some? && r.value.Ok? && ask.None? ==>
              CurrentSequence(seen, currentId).Some? &&
              (passes >= policy.maxPasses ||
               MayStop(seen, CurrentSequence(seen, currentId).value, policy, budget, est, []))
    ensures RowInv(old(c.Stored())) && Lawful(env) ==>
              Evolves(old(c.Stored()), seen) && Evolves(seen, c.Stored())
    ensures r.Some? && r.value.Ok? ==>
              caller == c.owner && CurrentSequence(seen, currentId).Some? &&
              r.value.value == ResultOf(
                Call(CurrentSequence(seen, currentId).value, policy, budget, est), seen)
    ensures r.Some? && r.value.Err? ==> caller != c.owner || CurrentSequence(seen, currentId).None?
    ensures Cooperative(old(c.Stored()), currentId, policy, est, summarise, env, passes) ==>
              if r.None?
              then Cooperative(c.Stored(), currentId, policy, est, summarise, env, passes + 1)
              else r.value.Ok? ==> !r.value.value.degraded
  {
    ghost var before := c.Stored();
    ghost var cooperative := Cooperative(before, currentId, policy, est, summarise, env, passes);
    c.Interfere(env, 2 * passes);
    seen, ask := c.Stored(), None;
    if cooperative {
      CooperationSurvivesOthers(before, seen, currentId, policy, est, summarise, env, passes);
    }
    var look := LookAt(c, currentId, caller, policy, est, budget, passes);
    if look.Missing? {
      return Some(Err(look.error)), false, seen, ask;
    }
    ghost var call := Call(CurrentSequence(seen, currentId).value, policy, budget, est);
    if look.Done? {
      FinishMeans(call, seen, passes);
      if cooperative { CooperativeAnswerIsComplete(call, seen, passes); }
      return Some(Ok(look.context)), false, seen, ask;
    }
    CompressMeans(call, seen, passes);
    ghost var text, shown;
    var attempted;
    attempted, text, shown := Compress(c, look, policy, est, summarise, env, passes, seen);
    ask := Some(Inquiry(seen, look.batch, shown, if attempted then Some(text) else None));
    if RowInv(seen) && Lawful(env) && attempted {
      CurrentIsInside(seen, currentId);
      ExchangeIsLawful(seen, env(2 * passes + 1, seen), call.current, look.batch, text);
    }
    if cooperative {
      assert !Unusable(summarise(passes, seen.summary, shown), policy.target, est);
      CooperationSurvivesExchange(
        seen, currentId, policy, est, summarise, env, passes, look.batch, text);
    }
    return if attempted then None else Some(Ok(look.context)), true, seen, ask;
  }

  // `build`: only the policy's pass limit bounds the loop, so it ends whatever the
  // environment and the provider do. The statements after the original's endless
  // loop cannot be reached.
  method Build(
      c: Conversation, currentId: nat, caller: nat, policy: Policy, est: Estimator,
      historyBudget: Option<int>, summarise: Summariser, env: Interference)
    returns (r: Result<Context, Error>, calls: nat, ghost seen: Row, ghost budget: int, ghost asked: seq<Inquiry>)
    requires policy.Valid() && Monotone(est)
    modifies c
    ensures calls <= policy.maxPasses
    ensures if historyBudget.Some? && historyBudget.value > 0 then budget == historyBudget.value
            else budget == policy.historyBudget
    // Every call was called for, and showed exactly the turns that are then folded in.
    ensures |asked| == calls
    ensures AllWellAsked(asked, currentId, policy, budget, est, summarise)
    // The row only evolves lawfully, and the answer is that of one row it went through.
    ensures RowInv(old(c.Stored())) && Lawful(env) ==>
              Evolves(old(c.Stored()), seen) && Evolves(seen, c.Stored())
    ensures r.Ok? ==>
              caller == c.owner && CurrentSequence(seen, currentId).Some? &&
              var current := CurrentSequence(seen, currentId).value;
              && r.value == ResultOf(Call(current, policy, budget, est), seen)
              && MayStop(seen, current, policy, budget, est, asked)
    ensures r.Err? ==> caller != c.owner || CurrentSequence(seen, currentId).None?
    // With no competing writer, a working summariser and turns that fit, memory is complete.
    ensures Cooperative(old(c.Stored()), currentId, policy, est, summarise, env, 0) && r.Ok? ==>
              !r.value.degraded
  {
    ghost var before := c.Stored();
    var effective := EffectiveBudget(historyBudget, policy);
    budget, asked := effective, [];
    var passes: nat := 0;
    calls := 0;
    while true
      invariant calls == passes == |asked| <= policy.maxPasses
      invariant AllWellAsked(asked, currentId, policy, budget, est, summarise)
      invariant RowInv(before) && Lawful(env) ==> Evolves(before, c.Stored())
      invariant Cooperative(before, currentId, policy, est, summarise, env, 0) ==>
                  Cooperative(c.Stored(), currentId, policy, est, summarise, env, passes)
      decreases policy.maxPasses - passes
    {
      ghost var row, ask := c.Stored(), None;
      var outcome, called;
      outcome, called, seen, ask :=
        Attempt(c, currentId, caller, policy, est, effective, summarise, env, passes);
      if RowInv(before) && Lawful(env) {
        EvolvesTransitive(before, row, seen);
        EvolvesTransitive(before, seen, c.Stored());
      }
      if called {
        calls := calls + 1;
        OneMoreAsked(asked, ask.value, currentId, policy, budget, est, summarise);
        asked := asked + [ask.value];
      }
      if outcome.Some? {
        r := outcome.value;
        return;
      }
      passes := passes + 1;
    }
  }
}
