// Any number of builds of one conversation interleaved at their database accesses
// and summariser calls, with messages appended in between.
module ConversationProtocol {
  import opened Prelude
  import opened ConversationMemory
  import opened ConversationBuild

  // One summariser exchange that was really made.
  datatype Ask = Ask(previous: Option<string>, transcript: string, text: string)

  // One step of the stored summary: `batch` folded into `previous` gave `text`.
  datatype Fold = Fold(previous: Option<string>, batch: seq<Turn>, text: string)

  datatype Process =
    | Ready(call: Call, passes: nat)
    | Asked(call: Call, passes: nat, seen: Row, batch: seq<Turn>, previous: Option<string>, transcript: string)
    | Answered(call: Call, passes: nat, seen: Row, batch: seq<Turn>, previous: Option<string>, text: string)
    | Ended(call: Call, passes: nat, seen: Row, context: Context)

  datatype System = System(row: Row, procs: map<nat, Process>, asks: set<Ask>, folds: seq<Fold>)

  datatype Action =
    | Append(id: nat, sequence: nat, role: Role, content: string)
    | Begin(pid: nat, call: Call)
    | Load(pid: nat)
    | Reply(pid: nat, reply: Option<string>, text: string)
    | Swap(pid: nat)

  function Init(): System {
    System(Row([], None, 0, 0, []), map[], {}, [])
  }

  function LoadStep(row: Row, p: Process): Process
    requires p.Ready?
  {
    match Decide(p.call, row, p.passes)
    case Finish => Ended(p.call, p.passes, row, ResultOf(p.call, row))
    case Compress(batch) => Asked(p.call, p.passes + 1, row, batch, row.summary, Transcript(batch))
  }

  // An action that is not enabled changes nothing.
  ghost function Step(s: System, a: Action): System {
    match a
    case Append(id, sequence, role, content) =>
      if sequence != |s.row.messages| + 1 then s
      else s.(row := s.row.(messages := s.row.messages + [Message(id, sequence, role, content)]))
    case Begin(pid, call) =>
      if pid in s.procs || !call.Valid() || !(0 < call.current <= |s.row.messages|) then s
      else s.(procs := s.procs[pid := Ready(call, 0)])
    case Load(pid) =>
      if pid !in s.procs || !s.procs[pid].Ready? then s
      else s.(procs := s.procs[pid := LoadStep(s.row, s.procs[pid])])
    case Reply(pid, reply, text) =>
      if pid !in s.procs || !s.procs[pid].Asked? then s
      else
        var p := s.procs[pid];
        if reply.Some? && !IsBounded(reply.value, text, p.call.policy.target, p.call.est) then s
        else if reply.None? || text == "" then
          s.(procs := s.procs[pid := Ended(p.call, p.passes, p.seen, ResultOf(p.call, p.seen))])
        else
          s.(procs := s.procs[pid := Answered(p.call, p.passes, p.seen, p.batch, p.previous, text)],
             asks := s.asks + {Ask(p.previous, p.transcript, text)})
    case Swap(pid) =>
      if pid !in s.procs || !s.procs[pid].Answered? || s.procs[pid].batch == [] then s
      else
        var p := s.procs[pid];
        var procs := s.procs[pid := Ready(p.call, p.passes)];
        if SwapMatches(s.row, p)
        then s.(procs := procs, row := Swapped(s.row, p.batch, p.text),
                folds := s.folds + [Fold(p.previous, p.batch, p.text)])
        else s.(procs := procs)
  }

  // The compare-and-set finds the version and boundary the process loaded.
  predicate SwapMatches(row: Row, p: Process)
    requires p.Answered? && p.batch != []
  {
    && row.version == p.seen.version && row.through == p.seen.through
    && p.batch[|p.batch| - 1].assistant.sequence > p.seen.through
  }

  ghost function Run(s: System, actions: seq<Action>): System {
    if actions == [] then s
    else Step(Run(s, actions[..|actions| - 1]), actions[|actions| - 1])
  }

  // In a real exchange the summariser was shown the previous summary and a text that shows
  // exactly these turns, and the text came of it.
  ghost predicate WasShown(asks: set<Ask>, previous: Option<string>, batch: seq<Turn>, text: string) {
    exists shown :: Shows(shown, batch) && Ask(previous, shown, text) in asks
  }

  // The stored text comes from real exchanges that were shown exactly the turns of
  // `fed`, in order, each of them once.
  ghost predicate Derived(
      folds: seq<Fold>, summary: Option<string>, fed: seq<Turn>, asks: set<Ask>)
  {
    if folds == [] then summary == None && fed == []
    else
      var last := folds[|folds| - 1];
      var n := |fed| - |last.batch|;
      && n >= 0 && fed[n..] == last.batch
      && summary == Some(last.text)
      && WasShown(asks, last.previous, last.batch, last.text)
      && Derived(folds[..|folds| - 1], last.previous, fed[..n], asks)
  }

  lemma StillShown(asks: set<Ask>, more: set<Ask>, previous: Option<string>, batch: seq<Turn>, text: string)
    requires asks <= more && WasShown(asks, previous, batch, text)
    ensures WasShown(more, previous, batch, text)
  {
    var shown :| Shows(shown, batch) && Ask(previous, shown, text) in asks;
    assert Ask(previous, shown, text) in more;
  }

  lemma {:induction false} DerivedWithMoreAsks(
      folds: seq<Fold>, summary: Option<string>, fed: seq<Turn>, asks: set<Ask>, more: set<Ask>)
    requires Derived(folds, summary, fed, asks) && asks <= more
    ensures Derived(folds, summary, fed, more)
  {
    if folds != [] {
      var last := folds[|folds| - 1];
      StillShown(asks, more, last.previous, last.batch, last.text);
      DerivedWithMoreAsks(
        folds[..|folds| - 1], last.previous, fed[..|fed| - |last.batch|], asks, more);
    }
  }

  lemma DerivedWithOneMoreFold(
      folds: seq<Fold>, summary: Option<string>, fed: seq<Turn>, asks: set<Ask>,
      batch: seq<Turn>, text: string)
    requires Derived(folds, summary, fed, asks) && WasShown(asks, summary, batch, text)
    ensures Derived(folds + [Fold(summary, batch, text)], Some(text), fed + batch, asks)
  {
    assert (folds + [Fold(summary, batch, text)])[..|folds|] == folds;
    assert (fed + batch)[|fed|..] == batch && (fed + batch)[..|fed|] == fed;
  }

  ghost predicate ProcessInv(p: Process, row: Row, asks: set<Ask>) {
    && p.call.Valid() && 0 < p.call.current <= |row.messages|
    && p.passes <= p.call.policy.maxPasses
    && (!p.Ready? ==>
          Evolves(p.seen, row) && RowInv(p.seen) && p.call.current <= |p.seen.messages|)
    && (p.Asked? || p.Answered? ==>
          && p.passes > 0 && p.previous == p.seen.summary
          && Decide(p.call, p.seen, p.passes - 1) == Compress(p.batch))
    && (p.Asked? ==> Shows(p.transcript, p.batch))
    && (p.Answered? ==> WasShown(asks, p.previous, p.batch, p.text))
    && (p.Ended? ==> p.context == ResultOf(p.call, p.seen))
  }

  ghost predicate Inv(s: System) {
    && RowInv(s.row)
    && Derived(s.folds, s.row.summary, s.row.fed, s.asks)
    && forall pid | pid in s.procs :: ProcessInv(s.procs[pid], s.row, s.asks)
  }

  lemma ProcessInvIsStable(p: Process, row: Row, row': Row, asks: set<Ask>, asks': set<Ask>)
    requires ProcessInv(p, row, asks) && Evolves(row, row') && asks <= asks'
    ensures ProcessInv(p, row', asks')
  {
    if !p.Ready? {
      EvolvesTransitive(p.seen, row, row');
    }
    if p.Answered? {
      StillShown(asks, asks', p.previous, p.batch, p.text);
    }
  }

  // A process that has its answer holds a non-empty batch of its snapshot.
  lemma AnsweredBatch(s: System, pid: nat)
    requires Inv(s) && pid in s.procs && s.procs[pid].Answered?
    ensures var p := s.procs[pid];
            && p.batch != [] && p.batch <= Eligible(p.seen, p.call.current)
            && ProcessInv(p, s.row, s.asks)
  {
    var p := s.procs[pid];
    CompressMeans(p.call, p.seen, p.passes - 1);
  }

  // A swap that finds the version and the boundary its process loaded.
  lemma SwapStep(s: System, pid: nat)
    requires Inv(s) && pid in s.procs && s.procs[pid].Answered?
    requires s.row.version == s.procs[pid].seen.version
    ensures var p := s.procs[pid];
            && p.batch != [] && SwapMatches(s.row, p)
            && var row' := Swapped(s.row, p.batch, p.text);
               && Evolves(s.row, row') && s.row.through < row'.through
               && Derived(s.folds + [Fold(p.previous, p.batch, p.text)], row'.summary, row'.fed, s.asks)
  {
    AnsweredBatch(s, pid);
    var p := s.procs[pid];
    assert p.batch == Eligible(p.seen, p.call.current)[..|p.batch|];
    StaleFreeSwap(p.seen, s.row, p.call.current, |p.batch|, p.text);
    DerivedWithOneMoreFold(s.folds, s.row.summary, s.row.fed, s.asks, p.batch, p.text);
  }

  // What a swap makes of the row: the new summary if it matches, otherwise nothing.
  lemma SwapOutcome(s: System, pid: nat)
    requires pid in s.procs && s.procs[pid].Answered? && s.procs[pid].batch != []
    ensures var p := s.procs[pid];
            var s' := Step(s, Swap(pid));
            && s'.asks == s.asks
            && (SwapMatches(s.row, p) ==>
                  s'.row == Swapped(s.row, p.batch, p.text) &&
                  s'.folds == s.folds + [Fold(p.previous, p.batch, p.text)])
            && (!SwapMatches(s.row, p) ==> s'.row == s.row && s'.folds == s.folds)
  {
  }

  // Nothing but an append and a swap touches the row; replies only add to the asks.
  lemma OtherStepsKeepRow(s: System, a: Action)
    requires !a.Append? && !a.Swap?
    ensures var s' := Step(s, a);
            && s'.row == s.row && s'.folds == s.folds && s.asks <= s'.asks
  {
  }

  // The row moves only lawfully, so every other build may take the system for an
  // environment of the kind `Build` is proved against.
  lemma StepMovesRowLawfully(s: System, a: Action)
    requires Inv(s)
    ensures var s' := Step(s, a);
            && Evolves(s.row, s'.row) && s.asks <= s'.asks
            && Derived(s'.folds, s'.row.summary, s'.row.fed, s'.asks)
  {
    if a.Append? {
      if a.sequence == |s.row.messages| + 1 {
        AppendEvolves(s.row, Message(a.id, a.sequence, a.role, a.content));
      }
    } else if a.Swap? {
      if a.pid in s.procs && s.procs[a.pid].Answered? {
        AnsweredBatch(s, a.pid);
        SwapOutcome(s, a.pid);
        if SwapMatches(s.row, s.procs[a.pid]) {
          SwapStep(s, a.pid);
        }
      }
    } else {
      OtherStepsKeepRow(s, a);
      DerivedWithMoreAsks(s.folds, s.row.summary, s.row.fed, s.asks, Step(s, a).asks);
    }
  }

  lemma GivingUpKeepsProcess(p: Process, row: Row, asks: set<Ask>)
    requires p.Asked? && ProcessInv(p, row, asks)
    ensures ProcessInv(Ended(p.call, p.passes, p.seen, ResultOf(p.call, p.seen)), row, asks)
  {
  }

  lemma AnswerKeepsProcess(p: Process, row: Row, asks: set<Ask>, text: string)
    requires p.Asked? && ProcessInv(p, row, asks)
    ensures ProcessInv(Answered(p.call, p.passes, p.seen, p.batch, p.previous, text), row,
                       asks + {Ask(p.previous, p.transcript, text)})
  {
    var ask := Ask(p.previous, p.transcript, text);
    assert Shows(p.transcript, p.batch) && ask in asks + {ask};
  }

  // What a reply makes of the process that asked for it.
  lemma ReplyOutcome(s: System, a: Action)
    requires a.Reply? && a.pid in s.procs
    ensures var p, s' := s.procs[a.pid], Step(s, a);
            && a.pid in s'.procs
            && (|| (s'.procs[a.pid] == p && s'.asks == s.asks)
                || (p.Asked? && s'.asks == s.asks &&
                    s'.procs[a.pid] == Ended(p.call, p.passes, p.seen, ResultOf(p.call, p.seen)))
                || (p.Asked? && s'.asks == s.asks + {Ask(p.previous, p.transcript, a.text)} &&
                    s'.procs[a.pid] == Answered(p.call, p.passes, p.seen, p.batch, p.previous, a.text)))
  {
  }

  lemma ReplyKeepsProcess(s: System, a: Action, row: Row)
    requires a.Reply? && a.pid in s.procs && ProcessInv(s.procs[a.pid], row, s.asks)
    ensures var s' := Step(s, a);
            a.pid in s'.procs && ProcessInv(s'.procs[a.pid], row, s'.asks)
  {
    var p := s.procs[a.pid];
    ReplyOutcome(s, a);
    if p.Asked? {
      GivingUpKeepsProcess(p, row, s.asks);
      AnswerKeepsProcess(p, row, s.asks, a.text);
    }
  }

  lemma LoadStepKeepsProcess(row: Row, p: Process, asks: set<Ask>)
    requires RowInv(row) && ProcessInv(p, row, asks) && p.Ready?
    ensures ProcessInv(LoadStep(row, p), row, asks)
  {
    if Decide(p.call, row, p.passes).Compress? {
      TranscriptShows(Decide(p.call, row, p.passes).batch);
    }
  }

  lemma SwapStepReleasesProcess(s: System, pid: nat)
    requires pid in Step(s, Swap(pid)).procs
    ensures var s' := Step(s, Swap(pid));
            && pid in s.procs
            && (s'.procs[pid] == s.procs[pid] ||
                s'.procs[pid] == Ready(s.procs[pid].call, s.procs[pid].passes))
  {
  }

  lemma BystandersAreUntouched(s: System, a: Action, pid: nat)
    requires pid in Step(s, a).procs && (a.Append? || a.pid != pid)
    ensures pid in s.procs && Step(s, a).procs[pid] == s.procs[pid]
  {
  }

  lemma StepKeepsProcess(s: System, a: Action, pid: nat)
    requires Inv(s) && pid in Step(s, a).procs
    ensures ProcessInv(Step(s, a).procs[pid], Step(s, a).row, Step(s, a).asks)
  {
    var s' := Step(s, a);
    StepMovesRowLawfully(s, a);
    if pid in s.procs {
      ProcessInvIsStable(s.procs[pid], s.row, s'.row, s.asks, s'.asks);
    }
    if a.Append? || a.pid != pid {
      BystandersAreUntouched(s, a, pid);
    } else if a.Reply? {
      OtherStepsKeepRow(s, a);
      ReplyKeepsProcess(s, a, s.row);
    } else if a.Swap? {
      SwapStepReleasesProcess(s, pid);
    } else if a.Load? && pid in s.procs && s.procs[pid].Ready? {
      LoadStepKeepsProcess(s.row, s.procs[pid], s.asks);
    }
  }

  lemma StepKeepsInv(s: System, a: Action)
    requires Inv(s)
    ensures Inv(Step(s, a)) && Evolves(s.row, Step(s, a).row)
  {
    StepMovesRowLawfully(s, a);
    forall pid | pid in Step(s, a).procs
      ensures ProcessInv(Step(s, a).procs[pid], Step(s, a).row, Step(s, a).asks)
    {
      StepKeepsProcess(s, a, pid);
    }
  }

  lemma {:induction false} RunKeepsInv(s: System, actions: seq<Action>)
    requires Inv(s)
    ensures Inv(Run(s, actions)) && Evolves(s.row, Run(s, actions).row)
  {
    if actions != [] {
      var before := Run(s, actions[..|actions| - 1]);
      RunKeepsInv(s, actions[..|actions| - 1]);
      StepKeepsInv(before, actions[|actions| - 1]);
      EvolvesTransitive(s.row, before.row, Run(s, actions).row);
    }
  }

  // In every reachable state the summary was made from exactly the completed turns
  // that end at or before the boundary, in order and each once; the boundary closes
  // a turn; no process makes more calls than its policy allows.
  lemma EveryRunSummarisesEachTurnOnce(actions: seq<Action>)
    ensures var s := Run(Init(), actions);
            && Derived(s.folds, s.row.summary, s.row.fed, s.asks)
            && s.row.fed <= Turns(s.row.messages)
            && (forall i | 0 <= i < |Turns(s.row.messages)| ::
                  (Turns(s.row.messages)[i].assistant.sequence <= s.row.through <==>
                    i < |s.row.fed|))
            && (forall i, j | 0 <= i < j < |Turns(s.row.messages)| ::
                  Turns(s.row.messages)[i] != Turns(s.row.messages)[j])
            && Closes(s.row.messages, s.row.through)
            && (forall pid | pid in s.procs ::
                  s.procs[pid].passes <= s.procs[pid].call.policy.maxPasses)
  {
    var s := Run(Init(), actions);
    RunKeepsInv(Init(), actions);
    TurnsOfPrefix(s.row.messages, s.row.through);
    forall i, j | 0 <= i < j < |Turns(s.row.messages)|
      ensures Turns(s.row.messages)[i] != Turns(s.row.messages)[j]
    {
      TurnsEndInside(s.row.messages, j);
    }
  }

  // A swap takes effect exactly when its process's snapshot is still current, and
  // then boundary and version strictly increase.
  lemma SwapSucceedsExactlyWhenCurrent(s: System, pid: nat)
    requires Inv(s) && pid in s.procs && s.procs[pid].Answered?
    ensures var row' := Step(s, Swap(pid)).row;
            && (row' != s.row <==> s.row.version == s.procs[pid].seen.version)
            && (row' != s.row ==>
                  row'.version == s.row.version + 1 && row'.through > s.row.through &&
                  row'.fed == s.row.fed + s.procs[pid].batch)
  {
    AnsweredBatch(s, pid);
    SwapOutcome(s, pid);
    if s.row.version == s.procs[pid].seen.version {
      SwapStep(s, pid);
    }
  }

  // A context is flagged, or complete for the row it was made from: what the summary
  // covers followed by what is carried is all there is.
  ghost predicate Honest(p: Process, row: Row)
    requires p.Ended?
  {
    && Evolves(p.seen, row)
    && p.context.through == p.seen.through
    && (p.context.degraded ||
        (Carries(p.context.recent, Eligible(p.seen, p.call.current)) &&
         p.seen.fed + Eligible(p.seen, p.call.current) ==
           TurnsThrough(p.seen.messages, Max(p.seen.through, p.call.current - 1))))
  }

  // Every context any interleaved build returns is honest.
  lemma EveryAnswerIsHonest(actions: seq<Action>, pid: nat)
    requires pid in Run(Init(), actions).procs && Run(Init(), actions).procs[pid].Ended?
    ensures Honest(Run(Init(), actions).procs[pid], Run(Init(), actions).row)
  {
    RunKeepsInv(Init(), actions);
    EndedIsHonest(Run(Init(), actions), pid);
  }

  lemma EndedIsHonest(s: System, pid: nat)
    requires Inv(s) && pid in s.procs && s.procs[pid].Ended?
    ensures Honest(s.procs[pid], s.row)
  {
    assert ProcessInv(s.procs[pid], s.row, s.asks);
    AnswerIsHonest(s.procs[pid].call, s.procs[pid].seen);
  }

  lemma AnswerIsHonest(call: Call, seen: Row)
    requires call.Valid() && RowInv(seen) && 0 < call.current <= |seen.messages|
    ensures ResultOf(call, seen).through == seen.through
    ensures seen.fed + Eligible(seen, call.current) ==
              TurnsThrough(seen.messages, Max(seen.through, call.current - 1))
    ensures ResultOf(call, seen).degraded ||
            Carries(ResultOf(call, seen).recent, Eligible(seen, call.current))
  {
    FedAndEligibleAreEverything(seen, call.current);
    if !ResultOf(call, seen).degraded {
      NoSilentLoss(call, seen);
    }
  }
}
