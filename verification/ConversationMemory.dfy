// Conversation memory: the values the compression protocol works on, what it
// decides from one loaded snapshot, and why no completed turn is lost.
module ConversationMemory {
  import opened Prelude
  import opened Utf8
  import opened WhiteSpace

  // ---- Messages and completed turns ---------------------------------------

  datatype Role = User | Assistant | Tool

  datatype Message = Message(id: nat, sequence: nat, role: Role, content: string)

  datatype Turn = Turn(user: Message, assistant: Message)

  // The insert trigger numbers the messages of one conversation 1, 2, 3, ...
  ghost predicate Numbered(ms: seq<Message>) {
    forall i | 0 <= i < |ms| :: ms[i].sequence == i + 1
  }

  // The question still waiting for its answer at the end of `ms`.
  function Pending(ms: seq<Message>): Option<Message> {
    if ms == [] then None
    else
      var m := ms[|ms| - 1];
      match m.role
      case User => Some(m)
      case Assistant => None
      case Tool => Pending(ms[..|ms| - 1])
  }

  // The completed turns of `ms`: every answer paired with the latest open question.
  function Turns(ms: seq<Message>): seq<Turn> {
    if ms == [] then []
    else
      var init, m := ms[..|ms| - 1], ms[|ms| - 1];
      if m.role.Assistant? && Pending(init).Some?
      then Turns(init) + [Turn(Pending(init).value, m)]
      else Turns(init)
  }

  lemma {:induction false} TurnsEndInside(ms: seq<Message>, i: nat)
    requires Numbered(ms) && i < |Turns(ms)|
    ensures 0 < Turns(ms)[i].assistant.sequence <= |ms|
    ensures forall j | 0 <= j < i :: Turns(ms)[j].assistant.sequence < Turns(ms)[i].assistant.sequence
  {
    var init := ms[..|ms| - 1];
    if i < |Turns(init)| {
      TurnsEndInside(init, i);
    } else {
      forall j | 0 <= j < i ensures Turns(ms)[j].assistant.sequence < |ms| {
        TurnsEndInside(init, j);
      }
    }
  }

  // A boundary that closes a turn: nothing, or the sequence of a turn's answer.
  predicate Closes(ms: seq<Message>, b: nat) {
    b == 0 || (b <= |ms| && ms[b - 1].role.Assistant? && Pending(ms[..b - 1]).Some?)
  }

  // At a boundary no question is open, so turns never straddle it.
  lemma {:induction false} TurnsSplit(ms: seq<Message>, b: nat)
    requires b <= |ms| && Pending(ms[..b]) == None
    ensures Turns(ms) == Turns(ms[..b]) + Turns(ms[b..])
    ensures Pending(ms) == Pending(ms[b..])
    decreases |ms|
  {
    if b == |ms| {
      assert ms[..b] == ms && ms[b..] == [];
    } else {
      var init := ms[..|ms| - 1];
      assert init[..b] == ms[..b];
      assert ms[b..][..|ms[b..]| - 1] == init[b..];
      TurnsSplit(init, b);
    }
  }

  lemma ClosedHasNothingPending(ms: seq<Message>, b: nat)
    requires b <= |ms| && Closes(ms, b)
    ensures Pending(ms[..b]) == None
  {
    if b > 0 {
      assert ms[..b][..b - 1] == ms[..b - 1];
    }
  }

  // The turns of a prefix of the log are the turns of the log that end in it.
  lemma {:induction false} TurnsOfPrefix(ms: seq<Message>, b: nat)
    requires Numbered(ms) && b <= |ms|
    ensures Turns(ms[..b]) <= Turns(ms)
    ensures forall i | 0 <= i < |Turns(ms)| ::
              Turns(ms)[i].assistant.sequence <= b <==> i < |Turns(ms[..b])|
    decreases |ms|
  {
    if b == |ms| {
      assert ms[..b] == ms;
      forall i | 0 <= i < |Turns(ms)| ensures Turns(ms)[i].assistant.sequence <= b {
        TurnsEndInside(ms, i);
      }
    } else {
      var init := ms[..|ms| - 1];
      assert init[..b] == ms[..b];
      TurnsOfPrefix(init, b);
      assert forall i | 0 <= i < |Turns(init)| :: Turns(ms)[i] == Turns(init)[i];
    }
  }

  // A turn of the log ends at a closing boundary, and its prefix gives the turns up to it.
  lemma {:induction false} TurnEndCloses(ms: seq<Message>, i: nat)
    requires Numbered(ms) && i < |Turns(ms)|
    ensures var b := Turns(ms)[i].assistant.sequence;
            b <= |ms| && Closes(ms, b) && Turns(ms[..b]) == Turns(ms)[..i + 1]
  {
    var init := ms[..|ms| - 1];
    if i < |Turns(init)| {
      TurnEndCloses(init, i);
      var b := Turns(ms)[i].assistant.sequence;
      assert init[..b] == ms[..b] && init[..b - 1] == ms[..b - 1];
      assert Turns(init)[..i + 1] == Turns(ms)[..i + 1];
    } else {
      assert ms[..|ms|] == ms;
      assert Turns(ms)[..i + 1] == Turns(ms);
    }
  }

  // ---- The conversation row and what a load returns ------------------------

  // One conversation as PostgreSQL stores it. `fed` is history, not a column: the
  // turns whose transcripts went into the stored summary text.
  datatype Row = Row(
    messages: seq<Message>, summary: Option<string>, through: nat, version: nat, fed: seq<Turn>)

  ghost predicate RowInv(r: Row) {
    && Numbered(r.messages)
    && r.through <= |r.messages|
    && Closes(r.messages, r.through)
    && r.fed == Turns(r.messages[..r.through])
  }

  // What may happen to a row between two looks at it.
  ghost predicate Evolves(r: Row, r': Row) {
    && RowInv(r')
    && r.messages <= r'.messages
    && r.version <= r'.version
    && (r.version == r'.version ==>
          r'.summary == r.summary && r'.through == r.through && r'.fed == r.fed)
    && (r.version < r'.version ==> r.through < r'.through)
  }

  lemma EvolvesTransitive(a: Row, b: Row, c: Row)
    requires Evolves(a, b) && Evolves(b, c)
    ensures Evolves(a, c)
  {
  }

  // Rows selected by `_load`: between the boundary and the current message, tools left out.
  function Query(ms: seq<Message>, after: nat, before: nat): seq<Message> {
    if ms == [] then []
    else
      var m := ms[|ms| - 1];
      Query(ms[..|ms| - 1], after, before)
      + (if after < m.sequence < before && !m.role.Tool? then [m] else [])
  }

  function Window(ms: seq<Message>, after: nat, before: nat): seq<Message> {
    var hi := Min(before - 1, |ms|);
    if after <= hi then ms[after..hi] else []
  }

  lemma TurnsSnoc(ms: seq<Message>, m: Message)
    ensures Pending(ms + [m]) ==
              match m.role case User => Some(m) case Assistant => None case Tool => Pending(ms)
    ensures Turns(ms + [m]) ==
              if m.role.Assistant? && Pending(ms).Some?
              then Turns(ms) + [Turn(Pending(ms).value, m)] else Turns(ms)
  {
    assert (ms + [m])[..|ms|] == ms;
  }

  lemma WindowSnoc(ms: seq<Message>, after: nat, before: nat)
    requires ms != []
    ensures var w := Window(ms[..|ms| - 1], after, before);
            Window(ms, after, before) == if after < |ms| < before then w + [ms[|ms| - 1]] else w
  {
  }

  lemma {:induction false} QueryTurns(ms: seq<Message>, after: nat, before: nat)
    requires Numbered(ms)
    ensures Turns(Query(ms, after, before)) == Turns(Window(ms, after, before))
    ensures Pending(Query(ms, after, before)) == Pending(Window(ms, after, before))
  {
    if ms != [] {
      var init, m := ms[..|ms| - 1], ms[|ms| - 1];
      QueryTurns(init, after, before);
      WindowSnoc(ms, after, before);
      var q, w := Query(init, after, before), Window(init, after, before);
      assert Query(ms, after, before)
          == if after < |ms| < before && !m.role.Tool? then q + [m] else q;
      TurnsSnoc(q, m);
      TurnsSnoc(w, m);
    }
  }

  function IndexOf(ms: seq<Message>, id: nat): (r: Option<nat>)
    ensures r.Some? ==> r.value < |ms| && ms[r.value].id == id
  {
    if ms == [] then None
    else if ms[0].id == id then Some(0)
    else match IndexOf(ms[1..], id)
      case None => None
      case Some(i) => Some(i + 1)
  }

  lemma {:induction false} IndexOfInPrefix(ms: seq<Message>, more: seq<Message>, id: nat)
    requires ms <= more && IndexOf(ms, id).Some?
    ensures IndexOf(more, id) == IndexOf(ms, id)
  {
    if ms[0].id != id {
      IndexOfInPrefix(ms[1..], more[1..], id);
    }
  }

  // The sequence of the current message, when it exists and is a USER message.
  function CurrentSequence(r: Row, currentId: nat): (s: Option<nat>) {
    match IndexOf(r.messages, currentId)
    case None => None
    case Some(i) => if r.messages[i].role.User? then Some(r.messages[i].sequence) else None
  }

  // The turns one load hands to the protocol.
  function Eligible(r: Row, current: nat): seq<Turn> {
    Turns(Query(r.messages, r.through, current))
  }

  // The turns already in the summary followed by the eligible ones are all the
  // completed turns before the current message (or before the boundary, if a
  // competing build has already moved it past the current message).
  lemma FedAndEligibleAreEverything(r: Row, current: nat)
    requires RowInv(r) && 0 < current <= |r.messages|
    ensures r.fed + Eligible(r, current) == Turns(r.messages[..Max(r.through, current - 1)])
  {
    var ms, b := r.messages, r.through;
    QueryTurns(ms, b, current);
    if b <= current - 1 {
      var upTo := ms[..current - 1];
      assert upTo[..b] == ms[..b] && upTo[b..] == Window(ms, b, current);
      ClosedHasNothingPending(ms, b);
      TurnsSplit(upTo, b);
    } else {
      assert Window(ms, b, current) == [];
    }
  }

  // All completed turns that end at or before sequence `n`.
  function TurnsThrough(ms: seq<Message>, n: nat): seq<Turn> {
    Turns(ms[..Min(n, |ms|)])
  }

  // ---- Sizes in estimated tokens -------------------------------------------

  type Estimator = string -> nat

  // What the binary search and the budget arithmetic rely on.
  ghost predicate Monotone(est: Estimator) {
    && est("") == 0
    && forall s: string, t: string :: |Encode(s)| <= |Encode(t)| ==> est(s) <= est(t)
  }

  // The estimators in use count UTF-8 bytes.
  lemma ByteEstimatorIsMonotone()
    ensures Monotone((s: string) => |Encode(s)|)
  {
    var est: Estimator := (s: string) => |Encode(s)|;
    assert est("") == 0;
    assert Monotone(est);
  }

  function TurnSize(t: Turn, est: Estimator): (n: nat)
    ensures n >= 64
  {
    est(t.user.content) + est(t.assistant.content) + 64
  }

  function SizeOf(ts: seq<Turn>, est: Estimator): nat {
    if ts == [] then 0 else TurnSize(ts[0], est) + SizeOf(ts[1..], est)
  }

  // A longer suffix is strictly larger.
  lemma {:induction false} LongerSuffixIsLarger(ts: seq<Turn>, i: nat, j: nat, est: Estimator)
    requires i < j <= |ts|
    ensures SizeOf(ts[j..], est) < SizeOf(ts[i..], est)
    decreases j - i
  {
    assert ts[i..][1..] == ts[i + 1..];
    if i + 1 < j {
      LongerSuffixIsLarger(ts, i + 1, j, est);
    }
  }

  function SummaryText(summary: Option<string>): string {
    if summary.Some? then summary.value else ""
  }

  function ContextSize(summary: Option<string>, ts: seq<Turn>, est: Estimator): nat {
    est(SummaryText(summary)) + SizeOf(ts, est)
  }

  // ---- Policy ----------------------------------------------------------------

  datatype Policy = Policy(
    historyBudget: int, trigger: int, target: int, summaryInput: int, minimumRecent: int, maxPasses: int)
  {
    // `__post_init__`: the constructor refuses anything else.
    predicate Valid() {
      && historyBudget > 0
      && 0 < target < trigger <= historyBudget
      && summaryInput > 0
      && minimumRecent >= 2
      && maxPasses > 0
    }
  }

  // `from_budget`, with ratios taken exactly; None is the ValueError.
  function FromBudget(history: int): (r: Option<Policy>)
    requires history > 0
    ensures r.Some? ==> r.value.Valid()
  {
    var p := Policy(
      history,
      Max(1, (history as real * 0.85).Floor),
      Max(1, (history as real * 0.5).Floor),
      Max(1, (history as real * 0.5).Floor),
      2, 32);
    if p.Valid() then Some(p) else None
  }

  // The smallest budgets a context budget allows, 1 and 2, give no policy; all others do.
  lemma FromBudgetNeedsThree(history: int)
    requires history > 0
    ensures FromBudget(history).Some? <==> history >= 3
  {
    var h := history as real;
    var trigger, target := (h * 0.85).Floor, (h * 0.5).Floor;
    assert trigger as real <= h * 0.85 < trigger as real + 1.0;
    assert target as real <= h * 0.5 < target as real + 1.0;
    if history >= 3 {
      if history == 3 {
        assert trigger == 2 && target == 1;
      } else if history < 7 {
        assert history == 4 || history == 5 || history == 6;
      }
    } else {
      assert target <= 1 && trigger <= 1;
    }
  }

  // The thresholds: 85 and 50 hundredths of the budget, rounded down, at least two recent
  // turns and at most 32 calls.
  lemma FromBudgetThresholds(history: int)
    requires history >= 3
    ensures FromBudget(history) == Some(Policy(history, history * 85 / 100, history / 2, history / 2, 2, 32))
  {
    FromBudgetNeedsThree(history);
    FloorOfHundredths(history * 85, history as real * 0.85);
    FloorOfHalves(history, history as real * 0.5);
  }

  lemma FloorOfHundredths(n: int, x: real)
    requires 100.0 * x == n as real
    ensures x.Floor == n / 100
  {
    var q := n / 100;
    assert (100 * q) as real <= 100.0 * x < (100 * q + 100) as real;
  }

  lemma FloorOfHalves(n: int, x: real)
    requires 2.0 * x == n as real
    ensures x.Floor == n / 2
  {
    var q := n / 2;
    assert (2 * q) as real <= 2.0 * x < (2 * q + 2) as real;
  }

  // The current message is the question with this id.
  lemma CurrentSequenceMeans(r: Row, currentId: nat)
    requires forall i, j | 0 <= i < j < |r.messages| :: r.messages[i].id != r.messages[j].id
    ensures CurrentSequence(r, currentId).None? <==>
              forall m | m in r.messages :: m.id != currentId || !m.role.User?
    ensures forall m | m in r.messages && m.id == currentId && m.role.User? ::
              CurrentSequence(r, currentId) == Some(m.sequence)
  {
    IndexOfIsFirst(r.messages, currentId);
    forall m | m in r.messages && m.id == currentId
      ensures IndexOf(r.messages, currentId).Some? && r.messages[IndexOf(r.messages, currentId).value] == m
    {
      var k :| 0 <= k < |r.messages| && r.messages[k] == m;
    }
  }

  lemma {:induction false} IndexOfIsFirst(ms: seq<Message>, id: nat)
    ensures match IndexOf(ms, id)
            case None => forall i | 0 <= i < |ms| :: ms[i].id != id
            case Some(k) => forall i | 0 <= i < k :: ms[i].id != id
  {
    if ms != [] && ms[0].id != id {
      IndexOfIsFirst(ms[1..], id);
      assert forall i | 1 <= i < |ms| :: ms[i] == ms[1..][i - 1];
    }
  }

  // ---- Greedy selections ------------------------------------------------------

  // Keeping the last `k` turns is admissible when they are protected or fit.
  predicate Admissible(ts: seq<Turn>, k: nat, base: nat, budget: int, minimumRecent: int, est: Estimator)
    requires k <= |ts|
  {
    k <= minimumRecent || base + SizeOf(ts[|ts| - k..], est) <= budget
  }

  // How many recent turns `_result` keeps, starting from `k` already kept.
  function Kept(ts: seq<Turn>, k: nat, base: nat, budget: int, minimumRecent: int, est: Estimator): (n: nat)
    requires k <= |ts|
    ensures k <= n <= |ts|
    decreases |ts| - k
  {
    if k == |ts| then k
    else if Admissible(ts, k + 1, base, budget, minimumRecent, est)
    then Kept(ts, k + 1, base, budget, minimumRecent, est)
    else k
  }

  lemma LongerIsInadmissible(
      ts: seq<Turn>, k: nat, j: nat, base: nat, budget: int, minimumRecent: int, est: Estimator)
    requires k <= j <= |ts| && !Admissible(ts, k, base, budget, minimumRecent, est)
    ensures !Admissible(ts, j, base, budget, minimumRecent, est)
  {
    if k < j {
      LongerSuffixIsLarger(ts, |ts| - j, |ts| - k, est);
    }
  }

  // The greedy choice is the longest admissible suffix.
  lemma {:induction false} KeptIsLongest(
      ts: seq<Turn>, k: nat, base: nat, budget: int, minimumRecent: int, est: Estimator)
    requires k <= |ts| && minimumRecent >= 0 && Admissible(ts, k, base, budget, minimumRecent, est)
    ensures var n := Kept(ts, k, base, budget, minimumRecent, est);
            && Admissible(ts, n, base, budget, minimumRecent, est)
            && (forall j | n < j <= |ts| :: !Admissible(ts, j, base, budget, minimumRecent, est))
    decreases |ts| - k
  {
    if k < |ts| {
      if Admissible(ts, k + 1, base, budget, minimumRecent, est) {
        KeptIsLongest(ts, k + 1, base, budget, minimumRecent, est);
      } else {
        forall j | k < j <= |ts|
          ensures !Admissible(ts, j, base, budget, minimumRecent, est)
        {
          LongerIsInadmissible(ts, k + 1, j, base, budget, minimumRecent, est);
        }
      }
    }
  }

  // How many turns from the front fit one summariser transcript.
  function Fitting(ts: seq<Turn>, limit: int, est: Estimator): (n: nat)
    ensures n <= |ts|
  {
    if ts == [] || TurnSize(ts[0], est) > limit then 0
    else 1 + Fitting(ts[1..], limit - TurnSize(ts[0], est), est)
  }

  // The batch is the longest prefix within the limit.
  lemma {:induction false} FittingIsLongest(ts: seq<Turn>, limit: int, est: Estimator)
    requires limit >= 0
    ensures SizeOf(ts[..Fitting(ts, limit, est)], est) <= limit
    ensures forall j | Fitting(ts, limit, est) < j <= |ts| :: SizeOf(ts[..j], est) > limit
  {
    if ts != [] {
      forall j | 1 <= j <= |ts|
        ensures SizeOf(ts[..j], est) == TurnSize(ts[0], est) + SizeOf(ts[1..][..j - 1], est)
      {
        assert ts[..j][1..] == ts[1..][..j - 1];
      }
      if TurnSize(ts[0], est) <= limit {
        FittingIsLongest(ts[1..], limit - TurnSize(ts[0], est), est);
      }
    }
  }

  // ---- One decision of the loop ------------------------------------------------

  // The arguments of `build` that stay fixed over one call.
  datatype Call = Call(current: nat, policy: Policy, effectiveBudget: int, est: Estimator)
  {
    ghost predicate Valid() {
      policy.Valid() && effectiveBudget > 0 && Monotone(est)
    }

    function Trigger(): int {
      Min(policy.trigger, effectiveBudget)
    }
  }

  datatype Decision = Finish | Compress(batch: seq<Turn>)

  function Compressible(ts: seq<Turn>, minimumRecent: int): seq<Turn> {
    if 0 <= minimumRecent <= |ts| then ts[..|ts| - minimumRecent] else []
  }

  function Batch(call: Call, ts: seq<Turn>): seq<Turn> {
    var compressible := Compressible(ts, call.policy.minimumRecent);
    compressible[..Fitting(compressible, call.policy.summaryInput, call.est)]
  }

  // What the loop does with a snapshot after `passes` summariser calls.
  function Decide(call: Call, row: Row, passes: nat): Decision {
    var ts := Eligible(row, call.current);
    if ContextSize(row.summary, ts, call.est) <= call.Trigger() then Finish
    else if Batch(call, ts) == [] || passes >= call.policy.maxPasses then Finish
    else Compress(Batch(call, ts))
  }

  datatype Context = Context(
    summary: Option<string>, recent: seq<Message>, through: nat, degraded: bool)

  function Selected(call: Call, row: Row): seq<Turn> {
    var ts := Eligible(row, call.current);
    ts[|ts| - Kept(ts, 0, call.est(SummaryText(row.summary)), call.effectiveBudget,
                   call.policy.minimumRecent, call.est)..]
  }

  function Flatten(ts: seq<Turn>): seq<Message> {
    if ts == [] then [] else [ts[0].user, ts[0].assistant] + Flatten(ts[1..])
  }

  // The messages are the questions and answers of these turns, in order.
  ghost predicate Carries(ms: seq<Message>, ts: seq<Turn>) {
    && |ms| == 2 * |ts|
    && forall i | 0 <= i < |ts| :: ms[2 * i] == ts[i].user && ms[2 * i + 1] == ts[i].assistant
  }

  lemma {:induction false} FlattenCarries(ts: seq<Turn>)
    ensures Carries(Flatten(ts), ts)
  {
    if ts != [] {
      FlattenCarries(ts[1..]);
      var rest := Flatten(ts[1..]);
      assert Flatten(ts) == [ts[0].user, ts[0].assistant] + rest;
      forall i | 0 <= i < |ts|
        ensures Flatten(ts)[2 * i] == ts[i].user && Flatten(ts)[2 * i + 1] == ts[i].assistant
      {
        if i > 0 {
          assert ts[i] == ts[1..][i - 1];
          assert Flatten(ts)[2 * i] == rest[2 * (i - 1)] && Flatten(ts)[2 * i + 1] == rest[2 * (i - 1) + 1];
        }
      }
    }
  }

  // `_result`: the context returned from one snapshot.
  function ResultOf(call: Call, row: Row): Context {
    var selected := Selected(call, row);
    Context(row.summary, Flatten(selected), row.through,
            |selected| < |Eligible(row, call.current)|)
  }

  function Transcript(ts: seq<Turn>): string {
    Join(seq(|ts|, i requires 0 <= i < |ts| => TurnTranscript(ts[i])), "\n\n")
  }

  function TurnTranscript(t: Turn): string {
    "USER: " + t.user.content + "\nASSISTANT: " + t.assistant.content
  }

  // What one turn looks like to the summariser.
  ghost predicate Renders(piece: string, t: Turn) {
    var q, a := |t.user.content|, |t.assistant.content|;
    && |piece| == 6 + q + 12 + a
    && piece[..6] == "USER: " && piece[6..6 + q] == t.user.content
    && piece[6 + q..18 + q] == "\nASSISTANT: " && piece[18 + q..] == t.assistant.content
  }

  // The text shows these turns, all of them in order, with an empty line in between, and
  // nothing else.
  ghost predicate Shows(text: string, ts: seq<Turn>) {
    exists pieces, starts, ends ::
      JoinedAt(text, pieces, "\n\n", starts, ends) && RendersAll(pieces, ts)
  }

  ghost predicate RendersAll(pieces: seq<string>, ts: seq<Turn>) {
    |pieces| == |ts| && forall i | 0 <= i < |ts| :: Renders(pieces[i], ts[i])
  }

  lemma TurnTranscriptRenders(t: Turn)
    ensures Renders(TurnTranscript(t), t)
  {
  }

  lemma TranscriptShows(ts: seq<Turn>)
    ensures Shows(Transcript(ts), ts)
  {
    var pieces := seq(|ts|, i requires 0 <= i < |ts| => TurnTranscript(ts[i]));
    forall i | 0 <= i < |ts| ensures Renders(pieces[i], ts[i]) {
      TurnTranscriptRenders(ts[i]);
    }
    var starts, ends := JoinIsJoined(pieces, "\n\n");
    assert RendersAll(pieces, ts);
  }

  // Only one text shows given turns.
  lemma ShownTextIsUnique(a: string, b: string, ts: seq<Turn>)
    requires Shows(a, ts) && Shows(b, ts)
    ensures a == b
  {
    var p, s1, e1 :| JoinedAt(a, p, "\n\n", s1, e1) && RendersAll(p, ts);
    var q, s2, e2 :| JoinedAt(b, q, "\n\n", s2, e2) && RendersAll(q, ts);
    RenderingsAreUnique(p, q, ts);
    JoinedIsUnique(a, b, p, "\n\n", s1, e1, s2, e2);
  }

  lemma RenderingsAreUnique(p: seq<string>, q: seq<string>, ts: seq<Turn>)
    requires RendersAll(p, ts) && RendersAll(q, ts)
    ensures p == q
  {
    forall i | 0 <= i < |ts| ensures p[i] == q[i] {
      RenderingIsUnique(p[i], q[i], ts[i]);
    }
  }

  lemma RenderingIsUnique(a: string, b: string, t: Turn)
    requires Renders(a, t) && Renders(b, t)
    ensures a == b
  {
    var q := |t.user.content|;
    assert a == a[..6] + a[6..6 + q] + a[6 + q..18 + q] + a[18 + q..];
    assert b == b[..6] + b[6..6 + q] + b[6 + q..18 + q] + b[18 + q..];
  }

  // ---- No silent loss --------------------------------------------------------------

  // A returned context is degraded exactly when the eligible turns neither are all
  // protected nor fit the budget together with the summary.
  lemma DegradedExactlyWhen(call: Call, row: Row)
    requires call.Valid()
    ensures var ts := Eligible(row, call.current);
            ResultOf(call, row).degraded <==>
              (|ts| > call.policy.minimumRecent &&
               ContextSize(row.summary, ts, call.est) > call.effectiveBudget)
  {
    var ts := Eligible(row, call.current);
    var base, m := call.est(SummaryText(row.summary)), call.policy.minimumRecent;
    var kept := Kept(ts, 0, base, call.effectiveBudget, m, call.est);
    assert ResultOf(call, row).degraded <==> kept < |ts|;
    assert kept == |ts| <==> Admissible(ts, |ts|, base, call.effectiveBudget, m, call.est) by {
      KeptIsLongest(ts, 0, base, call.effectiveBudget, m, call.est);
    }
    assert ts[|ts| - |ts|..] == ts;
  }

  // A context that is not flagged carries every eligible turn, and the summarised
  // turns followed by the carried ones are all the completed turns there are.
  lemma NoSilentLoss(call: Call, row: Row)
    requires call.Valid() && RowInv(row) && 0 < call.current <= |row.messages|
    requires !ResultOf(call, row).degraded
    ensures Carries(ResultOf(call, row).recent, Eligible(row, call.current))
    ensures row.fed + Selected(call, row) ==
              Turns(row.messages[..Max(row.through, call.current - 1)])
  {
    var ts := Eligible(row, call.current);
    assert Selected(call, row) == ts;
    FlattenCarries(ts);
    FedAndEligibleAreEverything(row, call.current);
  }

  // Leaving the loop because the context is under the trigger never drops a turn.
  lemma UnderTriggerIsNeverDegraded(call: Call, row: Row)
    requires call.Valid() && RowInv(row) && 0 < call.current <= |row.messages|
    requires ContextSize(row.summary, Eligible(row, call.current), call.est) <= call.Trigger()
    ensures !ResultOf(call, row).degraded
  {
    DegradedExactlyWhen(call, row);
  }

  // The comment at line 221 says an empty batch leaves only the protected turns. That
  // holds exactly unless the first compressible turn alone exceeds the transcript budget.
  lemma EmptyBatchMeans(call: Call, row: Row)
    requires call.Valid()
    ensures var ts := Eligible(row, call.current);
            Batch(call, ts) == [] <==>
              (|ts| <= call.policy.minimumRecent ||
               TurnSize(ts[0], call.est) > call.policy.summaryInput)
  {
    var ts := Eligible(row, call.current);
    if |ts| > call.policy.minimumRecent {
      assert Compressible(ts, call.policy.minimumRecent)[0] == ts[0];
    }
  }

  function Question(n: nat): Message {
    Message(n, n, User, "a")
  }

  function Reply(n: nat): Message {
    Message(n, n, Assistant, "b")
  }

  lemma AnsweredQuestion(ms: seq<Message>, n: nat)
    ensures Turns(ms + [Question(n)] + [Reply(n + 1)]) == Turns(ms) + [Turn(Question(n), Reply(n + 1))]
  {
    TurnsSnoc(ms, Question(n));
    TurnsSnoc(ms + [Question(n)], Reply(n + 1));
  }

  lemma ThreeAnswers()
    ensures Turns([Question(1), Reply(2), Question(3), Reply(4), Question(5), Reply(6)])
         == [Turn(Question(1), Reply(2)), Turn(Question(3), Reply(4)), Turn(Question(5), Reply(6))]
  {
    var one := [] + [Question(1)] + [Reply(2)];
    var two := one + [Question(3)] + [Reply(4)];
    AnsweredQuestion([], 1);
    AnsweredQuestion(one, 3);
    AnsweredQuestion(two, 5);
    assert two + [Question(5)] + [Reply(6)]
        == [Question(1), Reply(2), Question(3), Reply(4), Question(5), Reply(6)];
  }

  // A row for which the comment is wrong: three answered questions before the current one,
  // a history budget of 128 and one token per byte. The first turn costs 66 tokens and the
  // transcript budget is 64, so the batch is empty although only two turns are protected;
  // the context is flagged.
  lemma LargeFirstTurnGivesEmptyBatch()
    ensures var call := Call(7, FromBudget(128).value, 128, (s: string) => |Encode(s)|);
            var row := Row([Question(1), Reply(2), Question(3), Reply(4), Question(5), Reply(6), Question(7)],
                           None, 0, 0, []);
            && FromBudget(128).Some? && call.Valid() && RowInv(row)
            && |Eligible(row, call.current)| == 3 && Batch(call, Eligible(row, call.current)) == []
            && ResultOf(call, row).degraded
  {
    FromBudgetNeedsThree(128);
    ByteEstimatorIsMonotone();
    var call := Call(7, FromBudget(128).value, 128, (s: string) => |Encode(s)|);
    var answered := [Question(1), Reply(2), Question(3), Reply(4), Question(5), Reply(6)];
    var row := Row(answered + [Question(7)], None, 0, 0, []);
    assert row.messages
        == [Question(1), Reply(2), Question(3), Reply(4), Question(5), Reply(6), Question(7)];
    assert call.Valid() && RowInv(row);
    var ts := Eligible(row, 7);
    assert ts == Turns(answered) by {
      QueryTurns(row.messages, 0, 7);
      assert Window(row.messages, 0, 7) == answered;
    }
    ThreeAnswers();
    ContentsCostOneToken(call, ts);
    EmptyBatchMeans(call, row);
    DegradedExactlyWhen(call, row);
  }

  lemma ContentsCostOneToken(call: Call, ts: seq<Turn>)
    requires forall s: string :: call.est(s) == |Encode(s)|
    requires |ts| == 3 && forall i | 0 <= i < 3 :: ts[i].user.content == "a" && ts[i].assistant.content == "b"
    ensures TurnSize(ts[0], call.est) == 66 && SizeOf(ts, call.est) == 198
  {
    assert Encode("a") == EncodeChar('a') + Encode("") && Encode("b") == EncodeChar('b') + Encode("");
    assert ts[1..][0] == ts[1] && ts[1..][1..] == [ts[2]];
    assert SizeOf(ts[1..], call.est) == TurnSize(ts[1], call.est) + SizeOf([ts[2]], call.est);
    assert SizeOf([ts[2]], call.est) == TurnSize(ts[2], call.est) + SizeOf([], call.est);
  }

  // Why the loop goes on: the context is too large, and the batch is a part of the turns
  // before the protected ones that fits one transcript.
  lemma CompressMeans(call: Call, row: Row, passes: nat)
    requires call.Valid() && Decide(call, row, passes).Compress?
    ensures var ts, batch := Eligible(row, call.current), Decide(call, row, passes).batch;
            && ContextSize(row.summary, ts, call.est) > Min(call.policy.trigger, call.effectiveBudget)
            && passes < call.policy.maxPasses && batch != [] && batch <= ts
            && |batch| <= |ts| - call.policy.minimumRecent
            && SizeOf(batch, call.est) <= call.policy.summaryInput
            && (|batch| < |ts| - call.policy.minimumRecent ==>
                  SizeOf(ts[..|batch| + 1], call.est) > call.policy.summaryInput)
  {
    var ts := Eligible(row, call.current);
    var compressible := Compressible(ts, call.policy.minimumRecent);
    FittingIsLongest(compressible, call.policy.summaryInput, call.est);
    var n := Fitting(compressible, call.policy.summaryInput, call.est);
    if n < |compressible| {
      assert compressible[..n + 1] == ts[..n + 1];
    }
  }

  // Why it ends without a call.
  lemma FinishMeans(call: Call, row: Row, passes: nat)
    requires call.Valid() && Decide(call, row, passes).Finish?
    ensures var ts := Eligible(row, call.current);
            || ContextSize(row.summary, ts, call.est) <= Min(call.policy.trigger, call.effectiveBudget)
            || |ts| <= call.policy.minimumRecent || TurnSize(ts[0], call.est) > call.policy.summaryInput
            || passes >= call.policy.maxPasses
  {
    EmptyBatchMeans(call, row);
  }

  // ---- What a context costs ---------------------------------------------------------

  function EstimateAll(ms: seq<Message>, est: Estimator): nat {
    if ms == [] then 0 else est(ms[0].content) + EstimateAll(ms[1..], est)
  }

  // The size of a context is the estimate of its summary and of every message, and 64 for
  // each turn.
  lemma ContextSizeIs(summary: Option<string>, ts: seq<Turn>, ms: seq<Message>, est: Estimator)
    requires Monotone(est) && Carries(ms, ts)
    ensures ContextSize(summary, ts, est) ==
              (if summary.Some? then est(summary.value) else 0) + EstimateAll(ms, est) + 64 * |ts|
  {
    SizeOfIs(ts, ms, est);
  }

  lemma {:induction false} SizeOfIs(ts: seq<Turn>, ms: seq<Message>, est: Estimator)
    requires Carries(ms, ts)
    ensures SizeOf(ts, est) == EstimateAll(ms, est) + 64 * |ts|
    decreases |ts|
  {
    if ts != [] {
      assert ms[0] == ts[0].user && ms[1] == ts[0].assistant by {
        assert ms[2 * 0] == ts[0].user && ms[2 * 0 + 1] == ts[0].assistant;
      }
      var rest := ms[2..];
      assert ms[1..][0] == ms[1] && ms[1..][1..] == rest;
      forall i | 0 <= i < |ts[1..]|
        ensures rest[2 * i] == ts[1..][i].user && rest[2 * i + 1] == ts[1..][i].assistant
      {
        assert ts[1..][i] == ts[i + 1] && rest[2 * i] == ms[2 * (i + 1)] && rest[2 * i + 1] == ms[2 * (i + 1) + 1];
      }
      SizeOfIs(ts[1..], rest, est);
    }
  }

  // ---- What a successful swap does --------------------------------------------------

  function Swapped(row: Row, batch: seq<Turn>, text: string): Row
    requires batch != []
  {
    row.(summary := Some(text), through := batch[|batch| - 1].assistant.sequence,
         version := row.version + 1, fed := row.fed + batch)
  }

  lemma BoundaryBeforeCurrent(row: Row, current: nat)
    requires Numbered(row.messages) && Eligible(row, current) != []
    ensures row.through < Min(current - 1, |row.messages|)
  {
    QueryTurns(row.messages, row.through, current);
    assert Window(row.messages, row.through, current) != [];
  }

  // A turn of a prefix of the log ends at a closing boundary of the log.
  lemma TurnEndClosesLater(ms: seq<Message>, upTo: seq<Message>, i: nat)
    requires Numbered(ms) && upTo <= ms && i < |Turns(upTo)|
    ensures var b := Turns(upTo)[i].assistant.sequence;
            b <= |upTo| && Closes(ms, b) && Turns(ms[..b]) == Turns(upTo)[..i + 1]
  {
    TurnEndCloses(upTo, i);
    var b := Turns(upTo)[i].assistant.sequence;
    assert upTo[..b] == ms[..b];
    if b > 0 {
      assert upTo[..b - 1] == ms[..b - 1];
    }
  }

  // A turn beyond those of a prefix ends after it.
  lemma LaterTurnEndsLater(ms: seq<Message>, b: nat, i: nat)
    requires Numbered(ms) && b <= |ms| && |Turns(ms[..b])| <= i < |Turns(ms)|
    ensures Turns(ms)[i].assistant.sequence > b
  {
    TurnsOfPrefix(ms, b);
  }

  // The n-th eligible turn is a turn of the whole log, right after the ones fed before.
  lemma EligibleTurnsOfLog(row: Row, current: nat, n: nat)
    requires RowInv(row) && 0 < current <= |row.messages|
    requires 0 < n <= |Eligible(row, current)|
    ensures var b' := Eligible(row, current)[n - 1].assistant.sequence;
            && row.through < b' < current && Closes(row.messages, b')
            && Turns(row.messages[..b']) == row.fed + Eligible(row, current)[..n]
  {
    var ms, ts, i := row.messages, Eligible(row, current), |row.fed| + n - 1;
    var upTo := ms[..current - 1];
    assert row.through < current - 1 by {
      BoundaryBeforeCurrent(row, current);
    }
    assert Turns(upTo) == row.fed + ts by {
      FedAndEligibleAreEverything(row, current);
    }
    SliceOfAppend(row.fed, ts, n - 1, n);
    CutOfAppend(row.fed, ts, i + 1);
    TurnEndClosesLater(ms, upTo, i);
    assert upTo[..row.through] == ms[..row.through];
    LaterTurnEndsLater(upTo, row.through, i);
  }

  // Any non-empty prefix of the eligible turns may be folded into the summary: the
  // new boundary closes a turn, lies strictly further, and covers exactly the turns fed.
  lemma SwapKeepsInvariant(row: Row, current: nat, n: nat, text: string)
    requires RowInv(row) && 0 < current <= |row.messages|
    requires 0 < n <= |Eligible(row, current)|
    ensures var batch := Eligible(row, current)[..n];
            row.through < batch[n - 1].assistant.sequence < current &&
            Evolves(row, Swapped(row, batch, text))
  {
    var ts := Eligible(row, current);
    var batch := ts[..n];
    assert batch[|batch| - 1] == ts[n - 1];
    EligibleTurnsOfLog(row, current, n);
    FoldingKeepsInvariant(row, batch, text);
  }

  lemma FoldingKeepsInvariant(row: Row, batch: seq<Turn>, text: string)
    requires RowInv(row) && batch != []
    requires var b' := batch[|batch| - 1].assistant.sequence;
             && row.through < b' <= |row.messages| && Closes(row.messages, b')
             && Turns(row.messages[..b']) == row.fed + batch
    ensures Evolves(row, Swapped(row, batch, text))
  {
  }

  // Rows that differ only by later messages hand out the same turns.
  lemma EligibleIsStable(row: Row, row': Row, current: nat)
    requires Numbered(row.messages) && Numbered(row'.messages) && row.messages <= row'.messages
    requires row.through == row'.through && current <= |row.messages|
    ensures Eligible(row, current) == Eligible(row', current)
  {
    QueryTurns(row.messages, row.through, current);
    QueryTurns(row'.messages, row'.through, current);
    assert Window(row.messages, row.through, current) == Window(row'.messages, row'.through, current);
  }

  lemma AppendCancels<T>(head: seq<T>, a: seq<T>, n: nat, b: seq<T>)
    requires n <= |a| && head + a == (head + a[..n]) + b
    ensures b == a[n..]
  {
    assert (head + a)[|head| + n..] == a[n..];
    assert ((head + a[..n]) + b)[|head| + n..] == b;
  }

  lemma SwapLeavesTheRest(row: Row, current: nat, n: nat, text: string)
    requires RowInv(row) && 0 < current <= |row.messages|
    requires 0 < n <= |Eligible(row, current)|
    ensures Eligible(Swapped(row, Eligible(row, current)[..n], text), current)
         == Eligible(row, current)[n..]
  {
    var ts := Eligible(row, current);
    var row' := Swapped(row, ts[..n], text);
    var all := Turns(row.messages[..current - 1]);
    assert row.fed + ts == all by {
      BoundaryBeforeCurrent(row, current);
      FedAndEligibleAreEverything(row, current);
    }
    assert row'.fed + Eligible(row', current) == all by {
      SwapKeepsInvariant(row, current, n, text);
      FedAndEligibleAreEverything(row', current);
    }
    AppendCancels(row.fed, ts, n, Eligible(row', current));
  }

  // A batch chosen from a snapshot may be swapped into any later row that still
  // carries the snapshot's version: the swap is lawful and uses up just that batch.
  lemma StaleFreeSwap(seen: Row, row: Row, current: nat, n: nat, text: string)
    requires RowInv(seen) && Evolves(seen, row) && row.version == seen.version
    requires 0 < current <= |seen.messages| && 0 < n <= |Eligible(seen, current)|
    ensures var row' := Swapped(row, Eligible(seen, current)[..n], text);
            && seen.through < row'.through < current
            && Evolves(row, row')
            && Eligible(row', current) == Eligible(seen, current)[n..]
  {
    EligibleIsStable(seen, row, current);
    SwapKeepsInvariant(row, current, n, text);
    SwapLeavesTheRest(row, current, n, text);
  }

  lemma CurrentIsStable(row: Row, row': Row, currentId: nat)
    requires Numbered(row.messages) && Evolves(row, row') && CurrentSequence(row, currentId).Some?
    ensures CurrentSequence(row', currentId) == CurrentSequence(row, currentId)
    ensures 0 < CurrentSequence(row, currentId).value <= |row.messages|
  {
    IndexOfInPrefix(row.messages, row'.messages, currentId);
  }

  // ---- Truncating a summary to a token budget ------------------------------------------

  // `cut` is a prefix of `text` within the budget and every longer prefix exceeds it.
  ghost predicate LongestWithin(text: string, cut: string, budget: int, est: Estimator) {
    && cut <= text
    && est(cut) <= budget
    && forall n | |cut| < n <= |text| :: est(text[..n]) > budget
  }

  lemma CutIsUnique(text: string, a: string, b: string, budget: int, est: Estimator)
    requires LongestWithin(text, a, budget, est) && LongestWithin(text, b, budget, est)
    ensures a == b
  {
    assert text[..|a|] == a && text[..|b|] == b;
  }

  // The text candidate `mid` of the binary search stands for.
  function Candidate(text: string, mid: nat): string
    requires mid <= |Encode(text)|
  {
    DecodeIgnore(Encode(text)[..mid])
  }

  lemma CandidatesGrow(text: string, i: nat, j: nat, est: Estimator)
    requires i <= j <= |Encode(text)| && Monotone(est)
    ensures Candidate(text, i) <= Candidate(text, j) <= text
    ensures est(Candidate(text, i)) <= est(Candidate(text, j))
  {
    DecodeIgnoreOfPrefix(text, i);
    DecodeIgnoreOfPrefix(text, j);
    CharsWithinIsLongest(text, i);
    CharsWithinIsLongest(text, j);
    EncodePrefixLength(text, CharsWithin(text, i), CharsWithin(text, j));
  }

  // The byte prefix that ends after `n` characters stands for those characters.
  lemma WholeCharacters(text: string, n: nat)
    requires n <= |text|
    ensures var mid := |Encode(text[..n])|;
            mid <= |Encode(text)| && Candidate(text, mid) == text[..n]
  {
    var mid := |Encode(text[..n])|;
    assert text[..n] + text[n..] == text;
    EncodeAppend(text[..n], text[n..]);
    DecodeIgnoreOfPrefix(text, mid);
    CharsWithinIsLongest(text, mid);
    var m := CharsWithin(text, mid);
    if n <= m {
      EncodePrefixLength(text, n, m);
    }
  }

  // If no byte prefix longer than `best` fits, no longer character prefix fits.
  lemma BestBytesAreBestCharacters(text: string, best: nat, budget: int, est: Estimator)
    requires best <= |Encode(text)| && Monotone(est)
    requires est(Candidate(text, best)) <= budget
    requires forall mid | best < mid <= |Encode(text)| :: est(Candidate(text, mid)) > budget
    ensures LongestWithin(text, Candidate(text, best), budget, est)
  {
    var cut := Candidate(text, best);
    CandidatesGrow(text, best, best, est);
    forall n | |cut| < n <= |text| ensures est(text[..n]) > budget {
      WholeCharacters(text, n);
      var mid := |Encode(text[..n])|;
      if mid <= best {
        CandidatesGrow(text, mid, best, est);
      }
    }
  }

  // `r` is `value` cut to the budget: what is left of it without white space around it if
  // that fits, and otherwise the longest part from its beginning that does, without white
  // space at its end.
  ghost predicate IsBounded(value: string, r: string, budget: int, est: Estimator) {
    exists text :: Trims(value, text) && IsBoundedPart(text, r, budget, est)
  }

  ghost predicate IsBoundedPart(text: string, r: string, budget: int, est: Estimator) {
    && r <= text && est(r) <= budget
    && if est(text) <= budget then r == text
       else exists cut :: LongestWithin(text, cut, budget, est) && TrimsRight(cut, r)
  }

  lemma BoundedIsUnique(value: string, a: string, b: string, budget: int, est: Estimator)
    requires IsBounded(value, a, budget, est) && IsBounded(value, b, budget, est)
    ensures a == b
  {
    var text :| Trims(value, text) && IsBoundedPart(text, a, budget, est);
    var same :| Trims(value, same) && IsBoundedPart(same, b, budget, est);
    TrimIsUnique(value, text, same);
    if est(text) > budget {
      var x :| LongestWithin(text, x, budget, est) && TrimsRight(x, a);
      var y :| LongestWithin(text, y, budget, est) && TrimsRight(y, b);
      CutIsUnique(text, x, y, budget, est);
      RightTrimIsUnique(x, a, b);
    }
  }

  // A summariser reply that leaves something to store, and what is stored of it.
  ghost predicate BoundedReply(reply: Option<string>, text: string, budget: int, est: Estimator) {
    reply.Some? && text != "" && IsBounded(reply.value, text, budget, est)
  }

  method BoundedText(value: string, budget: int, est: Estimator) returns (r: string)
    requires Monotone(est) && budget >= 0
    ensures IsBounded(value, r, budget, est)
  {
    var text := Strip(value);
    StripTrims(value);
    if text == [] || est(text) <= budget {
      return text;
    }
    var encoded := Encode(text);
    var lo, hi, best := 0, |encoded|, 0;
    assert Candidate(text, 0) == "";
    while lo <= hi
      invariant 0 <= best <= lo <= hi + 1 <= |encoded| + 1
      invariant lo == 0 || best == lo - 1
      invariant est(Candidate(text, best)) <= budget
      invariant forall mid | hi < mid <= |encoded| :: est(Candidate(text, mid)) > budget
    {
      var mid := (lo + hi) / 2;
      var candidate := DecodeIgnore(encoded[..mid]);
      if est(candidate) <= budget {
        best, lo := mid, mid + 1;
      } else {
        forall later | mid <= later <= |encoded| ensures est(Candidate(text, later)) > budget {
          CandidatesGrow(text, mid, later, est);
        }
        hi := mid - 1;
      }
    }
    assert hi >= 0 by {
      assert est(Candidate(text, 0)) <= budget;
    }
    var cut := DecodeIgnore(encoded[..best]);
    assert cut == Candidate(text, best);
    BestBytesAreBestCharacters(text, best, budget, est);
    CandidatesGrow(text, best, best, est);
    r := RightStrip(cut);
    RightStripTrims(cut);
    assert cut[..|r|] == r && cut[..|cut|] == cut;
    EncodePrefixLength(cut, |r|, |cut|);
  }
}
