// One-use confirmation tokens: the locked, replayable and audited transaction.
module Confirmation {
  import opened Prelude
  import opened WhiteSpace

  // ---- Rows -----------------------------------------------------------------------

  datatype Operation = Report | Process | Resolve

  datatype Token = Token(
    id: nat, operation: Operation, owner: nat, conversation: nat, canonicalContent: string,
    contentDigest: string, scopeDigest: string, expiresAt: int, usedAt: Option<int>,
    resourceType: Option<string>, resourceId: Option<nat>)

  datatype Level = High | Medium | Low

  datatype Content = Content(
    operation: Operation, projectId: nat, riskId: Option<nat>, todoId: Option<nat>, title: string,
    description: string, riskLevel: Option<Level>, dueDate: Option<int>, assignee: Option<nat>,
    categoryId: Option<nat>, categoryBinding: Option<string>)
  {
    // `validate_operation`.
    predicate Valid() {
      match operation
      case Report =>
        && Strip(title) != "" && Strip(description) != "" && riskLevel.Some? && categoryId.Some?
        && categoryBinding.Some? && riskId.None? && todoId.None? && dueDate.None? && assignee.None?
      case Process =>
        && riskId.Some? && todoId.Some? && Strip(description) != "" && title == ""
        && riskLevel.None? && categoryId.None? && categoryBinding.None?
      case Resolve =>
        && riskId.Some? && Strip(description) != "" && todoId.None? && title == ""
        && riskLevel.None? && dueDate.None? && assignee.None? && categoryId.None?
        && categoryBinding.None?
    }
  }

  // JSON with pydantic's field checks, canonical JSON, and sha256.
  datatype Codec = Codec(parse: string -> Option<Content>, dump: Content -> string, sha: string -> string)

  datatype Confirmed = Confirmed(operation: Operation, resourceType: string, resourceId: nat, completedAt: int)

  datatype AuditContext = AuditContext(
    tokenId: Option<nat>, operation: Option<Operation>, projectId: Option<nat>)

  datatype AuditRecord =
    | SuccessRecord(actor: nat, operation: Operation, resourceId: nat, tokenId: nat, projectId: nat)
    | FailureRecord(actor: nat, context: AuditContext, code: string)

  // One business operation carried out for a token.
  datatype Effect = Effect(digest: string, risk: nat)

  const MISMATCH := "AGENT_CONFIRMATION_CONTENT_MISMATCH"
  const IN_PROGRESS := "AGENT_CONFIRMATION_IN_PROGRESS"
  const NO_CONTEXT := AuditContext(None, None, None)

  // ---- What one call finds in the database besides the token -------------------------

  // Executed carries the risk; Crash is any exception the service does not catch.
  datatype Execution = Executed(risk: nat) | ApiFailure(code: string) | LockFailure | Crash

  // The end of the transaction: audit insert, flush and commit.
  datatype Ending = Commits | CommitLockFailure | CommitCrash

  datatype Facts = Facts(
    now: int, conversationOwner: Option<nat>, userActive: bool, scopeDigest: string,
    permissions: set<string>, projectVisible: bool, execution: Execution, completedAt: nat, ending: Ending)

  datatype Reply = Success(result: Confirmed) | ApiError(code: string) | Crashed

  // ---- One transaction as a function ---------------------------------------------------

  // `_content`.
  function ContentOf(codec: Codec, token: Token): Option<Content> {
    var parsed := codec.parse(token.canonicalContent);
    if parsed.None? || !parsed.value.Valid() then None
    else
      var canonical := codec.dump(parsed.value);
      if canonical != token.canonicalContent || codec.sha(canonical) != token.contentDigest
         || parsed.value.operation != token.operation
      then None else parsed
  }

  // `_result`; None is the IN_PROGRESS error.
  function ResultOf(token: Token): Option<Confirmed> {
    if token.resourceId.None? || token.resourceType.None? || token.usedAt.None? then None
    else Some(Confirmed(token.operation, token.resourceType.value, token.resourceId.value, token.usedAt.value))
  }

  function Permission(operation: Operation): string {
    if operation.Report? then "risk.report" else "risk.resolve"
  }

  // The checks between a fresh token and its execution: the code of the first to fail.
  function Obstacle(token: Token, caller: nat, facts: Facts): Option<string> {
    if token.expiresAt <= facts.now then Some("AGENT_CONFIRMATION_EXPIRED")
    else if facts.conversationOwner != Some(caller) then Some(MISMATCH)
    else if !facts.userActive then Some(MISMATCH)
    else if facts.scopeDigest != token.scopeDigest then Some(MISMATCH)
    else if Permission(token.operation) !in facts.permissions then Some(MISMATCH)
    else if !facts.projectVisible then Some(MISMATCH)
    else None
  }

  function Used(token: Token, risk: nat, completedAt: nat): Token {
    token.(usedAt := Some(completedAt - completedAt % 1000), resourceType := Some("RISK"), resourceId := Some(risk))
  }

  // How the transaction on a locked token ends: the reply, the token and business
  // effect it would commit, and the context for a failure record.
  datatype Verdict = Verdict(reply: Reply, token: Token, effect: Option<nat>, context: AuditContext)

  function Failing(code: string, token: Token, context: AuditContext): Verdict {
    Verdict(ApiError(code), token, None, context)
  }

  function Ended(v: Verdict, old_: Token, ending: Ending): Verdict {
    match ending
    case Commits => v
    case CommitLockFailure => Failing(IN_PROGRESS, old_, v.context)
    case CommitCrash => Verdict(Crashed, old_, None, v.context)
  }

  // The code a failure of the business operation is reported under.
  function Reported(code: string): string {
    if code == "RISK_ALREADY_RESOLVED" then "AGENT_RISK_ALREADY_RESOLVED" else MISMATCH
  }

  function Judge(codec: Codec, token: Token, caller: nat, facts: Facts): Verdict {
    var seen := AuditContext(Some(token.id), Some(token.operation), None);
    if token.owner != caller then Failing("AGENT_CONFIRMATION_OWNER_MISMATCH", token, seen)
    else
      match ContentOf(codec, token)
      case None => Failing(MISMATCH, token, seen)
      case Some(content) =>
        var context := seen.(projectId := Some(content.projectId));
        if token.usedAt.Some? then
          if token.resourceId.None? || token.resourceType.None?
          then Failing("AGENT_CONFIRMATION_ALREADY_USED", token, context)
          else Ended(Verdict(Success(ResultOf(token).value), token, None, context), token, facts.ending)
        else if Obstacle(token, caller, facts).Some?
        then Failing(Obstacle(token, caller, facts).value, token, context)
        else
          match facts.execution
          case Executed(risk) =>
            var used := Used(token, risk, facts.completedAt);
            Ended(Verdict(Success(ResultOf(used).value), used, Some(risk), context), token, facts.ending)
          case ApiFailure(code) => Failing(Reported(code), token, context)
          case LockFailure => Failing(IN_PROGRESS, token, context)
          case Crash => Verdict(Crashed, token, None, context)
  }

  function EffectsOfVerdict(v: Verdict, digest: string): seq<Effect> {
    if v.effect.Some? then [Effect(digest, v.effect.value)] else []
  }

  function AuditOf(v: Verdict, caller: nat): seq<AuditRecord> {
    match v.reply
    case Success(result) =>
      if v.context.tokenId.Some? && v.context.projectId.Some?
      then [SuccessRecord(caller, result.operation, result.resourceId,
                          v.context.tokenId.value, v.context.projectId.value)]
      else []
    case ApiError(code) => [FailureRecord(caller, v.context, code)]
    case Crashed => []
  }

  // The optional parts of a content that are present.
  datatype Part = RiskId | TodoId | RiskLevel | DueDate | Assignee | CategoryId | CategoryBinding

  ghost function Parts(c: Content): set<Part> {
    (if c.riskId.Some? then {RiskId} else {}) + (if c.todoId.Some? then {TodoId} else {})
    + (if c.riskLevel.Some? then {RiskLevel} else {}) + (if c.dueDate.Some? then {DueDate} else {})
    + (if c.assignee.Some? then {Assignee} else {}) + (if c.categoryId.Some? then {CategoryId} else {})
    + (if c.categoryBinding.Some? then {CategoryBinding} else {})
  }

  ghost predicate IsBlank(text: string) {
    forall k | 0 <= k < |text| :: IsSpace(text[k])
  }

  // Which parts an operation needs and which it allows; only a report has a title.
  ghost predicate Fits(c: Content) {
    && !IsBlank(c.description)
    && match c.operation
       case Report => Parts(c) == {RiskLevel, CategoryId, CategoryBinding} && !IsBlank(c.title)
       case Process => {RiskId, TodoId} <= Parts(c) <= {RiskId, TodoId, DueDate, Assignee} && c.title == ""
       case Resolve => Parts(c) == {RiskId} && c.title == ""
  }

  // The stored text is the canonical form of a fitting content, which carries the token's
  // digest and operation.
  ghost predicate IsAuthentic(codec: Codec, token: Token) {
    && codec.parse(token.canonicalContent).Some?
    && var content := codec.parse(token.canonicalContent).value;
       && Fits(content) && content.operation == token.operation
       && codec.dump(content) == token.canonicalContent
       && codec.sha(token.canonicalContent) == token.contentDigest
  }

  lemma ValidMeansFits(c: Content)
    ensures c.Valid() <==> Fits(c)
  {
    StripIsEmptyExactlyWhenBlank(c.title);
    StripIsEmptyExactlyWhenBlank(c.description);
  }

  lemma ContentMeans(codec: Codec, token: Token)
    ensures ContentOf(codec, token).Some? <==> IsAuthentic(codec, token)
    ensures ContentOf(codec, token).Some? ==> ContentOf(codec, token) == codec.parse(token.canonicalContent)
  {
    var parsed := codec.parse(token.canonicalContent);
    if parsed.Some? {
      ValidMeansFits(parsed.value);
    }
  }

  // What has to hold for the operation of a token to be attempted.
  ghost predicate MayExecute(codec: Codec, token: Token, caller: nat, facts: Facts) {
    && token.owner == caller && IsAuthentic(codec, token)
    && token.usedAt.None? && facts.now < token.expiresAt
    && facts.conversationOwner == Some(caller) && facts.userActive
    && facts.scopeDigest == token.scopeDigest && facts.projectVisible
    && (if token.operation == Report then "risk.report" else "risk.resolve") in facts.permissions
  }

  // What a verdict says about itself: only a success has an effect or changes the token,
  // and a success reports exactly what the token then records.
  lemma VerdictIsConsistent(codec: Codec, token: Token, caller: nat, facts: Facts)
    ensures var v := Judge(codec, token, caller, facts);
            && (!v.reply.Success? ==> v.token == token && v.effect.None?)
            && (v.reply.Success? ==>
                  token.owner == caller && ResultOf(v.token) == Some(v.reply.result) &&
                  ContentOf(codec, token).Some? && ContentOf(codec, v.token) == ContentOf(codec, token) &&
                  v.context == AuditContext(Some(token.id), Some(token.operation),
                                            Some(ContentOf(codec, token).value.projectId)))
            && (v.effect.Some? <==> v.reply.Success? && token.usedAt.None?)
            && (v.effect.Some? ==> v.token.usedAt.Some? && v.token.resourceId == v.effect)
            && |AuditOf(v, caller)| == (if v.reply.Crashed? then 0 else 1)
  {
  }

  // A used token answers its owner with the recorded result, whatever has changed since:
  // expiry, permissions, scope and project no longer matter.
  lemma ReplayIsUnconditional(codec: Codec, token: Token, facts: Facts)
    requires ContentOf(codec, token).Some? && ResultOf(token).Some? && facts.ending.Commits?
    ensures var v := Judge(codec, token, token.owner, facts);
            v.reply == Success(ResultOf(token).value) && v.token == token && v.effect == None
  {
  }

  // An operation is carried out exactly when it may be attempted, succeeds and is committed.
  lemma ExecutesExactlyWhen(codec: Codec, token: Token, caller: nat, facts: Facts)
    ensures Judge(codec, token, caller, facts).effect.Some? <==>
              MayExecute(codec, token, caller, facts) && facts.execution.Executed? && facts.ending.Commits?
  {
    ContentMeans(codec, token);
  }

  // Which cause gives which reply, for a token that is fresh or holds its recorded result.
  ghost predicate RepliesByCause(codec: Codec, token: Token, caller: nat, facts: Facts, reply: Reply) {
    var own := token.owner == caller && IsAuthentic(codec, token);
    var unused := token.usedAt.None?;
    var attempted := MayExecute(codec, token, caller, facts);
    var finished := if unused then attempted && facts.execution.Executed? else own;
    && (reply == ApiError("AGENT_CONFIRMATION_OWNER_MISMATCH") <==> token.owner != caller)
    && (reply == ApiError("AGENT_CONFIRMATION_EXPIRED") <==> own && unused && token.expiresAt <= facts.now)
    && (reply == ApiError("AGENT_CONFIRMATION_CONTENT_MISMATCH") <==>
          || (token.owner == caller && !IsAuthentic(codec, token))
          || (own && unused && facts.now < token.expiresAt && !attempted)
          || (attempted && facts.execution.ApiFailure? &&
              facts.execution.code != "RISK_ALREADY_RESOLVED"))
    && (reply == ApiError("AGENT_RISK_ALREADY_RESOLVED") <==>
          attempted && facts.execution == ApiFailure("RISK_ALREADY_RESOLVED"))
    && (reply == ApiError("AGENT_CONFIRMATION_IN_PROGRESS") <==>
          || (attempted && facts.execution.LockFailure?)
          || (finished && facts.ending.CommitLockFailure?))
    && (reply.Crashed? <==>
          || (attempted && facts.execution.Crash?)
          || (finished && facts.ending.CommitCrash?))
    && (reply.Success? <==> finished && facts.ending.Commits?)
    // No other code is ever given, so a used token never answers that it has been used.
    && (reply.ApiError? ==> reply.code in {
          "AGENT_CONFIRMATION_OWNER_MISMATCH", "AGENT_CONFIRMATION_EXPIRED",
          "AGENT_CONFIRMATION_CONTENT_MISMATCH", "AGENT_RISK_ALREADY_RESOLVED",
          "AGENT_CONFIRMATION_IN_PROGRESS"})
  }

  lemma JudgeRepliesByCause(codec: Codec, token: Token, caller: nat, facts: Facts)
    requires token.usedAt.Some? ==> ResultOf(token).Some?
    ensures RepliesByCause(codec, token, caller, facts, Judge(codec, token, caller, facts).reply)
  {
    ContentMeans(codec, token);
  }

  // A token without its recorded result, once used, is the one case the table leaves out.
  lemma AlreadyUsedExactlyWhen(codec: Codec, token: Token, caller: nat, facts: Facts)
    ensures Judge(codec, token, caller, facts).reply == ApiError("AGENT_CONFIRMATION_ALREADY_USED") <==>
              && token.owner == caller && IsAuthentic(codec, token) && token.usedAt.Some?
              && (token.resourceId.None? || token.resourceType.None?)
  {
    ContentMeans(codec, token);
  }

  // What the use of a token records on it: the risk, and the time cut to milliseconds.
  ghost predicate RecordsUse(before: Token, after: Token, risk: nat, completedAt: nat) {
    && after.usedAt.Some? && after.usedAt.value % 1000 == 0
    && after.usedAt.value <= completedAt < after.usedAt.value + 1000
    && after == before.(usedAt := after.usedAt, resourceType := Some("RISK"), resourceId := Some(risk))
  }

  lemma UsedRecordsUse(token: Token, risk: nat, completedAt: nat)
    ensures RecordsUse(token, Used(token, risk, completedAt), risk, completedAt)
    ensures ResultOf(Used(token, risk, completedAt)).Some?
  {
  }

  // What a reply leaves on its token and in the audit: a success the reply's own contents,
  // read off the token, any other reply no change and at most its code.
  ghost predicate RecordsReply(
      codec: Codec, before: Token, after: Token, caller: nat, facts: Facts, reply: Reply, added: seq<AuditRecord>)
  {
    var own := before.owner == caller && IsAuthentic(codec, before);
    var project := if own then Some(codec.parse(before.canonicalContent).value.projectId) else None;
    match reply
    case Success(result) =>
      && own && after.usedAt.Some? && after.resourceType.Some? && after.resourceId.Some?
      && result == Confirmed(before.operation, after.resourceType.value, after.resourceId.value, after.usedAt.value)
      && added == [SuccessRecord(caller, before.operation, result.resourceId, before.id, project.value)]
      && (if before.usedAt.Some? then after == before
          else facts.execution.Executed? && RecordsUse(before, after, facts.execution.risk, facts.completedAt))
    case ApiError(code) =>
      && after == before
      && added == [FailureRecord(caller, AuditContext(Some(before.id), Some(before.operation), project), code)]
    case Crashed =>
      after == before && added == []
  }

  lemma JudgeRecordsReply(codec: Codec, token: Token, caller: nat, facts: Facts)
    ensures var v := Judge(codec, token, caller, facts);
            RecordsReply(codec, token, v.token, caller, facts, v.reply, AuditOf(v, caller))
  {
    ContentMeans(codec, token);
    if facts.execution.Executed? {
      UsedRecordsUse(token, facts.execution.risk, facts.completedAt);
    }
  }

  // ---- The service ----------------------------------------------------------------------

  datatype Abort = ApiAbort(code: string) | OperationalAbort | OtherAbort

  class ConfirmationService {
    var tokens: map<string, Token>
    var executed: seq<Effect>
    var audit: seq<AuditRecord>
    var locked: set<string>  // rows other transactions hold

    constructor (tokens: map<string, Token>, locked: set<string>)
      ensures this.tokens == tokens && this.locked == locked && executed == [] && audit == []
    {
      this.tokens, this.locked := tokens, locked;
      executed, audit := [], [];
    }

    // The body of the transaction: it changes rows as it goes and leaves undoing them to
    // its caller. The context is rebound as more becomes known.
    method Transact(codec: Codec, caller: nat, digest: string, facts: Facts)
      returns (r: Result<Confirmed, Abort>, context: AuditContext)
      modifies this`tokens, this`executed, this`audit
      ensures digest in old(locked) ==> r == Err(ApiAbort(IN_PROGRESS)) && context == NO_CONTEXT
      ensures digest !in old(locked) && digest !in old(tokens) ==>
                r == Err(ApiAbort(MISMATCH)) && context == NO_CONTEXT
      ensures digest !in old(locked) && digest in old(tokens) ==>
                var v := Judge(codec, old(tokens)[digest], caller, facts);
                && context == v.context
                && match v.reply
                   case Success(result) =>
                     && r == Ok(result)
                     && tokens == old(tokens)[digest := v.token]
                     && executed == old(executed) + EffectsOfVerdict(v, digest)
                     && audit == old(audit) + AuditOf(v, caller)
                   case ApiError(code) =>
                     r == Err(ApiAbort(code)) || (r == Err(OperationalAbort) && code == IN_PROGRESS)
                   case Crashed => r == Err(OtherAbort)
    {
      context := NO_CONTEXT;
      if digest in locked {
        return Err(ApiAbort(IN_PROGRESS)), context;
      }
      if digest !in tokens {
        return Err(ApiAbort(MISMATCH)), context;
      }
      var token := tokens[digest];
      context := AuditContext(Some(token.id), Some(token.operation), None);
      if token.owner != caller {
        return Err(ApiAbort("AGENT_CONFIRMATION_OWNER_MISMATCH")), context;
      }
      var content := ContentOf(codec, token);
      if content.None? {
        return Err(ApiAbort(MISMATCH)), context;
      }
      var projectId := content.value.projectId;
      context := AuditContext(Some(token.id), Some(token.operation), Some(projectId));
      if token.usedAt.Some? {
        if token.resourceId.None? || token.resourceType.None? {
          return Err(ApiAbort("AGENT_CONFIRMATION_ALREADY_USED")), context;
        }
      } else {
        var obstacle := Obstacle(token, caller, facts);
        if obstacle.Some? {
          return Err(ApiAbort(obstacle.value)), context;
        }
        match facts.execution
        case ApiFailure(code) =>
          return Err(ApiAbort(Reported(code))), context;
        case LockFailure =>
          return Err(OperationalAbort), context;
        case Crash =>
          return Err(OtherAbort), context;
        case Executed(risk) =>
          executed := executed + [Effect(digest, risk)];
          token := Used(token, risk, facts.completedAt);
      }
      tokens := tokens[digest := token];
      var result := ResultOf(token).value;
      audit := audit + [SuccessRecord(caller, token.operation, result.resourceId, token.id, projectId)];
      match facts.ending
      case Commits =>
        return Ok(result), context;
      case CommitLockFailure =>
        return Err(OperationalAbort), context;
      case CommitCrash =>
        return Err(OtherAbort), context;
    }

    // `confirm`: a failed transaction is rolled back whole, and an API or lock error is
    // recorded in a transaction of its own.
    method Confirm(codec: Codec, caller: nat, digest: string, facts: Facts) returns (reply: Reply)
      modifies this`tokens, this`executed, this`audit
      ensures digest in locked || digest !in old(tokens) ==>
                var code := if digest in locked then IN_PROGRESS else MISMATCH;
                && reply == ApiError(code) && tokens == old(tokens) && executed == old(executed)
                && audit == old(audit) + [FailureRecord(caller, NO_CONTEXT, code)]
      ensures digest !in locked && digest in old(tokens) ==>
                var v := Judge(codec, old(tokens)[digest], caller, facts);
                && reply == v.reply && tokens == old(tokens)[digest := v.token]
                && executed == old(executed) + EffectsOfVerdict(v, digest)
                && audit == old(audit) + AuditOf(v, caller)
      // What every caller relies on.
      ensures !reply.Success? ==> tokens == old(tokens) && executed == old(executed)
      ensures |audit| == |old(audit)| + (if reply.Crashed? then 0 else 1)
    {
      if digest in tokens {
        VerdictIsConsistent(codec, tokens[digest], caller, facts);
      }
      var oldTokens, oldExecuted, oldAudit := tokens, executed, audit;
      var r, context := Transact(codec, caller, digest, facts);
      if r.Ok? {
        return Success(r.value);
      }
      tokens, executed, audit := oldTokens, oldExecuted, oldAudit;
      match r.error
      case ApiAbort(code) =>
        audit := audit + [FailureRecord(caller, context, code)];
        return ApiError(code);
      case OperationalAbort =>
        audit := audit + [FailureRecord(caller, context, IN_PROGRESS)];
        return ApiError(IN_PROGRESS);
      case OtherAbort =>
        return Crashed;
    }
  }

  // ---- Interleaved confirmations -----------------------------------------------------------

  // Confirmations in flight hold their row lock from Begin to Finish; `replies` records
  // every reply given.
  datatype InFlight = InFlight(caller: nat, digest: string)

  datatype Given = Given(caller: nat, digest: string, reply: Reply)

  datatype System = System(
    tokens: map<string, Token>, executed: seq<Effect>, audit: seq<AuditRecord>,
    inFlight: map<nat, InFlight>, replies: seq<Given>)

  datatype Action =
    | Begin(pid: nat, caller: nat, digest: string)
    | Finish(pid: nat, facts: Facts)

  predicate IsLocked(s: System, digest: string) {
    exists pid :: pid in s.inFlight && s.inFlight[pid].digest == digest
  }

  function Refused(s: System, caller: nat, digest: string, code: string): System {
    s.(audit := s.audit + [FailureRecord(caller, NO_CONTEXT, code)],
       replies := s.replies + [Given(caller, digest, ApiError(code))])
  }

  function FinishStep(codec: Codec, s: System, pid: nat, facts: Facts): System
    requires pid in s.inFlight && s.inFlight[pid].digest in s.tokens
  {
    var InFlight(caller, digest) := s.inFlight[pid];
    var v := Judge(codec, s.tokens[digest], caller, facts);
    System(
      s.tokens[digest := v.token],
      s.executed + EffectsOfVerdict(v, digest),
      s.audit + AuditOf(v, caller),
      s.inFlight - {pid},
      s.replies + [Given(caller, digest, v.reply)])
  }

  // An action that is not enabled changes nothing.
  function Step(codec: Codec, s: System, a: Action): System {
    match a
    case Begin(pid, caller, digest) =>
      if pid in s.inFlight then s
      else if IsLocked(s, digest) then Refused(s, caller, digest, IN_PROGRESS)
      else if digest !in s.tokens then Refused(s, caller, digest, MISMATCH)
      else s.(inFlight := s.inFlight[pid := InFlight(caller, digest)])
    case Finish(pid, facts) =>
      if pid in s.inFlight && s.inFlight[pid].digest in s.tokens
      then FinishStep(codec, s, pid, facts)
      else s
  }

  function Run(codec: Codec, s: System, actions: seq<Action>): System {
    if actions == [] then s
    else Step(codec, Run(codec, s, actions[..|actions| - 1]), actions[|actions| - 1])
  }

  // Tokens as they are issued: not used, nothing recorded.
  ghost predicate Fresh(s: System) {
    && s.executed == [] && s.audit == [] && s.replies == [] && s.inFlight == map[]
    && forall d | d in s.tokens ::
         s.tokens[d].usedAt.None? && s.tokens[d].resourceId.None? && s.tokens[d].resourceType.None?
  }

  function EffectsOf(executed: seq<Effect>, digest: string): seq<nat> {
    if executed == [] then []
    else EffectsOf(executed[..|executed| - 1], digest)
         + (if executed[|executed| - 1].digest == digest then [executed[|executed| - 1].risk] else [])
  }

  function Answered(replies: seq<Given>): nat {
    if replies == [] then 0
    else Answered(replies[..|replies| - 1]) + (if replies[|replies| - 1].reply.Crashed? then 0 else 1)
  }

  // The business effects of a token are none before its use and the recorded one after.
  ghost predicate TokenInv(s: System, d: string)
    requires d in s.tokens
  {
    var t := s.tokens[d];
    if t.usedAt.None? then t.resourceId.None? && t.resourceType.None? && EffectsOf(s.executed, d) == []
    else ResultOf(t).Some? && EffectsOf(s.executed, d) == [t.resourceId.value]
  }

  ghost predicate ReplyInv(codec: Codec, s: System, g: Given) {
    g.reply.Success? ==>
      && g.digest in s.tokens && s.tokens[g.digest].owner == g.caller
      && ContentOf(codec, s.tokens[g.digest]).Some?
      && ResultOf(s.tokens[g.digest]) == Some(g.reply.result)
  }

  ghost predicate Inv(codec: Codec, s: System) {
    && (forall d | d in s.tokens :: TokenInv(s, d))
    && (forall pid | pid in s.inFlight :: s.inFlight[pid].digest in s.tokens)
    && (forall p, q | p in s.inFlight && q in s.inFlight && p != q ::
          s.inFlight[p].digest != s.inFlight[q].digest)
    && (forall g | g in s.replies :: ReplyInv(codec, s, g))
    && |s.audit| == Answered(s.replies)
  }

  lemma EffectsSnoc(executed: seq<Effect>, e: Effect, d: string)
    ensures EffectsOf(executed + [e], d)
         == EffectsOf(executed, d) + (if e.digest == d then [e.risk] else [])
  {
    assert (executed + [e])[..|executed|] == executed;
  }

  lemma AnsweredSnoc(replies: seq<Given>, g: Given)
    ensures Answered(replies + [g]) == Answered(replies) + (if g.reply.Crashed? then 0 else 1)
  {
    assert (replies + [g])[..|replies|] == replies;
  }

  lemma EffectsAfterVerdict(executed: seq<Effect>, v: Verdict, digest: string, d: string)
    ensures EffectsOf(executed + EffectsOfVerdict(v, digest), d) ==
              EffectsOf(executed, d) + (if v.effect.Some? && d == digest then [v.effect.value] else [])
  {
    if v.effect.Some? {
      EffectsSnoc(executed, Effect(digest, v.effect.value), d);
    } else {
      assert executed + [] == executed;
    }
  }

  lemma FinishKeepsOtherTokens(codec: Codec, s: System, pid: nat, facts: Facts, d: string)
    requires Inv(codec, s) && pid in s.inFlight && d in s.tokens && d != s.inFlight[pid].digest
    ensures var s' := FinishStep(codec, s, pid, facts);
            s'.tokens[d] == s.tokens[d] && TokenInv(s', d)
  {
    var InFlight(caller, digest) := s.inFlight[pid];
    EffectsAfterVerdict(s.executed, Judge(codec, s.tokens[digest], caller, facts), digest, d);
    assert TokenInv(s, d);
  }

  lemma FinishKeepsItsToken(codec: Codec, s: System, pid: nat, facts: Facts)
    requires Inv(codec, s) && pid in s.inFlight
    ensures var s', d := FinishStep(codec, s, pid, facts), s.inFlight[pid].digest;
            && TokenInv(s', d) && s'.tokens[d].owner == s.tokens[d].owner
            && ContentOf(codec, s'.tokens[d]) == ContentOf(codec, s.tokens[d])
            && (ResultOf(s.tokens[d]).Some? ==> s'.tokens[d] == s.tokens[d])
  {
    var InFlight(caller, digest) := s.inFlight[pid];
    VerdictIsConsistent(codec, s.tokens[digest], caller, facts);
    EffectsAfterVerdict(s.executed, Judge(codec, s.tokens[digest], caller, facts), digest, digest);
    assert TokenInv(s, digest);
  }

  // A finishing transaction keeps every token's invariant.
  lemma FinishKeepsTokens(codec: Codec, s: System, pid: nat, facts: Facts, d: string)
    requires Inv(codec, s) && pid in s.inFlight && d in s.tokens
    ensures var s' := FinishStep(codec, s, pid, facts);
            && TokenInv(s', d) && s'.tokens[d].owner == s.tokens[d].owner
            && ContentOf(codec, s'.tokens[d]) == ContentOf(codec, s.tokens[d])
            && (ResultOf(s.tokens[d]).Some? ==> s'.tokens[d] == s.tokens[d])
  {
    if d == s.inFlight[pid].digest {
      FinishKeepsItsToken(codec, s, pid, facts);
    } else {
      FinishKeepsOtherTokens(codec, s, pid, facts, d);
    }
  }

  lemma FinishKeepsInv(codec: Codec, s: System, pid: nat, facts: Facts)
    requires Inv(codec, s) && pid in s.inFlight
    ensures Inv(codec, FinishStep(codec, s, pid, facts))
  {
    var s' := FinishStep(codec, s, pid, facts);
    var InFlight(caller, digest) := s.inFlight[pid];
    var v := Judge(codec, s.tokens[digest], caller, facts);
    VerdictIsConsistent(codec, s.tokens[digest], caller, facts);
    forall d | d in s'.tokens ensures TokenInv(s', d) {
      FinishKeepsTokens(codec, s, pid, facts, d);
    }
    forall g | g in s'.replies ensures ReplyInv(codec, s', g) {
      FinishKeepsTokens(codec, s, pid, facts, digest);
      if g in s.replies && g.reply.Success? {
        assert ReplyInv(codec, s, g);
        FinishKeepsTokens(codec, s, pid, facts, g.digest);
      }
    }
    AnsweredSnoc(s.replies, Given(caller, digest, v.reply));
  }

  lemma RefusedKeepsInv(codec: Codec, s: System, caller: nat, digest: string, code: string)
    requires Inv(codec, s)
    ensures Inv(codec, Refused(s, caller, digest, code))
  {
    var s' := Refused(s, caller, digest, code);
    AnsweredSnoc(s.replies, Given(caller, digest, ApiError(code)));
    forall d | d in s'.tokens ensures TokenInv(s', d) {
      assert TokenInv(s, d);
    }
    forall g | g in s'.replies ensures ReplyInv(codec, s', g) {
      if g in s.replies {
        assert ReplyInv(codec, s, g);
      }
    }
  }

  lemma BeginKeepsInv(codec: Codec, s: System, pid: nat, caller: nat, digest: string)
    requires Inv(codec, s) && pid !in s.inFlight && !IsLocked(s, digest) && digest in s.tokens
    ensures Inv(codec, s.(inFlight := s.inFlight[pid := InFlight(caller, digest)]))
  {
    var s' := s.(inFlight := s.inFlight[pid := InFlight(caller, digest)]);
    forall d | d in s'.tokens ensures TokenInv(s', d) {
      assert TokenInv(s, d);
    }
    forall g | g in s'.replies ensures ReplyInv(codec, s', g) {
      assert ReplyInv(codec, s, g);
    }
  }

  lemma {:induction false} RunKeepsInv(codec: Codec, s: System, actions: seq<Action>)
    requires Inv(codec, s)
    ensures Inv(codec, Run(codec, s, actions))
  {
    if actions != [] {
      var before := Run(codec, s, actions[..|actions| - 1]);
      RunKeepsInv(codec, s, actions[..|actions| - 1]);
      match actions[|actions| - 1]
      case Begin(pid, caller, digest) =>
        if pid !in before.inFlight {
          if IsLocked(before, digest) {
            RefusedKeepsInv(codec, before, caller, digest, IN_PROGRESS);
          } else if digest !in before.tokens {
            RefusedKeepsInv(codec, before, caller, digest, MISMATCH);
          } else {
            BeginKeepsInv(codec, before, pid, caller, digest);
          }
        }
      case Finish(pid, facts) =>
        if pid in before.inFlight {
          FinishKeepsInv(codec, before, pid, facts);
        }
    }
  }

  // Over any interleaving: a token's operation is carried out at most once; all
  // successes for a token went to its owner with one and the same result; and every
  // reply that is not a crash has its one audit record.
  lemma OneUseOverAnyRun(codec: Codec, s: System, actions: seq<Action>)
    requires Fresh(s)
    ensures var e := Run(codec, s, actions);
            && (forall d | d in e.tokens :: |EffectsOf(e.executed, d)| <= 1)
            && (forall g, h | g in e.replies && h in e.replies && g.digest == h.digest &&
                              g.reply.Success? && h.reply.Success? ::
                  g.reply == h.reply && g.digest in e.tokens &&
                  g.caller == h.caller == e.tokens[g.digest].owner)
            && (forall g | g in e.replies && g.reply.Success? ::
                  EffectsOf(e.executed, g.digest) == [g.reply.result.resourceId])
            && |e.audit| == Answered(e.replies)
  {
    RunKeepsInv(codec, s, actions);
    var e := Run(codec, s, actions);
    assert forall d | d in e.tokens :: TokenInv(e, d);
    assert forall g | g in e.replies :: ReplyInv(codec, e, g);
  }

  // In any run, a finishing confirmation carries the operation out exactly when its token
  // is unused, its stored text is authentic and nothing else stands in the way; which cause
  // gives which reply, and what each reply leaves behind.
  lemma ExecutesOverAnyRunExactlyWhen(codec: Codec, s: System, actions: seq<Action>, pid: nat, facts: Facts)
    requires Fresh(s) && pid in Run(codec, s, actions).inFlight
    ensures FinishMeans(codec, Run(codec, s, actions), pid, facts)
  {
    RunKeepsInv(codec, s, actions);
    FinishDecides(codec, Run(codec, s, actions), pid, facts);
  }

  ghost predicate FinishMeans(codec: Codec, e: System, pid: nat, facts: Facts)
    requires pid in e.inFlight
  {
    var InFlight(caller, digest) := e.inFlight[pid];
    && digest in e.tokens
    && var e', token := Step(codec, e, Finish(pid, facts)), e.tokens[digest];
       && (e'.executed != e.executed <==>
             && token.owner == caller && codec.parse(token.canonicalContent).Some?
             && (var content := codec.parse(token.canonicalContent).value;
                 Fits(content) && content.operation == token.operation &&
                 codec.dump(content) == token.canonicalContent)
             && codec.sha(token.canonicalContent) == token.contentDigest
             && token.usedAt.None? && facts.now < token.expiresAt
             && facts.conversationOwner == Some(caller) && facts.userActive
             && facts.scopeDigest == token.scopeDigest && facts.projectVisible
             && (if token.operation == Report then "risk.report" else "risk.resolve") in facts.permissions
             && facts.execution.Executed? && facts.ending.Commits?)
       && (e'.executed != e.executed ==>
             EffectsOf(e.executed, digest) == [] &&
             e'.executed == e.executed + [Effect(digest, facts.execution.risk)])
       && FinishRecords(codec, e, e', token, caller, digest, facts)
       && e'.inFlight == e.inFlight - {pid}
  }

  // The reply by its cause, and what it leaves on the token and in the audit; the other
  // tokens stay as they are.
  ghost predicate FinishRecords(
      codec: Codec, e: System, e': System, token: Token, caller: nat, digest: string, facts: Facts)
  {
    exists reply: Reply, after: Token, added: seq<AuditRecord> ::
      && e'.replies == e.replies + [Given(caller, digest, reply)]
      && e'.tokens == e.tokens[digest := after] && e'.audit == e.audit + added
      && RepliesByCause(codec, token, caller, facts, reply)
      && RecordsReply(codec, token, after, caller, facts, reply, added)
  }

  lemma FinishDecides(codec: Codec, e: System, pid: nat, facts: Facts)
    requires Inv(codec, e) && pid in e.inFlight
    ensures FinishMeans(codec, e, pid, facts)
  {
    var InFlight(caller, digest) := e.inFlight[pid];
    assert TokenInv(e, digest);
    var token := e.tokens[digest];
    var v := Judge(codec, token, caller, facts);
    VerdictIsConsistent(codec, token, caller, facts);
    ExecutesExactlyWhen(codec, token, caller, facts);
    JudgeRepliesByCause(codec, token, caller, facts);
    JudgeRecordsReply(codec, token, caller, facts);
    assert FinishRecords(codec, e, FinishStep(codec, e, pid, facts), token, caller, digest, facts) by {
      assert RecordsReply(codec, token, v.token, caller, facts, v.reply, AuditOf(v, caller));
    }
  }

  // In any run, a confirmation that finds its row locked or its token unknown is refused
  // with the code for it; otherwise it is let in. Nothing else changes.
  lemma BeginMeans(codec: Codec, e: System, pid: nat, caller: nat, digest: string)
    requires pid !in e.inFlight
    ensures var e' := Step(codec, e, Begin(pid, caller, digest));
            var held := exists p :: p in e.inFlight && e.inFlight[p].digest == digest;
            && e'.tokens == e.tokens && e'.executed == e.executed
            && (if !held && digest in e.tokens
                then e' == e.(inFlight := e.inFlight[pid := InFlight(caller, digest)])
                else
                  var code := if held then "AGENT_CONFIRMATION_IN_PROGRESS"
                              else "AGENT_CONFIRMATION_CONTENT_MISMATCH";
                  && e'.inFlight == e.inFlight
                  && e'.replies == e.replies + [Given(caller, digest, ApiError(code))]
                  && e'.audit == e.audit + [FailureRecord(caller, AuditContext(None, None, None), code)])
  {
    assert IsLocked(e, digest) <==> exists p :: p in e.inFlight && e.inFlight[p].digest == digest;
  }

  // After a success, every later confirmation by the same caller that commits gives the
  // very same reply, whatever has expired, been revoked or disappeared since, and carries
  // nothing out.
  lemma ReplayOverAnyRun(codec: Codec, s: System, actions: seq<Action>, g: Given, pid: nat, facts: Facts)
    requires Fresh(s) && facts.ending.Commits? && g.reply.Success?
    requires var e := Run(codec, s, actions);
             g in e.replies && pid in e.inFlight && e.inFlight[pid] == InFlight(g.caller, g.digest)
    ensures var e := Run(codec, s, actions);
            var e' := Step(codec, e, Finish(pid, facts));
            e'.replies == e.replies + [g] && e'.tokens == e.tokens && e'.executed == e.executed
  {
    RunKeepsInv(codec, s, actions);
    FinishReplays(codec, Run(codec, s, actions), g, pid, facts);
  }

  lemma FinishReplays(codec: Codec, e: System, g: Given, pid: nat, facts: Facts)
    requires Inv(codec, e) && facts.ending.Commits? && g.reply.Success?
    requires g in e.replies && pid in e.inFlight && e.inFlight[pid] == InFlight(g.caller, g.digest)
    ensures var e' := Step(codec, e, Finish(pid, facts));
            e'.replies == e.replies + [g] && e'.tokens == e.tokens && e'.executed == e.executed
  {
    assert ReplyInv(codec, e, g);
    ReplayIsUnconditional(codec, e.tokens[g.digest], facts);
  }
}
