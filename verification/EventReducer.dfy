// The conversation state of the web client and the reducer that applies one
// event frame to it.
module EventReducer {
  import opened Prelude
  import opened EventFrames

  // ---- Wire payloads --------------------------------------------------------------

  datatype Json =
    | JsonNull
    | JsonBool(flag: bool)
    | JsonNumber(number: real)
    | JsonString(text: string)
    | JsonArray(items: seq<Json>)
    | JsonObject(fields: map<string, Json>)

  // `JSON.parse`, None when it throws, and the display labels of error codes.
  datatype Env = Env(parse: string -> Option<Json>, errorLabel: string -> string)

  function Field(record: map<string, Json>, name: string): Option<Json> {
    if name in record then Some(record[name]) else None
  }

  function AsString(value: Option<Json>): string {
    if value.Some? && value.value.JsonString? then value.value.text else ""
  }

  function NullableString(value: Option<Json>): Option<string> {
    if value.Some? && value.value.JsonString? then Some(value.value.text) else None
  }

  function AsBoolean(value: Option<Json>): bool {
    value.Some? && value.value.JsonBool? && value.value.flag
  }

  function AsRecord(value: Option<Json>): Option<map<string, Json>> {
    if value.Some? && value.value.JsonObject? then Some(value.value.fields) else None
  }

  function Records(items: seq<Json>): seq<Json> {
    if items == [] then []
    else (if items[0].JsonObject? then [items[0]] else []) + Records(items[1..])
  }

  // `parseEventBase`: None when the data is not a JSON object.
  function Payload(env: Env, data: string): Option<map<string, Json>> {
    if data == "" then None else AsRecord(env.parse(data))
  }

  // ---- State ------------------------------------------------------------------------

  datatype MessageRole = UserRole | AssistantRole | ToolRole

  datatype StreamMessage = StreamMessage(
    id: string, role: MessageRole, content: string, createdAt: string,
    dataAsOf: Option<string>, sequence: int)

  datatype Progress = Progress(stage: string, message: string)

  datatype InteractionStatus = Open | Resolved

  datatype Interaction = Interaction(
    id: string, kind: string, status: InteractionStatus, conversationId: string,
    executionId: string, candidates: seq<Json>, draft: Option<map<string, Json>>, expiresAt: string)

  datatype ErrorState = ErrorState(code: string, message: string, retryable: bool)

  datatype Status = Idle | Loading | Streaming | Cancelling | Completed | Failed | Disconnected

  datatype State = State(
    status: Status, conversationId: Option<string>, messages: seq<StreamMessage>,
    streamingText: string, progress: Option<Progress>, interaction: Option<Interaction>,
    error: Option<ErrorState>, lastEventId: Option<string>)

  function StreamingOr(status: Status): Status {
    if status in {Completed, Failed, Cancelling} then status else Streaming
  }

  function LastSequence(messages: seq<StreamMessage>): (n: int)
    ensures forall i | 0 <= i < |messages| :: messages[i].sequence <= n
    ensures n >= 0 && (n == 0 || exists i :: 0 <= i < |messages| && messages[i].sequence == n)
  {
    if messages == [] then 0
    else Max(LastSequence(messages[..|messages| - 1]), messages[|messages| - 1].sequence)
  }

  function Finalized(s: State, record: map<string, Json>): StreamMessage {
    StreamMessage(
      AsString(Field(record, "messageId")), AssistantRole, s.streamingText,
      AsString(Field(record, "occurredAt")), NullableString(Field(record, "dataAsOf")),
      LastSequence(s.messages) + 1)
  }

  function ErrorOf(env: Env, record: map<string, Json>): ErrorState {
    var code := AsString(Field(record, "code"));
    var message := AsString(Field(record, "message"));
    ErrorState(code, if message != "" then message else env.errorLabel(code),
               AsBoolean(Field(record, "retryable")))
  }

  function InteractionOf(record: map<string, Json>): Interaction {
    var candidates := Field(record, "candidates");
    Interaction(
      AsString(Field(record, "interactionId")), AsString(Field(record, "type")), Open,
      AsString(Field(record, "conversationId")), AsString(Field(record, "executionId")),
      if candidates.Some? && candidates.value.JsonArray? then Records(candidates.value.items) else [],
      AsRecord(Field(record, "draft")), AsString(Field(record, "expiresAt")))
  }

  // The part of `applyFrame` after the payload has been narrowed; `s` already carries
  // the new cursor.
  function ApplyRecord(env: Env, s: State, event: string, record: map<string, Json>): State {
    if event == "progress" then
      s.(progress := Some(Progress(AsString(Field(record, "stage")), AsString(Field(record, "message")))),
         status := StreamingOr(s.status))
    else if event == "message.delta" then
      s.(streamingText := s.streamingText + AsString(Field(record, "text")),
         status := StreamingOr(s.status))
    else if event == "interaction.required" then
      s.(interaction := Some(InteractionOf(record)), status := Completed)
    else if event == "interaction.resolved" then
      var matches := s.interaction.Some? && AsString(Field(record, "interactionId")) == s.interaction.value.id;
      s.(interaction := if matches then Some(s.interaction.value.(status := Resolved)) else s.interaction,
         status := StreamingOr(s.status))
    else if event == "completed" then
      s.(messages := s.messages + [Finalized(s, record)], streamingText := "", progress := None,
         status := Completed)
    else if event == "error" then
      s.(error := Some(ErrorOf(env, record)), streamingText := "", progress := None, status := Failed)
    else s
  }

  predicate IsReplay(s: State, f: Frame) {
    f.id.Some? && f.id == s.lastEventId
  }

  function ApplyFrame(env: Env, s: State, f: Frame): State {
    if IsReplay(s, f) then s
    else
      match Payload(env, f.data)
      case None => if f.id.Some? && f.id.value != "" then s.(lastEventId := f.id) else s
      case Some(record) =>
        ApplyRecord(env, if f.id.Some? then s.(lastEventId := f.id) else s, f.event, record)
  }

  function Reduce(env: Env, s: State, frames: seq<Frame>): State
    decreases |frames|
  {
    if frames == [] then s else Reduce(env, ApplyFrame(env, s, frames[0]), frames[1..])
  }

  lemma {:induction false} ReduceAppend(env: Env, s: State, a: seq<Frame>, b: seq<Frame>)
    ensures Reduce(env, s, a + b) == Reduce(env, Reduce(env, s, a), b)
    decreases |a|
  {
    if a == [] {
      assert a + b == b;
    } else {
      assert (a + b)[0] == a[0] && (a + b)[1..] == a[1..] + b;
      ReduceAppend(env, ApplyFrame(env, s, a[0]), a[1..], b);
    }
  }

  lemma ReduceSnoc(env: Env, s: State, frames: seq<Frame>, f: Frame)
    ensures Reduce(env, s, frames + [f]) == ApplyFrame(env, Reduce(env, s, frames), f)
  {
    ReduceAppend(env, s, frames, [f]);
    assert Reduce(env, Reduce(env, s, frames), [f])
        == Reduce(env, ApplyFrame(env, Reduce(env, s, frames), f), []);
  }

  // Applying an identified frame twice in a row is applying it once.
  lemma ReplayChangesNothing(env: Env, s: State, f: Frame)
    requires f.id.Some?
    ensures ApplyFrame(env, ApplyFrame(env, s, f), f) == ApplyFrame(env, s, f)
  {
  }

  // Wherever an identified frame is delivered twice in a row, the run ends as if it had
  // been delivered once.
  lemma RepetitionIsHarmless(env: Env, s: State, before: seq<Frame>, f: Frame, after: seq<Frame>)
    requires f.id.Some?
    ensures Reduce(env, s, before + [f] + [f] + after) == Reduce(env, s, before + [f] + after)
  {
    ReduceAppend(env, s, before + [f] + [f], after);
    ReduceAppend(env, s, before + [f], after);
    ReduceSnoc(env, s, before + [f], f);
    ReduceSnoc(env, s, before, f);
    ReplayChangesNothing(env, Reduce(env, s, before), f);
  }

  // ---- Messages only grow --------------------------------------------------------------

  ghost predicate Increasing(messages: seq<StreamMessage>) {
    forall i, j | 0 <= i < j < |messages| :: messages[i].sequence < messages[j].sequence
  }

  lemma {:induction false} MessagesOnlyGrow(env: Env, s: State, frames: seq<Frame>)
    requires Increasing(s.messages)
    ensures s.messages <= Reduce(env, s, frames).messages
    ensures Increasing(Reduce(env, s, frames).messages)
    decreases |frames|
  {
    if frames != [] {
      MessagesOnlyGrow(env, ApplyFrame(env, s, frames[0]), frames[1..]);
    }
  }

  // ---- What a finalised message says ------------------------------------------------------

  // The frames that are not replays of the one applied before them.
  function Fresh(env: Env, s: State, frames: seq<Frame>): seq<Frame>
    decreases |frames|
  {
    if frames == [] then []
    else (if IsReplay(s, frames[0]) then [] else [frames[0]])
         + Fresh(env, ApplyFrame(env, s, frames[0]), frames[1..])
  }

  lemma {:induction false} FreshIsNoLonger(env: Env, s: State, frames: seq<Frame>)
    ensures |Fresh(env, s, frames)| <= |frames|
    decreases |frames|
  {
    if frames != [] {
      FreshIsNoLonger(env, ApplyFrame(env, s, frames[0]), frames[1..]);
    }
  }

  predicate EndsTurn(env: Env, f: Frame) {
    Payload(env, f.data).Some? && (f.event == "completed" || f.event == "error")
  }

  predicate Completes(env: Env, f: Frame) {
    Payload(env, f.data).Some? && f.event == "completed"
  }

  function DeltaText(env: Env, f: Frame): string {
    var record := Payload(env, f.data);
    if record.Some? && f.event == "message.delta" then AsString(Field(record.value, "text")) else ""
  }

  function DeltaTexts(env: Env, frames: seq<Frame>): string {
    if frames == [] then "" else DeltaText(env, frames[0]) + DeltaTexts(env, frames[1..])
  }

  // The frames since the last one that ended a turn, with the text that was open before.
  function OpenText(env: Env, text: string, frames: seq<Frame>): string
    decreases |frames|
  {
    if frames == [] then text
    else if EndsTurn(env, frames[0]) then OpenText(env, "", frames[1..])
    else OpenText(env, text + DeltaText(env, frames[0]), frames[1..])
  }

  // The contents finalised along `frames`, in order.
  function FinalContents(env: Env, text: string, frames: seq<Frame>): seq<string>
    decreases |frames|
  {
    if frames == [] then []
    else if Completes(env, frames[0]) then [text] + FinalContents(env, "", frames[1..])
    else if EndsTurn(env, frames[0]) then FinalContents(env, "", frames[1..])
    else FinalContents(env, text + DeltaText(env, frames[0]), frames[1..])
  }

  // Without a turn end in between, the open text is the concatenation of the deltas.
  lemma {:induction false} OpenTextIsDeltas(env: Env, text: string, frames: seq<Frame>)
    requires forall i | 0 <= i < |frames| :: !EndsTurn(env, frames[i])
    ensures OpenText(env, text, frames) == text + DeltaTexts(env, frames)
    ensures FinalContents(env, text, frames) == []
    decreases |frames|
  {
    if frames == [] {
      assert text + "" == text;
    } else {
      assert !EndsTurn(env, frames[0]);
      OpenTextIsDeltas(env, text + DeltaText(env, frames[0]), frames[1..]);
      AppendAssociates(text, DeltaText(env, frames[0]), DeltaTexts(env, frames[1..]));
    }
  }

  // A stretch of frames that starts after a turn end and runs to a completion finalises
  // exactly the concatenation of its deltas.
  lemma TurnContentIsItsDeltas(env: Env, turn: seq<Frame>, done: Frame, rest: seq<Frame>)
    requires (forall i | 0 <= i < |turn| :: !EndsTurn(env, turn[i])) && Completes(env, done)
    ensures FinalContents(env, "", turn + [done] + rest)
         == [DeltaTexts(env, turn)] + FinalContents(env, "", rest)
  {
    FinalContentsSkip(env, "", turn, [done] + rest);
    OpenTextIsDeltas(env, "", turn);
    assert "" + DeltaTexts(env, turn) == DeltaTexts(env, turn);
    assert turn + [done] + rest == turn + ([done] + rest);
    assert ([done] + rest)[1..] == rest;
  }

  lemma {:induction false} FinalContentsSkip(env: Env, text: string, turn: seq<Frame>, rest: seq<Frame>)
    requires forall i | 0 <= i < |turn| :: !EndsTurn(env, turn[i])
    ensures FinalContents(env, text, turn + rest) == FinalContents(env, OpenText(env, text, turn), rest)
    decreases |turn|
  {
    if turn == [] {
      assert turn + rest == rest;
    } else {
      assert (turn + rest)[0] == turn[0] && (turn + rest)[1..] == turn[1..] + rest;
      assert !EndsTurn(env, turn[0]);
      FinalContentsSkip(env, text + DeltaText(env, turn[0]), turn[1..], rest);
    }
  }

  function ContentsFrom(messages: seq<StreamMessage>, n: nat): seq<string>
    requires n <= |messages|
  {
    seq(|messages| - n, i requires 0 <= i < |messages| - n => messages[n + i].content)
  }

  // What one frame that is no replay does to text and messages.
  lemma FreshFrameStep(env: Env, s: State, f: Frame)
    requires !IsReplay(s, f)
    ensures var s' := ApplyFrame(env, s, f);
            && s'.streamingText == (if EndsTurn(env, f) then "" else s.streamingText + DeltaText(env, f))
            && |s'.messages| == |s.messages| + (if Completes(env, f) then 1 else 0)
            && s.messages <= s'.messages
            && (Completes(env, f) ==> s'.messages[|s.messages|].content == s.streamingText)
  {
    assert s.streamingText + "" == s.streamingText;
  }

  // For every sequence of frames: the messages appended are the finalised contents of
  // the non-duplicate frames, and the open text is what is left.
  lemma {:induction false} ReducerRefinesDeltaHistory(env: Env, s: State, frames: seq<Frame>)
    ensures var s' := Reduce(env, s, frames);
            var novel := Fresh(env, s, frames);
            && s.messages <= s'.messages
            && s'.streamingText == OpenText(env, s.streamingText, novel)
            && ContentsFrom(s'.messages, |s.messages|) == FinalContents(env, s.streamingText, novel)
    decreases |frames|
  {
    if frames != [] {
      var f := frames[0];
      var t := ApplyFrame(env, s, f);
      ReducerRefinesDeltaHistory(env, t, frames[1..]);
      if IsReplay(s, f) {
        assert Fresh(env, s, frames) == Fresh(env, t, frames[1..]);
      } else {
        var later := Fresh(env, t, frames[1..]);
        HistoryCons(env, s, f, Reduce(env, s, frames), later);
        assert Fresh(env, s, frames) == [f] + later;
      }
    }
  }

  // One new frame before a history.
  lemma HistoryCons(env: Env, s: State, f: Frame, s': State, later: seq<Frame>)
    requires !IsReplay(s, f)
    requires var t := ApplyFrame(env, s, f);
             && t.messages <= s'.messages && s'.streamingText == OpenText(env, t.streamingText, later)
             && ContentsFrom(s'.messages, |t.messages|) == FinalContents(env, t.streamingText, later)
    ensures s.messages <= s'.messages && s'.streamingText == OpenText(env, s.streamingText, [f] + later)
    ensures ContentsFrom(s'.messages, |s.messages|) == FinalContents(env, s.streamingText, [f] + later)
  {
    FreshFrameStep(env, s, f);
    var t := ApplyFrame(env, s, f);
    assert ([f] + later)[0] == f && ([f] + later)[1..] == later;
    if Completes(env, f) {
      assert ContentsFrom(s'.messages, |s.messages|)
          == [s'.messages[|s.messages|].content] + ContentsFrom(s'.messages, |t.messages|);
    } else {
      assert |t.messages| == |s.messages|;
    }
  }

  // ---- What every other field is after a run -------------------------------------------------

  // One frame more adds itself to the non-duplicate ones, unless it repeats the last one.
  lemma {:induction false} FreshSnoc(env: Env, s: State, frames: seq<Frame>, f: Frame)
    ensures Fresh(env, s, frames + [f]) ==
              Fresh(env, s, frames) +
              (if f.id.Some? && f.id == Reduce(env, s, frames).lastEventId then [] else [f])
    decreases |frames|
  {
    if frames == [] {
      assert frames + [f] == [f] && [f][1..] == [];
    } else {
      assert (frames + [f])[0] == frames[0] && (frames + [f])[1..] == frames[1..] + [f];
      FreshSnoc(env, ApplyFrame(env, s, frames[0]), frames[1..], f);
    }
  }

  // The frame carries a JSON object.
  predicate HasRecord(env: Env, f: Frame) {
    f.data != "" && env.parse(f.data).Some? && env.parse(f.data).value.JsonObject?
  }

  // The frame carries an object and has one of these types.
  predicate IsAmong(env: Env, f: Frame, kinds: set<string>) {
    HasRecord(env, f) && f.event in kinds
  }

  // The last such frame.
  ghost predicate IsLastAmong(env: Env, frames: seq<Frame>, kinds: set<string>, i: nat) {
    && i < |frames| && IsAmong(env, frames[i], kinds)
    && forall j | i < j < |frames| :: !IsAmong(env, frames[j], kinds)
  }

  ghost predicate NoneAmong(env: Env, frames: seq<Frame>, kinds: set<string>) {
    forall i | 0 <= i < |frames| :: !IsAmong(env, frames[i], kinds)
  }

  lemma LastAmongSnoc(env: Env, frames: seq<Frame>, f: Frame, kinds: set<string>)
    ensures NoneAmong(env, frames + [f], kinds) <==> NoneAmong(env, frames, kinds) && !IsAmong(env, f, kinds)
    ensures forall i: nat :: IsLastAmong(env, frames + [f], kinds, i) <==>
              if IsAmong(env, f, kinds) then i == |frames| else IsLastAmong(env, frames, kinds, i)
  {
    var all := frames + [f];
    assert all[|frames|] == f && forall j | 0 <= j < |frames| :: all[j] == frames[j];
    forall i: nat
      ensures IsLastAmong(env, all, kinds, i) <==>
                if IsAmong(env, f, kinds) then i == |frames| else IsLastAmong(env, frames, kinds, i)
    {
      assert i < |frames| ==> all[i] == frames[i];
    }
  }

  // The turn is over or waits for the user; the turn is going on.
  const SETTLING := {"completed", "interaction.required", "error"}
  const GOING_ON := {"progress", "message.delta", "interaction.resolved"}

  predicate IsSettled(status: Status) {
    status == Completed || status == Failed || status == Cancelling
  }

  // The status after any run: that of the last frame that settled the turn, whatever
  // followed it; without one, a settled or cancelling turn is never reopened, and any other
  // is streaming once it goes on.
  ghost predicate StatusIs(env: Env, before: Status, novel: seq<Frame>, after: Status) {
    && (forall i: nat | IsLastAmong(env, novel, SETTLING, i) ::
          after == if novel[i].event == "error" then Failed else Completed)
    && (NoneAmong(env, novel, SETTLING) ==>
          after == if IsSettled(before) || NoneAmong(env, novel, GOING_ON) then before else Streaming)
  }

  lemma {:induction false} StatusAfter(env: Env, s: State, frames: seq<Frame>)
    ensures StatusIs(env, s.status, Fresh(env, s, frames), Reduce(env, s, frames).status)
    decreases |frames|
  {
    if frames != [] {
      var init, f := frames[..|frames| - 1], frames[|frames| - 1];
      assert frames == init + [f];
      StatusAfter(env, s, init);
      StatusStep(env, s, init, f);
    }
  }

  lemma StatusStep(env: Env, s: State, init: seq<Frame>, f: Frame)
    requires StatusIs(env, s.status, Fresh(env, s, init), Reduce(env, s, init).status)
    ensures StatusIs(env, s.status, Fresh(env, s, init + [f]), Reduce(env, s, init + [f]).status)
  {
    var t, novel := Reduce(env, s, init), Fresh(env, s, init);
    ReduceSnoc(env, s, init, f);
    FreshSnoc(env, s, init, f);
    if IsReplay(t, f) {
      assert novel + [] == novel;
    } else {
      StatusOfOne(env, t, f);
      StatusSnoc(env, s.status, novel, t.status, f, ApplyFrame(env, t, f).status);
    }
  }

  lemma StatusOfOne(env: Env, s: State, f: Frame)
    requires !IsReplay(s, f)
    ensures ApplyFrame(env, s, f).status ==
              if IsAmong(env, f, SETTLING) then (if f.event == "error" then Failed else Completed)
              else if IsAmong(env, f, GOING_ON) && !IsSettled(s.status) then Streaming else s.status
  {
  }

  lemma StatusSnoc(env: Env, before: Status, novel: seq<Frame>, mid: Status, f: Frame, after: Status)
    requires StatusIs(env, before, novel, mid)
    requires after == if IsAmong(env, f, SETTLING) then (if f.event == "error" then Failed else Completed)
                      else if IsAmong(env, f, GOING_ON) && !IsSettled(mid) then Streaming else mid
    ensures StatusIs(env, before, novel + [f], after)
  {
    LastAmongSnoc(env, novel, f, SETTLING);
    LastAmongSnoc(env, novel, f, GOING_ON);
    assert (novel + [f])[|novel|] == f;
    assert forall i: nat | IsLastAmong(env, novel, SETTLING, i) :: (novel + [f])[i] == novel[i];
  }

  // A text field of a record; anything but a text counts as an empty one.
  ghost predicate IsText(record: map<string, Json>, name: string, text: string) {
    if name in record && record[name].JsonString? then text == record[name].text else text == ""
  }

  ghost predicate IsNullableText(record: map<string, Json>, name: string, text: Option<string>) {
    if name in record && record[name].JsonString? then text == Some(record[name].text) else text == None
  }

  // What the fields of a record become.
  ghost predicate IsProgressOf(record: map<string, Json>, p: Option<Progress>) {
    p.Some? && IsText(record, "stage", p.value.stage) && IsText(record, "message", p.value.message)
  }

  ghost predicate IsErrorOf(env: Env, record: map<string, Json>, e: Option<ErrorState>) {
    && e.Some? && IsText(record, "code", e.value.code)
    && (if "message" in record && record["message"].JsonString? && record["message"].text != ""
        then e.value.message == record["message"].text
        else e.value.message == env.errorLabel(e.value.code))
    && (e.value.retryable <==> "retryable" in record && record["retryable"] == JsonBool(true))
  }

  // Whatever becomes of its status.
  ghost predicate IsInteractionOf(record: map<string, Json>, x: Option<Interaction>) {
    && x.Some? && IsText(record, "interactionId", x.value.id) && IsText(record, "type", x.value.kind)
    && IsText(record, "conversationId", x.value.conversationId)
    && IsText(record, "executionId", x.value.executionId) && IsText(record, "expiresAt", x.value.expiresAt)
    && (if "candidates" in record && record["candidates"].JsonArray?
        then x.value.candidates == Records(record["candidates"].items) else x.value.candidates == [])
    && (if "draft" in record && record["draft"].JsonObject?
        then x.value.draft == Some(record["draft"].fields) else x.value.draft == None)
  }

  ghost predicate IsMessageOf(record: map<string, Json>, m: StreamMessage) {
    && m.role == AssistantRole && IsText(record, "messageId", m.id)
    && IsText(record, "occurredAt", m.createdAt) && IsNullableText(record, "dataAsOf", m.dataAsOf)
  }

  // The candidates are the objects among the items, in order.
  lemma {:induction false} RecordsAreObjects(items: seq<Json>)
    ensures forall x | x in Records(items) :: x in items && x.JsonObject?
    ensures (forall i | 0 <= i < |items| :: items[i].JsonObject?) ==> Records(items) == items
    ensures forall x | x in items && x.JsonObject? :: x in Records(items)
  {
    if items != [] {
      RecordsAreObjects(items[1..]);
      assert forall i | 1 <= i < |items| :: items[i] == items[1..][i - 1];
    }
  }

  function RecordIn(env: Env, f: Frame): map<string, Json>
    requires HasRecord(env, f)
  {
    env.parse(f.data).value.fields
  }

  // Progress, error, interaction and cursor after any run: what the last frame concerned
  // with each of them said. The messages appended are those of the completions, numbered
  // on from the largest number before.
  ghost predicate FieldsAre(env: Env, before: State, novel: seq<Frame>, after: State) {
    && after.conversationId == before.conversationId
    && ProgressIs(env, before, novel, after)
    && ErrorIs(env, before, novel, after)
    && InteractionIs(env, before, novel, after)
    && CursorIs(env, before, novel, after)
  }

  ghost predicate ProgressIs(env: Env, before: State, novel: seq<Frame>, after: State) {
    && (forall i: nat | IsLastAmong(env, novel, {"progress", "completed", "error"}, i) ::
          if novel[i].event == "progress" then IsProgressOf(RecordIn(env, novel[i]), after.progress)
          else after.progress == None)
    && (NoneAmong(env, novel, {"progress", "completed", "error"}) ==> after.progress == before.progress)
  }

  ghost predicate ErrorIs(env: Env, before: State, novel: seq<Frame>, after: State) {
    && (forall i: nat | IsLastAmong(env, novel, {"error"}, i) ::
          IsErrorOf(env, RecordIn(env, novel[i]), after.error))
    && (NoneAmong(env, novel, {"error"}) ==> after.error == before.error)
  }

  // An interaction is resolved once a later frame resolves it by its id.
  ghost predicate ResolvedAfter(env: Env, novel: seq<Frame>, from: int, id: string) {
    exists j :: 0 <= j < |novel| && from < j && IsAmong(env, novel[j], {"interaction.resolved"}) &&
                IsText(RecordIn(env, novel[j]), "interactionId", id)
  }

  ghost predicate InteractionIs(env: Env, before: State, novel: seq<Frame>, after: State) {
    && (forall i: nat | IsLastAmong(env, novel, {"interaction.required"}, i) ::
          && IsInteractionOf(RecordIn(env, novel[i]), after.interaction)
          && (after.interaction.value.status == Resolved <==>
                ResolvedAfter(env, novel, i, after.interaction.value.id)))
    && (NoneAmong(env, novel, {"interaction.required"}) ==>
          match before.interaction
          case None => after.interaction == None
          case Some(x) =>
            after.interaction == Some(if ResolvedAfter(env, novel, -1, x.id) then x.(status := Resolved) else x))
  }

  // The frame names an event: with an id, which has to be non-empty if there is no record.
  predicate Identifies(env: Env, f: Frame) {
    f.id.Some? && (f.id.value != "" || HasRecord(env, f))
  }

  ghost predicate CursorIs(env: Env, before: State, novel: seq<Frame>, after: State) {
    && (forall i: nat | i < |novel| && Identifies(env, novel[i]) &&
                        forall j | i < j < |novel| :: !Identifies(env, novel[j]) ::
          after.lastEventId == novel[i].id)
    && ((forall i | 0 <= i < |novel| :: !Identifies(env, novel[i])) ==> after.lastEventId == before.lastEventId)
  }

  lemma {:induction false} FieldsAfter(env: Env, s: State, frames: seq<Frame>)
    ensures FieldsAre(env, s, Fresh(env, s, frames), Reduce(env, s, frames))
    decreases |frames|
  {
    if frames != [] {
      var init, f := frames[..|frames| - 1], frames[|frames| - 1];
      assert frames == init + [f];
      FieldsAfter(env, s, init);
      FieldsStep(env, s, init, f);
    }
  }

  lemma FieldsStep(env: Env, s: State, init: seq<Frame>, f: Frame)
    requires FieldsAre(env, s, Fresh(env, s, init), Reduce(env, s, init))
    ensures FieldsAre(env, s, Fresh(env, s, init + [f]), Reduce(env, s, init + [f]))
  {
    var t, novel := Reduce(env, s, init), Fresh(env, s, init);
    ReduceSnoc(env, s, init, f);
    FreshSnoc(env, s, init, f);
    if IsReplay(t, f) {
      assert novel + [] == novel;
    } else {
      ConversationIsKept(env, t, f);
      ProgressSnoc(env, s, novel, t, f);
      ErrorSnoc(env, s, novel, t, f);
      InteractionSnoc(env, s, novel, t, f);
      CursorSnoc(env, s, novel, t, f);
    }
  }

  lemma ConversationIsKept(env: Env, t: State, f: Frame)
    ensures ApplyFrame(env, t, f).conversationId == t.conversationId
  {
  }

  lemma ProgressOfOne(env: Env, t: State, f: Frame)
    requires !IsReplay(t, f)
    ensures var progress := ApplyFrame(env, t, f).progress;
            if IsAmong(env, f, {"progress"}) then IsProgressOf(RecordIn(env, f), progress)
            else if IsAmong(env, f, {"completed", "error"}) then progress == None
            else progress == t.progress
  {
  }

  lemma ProgressSnoc(env: Env, before: State, novel: seq<Frame>, t: State, f: Frame)
    requires ProgressIs(env, before, novel, t) && !IsReplay(t, f)
    ensures ProgressIs(env, before, novel + [f], ApplyFrame(env, t, f))
  {
    var all := novel + [f];
    ProgressOfOne(env, t, f);
    LastAmongSnoc(env, novel, f, {"progress", "completed", "error"});
    assert all[|novel|] == f;
    forall i: nat | IsLastAmong(env, all, {"progress", "completed", "error"}, i)
      ensures if all[i].event == "progress"
              then IsProgressOf(RecordIn(env, all[i]), ApplyFrame(env, t, f).progress)
              else ApplyFrame(env, t, f).progress == None
    {
      assert i < |novel| ==> all[i] == novel[i];
    }
  }

  lemma ErrorOfOne(env: Env, t: State, f: Frame)
    requires !IsReplay(t, f)
    ensures var error := ApplyFrame(env, t, f).error;
            if IsAmong(env, f, {"error"}) then IsErrorOf(env, RecordIn(env, f), error) else error == t.error
  {
  }

  lemma ErrorSnoc(env: Env, before: State, novel: seq<Frame>, t: State, f: Frame)
    requires ErrorIs(env, before, novel, t) && !IsReplay(t, f)
    ensures ErrorIs(env, before, novel + [f], ApplyFrame(env, t, f))
  {
    var all := novel + [f];
    ErrorOfOne(env, t, f);
    LastAmongSnoc(env, novel, f, {"error"});
    assert all[|novel|] == f;
    forall i: nat | IsLastAmong(env, all, {"error"}, i)
      ensures IsErrorOf(env, RecordIn(env, all[i]), ApplyFrame(env, t, f).error)
    {
      assert i < |novel| ==> all[i] == novel[i];
    }
  }

  lemma CursorSnoc(env: Env, before: State, novel: seq<Frame>, t: State, f: Frame)
    requires CursorIs(env, before, novel, t) && !IsReplay(t, f)
    ensures CursorIs(env, before, novel + [f], ApplyFrame(env, t, f))
  {
    var all := novel + [f];
    assert all[|novel|] == f && forall i | 0 <= i < |novel| :: all[i] == novel[i];
  }

  lemma ResolvedSnoc(env: Env, novel: seq<Frame>, f: Frame, from: int, id: string)
    requires from < |novel|
    ensures ResolvedAfter(env, novel + [f], from, id) <==>
              || ResolvedAfter(env, novel, from, id)
              || (IsAmong(env, f, {"interaction.resolved"}) && IsText(RecordIn(env, f), "interactionId", id))
  {
    var all := novel + [f];
    assert all[|novel|] == f && forall i | 0 <= i < |novel| :: all[i] == novel[i];
    if ResolvedAfter(env, novel, from, id) {
      var j :| 0 <= j < |novel| && from < j && IsAmong(env, novel[j], {"interaction.resolved"}) &&
               IsText(RecordIn(env, novel[j]), "interactionId", id);
      assert all[j] == novel[j];
    }
    if IsAmong(env, f, {"interaction.resolved"}) && IsText(RecordIn(env, f), "interactionId", id) {
      assert all[|novel|] == f;
    }
  }

  lemma InteractionOfOne(env: Env, t: State, f: Frame)
    requires !IsReplay(t, f)
    ensures var t' := ApplyFrame(env, t, f);
            if IsAmong(env, f, {"interaction.required"})
            then IsInteractionOf(RecordIn(env, f), t'.interaction) && t'.interaction.value.status == Open
            else match t.interaction
                 case None => t'.interaction == None
                 case Some(x) =>
                   t'.interaction == Some(
                     if IsAmong(env, f, {"interaction.resolved"}) && IsText(RecordIn(env, f), "interactionId", x.id)
                     then x.(status := Resolved) else x)
  {
  }

  lemma InteractionSnoc(env: Env, before: State, novel: seq<Frame>, t: State, f: Frame)
    requires InteractionIs(env, before, novel, t) && !IsReplay(t, f)
    ensures InteractionIs(env, before, novel + [f], ApplyFrame(env, t, f))
  {
    var all, t' := novel + [f], ApplyFrame(env, t, f);
    InteractionOfOne(env, t, f);
    LastAmongSnoc(env, novel, f, {"interaction.required"});
    assert all[|novel|] == f && forall i | 0 <= i < |novel| :: all[i] == novel[i];
    forall i: nat | IsLastAmong(env, all, {"interaction.required"}, i)
      ensures IsInteractionOf(RecordIn(env, all[i]), t'.interaction)
      ensures t'.interaction.value.status == Resolved <==> ResolvedAfter(env, all, i, t'.interaction.value.id)
    {
      if i < |novel| {
        ResolvedSnoc(env, novel, f, i, t.interaction.value.id);
      }
    }
    if NoneAmong(env, all, {"interaction.required"}) && before.interaction.Some? {
      ResolvedSnoc(env, novel, f, -1, before.interaction.value.id);
    }
  }

  // What a completion appends.
  lemma CompletionAppends(env: Env, s: State, f: Frame)
    requires !IsReplay(s, f) && IsAmong(env, f, {"completed"})
    ensures var s' := ApplyFrame(env, s, f);
            && s'.messages == s.messages + [s'.messages[|s.messages|]]
            && var m := s'.messages[|s.messages|];
               && IsMessageOf(RecordIn(env, f), m) && m.content == s.streamingText
               && m.sequence >= 1 && (forall x | x in s.messages :: x.sequence < m.sequence)
               && (m.sequence == 1 || exists x :: x in s.messages && x.sequence == m.sequence - 1)
  {
    var n := LastSequence(s.messages);
    if n > 0 {
      var i :| 0 <= i < |s.messages| && s.messages[i].sequence == n;
      assert s.messages[i] in s.messages;
    }
  }

  // What a delta adds is the text of its record.
  lemma DeltaTextIs(env: Env, f: Frame)
    ensures IsAmong(env, f, {"message.delta"}) ==> IsText(RecordIn(env, f), "text", DeltaText(env, f))
    ensures !IsAmong(env, f, {"message.delta"}) ==> DeltaText(env, f) == ""
    ensures EndsTurn(env, f) <==> IsAmong(env, f, {"completed", "error"})
    ensures Completes(env, f) <==> IsAmong(env, f, {"completed"})
  {
  }
}
