// Consuming the event stream over unreliable connections: incremental decoding,
// per-connection carry, bounded reconnects, and what of the durable log is applied.
module EventResume {
  import opened Prelude
  import opened Utf8
  import opened EventFrames
  import opened EventReducer

  // ---- Cursors and responses ----------------------------------------------------------

  // Tail is the null cursor: whatever is written after the request.
  datatype Cursor = AfterEvent(id: string) | AfterSequence(n: nat) | Tail

  function EventIdCursor(lastEventId: Option<string>): Cursor {
    if lastEventId.Some? && lastEventId.value != "" then AfterEvent(lastEventId.value) else Tail
  }

  datatype Item = Deliver(event: Event) | Keepalive

  datatype Ending = Eof | Broken | ReadAborted

  // `from` and `items` say what the server set out to send; the client sees only `blocks`.
  datatype Response =
    | FetchFailed
    | FetchAborted
    | Refused(code: string, message: string)
    | NoBody
    | Body(from: nat, items: seq<Item>, blocks: seq<Bytes>, ending: Ending)

  // The answer to the n-th request, made with this cursor.
  type Network = (nat, Cursor) -> Response

  // ---- One connection -------------------------------------------------------------------

  // The read loop: decode what is complete, split off complete frames, reduce them.
  function Consume(env: Env, s: State, pending: Bytes, carry: string, blocks: seq<Bytes>): State
    decreases |blocks|
  {
    if blocks == [] then s
    else
      var decoded := DecodeAvailable(pending + blocks[0]);
      var parsed := Parse(Normalize(carry + decoded.text));
      Consume(env, Reduce(env, s, parsed.frames), decoded.pending, parsed.carry, blocks[1..])
  }

  lemma {:induction false} PendingIsUndecodable(b: Bytes)
    ensures DecodeAvailable(DecodeAvailable(b).pending) == Decoded("", DecodeAvailable(b).pending)
    decreases |b|
  {
    if DecodeOne(b).Some? {
      PendingIsUndecodable(b[|EncodeChar(DecodeOne(b).value)|..]);
    }
  }

  // However the bytes are cut into blocks, the frames reduced are those of the whole text.
  lemma {:induction false} ConsumeIsReduceOfText(
      env: Env, s: State, pending: Bytes, carry: string, blocks: seq<Bytes>)
    requires DecodeAvailable(pending) == Decoded("", pending) && FindBoundary(carry) == None
    requires CarriageFree(carry + DecodeAvailable(pending + Concat(blocks)).text)
    ensures Consume(env, s, pending, carry, blocks)
         == Reduce(env, s, Parse(carry + DecodeAvailable(pending + Concat(blocks)).text).frames)
    decreases |blocks|
  {
    if blocks == [] {
      assert pending + Concat(blocks) == pending && carry + "" == carry;
    } else {
      var now, later := pending + blocks[0], Concat(blocks[1..]);
      AppendAssociates(pending, blocks[0], later);
      DecodeAvailableIsIncremental(now, later);
      var decoded := DecodeAvailable(now);
      var rest := DecodeAvailable(decoded.pending + later).text;
      var text := carry + decoded.text;
      AppendAssociates(carry, decoded.text, rest);
      ConsumeStep(env, s, text, rest);
      PendingIsUndecodable(now);
      var parsed := Parse(text);
      ConsumeIsReduceOfText(env, Reduce(env, s, parsed.frames), decoded.pending, parsed.carry, blocks[1..]);
    }
  }

  lemma ConsumeStep(env: Env, s: State, text: string, rest: string)
    requires CarriageFree(text + rest)
    ensures Normalize(text) == text
    ensures FindBoundary(Parse(text).carry) == None && CarriageFree(Parse(text).carry + rest)
    ensures Reduce(env, Reduce(env, s, Parse(text).frames), Parse(Parse(text).carry + rest).frames)
         == Reduce(env, s, Parse(text + rest).frames)
  {
    assert forall c | c in text || c in rest :: c in text + rest;
    NormalizeKeepsCarriageFree(text);
    CarryHasNoBoundary(text);
    CarryIsSuffix(text);
    ParseIsChunkInvariant(text, rest);
    ReduceAppend(env, s, Parse(text).frames, Parse(Parse(text).carry + rest).frames);
  }

  // ---- What the server sends ---------------------------------------------------------------

  function ItemText(item: Item): string {
    match item case Deliver(e) => e.Wire() case Keepalive => KEEPALIVE
  }

  function StreamText(items: seq<Item>): string {
    if items == [] then "" else ItemText(items[0]) + StreamText(items[1..])
  }

  function ItemFrame(item: Item): Frame {
    match item case Deliver(e) => e.AsFrame() case Keepalive => Frame(None, "message", "")
  }

  function ItemFrames(items: seq<Item>): seq<Frame> {
    seq(|items|, i requires 0 <= i < |items| => ItemFrame(items[i]))
  }

  function EventsOf(items: seq<Item>): seq<Event> {
    if items == [] then []
    else (if items[0].Deliver? then [items[0].event] else []) + EventsOf(items[1..])
  }

  function EventFramesOf(events: seq<Event>): seq<Frame> {
    seq(|events|, i requires 0 <= i < |events| => events[i].AsFrame())
  }

  ghost predicate WellFormedItems(items: seq<Item>) {
    forall i | 0 <= i < |items| && items[i].Deliver? :: items[i].event.WellFormed()
  }

  lemma ItemParses(item: Item)
    requires item.Deliver? ==> item.event.WellFormed()
    ensures FindBoundary(ItemText(item)) == Some(|ItemText(item)| - 2)
    ensures Parse(ItemText(item)) == Parsed([ItemFrame(item)], "")
  {
    match item
    case Deliver(e) =>
      WireBoundary(e);
      WireParsesToFrame(e);
    case Keepalive =>
      KeepaliveParses();
  }

  lemma NoBoundaryBefore(s: string, n: nat)
    requires FindBoundary(s).Some? && n < FindBoundary(s).value + 2
    ensures FindBoundary(s[..n]) == None
  {
    FindBoundaryIsFirst(s);
    FindBoundaryIsFirst(s[..n]);
  }

  // An item cut before its end gives no frame.
  lemma CutItem(item: Item, n: nat)
    requires item.Deliver? ==> item.event.WellFormed()
    requires n < |ItemText(item)|
    ensures Parse(ItemText(item)[..n]).frames == []
  {
    ItemParses(item);
    NoBoundaryBefore(ItemText(item), n);
  }

  lemma ItemThenRest(item: Item, cut: string)
    requires item.Deliver? ==> item.event.WellFormed()
    ensures Parse(ItemText(item) + cut).frames == [ItemFrame(item)] + Parse(cut).frames
  {
    ItemParses(item);
    ParseIsChunkInvariant(ItemText(item), cut);
    assert "" + cut == cut;
  }

  lemma ItemFramesCons(items: seq<Item>, k: nat)
    requires k < |items|
    ensures ItemFrames(items[..k + 1]) == [ItemFrame(items[0])] + ItemFrames(items[1..][..k])
  {
  }

  lemma CutInFirstItem(items: seq<Item>, n: nat)
    requires items != [] && WellFormedItems(items) && n < |ItemText(items[0])|
    ensures Parse(StreamText(items)[..n]).frames == ItemFrames(items[..0])
  {
    CutOfAppend(ItemText(items[0]), StreamText(items[1..]), n);
    CutItem(items[0], n);
    assert ItemFrames(items[..0]) == [];
  }

  lemma CutAfterFirstItem(items: seq<Item>, n: nat, k: nat)
    requires items != [] && WellFormedItems(items) && k < |items|
    requires |ItemText(items[0])| <= n <= |StreamText(items)|
    requires var rest := StreamText(items[1..])[..n - |ItemText(items[0])|];
             Parse(rest).frames == ItemFrames(items[1..][..k])
    ensures Parse(StreamText(items)[..n]).frames == ItemFrames(items[..k + 1])
  {
    var first, others := ItemText(items[0]), StreamText(items[1..]);
    CutOfAppend(first, others, n);
    ItemThenRest(items[0], others[..n - |first|]);
    ItemFramesCons(items, k);
  }

  // A stream cut after n characters parses to the frames of the items that arrived whole.
  lemma {:induction false} CutStreamParses(items: seq<Item>, n: nat) returns (m: nat)
    requires WellFormedItems(items) && n <= |StreamText(items)|
    ensures m <= |items| && (n == |StreamText(items)| ==> m == |items|)
    ensures Parse(StreamText(items)[..n]).frames == ItemFrames(items[..m])
    decreases |items|
  {
    if items == [] {
      m := 0;
      assert Parse("").frames == [];
    } else {
      var first := |ItemText(items[0])|;
      if n < first {
        m := 0;
        CutInFirstItem(items, n);
      } else {
        var k := CutStreamParses(items[1..], n - first);
        m := k + 1;
        CutAfterFirstItem(items, n, k);
      }
    }
  }

  // Keepalives change nothing.
  lemma {:induction false} KeepalivesAreIgnored(env: Env, s: State, items: seq<Item>)
    ensures Reduce(env, s, ItemFrames(items)) == Reduce(env, s, EventFramesOf(EventsOf(items)))
    decreases |items|
  {
    if items != [] {
      var f := ItemFrame(items[0]);
      assert ItemFrames(items)[1..] == ItemFrames(items[1..]);
      KeepalivesAreIgnored(env, ApplyFrame(env, s, f), items[1..]);
      if items[0].Deliver? {
        assert EventFramesOf(EventsOf(items)) == [f] + EventFramesOf(EventsOf(items[1..]));
        assert ([f] + EventFramesOf(EventsOf(items[1..])))[1..] == EventFramesOf(EventsOf(items[1..]));
      } else {
        assert EventsOf(items) == EventsOf(items[1..]);
        assert ApplyFrame(env, s, f) == s;
      }
    }
  }

  lemma {:induction false} EventsOfPrefix(items: seq<Item>, m: nat)
    requires m <= |items|
    ensures EventsOf(items[..m]) <= EventsOf(items)
    decreases m
  {
    if m > 0 {
      assert items[..m][0] == items[0] && items[..m][1..] == items[1..][..m - 1];
      EventsOfPrefix(items[1..], m - 1);
    }
  }

  lemma {:induction false} StreamTextIsCarriageFree(items: seq<Item>)
    requires WellFormedItems(items)
    ensures CarriageFree(StreamText(items))
    decreases |items|
  {
    if items != [] {
      StreamTextIsCarriageFree(items[1..]);
      if items[0].Deliver? {
        var e := items[0].event;
        assert forall c | c in e.id || c in e.kind || c in e.json :: c in e.id + e.kind + e.json;
        assert '\r' !in "id: " && '\r' !in "event: " && '\r' !in "data: " && '\r' !in "\n";
        assert '\r' !in e.Wire();
      } else {
        assert '\r' !in KEEPALIVE;
      }
    }
  }

  // ---- The durable log -------------------------------------------------------------------

  ghost predicate ValidLog(log: seq<Event>) {
    && (forall i | 0 <= i < |log| :: log[i].WellFormed())
    && (forall i, j | 0 <= i < j < |log| :: log[i].id != log[j].id)
  }

  // Where a response made with this cursor may start: just after the event, or with it.
  ghost predicate AllowedStart(log: seq<Event>, cursor: Cursor, from: nat) {
    match cursor
    case AfterEvent(id) => exists i :: 0 <= i < |log| && log[i].id == id && (from == i || from == i + 1)
    case AfterSequence(n) => from == n <= |log|
    case Tail => from <= |log|
  }

  // A body is some of the log from an allowed start on, with keepalives mixed in,
  // cut off after any byte.
  ghost predicate HonestBody(log: seq<Event>, cursor: Cursor, r: Response) {
    r.Body? ==>
      && AllowedStart(log, cursor, r.from) && r.from <= |log|
      && EventsOf(r.items) <= log[r.from..]
      && Concat(r.blocks) <= Encode(StreamText(r.items))
  }

  ghost predicate Honest(net: Network, log: seq<Event>) {
    forall n: nat, cursor: Cursor :: HonestBody(log, cursor, net(n, cursor))
  }

  // Everything from `from` to the end of the log arrived.
  ghost predicate DeliveredAll(log: seq<Event>, r: Response) {
    && r.Body? && r.from <= |log| && EventsOf(r.items) == log[r.from..]
    && Concat(r.blocks) == Encode(StreamText(r.items))
  }

  lemma {:induction false} EventsOfAreWellFormed(items: seq<Item>, events: seq<Event>)
    requires EventsOf(items) <= events && forall i | 0 <= i < |events| :: events[i].WellFormed()
    ensures WellFormedItems(items)
    decreases |items|
  {
    if items != [] {
      if items[0].Deliver? {
        assert EventsOf(items)[0] == events[0] && EventsOf(items[1..]) <= events[1..];
        EventsOfAreWellFormed(items[1..], events[1..]);
      } else {
        EventsOfAreWellFormed(items[1..], events);
      }
      assert forall i | 1 <= i < |items| :: items[i] == items[1..][i - 1];
    }
  }

  // The bytes of one connection are, decoded, a prefix of the text sent.
  lemma BytesReduceText(env: Env, s: State, text: string, blocks: seq<Bytes>) returns (n: nat)
    requires CarriageFree(text) && Concat(blocks) <= Encode(text)
    ensures n <= |text| && (Concat(blocks) == Encode(text) ==> n == |text|)
    ensures Consume(env, s, [], "", blocks) == Reduce(env, s, Parse(text[..n]).frames)
  {
    var bytes := Concat(blocks);
    n := CharsWithin(text, |bytes|);
    assert DecodeAvailable(bytes).text == text[..n] by {
      assert bytes == Encode(text)[..|bytes|];
      DecodeAvailableOfPrefix(text, |bytes|);
    }
    assert CarriageFree(text[..n]) by {
      assert forall c | c in text[..n] :: c in text;
    }
    WholeBody(env, s, blocks);
    if |bytes| == |Encode(text)| {
      CharsWithinIsLongest(text, |bytes|);
      assert text[..|text|] == text;
    }
  }

  // A body read by a fresh connection.
  lemma WholeBody(env: Env, s: State, blocks: seq<Bytes>)
    requires CarriageFree(DecodeAvailable(Concat(blocks)).text)
    ensures Consume(env, s, [], "", blocks)
         == Reduce(env, s, Parse(DecodeAvailable(Concat(blocks)).text).frames)
  {
    var bytes := Concat(blocks);
    var text := DecodeAvailable(bytes).text;
    assert [] + bytes == bytes && "" + text == text;
    ConsumeIsReduceOfText(env, s, [], "", blocks);
  }

  // The bytes of one connection reduce exactly the events that arrived whole.
  lemma BodyReducesEvents(env: Env, s: State, items: seq<Item>, blocks: seq<Bytes>)
    returns (m: nat)
    requires WellFormedItems(items) && Concat(blocks) <= Encode(StreamText(items))
    ensures m <= |EventsOf(items)|
    ensures Concat(blocks) == Encode(StreamText(items)) ==> m == |EventsOf(items)|
    ensures Consume(env, s, [], "", blocks) == Reduce(env, s, EventFramesOf(EventsOf(items)[..m]))
  {
    StreamTextIsCarriageFree(items);
    var n := BytesReduceText(env, s, StreamText(items), blocks);
    var k := CutStreamParses(items, n);
    KeepalivesAreIgnored(env, s, items[..k]);
    EventsOfPrefix(items, k);
    m := |EventsOf(items[..k])|;
    assert items[..|items|] == items;
    assert EventsOf(items)[..m] == EventsOf(items[..k]);
  }

  // ---- Position in the log ------------------------------------------------------------------

  // The client has applied the log up to `p` and its cursor says so.
  ghost predicate InSync(log: seq<Event>, s: State, p: nat) {
    0 < p <= |log| && s.lastEventId == Some(log[p - 1].id)
  }

  function EventRange(log: seq<Event>, a: nat, b: nat): seq<Frame>
    requires a <= b <= |log|
  {
    EventFramesOf(log[a..b])
  }

  lemma RangeSnoc(log: seq<Event>, a: nat, b: nat)
    requires a <= b < |log|
    ensures EventRange(log, a, b + 1) == EventRange(log, a, b) + [log[b].AsFrame()]
  {
  }

  lemma RangeSplit(log: seq<Event>, a: nat, b: nat, c: nat)
    requires a <= b <= c <= |log|
    ensures EventRange(log, a, c) == EventRange(log, a, b) + EventRange(log, b, c)
  {
    assert log[a..c] == log[a..b] + log[b..c];
  }

  lemma ApplyingSyncs(env: Env, log: seq<Event>, s: State, p: nat)
    requires ValidLog(log) && p < |log|
    ensures InSync(log, ApplyFrame(env, s, log[p].AsFrame()), p + 1)
  {
    assert log[p].WellFormed();
  }

  // Once an event has been reduced, the cursor names the last one, whatever it named before.
  lemma ReducingSyncs(env: Env, log: seq<Event>, s: State, p: nat, q: nat)
    requires ValidLog(log) && p <= q <= |log|
    ensures p < q || InSync(log, s, p) ==> InSync(log, Reduce(env, s, EventRange(log, p, q)), q)
  {
    if p < q {
      var before := EventRange(log, p, q - 1);
      RangeSnoc(log, p, q - 1);
      ReduceSnoc(env, s, before, log[q - 1].AsFrame());
      ApplyingSyncs(env, log, Reduce(env, s, before), q - 1);
    } else {
      assert EventRange(log, p, q) == [];
    }
  }

  lemma RangeCons(log: seq<Event>, a: nat, b: nat)
    requires a < b <= |log|
    ensures EventRange(log, a, b) == [log[a].AsFrame()] + EventRange(log, a + 1, b)
  {
  }

  // Every event of a stretch of the log is applied, and none is taken for a repetition,
  // exactly unless the client has already applied the first of them last.
  lemma {:induction false} NothingIsSkipped(env: Env, log: seq<Event>, s: State, p: nat, q: nat)
    requires ValidLog(log) && p <= q <= |log|
    ensures Fresh(env, s, EventRange(log, p, q)) == EventRange(log, p, q) <==>
              p == q || s.lastEventId != Some(log[p].id)
    decreases q - p
  {
    if p < q {
      var f, later := log[p].AsFrame(), EventRange(log, p + 1, q);
      RangeCons(log, p, q);
      assert ([f] + later)[0] == f && ([f] + later)[1..] == later;
      ApplyingSyncs(env, log, s, p);
      NothingIsSkipped(env, log, ApplyFrame(env, s, f), p + 1, q);
      FreshIsNoLonger(env, ApplyFrame(env, s, f), later);
    }
  }

  // A response that starts with the last applied event repeats it without effect.
  lemma RepeatedEventIsSkipped(env: Env, log: seq<Event>, s: State, p: nat, q: nat)
    requires InSync(log, s, p) && p <= q <= |log|
    ensures Reduce(env, s, EventRange(log, p - 1, q)) == Reduce(env, s, EventRange(log, p, q))
  {
    var frames := EventRange(log, p - 1, q);
    assert frames[0] == log[p - 1].AsFrame() && frames[1..] == EventRange(log, p, q);
    assert IsReplay(s, frames[0]);
  }

  lemma StartIsUnique(log: seq<Event>, p: nat, from: nat)
    requires ValidLog(log) && 0 < p <= |log|
    requires AllowedStart(log, AfterEvent(log[p - 1].id), from)
    ensures from == p - 1 || from == p
  {
  }

  // Whether the response starts after the last applied event or repeats it, what it
  // adds is the log from p on.
  lemma StartDoesNotMatter(env: Env, log: seq<Event>, s: State, p: nat, from: nat, m: nat)
    requires InSync(log, s, p) && (from == p || from == p - 1) && from + m <= |log|
    ensures Reduce(env, s, EventFramesOf(log[from..from + m]))
         == Reduce(env, s, EventRange(log, p, Max(p, from + m)))
  {
    if from < p {
      if m == 0 {
        assert log[from..from] == [] && log[p..p] == [];
      } else {
        RepeatedEventIsSkipped(env, log, s, p, from + m);
      }
    }
  }

  lemma HonestItems(log: seq<Event>, cursor: Cursor, r: Response)
    requires ValidLog(log) && r.Body? && HonestBody(log, cursor, r)
    ensures WellFormedItems(r.items)
  {
    var events := log[r.from..];
    assert forall i | 0 <= i < |events| :: events[i] == log[r.from + i];
    EventsOfAreWellFormed(r.items, events);
  }

  lemma PrefixOfSuffix<T>(part: seq<T>, whole: seq<T>, from: nat, m: nat)
    requires from <= |whole| && part <= whole[from..] && m <= |part|
    ensures from + m <= |whole| && part[..m] == whole[from..from + m]
  {
    assert part[..m] == whole[from..][..m];
  }

  // The first m events of a response bring the client to the position after them.
  lemma EventsAdvance(env: Env, log: seq<Event>, s: State, p: nat, from: nat, events: seq<Event>, m: nat)
    returns (q: nat)
    requires ValidLog(log) && (from == p || (InSync(log, s, p) && from == p - 1))
    requires from <= |log| && events <= log[from..] && m <= |events|
    ensures p <= q <= |log| && (events == log[from..] && m == |events| ==> q == |log|)
    ensures Reduce(env, s, EventFramesOf(events[..m])) == Reduce(env, s, EventRange(log, p, q))
  {
    PrefixOfSuffix(events, log, from, m);
    q := Max(p, from + m);
    if from < p {
      StartDoesNotMatter(env, log, s, p, from, m);
    }
  }

  // A request made with this cursor goes on at position p: it asks for the sequence p,
  // whatever the client applied last, or for what follows the event at p - 1, which is
  // the one the client applied last.
  ghost predicate Anchored(log: seq<Event>, s: State, cursor: Cursor, p: nat) {
    && p <= |log|
    && (cursor == AfterSequence(p) || (InSync(log, s, p) && cursor == AfterEvent(log[p - 1].id)))
  }

  // One connection moves an anchored client from p to some q, reducing each event
  // between once; as soon as that is an event, the client is in sync.
  lemma ConnectionAdvances(env: Env, log: seq<Event>, cursor: Cursor, s: State, p: nat, r: Response)
    returns (q: nat)
    requires ValidLog(log) && Anchored(log, s, cursor, p) && r.Body? && HonestBody(log, cursor, r)
    ensures p <= q <= |log| && (DeliveredAll(log, r) ==> q == |log|)
    ensures Consume(env, s, [], "", r.blocks) == Reduce(env, s, EventRange(log, p, q))
    ensures p < q || InSync(log, s, p) ==> InSync(log, Reduce(env, s, EventRange(log, p, q)), q)
  {
    assert r.from == p || (InSync(log, s, p) && r.from == p - 1) by {
      if cursor.AfterEvent? {
        StartIsUnique(log, p, r.from);
      }
    }
    HonestItems(log, cursor, r);
    var m := BodyReducesEvents(env, s, r.items, r.blocks);
    q := EventsAdvance(env, log, s, p, r.from, EventsOf(r.items), m);
    ReducingSyncs(env, log, s, p, q);
  }

  // Whatever the client applied before, a connection reduces one stretch of the log that
  // begins where its cursor allows.
  lemma ConnectionEnters(env: Env, log: seq<Event>, cursor: Cursor, s: State, r: Response)
    returns (a: nat, q: nat)
    requires ValidLog(log) && r.Body? && HonestBody(log, cursor, r)
    ensures a <= q <= |log| && AllowedStart(log, cursor, a)
    ensures Consume(env, s, [], "", r.blocks) == Reduce(env, s, EventRange(log, a, q))
    ensures a < q ==> InSync(log, Reduce(env, s, EventRange(log, a, q)), q)
  {
    a := r.from;
    HonestItems(log, cursor, r);
    var m := BodyReducesEvents(env, s, r.items, r.blocks);
    q := EventsAdvance(env, log, s, a, a, EventsOf(r.items), m);
    ReducingSyncs(env, log, s, a, q);
  }

  // The cursor of a client in sync names the last event it applied.
  lemma ResumesAfterLastEvent(log: seq<Event>, s: State, p: nat)
    requires ValidLog(log) && InSync(log, s, p)
    ensures EventIdCursor(s.lastEventId) == AfterEvent(log[p - 1].id)
  {
    assert log[p - 1].WellFormed();
  }

  // ---- The client ------------------------------------------------------------------------------

  const RECONNECT_DELAYS := 3

  class AgentConversation {
    var state: State

    constructor (s: State)
      ensures state == s
    {
      state := s;
    }

    // `markDisconnected`.
    method MarkDisconnected()
      modifies this
      ensures state == if old(state).status in {Completed, Failed, Cancelling} then old(state)
                       else old(state).(status := Disconnected)
    {
      if state.status in {Completed, Failed, Cancelling} {
        return;
      }
      state := state.(status := Disconnected);
    }

    // The read loop of `connectStreamOnce`.
    method ReadBody(env: Env, blocks: seq<Bytes>)
      modifies this
      ensures state == Consume(env, old(state), [], "", blocks)
    {
      var pending: Bytes, carry := [], "";
      assert blocks[0..] == blocks;
      for i := 0 to |blocks|
        invariant Consume(env, old(state), [], "", blocks) == Consume(env, state, pending, carry, blocks[i..])
      {
        assert blocks[i..][0] == blocks[i] && blocks[i..][1..] == blocks[i + 1..];
        var decoded := DecodeAvailable(pending + blocks[i]);
        pending := decoded.pending;
        var parsed := ParseSseFrames(carry + decoded.text);
        carry := parsed.carry;
        ghost var before := state;
        assert parsed.frames[0..] == parsed.frames;
        for j := 0 to |parsed.frames|
          invariant Reduce(env, before, parsed.frames) == Reduce(env, state, parsed.frames[j..])
        {
          assert parsed.frames[j..][0] == parsed.frames[j] && parsed.frames[j..][1..] == parsed.frames[j + 1..];
          state := ApplyFrame(env, state, parsed.frames[j]);
        }
      }
    }

    // `connectStreamOnce`: true means the stream ended without the turn ending.
    method ConnectStreamOnce(env: Env, response: Response) returns (endedUnexpectedly: bool)
      modifies this
      ensures match response
              case FetchFailed => endedUnexpectedly && state == old(state)
              case FetchAborted => !endedUnexpectedly && state == old(state)
              case NoBody => !endedUnexpectedly && state == old(state)
              case Refused(code, message) =>
                !endedUnexpectedly &&
                state == old(state).(status := Failed, error := Some(RefusalError(response)))
              case Body(_, _, blocks, ending) =>
                state == Consume(env, old(state), [], "", blocks) &&
                endedUnexpectedly == (ending.Broken? || (ending.Eof? && state.status == Streaming))
    {
      match response
      case FetchFailed =>
        return true;
      case FetchAborted =>
        return false;
      case NoBody =>
        return false;
      case Refused(code, message) =>
        state := state.(status := Failed, error := Some(ErrorState(
          code, message, code != "AGENT_EVENT_CURSOR_UNRECOVERABLE")));
        return false;
      case Body(_, _, blocks, ending) =>
        ReadBody(env, blocks);
        match ending
        case Eof => return state.status == Streaming;
        case Broken => return true;
        case ReadAborted => return false;
    }

    // `connectStream`, from any state and with any cursor: at most four requests, and each
    // reconnect resumes from the last applied event. Whatever the connections do, the
    // client has reduced one stretch of the log, every event once and in order; only the
    // final status and error may additionally say that the stream was refused or lost.
    // `p` is the position the caller wants to go on from.
    method ConnectStream(env: Env, cursor: Cursor, net: Network, ghost log: seq<Event>, ghost p: nat)
      returns (requests: nat, ghost done: Reached)
      requires ValidLog(log) && Honest(net, log) && p <= |log|
      modifies this
      ensures requests == |done.cursors| <= 4
      ensures Stretch(Run(env, log, net, cursor, p, old(state)), done)
      ensures Settled(state, net, done)
    {
      requests := 0;
      var resumeCursor := cursor;
      ghost var run := Run(env, log, net, cursor, p, state);
      done := Reached(state, []);
      CourseBegins(run);
      var again := true;
      while again && state.status == Streaming
        invariant requests == |done.cursors| <= RECONNECT_DELAYS + 1 && Stretch(run, done)
        invariant if again then requests <= RECONNECT_DELAYS && state == done.reduced && Course(run, done, resumeCursor)
                  else Settled(state, net, done)
        invariant again && requests > 0 ==> state.status == Streaming
        decreases RECONNECT_DELAYS + 1 - requests
      {
        var response := net(requests, resumeCursor);
        again, done := Request(response, resumeCursor, requests == RECONNECT_DELAYS, env, run, done);
        requests := requests + 1;
        resumeCursor := EventIdCursor(state.lastEventId);
      }
    }

    // One round of `connectStream`: the request made with `cursor`, and whether to go on.
    method Request(
        response: Response, cursor: Cursor, isLast: bool, env: Env, ghost run: Run, ghost done: Reached)
      returns (again: bool, ghost done': Reached)
      requires env == run.env && response == run.net(|done.cursors|, cursor)
      requires state == done.reduced && state.status == Streaming && Course(run, done, cursor)
      requires isLast <==> |done.cursors| == RECONNECT_DELAYS
      modifies this
      ensures done'.cursors == done.cursors + [cursor] && Stretch(run, done')
      ensures done'.reduced == Received(env, old(state), response)
      ensures if again
              then && !isLast && state == done'.reduced && state.status == Streaming
                   && Course(run, done', EventIdCursor(state.lastEventId))
              else Settled(state, run.net, done')
    {
      var endedUnexpectedly := ConnectStreamOnce(env, response);
      done' := CourseGoesOn(run, done, cursor);
      assert Last(run.net, done'.cursors) == response;
      if !endedUnexpectedly || state.status != Streaming {
        return false, done';
      }
      if isLast {
        MarkDisconnected();
        return false, done';
      }
      return true, done';
    }
  }

  // The state in which `connectStream` leaves the client: what was reduced, except that
  // status and error say that the stream was refused, or the status that it was lost, when
  // the last request allowed ended without the turn.
  predicate Settled(s: State, net: Network, done: Reached) {
    var response := Last(net, done.cursors);
    && s == (if response.Refused? then
               done.reduced.(status := Failed, error := Some(RefusalError(response)))
             else if |done.cursors| == 4 && done.reduced.status == Streaming
                     && !GivesUpQuietly(response) then
               done.reduced.(status := Disconnected)
             else done.reduced)
    && (s.status == Streaming ==> GivesUpQuietly(response))
  }

  // The states between requests.
  function StateAfter(env: Env, start: State, net: Network, cursors: seq<Cursor>): State {
    if cursors == [] then start
    else
      var n := |cursors| - 1;
      Received(env, StateAfter(env, start, net, cursors[..n]), net(n, cursors[n]))
  }

  ghost predicate StreamsThroughout(env: Env, start: State, net: Network, cursors: seq<Cursor>) {
    forall i | 0 <= i < |cursors| :: StateAfter(env, start, net, cursors[..i]).status == Streaming
  }

  lemma StreamsSnoc(env: Env, start: State, net: Network, cursors: seq<Cursor>, c: Cursor)
    requires StreamsThroughout(env, start, net, cursors)
    requires StateAfter(env, start, net, cursors).status == Streaming
    ensures StreamsThroughout(env, start, net, cursors + [c])
    ensures StateAfter(env, start, net, cursors + [c])
         == Received(env, StateAfter(env, start, net, cursors), net(|cursors|, c))
  {
    var all := cursors + [c];
    assert all[..|cursors|] == cursors && cursors[..|cursors|] == cursors;
    forall i | 0 <= i < |all| ensures StateAfter(env, start, net, all[..i]).status == Streaming {
      CutOfAppend(cursors, [c], i);
    }
  }

  // The state after a response, before any error it carries is recorded.
  function Received(env: Env, s: State, r: Response): State {
    if r.Body? then Consume(env, s, [], "", r.blocks) else s
  }

  function Last(net: Network, cursors: seq<Cursor>): Response {
    if cursors == [] then NoBody else net(|cursors| - 1, cursors[|cursors| - 1])
  }

  // Some response delivered the log to its end.
  ghost predicate Delivered(log: seq<Event>, net: Network, cursors: seq<Cursor>) {
    exists i :: 0 <= i < |cursors| && DeliveredAll(log, net(i, cursors[i]))
  }

  lemma DeliveredSnoc(log: seq<Event>, net: Network, cursors: seq<Cursor>, c: Cursor)
    ensures Delivered(log, net, cursors + [c]) <==>
              Delivered(log, net, cursors) || DeliveredAll(log, net(|cursors|, c))
  {
    assert (cursors + [c])[|cursors|] == c;
    assert forall i | 0 <= i < |cursors| :: (cursors + [c])[i] == cursors[i];
  }

  // The client has reduced the log from a to q, and is in sync if that is anything.
  ghost predicate Tracked(env: Env, log: seq<Event>, start: State, s: State, a: nat, q: nat) {
    && a <= q <= |log|
    && s == Reduce(env, start, EventRange(log, a, q))
    && (a < q ==> InSync(log, s, q))
  }

  // Where what has been reduced may begin.
  ghost predicate Entry(log: seq<Event>, start: State, cursor: Cursor, a: nat, q: nat) {
    a < q ==> AllowedStart(log, cursor, a) || AllowedStart(log, EventIdCursor(start.lastEventId), a)
  }

  // What one call of `connectStream` is about: the client comes in state `start` and wants
  // to go on from position p.
  datatype Run = Run(env: Env, log: seq<Event>, net: Network, cursor: Cursor, p: nat, start: State)

  // How far it is: reduced to this state, by requests with these cursors.
  datatype Reached = Reached(reduced: State, cursors: seq<Cursor>)

  // It is what the responses make of the start, and every request was made by a client that
  // was still streaming.
  ghost predicate Steady(run: Run, done: Reached) {
    && done.reduced == StateAfter(run.env, run.start, run.net, done.cursors)
    && StreamsThroughout(run.env, run.start, run.net, done.cursors)
  }

  // What `connectStream` has reduced is one stretch of the log.
  ghost predicate Stretch(run: Run, done: Reached) {
    Steady(run, done) && exists a, q :: StretchFrom(run, done, a, q)
  }

  ghost predicate StretchFrom(run: Run, done: Reached, a: nat, q: nat) {
    var Run(env, log, net, cursor, p, start) := run;
    var Reached(reduced, cursors) := done;
    && a <= q <= |log| && reduced == Reduce(env, start, EventRange(log, a, q))
    && (cursors != [] ==> cursors[0] == cursor)
    // It begins at p, and ends with the log once any response has delivered its end, if
    // the first request goes on at p and no reconnect was made by a client that had
    // received nothing and did not come with the id of the event before p.
    && (Anchored(log, start, cursor, p) &&
        (|cursors| <= 1 || InSync(log, start, p) || Received(env, start, net(0, cursor)) != start) ==>
          a == p && (Delivered(log, net, cursors) ==> q == |log|))
    // Otherwise it begins where the first cursor, or the id the client came with, leads.
    && Entry(log, start, cursor, a, q)
  }

  // A round of the reconnect loop is about to begin, with this cursor.
  ghost predicate Course(run: Run, done: Reached, resumeCursor: Cursor) {
    Steady(run, done) && exists a, q, anchored :: Underway(run, done, resumeCursor, a, q, anchored)
  }

  // The same, where `anchored` says whether no reconnect has lost the position so far.
  ghost predicate Underway(run: Run, done: Reached, resumeCursor: Cursor, a: nat, q: nat, anchored: bool) {
    var Run(env, log, net, cursor, p, start) := run;
    var Reached(s, cursors) := done;
    && ValidLog(log) && Honest(net, log)
    && Tracked(env, log, start, s, a, q) && Entry(log, start, cursor, a, q)
    && (if cursors == [] then a == q == p && resumeCursor == cursor
        else cursors[0] == cursor && resumeCursor == EventIdCursor(s.lastEventId))
    && (anchored ==> a == p && Anchored(log, s, resumeCursor, q) && (Delivered(log, net, cursors) ==> q == |log|))
    && (Anchored(log, start, cursor, p) && !anchored ==>
          cursors != [] && !InSync(log, start, p) && Received(env, start, net(0, cursor)) == start)
  }

  // Anchored at the end of the stretch reduced so far, a request extends it; a client that
  // has reduced nothing may begin elsewhere.
  lemma RequestTracks(run: Run, done: Reached, cursor: Cursor, a: nat, q: nat, anchored: bool)
    returns (a': nat, q': nat)
    requires HonestBody(run.log, cursor, run.net(|done.cursors|, cursor))
    requires Underway(run, done, cursor, a, q, anchored)
    ensures var response := run.net(|done.cursors|, cursor);
            && Tracked(run.env, run.log, run.start, Received(run.env, done.reduced, response), a', q')
            && Entry(run.log, run.start, run.cursor, a', q')
            && (Anchored(run.log, done.reduced, cursor, q) ==>
                  a' == a && q <= q' && (DeliveredAll(run.log, response) ==> q' == |run.log|))
  {
    var log, r, s := run.log, run.net(|done.cursors|, cursor), done.reduced;
    a', q' := a, q;
    if r.Body? {
      if a < q {
        ResumesAfterLastEvent(log, s, q);
      } else {
        assert EventRange(log, a, q) == [] && s == run.start;
      }
      if Anchored(log, s, cursor, q) {
        q' := ConnectionAdvances(run.env, log, cursor, s, q, r);
        RangeSplit(log, a, q, q');
        ReduceAppend(run.env, run.start, EventRange(log, a, q), EventRange(log, q, q'));
        assert AllowedStart(log, cursor, q);
      } else {
        a', q' := ConnectionEnters(run.env, log, cursor, s, r);
      }
    }
  }

  lemma CourseBegins(run: Run)
    requires ValidLog(run.log) && Honest(run.net, run.log) && run.p <= |run.log|
    ensures Course(run, Reached(run.start, []), run.cursor) && Stretch(run, Reached(run.start, []))
  {
    var p, done := run.p, Reached(run.start, []);
    assert EventRange(run.log, p, p) == [];
    assert Underway(run, done, run.cursor, p, p, Anchored(run.log, run.start, run.cursor, p));
    assert StretchFrom(run, done, p, p);
  }

  // One more request.
  lemma CourseGoesOn(run: Run, done: Reached, cursor: Cursor) returns (done': Reached)
    requires Course(run, done, cursor) && done.reduced.status == Streaming
    ensures done' == Reached(
              Received(run.env, done.reduced, run.net(|done.cursors|, cursor)), done.cursors + [cursor])
    ensures Stretch(run, done') && Course(run, done', EventIdCursor(done'.reduced.lastEventId))
  {
    done' := PositionGoesOn(run, done, cursor);
    StreamsSnoc(run.env, run.start, run.net, done.cursors, cursor);
  }

  lemma PositionGoesOn(run: Run, done: Reached, cursor: Cursor) returns (done': Reached)
    requires exists a, q, anchored :: Underway(run, done, cursor, a, q, anchored)
    ensures done' == Reached(
              Received(run.env, done.reduced, run.net(|done.cursors|, cursor)), done.cursors + [cursor])
    ensures exists a, q :: StretchFrom(run, done', a, q)
    ensures exists a, q, anchored ::
              Underway(run, done', EventIdCursor(done'.reduced.lastEventId), a, q, anchored)
  {
    var log, response := run.log, run.net(|done.cursors|, cursor);
    var s' := Received(run.env, done.reduced, response);
    done' := Reached(s', done.cursors + [cursor]);
    var a, q, anchored :| Underway(run, done, cursor, a, q, anchored);
    assert HonestBody(log, cursor, response);
    var a', q' := RequestTracks(run, done, cursor, a, q, anchored);
    DeliveredSnoc(log, run.net, done.cursors, cursor);
    if InSync(log, s', q') {
      ResumesAfterLastEvent(log, s', q');
    } else if anchored {
      assert a' == q' == run.p && EventRange(log, run.p, run.p) == [];
      assert done.cursors == [];
    }
    assert Underway(run, done', EventIdCursor(s'.lastEventId), a', q', anchored && InSync(log, s', q'));
    assert StretchFrom(run, done', a', q');
  }

  // The answers after which the client neither reconnects nor reports anything.
  predicate GivesUpQuietly(r: Response) {
    r.FetchAborted? || r.NoBody? || (r.Body? && r.ending.ReadAborted?)
  }

  function RefusalError(r: Response): ErrorState
    requires r.Refused?
  {
    ErrorState(r.code, r.message, r.code != "AGENT_EVENT_CURSOR_UNRECOVERABLE")
  }

  // ---- The end of a turn is the end of the run ----------------------------------------------

  lemma {:induction false} SomeIsLast(env: Env, frames: seq<Frame>, kinds: set<string>) returns (i: nat)
    requires !NoneAmong(env, frames, kinds)
    ensures IsLastAmong(env, frames, kinds, i)
  {
    var n := |frames| - 1;
    if IsAmong(env, frames[n], kinds) {
      i := n;
    } else {
      i := SomeIsLast(env, frames[..n], kinds);
    }
  }

  // The response arrives whole, and one of its events is new to the client and settles
  // the turn.
  ghost predicate DeliversSettling(env: Env, before: State, r: Response) {
    && r.Body? && Concat(r.blocks) == Encode(StreamText(r.items))
    && !NoneAmong(env, Fresh(env, before, EventFramesOf(EventsOf(r.items))), SETTLING)
  }

  // Once a response has delivered that, it was the last request, and the client ends with
  // the turn completed or failed, neither streaming nor disconnected.
  lemma SettlingResponseIsLast(run: Run, done: Reached, s: State, i: nat)
    requires ValidLog(run.log) && Honest(run.net, run.log)
    requires Steady(run, done) && Settled(s, run.net, done) && i < |done.cursors|
    requires DeliversSettling(run.env, StateAfter(run.env, run.start, run.net, done.cursors[..i]),
                              run.net(i, done.cursors[i]))
    ensures i == |done.cursors| - 1 && s == done.reduced && (s.status == Completed || s.status == Failed)
  {
    var before := StateAfter(run.env, run.start, run.net, done.cursors[..i]);
    assert HonestBody(run.log, done.cursors[i], run.net(i, done.cursors[i]));
    SettlingBodySettles(run.env, run.log, before, done.cursors[i], run.net(i, done.cursors[i]));
    SettledRequestIsLast(run, done, s, i);
  }

  lemma SettledRequestIsLast(run: Run, done: Reached, s: State, i: nat)
    requires Steady(run, done) && Settled(s, run.net, done) && i < |done.cursors|
    requires run.net(i, done.cursors[i]).Body?
    requires var before := StateAfter(run.env, run.start, run.net, done.cursors[..i]);
             Received(run.env, before, run.net(i, done.cursors[i])).status in {Completed, Failed}
    ensures i == |done.cursors| - 1 && s == done.reduced && (s.status == Completed || s.status == Failed)
  {
    NextState(run.env, run.start, run.net, done.cursors, i);
    assert i == |done.cursors| - 1 by {
      RequestsNeedStreaming(run, done, i + 1);
    }
    assert done.cursors[..i + 1] == done.cursors;
    SettledIsFinal(run.net, done, s);
  }

  lemma NextState(env: Env, start: State, net: Network, cursors: seq<Cursor>, i: nat)
    requires i < |cursors|
    ensures StateAfter(env, start, net, cursors[..i + 1])
         == Received(env, StateAfter(env, start, net, cursors[..i]), net(i, cursors[i]))
  {
    var next := cursors[..i + 1];
    assert next[..i] == cursors[..i] && next[i] == cursors[i];
  }

  lemma RequestsNeedStreaming(run: Run, done: Reached, i: nat)
    requires Steady(run, done) && i <= |done.cursors|
    ensures i < |done.cursors| ==>
              StateAfter(run.env, run.start, run.net, done.cursors[..i]).status == Streaming
  {
  }

  lemma SettledIsFinal(net: Network, done: Reached, s: State)
    requires Settled(s, net, done) && Last(net, done.cursors).Body?
    requires done.reduced.status in {Completed, Failed}
    ensures s == done.reduced
  {
  }

  lemma SettlingBodySettles(env: Env, log: seq<Event>, before: State, cursor: Cursor, r: Response)
    requires ValidLog(log) && HonestBody(log, cursor, r)
    requires DeliversSettling(env, before, r)
    ensures Received(env, before, r).status in {Completed, Failed}
  {
    HonestItems(log, cursor, r);
    var m := BodyReducesEvents(env, before, r.items, r.blocks);
    var frames := EventFramesOf(EventsOf(r.items));
    assert EventsOf(r.items)[..m] == EventsOf(r.items);
    StatusAfter(env, before, frames);
    var k := SomeIsLast(env, Fresh(env, before, frames), SETTLING);
  }

  // ---- When a reconnect is lossless ----------------------------------------------------------

  function IndexOfEvent(log: seq<Event>, id: string): (r: Option<nat>)
    ensures r.Some? ==> r.value < |log| && log[r.value].id == id
    ensures r.None? ==> forall i | 0 <= i < |log| :: log[i].id != id
  {
    if log == [] then None
    else if log[0].id == id then Some(0)
    else match IndexOfEvent(log[1..], id)
      case None => None
      case Some(i) => Some(i + 1)
  }

  lemma {:induction false} IndexOfEventFinds(log: seq<Event>, i: nat)
    requires i < |log| && forall a, b | 0 <= a < b < |log| :: log[a].id != log[b].id
    ensures IndexOfEvent(log, log[i].id) == Some(i)
  {
    if i > 0 {
      assert log[0].id != log[i].id && log[1..][i - 1] == log[i];
      IndexOfEventFinds(log[1..], i - 1);
    }
  }

  // Where the server's cursor resolution starts the stream, given the log at request
  // time; None is AGENT_EVENT_CURSOR_UNRECOVERABLE.
  function ServerStart(log: seq<Event>, cursor: Cursor): Option<nat> {
    match cursor
    case AfterEvent(id) => if IndexOfEvent(log, id).Some? then Some(IndexOfEvent(log, id).value + 1) else None
    case AfterSequence(n) => if n <= |log| then Some(n) else None
    case Tail => Some(|log|)
  }

  // The server starts responses where clients are proved to be able to take them, however
  // much is written after the request.
  lemma ServerStartIsAllowed(log: seq<Event>, t: nat, cursor: Cursor, from: nat)
    requires t <= |log| && ServerStart(log[..t], cursor) == Some(from)
    ensures AllowedStart(log, cursor, from) && from <= t
  {
    if cursor.AfterEvent? {
      assert log[from - 1] == log[..t][from - 1];
    }
  }

  // A client at position p reconnects with whatever id it holds. The stream goes on at p
  // exactly when that is the id of the event before p, or there is no id and nothing has
  // been written from p on.
  lemma ReconnectIsLosslessExactlyWhen(log: seq<Event>, lastEventId: Option<string>, p: nat)
    requires ValidLog(log) && p <= |log|
    ensures ServerStart(log, EventIdCursor(lastEventId)) == Some(p) <==>
              || (p > 0 && lastEventId == Some(log[p - 1].id))
              || (lastEventId in {None, Some("")} && p == |log|)
  {
    if p > 0 {
      assert log[p - 1].WellFormed();
      IndexOfEventFinds(log, p - 1);
    }
  }

  // A stale id: the stream goes back to just after its event, or is refused when the
  // event belongs to another conversation.
  lemma StaleIdStarts(log: seq<Event>, id: string)
    requires ValidLog(log) && id != ""
    ensures (forall i | 0 <= i < |log| :: log[i].id != id) <==>
              ServerStart(log, EventIdCursor(Some(id))) == None
    ensures forall i | 0 <= i < |log| && log[i].id == id ::
              ServerStart(log, EventIdCursor(Some(id))) == Some(i + 1)
  {
    forall i | 0 <= i < |log| && log[i].id == id
      ensures ServerStart(log, EventIdCursor(Some(id))) == Some(i + 1)
    {
      IndexOfEventFinds(log, i);
    }
  }

  // A restored client without an id reconnects losslessly, but only until the next event.
  lemma RestoredClientReconnects(e: Event, f: Event)
    requires ValidLog([e, f])
    ensures ServerStart([e], EventIdCursor(None)) == Some(1)
    ensures ServerStart([e, f], EventIdCursor(None)) == Some(2)
  {
  }

  // A client that switched conversations still holds an id of the other one: a reconnect
  // before the first event is refused.
  lemma SwitchedClientIsRefused(e: Event, other: Event)
    requires ValidLog([e]) && other.WellFormed() && other.id != e.id
    ensures ServerStart([e], EventIdCursor(Some(other.id))) == None
  {
    StaleIdStarts([e], other.id);
  }

  // A client whose history went on without its stream, as after a cancelled turn, holds
  // an id behind its position: a reconnect before the first event adds a message again.
  lemma StaleIdRepeatsMessage(env: Env, s: State, e: Event, done: Event)
    requires ValidLog([e, done]) && s.lastEventId == Some(e.id)
    requires done.kind == "completed" && Payload(env, done.json).Some?
    ensures ServerStart([e, done], EventIdCursor(s.lastEventId)) == Some(1)
    ensures |Reduce(env, s, EventRange([e, done], 1, 2)).messages| == |s.messages| + 1
  {
    assert [e, done][0] == e && [e, done][1] == done;
    assert e.WellFormed();
    StaleIdStarts([e, done], e.id);
    assert EventRange([e, done], 1, 2) == [done.AsFrame()];
    assert Reduce(env, s, [done.AsFrame()]) == Reduce(env, ApplyFrame(env, s, done.AsFrame()), []);
  }

  // A first event written before a reconnect without an id is never shown, and the answer
  // it completes is missing from the messages.
  lemma ReconnectBeforeFirstEventLosesIt(env: Env, s: State, e: Event)
    requires e.WellFormed() && s.lastEventId == None
    requires e.kind == "completed" && Payload(env, e.json).Some?
    ensures ServerStart([e], EventIdCursor(s.lastEventId)) == Some(1)
    ensures Reduce(env, s, EventRange([e], 1, 1)).messages != Reduce(env, s, EventRange([e], 0, 1)).messages
  {
    assert EventRange([e], 1, 1) == [] && EventRange([e], 0, 1) == [e.AsFrame()];
    assert Reduce(env, s, [e.AsFrame()]) == Reduce(env, ApplyFrame(env, s, e.AsFrame()), []);
  }
}
