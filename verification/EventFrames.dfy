// Server-sent event framing (sections 9.2.5 and 9.2.6 of the WHATWG HTML standard)
// as the web client implements it, and the text the server puts on the wire.
module EventFrames {
  import opened Prelude

  datatype Frame = Frame(id: Option<string>, event: string, data: string)

  // ---- Line endings ------------------------------------------------------------

  // "\r\n" and then "\r" replaced by "\n".
  function Normalize(s: string): string {
    if s == [] then []
    else if s[0] != '\r' then [s[0]] + Normalize(s[1..])
    else if |s| > 1 && s[1] == '\n' then "\n" + Normalize(s[2..])
    else "\n" + Normalize(s[1..])
  }

  // Where the character after the one at position p begins: "\r\n" is one character.
  ghost function NextAt(s: string, p: nat): (q: nat)
    requires p < |s|
    ensures p < q <= |s|
  {
    if s[p] == '\r' && p + 1 < |s| && s[p + 1] == '\n' then p + 2 else p + 1
  }

  // Character by character the same text, with every line ending written "\n".
  ghost predicate Unifies(s: string, r: string, at: seq<nat>) {
    && |at| == |r| + 1 && at[0] == 0 && at[|r|] == |s|
    && forall i | 0 <= i < |r| :: UnifiesAt(s, r[i], at[i], at[i + 1])
  }

  ghost predicate UnifiesAt(s: string, c: char, p: nat, q: nat) {
    p < |s| && q == NextAt(s, p) && c == if s[p] == '\r' then '\n' else s[p]
  }

  lemma {:induction false} NormalizeUnifies(s: string) returns (at: seq<nat>)
    ensures Unifies(s, Normalize(s), at)
    decreases |s|
  {
    if s == "" {
      at := [0];
    } else {
      var n := NextAt(s, 0);
      var rest := NormalizeUnifies(s[n..]);
      at := UnifiesFrom(s, n, Normalize(s[n..]), rest);
    }
  }

  lemma UnifiesFrom(s: string, n: nat, r: string, rest: seq<nat>) returns (at: seq<nat>)
    requires s != "" && n == NextAt(s, 0) && Unifies(s[n..], r, rest)
    ensures Unifies(s, [if s[0] == '\r' then '\n' else s[0]] + r, at)
  {
    var c := if s[0] == '\r' then '\n' else s[0];
    at := [0] + seq(|rest|, i requires 0 <= i < |rest| => rest[i] + n);
    forall i | 0 <= i < |r| + 1 ensures UnifiesAt(s, ([c] + r)[i], at[i], at[i + 1]) {
      if i > 0 {
        UnifiesShifted(s, n, r[i - 1], rest[i - 1], rest[i]);
      }
    }
  }

  lemma UnifiesShifted(s: string, n: nat, c: char, p: nat, q: nat)
    requires n <= |s| && UnifiesAt(s[n..], c, p, q)
    ensures UnifiesAt(s, c, p + n, q + n)
  {
  }

  ghost predicate CarriageFree(s: string) {
    '\r' !in s
  }

  lemma {:induction false} NormalizeKeepsCarriageFree(s: string)
    requires CarriageFree(s)
    ensures Normalize(s) == s
  {
    if s != [] {
      assert s[0] in s && forall c | c in s[1..] :: c in s;
      NormalizeKeepsCarriageFree(s[1..]);
    }
  }

  predicate SplitsCrLf(a: string, b: string) {
    a != "" && b != "" && a[|a| - 1] == '\r' && b[0] == '\n'
  }

  lemma {:induction false} NormalizeAppend(a: string, b: string)
    ensures if SplitsCrLf(a, b)
            then |Normalize(a + b)| + 1 == |Normalize(a)| + |Normalize(b)|
            else Normalize(a + b) == Normalize(a) + Normalize(b)
    decreases |a|
  {
    if a == "" {
      assert a + b == b;
    } else if a == "\r" && b != "" && b[0] == '\n' {
      assert (a + b)[2..] == b[1..];
    } else {
      var n := NextAt(a, 0);
      var head := if a[0] == '\r' then "\n" else [a[0]];
      NormalizeAppend(a[n..], b);
      assert NextAt(a + b, 0) == n && (a + b)[n..] == a[n..] + b;
      assert Normalize(a + b) == head + Normalize(a[n..] + b);
      AppendAssociates(head, Normalize(a[n..]), Normalize(b));
    }
  }

  // Normalising two buffers separately agrees with normalising them together exactly
  // when the cut does not fall inside a "\r\n".
  lemma SeparateNormalisationAgrees(a: string, b: string)
    ensures Normalize(a + b) == Normalize(a) + Normalize(b) <==> !SplitsCrLf(a, b)
  {
    NormalizeAppend(a, b);
  }

  // ---- One frame -----------------------------------------------------------------

  function IndexOfChar(s: string, c: char): (r: Option<nat>)
    ensures r.Some? ==> r.value < |s| && s[r.value] == c && c !in s[..r.value]
    ensures r.None? ==> c !in s
  {
    if s == [] then None
    else if s[0] == c then Some(0)
    else match IndexOfChar(s[1..], c)
      case None => None
      case Some(i) => Some(i + 1)
  }

  lemma {:induction false} IndexOfFirst(head: string, c: char, rest: string)
    requires c !in head
    ensures IndexOfChar(head + [c] + rest, c) == Some(|head|)
  {
    var s := head + [c] + rest;
    if head != "" {
      assert s[0] == head[0] && head[0] in head && s[1..] == head[1..] + [c] + rest;
      assert forall d | d in head[1..] :: d in head;
      IndexOfFirst(head[1..], c, rest);
    }
  }

  // `raw.split("\n")`.
  function Lines(raw: string): (lines: seq<string>)
    ensures lines != []
    decreases |raw|
  {
    match IndexOfChar(raw, '\n')
    case None => [raw]
    case Some(i) => [raw[..i]] + Lines(raw[i + 1..])
  }

  // The lines are the text's parts between its line feeds.
  lemma {:induction false} LinesRejoin(raw: string)
    ensures Join(Lines(raw), "\n") == raw
    ensures forall i | 0 <= i < |Lines(raw)| :: '\n' !in Lines(raw)[i]
    decreases |raw|
  {
    var i := IndexOfChar(raw, '\n');
    if i.Some? {
      LinesRejoin(raw[i.value + 1..]);
      var rest := Lines(raw[i.value + 1..]);
      assert ([raw[..i.value]] + rest)[1..] == rest;
      assert raw == raw[..i.value] + "\n" + raw[i.value + 1..];
    }
  }

  datatype Fields = Fields(id: Option<string>, event: string, dataLines: seq<string>)

  // What one line adds to the frame under construction.
  function AddLine(acc: Fields, line: string): Fields {
    if line != "" && line[0] == ':' then acc
    else
      var colon := IndexOfChar(line, ':');
      var field := if colon.None? then line else line[..colon.value];
      var after := if colon.None? then "" else line[colon.value + 1..];
      var value := if after != "" && after[0] == ' ' then after[1..] else after;
      if field == "id" then acc.(id := Some(value))
      else if field == "event" then acc.(event := value)
      else if field == "data" then acc.(dataLines := acc.dataLines + [value])
      else acc
  }

  function AddLines(acc: Fields, lines: seq<string>): Fields
    decreases |lines|
  {
    if lines == [] then acc else AddLines(AddLine(acc, lines[0]), lines[1..])
  }

  const NO_FIELDS := Fields(None, "message", [])

  function FrameOf(raw: string): Frame {
    var f := AddLines(NO_FIELDS, Lines(raw));
    Frame(f.id, f.event, Join(f.dataLines, "\n"))
  }

  method ParseFrame(raw: string) returns (frame: Option<Frame>)
    ensures frame == if raw == "" then None else Some(FrameOf(raw))
  {
    if raw == "" {
      return None;
    }
    var id: Option<string>, event, dataLines: seq<string> := None, "message", [];
    var lines := Lines(raw);
    assert lines[0..] == lines;
    for i := 0 to |lines|
      invariant AddLines(NO_FIELDS, lines) == AddLines(Fields(id, event, dataLines), lines[i..])
    {
      assert lines[i..][0] == lines[i] && lines[i..][1..] == lines[i + 1..];
      var line := lines[i];
      if line != "" && line[0] == ':' {
        continue;
      }
      var colon := IndexOfChar(line, ':');
      var field := if colon.None? then line else line[..colon.value];
      var value := if colon.None? then "" else line[colon.value + 1..];
      if value != "" && value[0] == ' ' {
        value := value[1..];
      }
      if field == "id" {
        id := Some(value);
      } else if field == "event" {
        event := value;
      } else if field == "data" {
        dataLines := dataLines + [value];
      }
    }
    return Some(Frame(id, event, Join(dataLines, "\n")));
  }

  // ---- Splitting a buffer -----------------------------------------------------------

  // The first blank-line boundary.
  function FindBoundary(s: string): (r: Option<nat>)
    ensures r.Some? ==> r.value + 2 <= |s|
  {
    if |s| < 2 then None
    else if s[0] == '\n' && s[1] == '\n' then Some(0)
    else match FindBoundary(s[1..])
      case None => None
      case Some(i) => Some(i + 1)
  }

  lemma {:induction false} FindBoundaryIsFirst(s: string)
    ensures match FindBoundary(s)
            case None => forall i | 0 <= i < |s| - 1 :: !(s[i] == '\n' && s[i + 1] == '\n')
            case Some(b) =>
              s[b] == '\n' && s[b + 1] == '\n' &&
              forall i | 0 <= i < b :: !(s[i] == '\n' && s[i + 1] == '\n')
  {
    if |s| >= 2 && !(s[0] == '\n' && s[1] == '\n') {
      var t := s[1..];
      FindBoundaryIsFirst(t);
      assert forall i | 1 <= i < |s| :: s[i] == t[i - 1];
      assert forall i | 0 <= i < |s| - 1 && s[i] == '\n' && s[i + 1] == '\n' ::
          i >= 1 && t[i - 1] == '\n' && t[i] == '\n';
    }
  }

  datatype Parsed = Parsed(frames: seq<Frame>, carry: string)

  function FramesOf(raw: string): seq<Frame> {
    if raw == "" then [] else [FrameOf(raw)]
  }

  function Parse(s: string): Parsed
    decreases |s|
  {
    match FindBoundary(s)
    case None => Parsed([], s)
    case Some(i) =>
      var rest := Parse(s[i + 2..]);
      Parsed(FramesOf(s[..i]) + rest.frames, rest.carry)
  }

  lemma ParseAt(s: string, i: nat)
    requires FindBoundary(s) == Some(i)
    ensures Parse(s) == Parsed(FramesOf(s[..i]) + Parse(s[i + 2..]).frames, Parse(s[i + 2..]).carry)
  {
  }

  // The same, seen from a cursor into a longer text.
  lemma ParseAtCursor(s: string, cursor: nat, b: nat)
    requires cursor <= |s| && FindBoundary(s[cursor..]) == Some(b)
    ensures cursor + b + 2 <= |s|
    ensures var rest := Parse(s[cursor + b + 2..]);
            Parse(s[cursor..]) == Parsed(FramesOf(s[cursor..cursor + b]) + rest.frames, rest.carry)
  {
    ParseAt(s[cursor..], b);
    assert s[cursor..][..b] == s[cursor..cursor + b] && s[cursor..][b + 2..] == s[cursor + b + 2..];
  }

  // The frames one raw piece adds: an empty piece adds none.
  method ParseRaw(raw: string) returns (frames: seq<Frame>)
    ensures frames == FramesOf(raw)
  {
    var frame := ParseFrame(raw);
    return if frame.Some? then [frame.value] else [];
  }

  method ParseSseFrames(buffer: string) returns (r: Parsed)
    ensures r == Parse(Normalize(buffer))
  {
    var frames: seq<Frame> := [];
    var normalized := Normalize(buffer);
    var cursor := 0;
    assert normalized[0..] == normalized;
    var boundary := FindBoundary(normalized[cursor..]);
    ghost var left := Parse(normalized);
    while boundary.Some?
      invariant cursor <= |normalized| && boundary == FindBoundary(normalized[cursor..])
      invariant left == Parse(normalized[cursor..])
      invariant Parse(normalized) == Parsed(frames + left.frames, left.carry)
      decreases |normalized| - cursor
    {
      ParseAtCursor(normalized, cursor, boundary.value);
      var raw := normalized[cursor..cursor + boundary.value];
      cursor := cursor + boundary.value + 2;
      left := Parse(normalized[cursor..]);
      AppendAssociates(frames, FramesOf(raw), left.frames);
      var more := ParseRaw(raw);
      frames := frames + more;
      boundary := FindBoundary(normalized[cursor..]);
    }
    return Parsed(frames, normalized[cursor..]);
  }

  // ---- Chunk invariance -----------------------------------------------------------------

  lemma {:induction false} FindBoundaryOfPrefix(a: string, b: string)
    requires FindBoundary(a).Some?
    ensures FindBoundary(a + b) == FindBoundary(a)
  {
    assert (a + b)[0] == a[0] && (a + b)[1] == a[1];
    if !(a[0] == '\n' && a[1] == '\n') {
      assert (a + b)[1..] == a[1..] + b;
      FindBoundaryOfPrefix(a[1..], b);
    }
  }

  // Parsing `a + b` continues what parsing `a` left over.
  ghost predicate Continues(a: string, b: string) {
    var first := Parse(a);
    var second := Parse(first.carry + b);
    Parse(a + b) == Parsed(first.frames + second.frames, second.carry)
  }

  lemma ContinuesPastBoundary(a: string, b: string, i: nat)
    requires FindBoundary(a) == Some(i) && Continues(a[i + 2..], b)
    ensures Continues(a, b)
  {
    var head, tail := a[..i], a[i + 2..];
    assert FindBoundary(a + b) == Some(i) && (a + b)[..i] == head && (a + b)[i + 2..] == tail + b by {
      FindBoundaryOfPrefix(a, b);
      CutOfAppend(a, b, i);
      Regroup(a[..i + 2], a, b);
    }
    ParseAt(a, i);
    ParseAt(a + b, i);
    var first := Parse(tail);
    AppendAssociates(FramesOf(head), first.frames, Parse(first.carry + b).frames);
  }

  // The frames of a text, cut anywhere: those of the first part, then those of its
  // carry continued by the second part.
  lemma {:induction false} ParseIsChunkInvariant(a: string, b: string)
    ensures Continues(a, b)
    decreases |a|
  {
    match FindBoundary(a)
    case None =>
    case Some(i) =>
      ParseIsChunkInvariant(a[i + 2..], b);
      ContinuesPastBoundary(a, b, i);
  }

  lemma {:induction false} CarryHasNoBoundary(s: string)
    ensures FindBoundary(Parse(s).carry) == None
    decreases |s|
  {
    if FindBoundary(s).Some? {
      CarryHasNoBoundary(s[FindBoundary(s).value + 2..]);
    }
  }

  // The raw pieces between boundaries.
  function PiecesOf(s: string): seq<string>
    decreases |s|
  {
    match FindBoundary(s)
    case None => []
    case Some(i) => [s[..i]] + PiecesOf(s[i + 2..])
  }

  function Terminated(pieces: seq<string>): string {
    if pieces == [] then "" else pieces[0] + "\n\n" + Terminated(pieces[1..])
  }

  function FramesOfPieces(pieces: seq<string>): seq<Frame> {
    if pieces == [] then [] else FramesOf(pieces[0]) + FramesOfPieces(pieces[1..])
  }

  lemma BoundarySplits(s: string, i: nat)
    requires FindBoundary(s) == Some(i)
    ensures s == s[..i] + "\n\n" + s[i + 2..] && FindBoundary(s[..i]) == None
  {
    FindBoundaryIsFirst(s);
    FindBoundaryIsFirst(s[..i]);
  }

  lemma PrependPiece(piece: string, pieces: seq<string>)
    ensures Terminated([piece] + pieces) == piece + "\n\n" + Terminated(pieces)
    ensures FramesOfPieces([piece] + pieces) == FramesOf(piece) + FramesOfPieces(pieces)
  {
    assert ([piece] + pieces)[1..] == pieces;
  }

  // Nothing is lost or invented: the pieces with their separators and the carry
  // rebuild the input, no piece contains a boundary, and the frames are the pieces'.
  lemma {:induction false} PiecesRebuildInput(s: string)
    ensures Terminated(PiecesOf(s)) + Parse(s).carry == s
    ensures Parse(s).frames == FramesOfPieces(PiecesOf(s))
    ensures forall i | 0 <= i < |PiecesOf(s)| :: FindBoundary(PiecesOf(s)[i]) == None
    decreases |s|
  {
    match FindBoundary(s)
    case None =>
    case Some(i) =>
      var head, tail := s[..i], s[i + 2..];
      PiecesRebuildInput(tail);
      BoundarySplits(s, i);
      var pieces := PiecesOf(tail);
      assert PiecesOf(s) == [head] + pieces;
      PrependPiece(head, pieces);
      AppendAssociates(head + "\n\n", Terminated(pieces), Parse(tail).carry);
      ParseAt(s, i);
  }

  // Feed a client buffer chunk by chunk, each time keeping the carry.
  function Feed(carry: string, chunks: seq<string>): Parsed
    decreases |chunks|
  {
    if chunks == [] then Parsed([], carry)
    else
      var first := Parse(Normalize(carry + chunks[0]));
      var rest := Feed(first.carry, chunks[1..]);
      Parsed(first.frames + rest.frames, rest.carry)
  }

  lemma CarryIsSuffix(s: string)
    ensures CarriageFree(s) ==> CarriageFree(Parse(s).carry)
  {
    PiecesRebuildInput(s);
    assert forall c | c in Parse(s).carry :: c in Terminated(PiecesOf(s)) + Parse(s).carry;
  }

  // No chunk ends between the "\r" and the "\n" of one line ending.
  predicate KeepsCrLfTogether(chunks: seq<string>) {
    chunks == [] ||
    (!SplitsCrLf(chunks[0], Concat(chunks[1..])) && KeepsCrLfTogether(chunks[1..]))
  }

  lemma {:induction false} NormalizedIsCarriageFree(s: string)
    ensures CarriageFree(Normalize(s))
    decreases |s|
  {
    if s != [] {
      NormalizedIsCarriageFree(s[1..]);
      if |s| > 1 {
        NormalizedIsCarriageFree(s[2..]);
      }
    }
  }

  // However a text is split, as long as no "\r\n" is, the client ends with the same
  // frames and carry as if the text had arrived whole.
  lemma {:induction false} FeedIsParse(carry: string, chunks: seq<string>)
    requires CarriageFree(carry) && FindBoundary(carry) == None && KeepsCrLfTogether(chunks)
    ensures Feed(carry, chunks) == Parse(carry + Normalize(Concat(chunks)))
    decreases |chunks|
  {
    if chunks == [] {
      assert carry + Normalize(Concat(chunks)) == carry;
    } else {
      var now, later := Normalize(carry + chunks[0]), Concat(chunks[1..]);
      NormalizeAppend(carry, chunks[0]);
      NormalizeKeepsCarriageFree(carry);
      NormalizeAppend(chunks[0], later);
      NormalizedIsCarriageFree(carry + chunks[0]);
      CarryIsSuffix(now);
      CarryHasNoBoundary(now);
      FeedIsParse(Parse(now).carry, chunks[1..]);
      ParseIsChunkInvariant(now, Normalize(later));
      AppendAssociates(carry, Normalize(chunks[0]), Normalize(later));
    }
  }

  lemma {:induction false} CarriageFreeIsNeverSplit(chunks: seq<string>)
    requires CarriageFree(Concat(chunks))
    ensures KeepsCrLfTogether(chunks)
  {
    if chunks != [] {
      assert forall c | c in chunks[0] || c in Concat(chunks[1..]) :: c in Concat(chunks);
      CarriageFreeIsNeverSplit(chunks[1..]);
    }
  }

  // A cut inside "\r\n" makes a blank line that is not there.
  lemma SplittingCrLfChangesTheResult()
    ensures Feed("", ["\r", "\n"]) == Parsed([], "")
    ensures Parse(Normalize("\r\n")) == Parsed([], "\n")
  {
    var chunks := ["\r", "\n"];
    assert "" + chunks[0] == "\r" && Normalize("\r") == "\n" + Normalize("");
    assert Parse("\n") == Parsed([], "\n");
    NormalizeKeepsCarriageFree("\n" + "\n");
    assert chunks[1..] == ["\n"] && chunks[1..][1..] == [];
    assert ("\n" + "\n")[2..] == "" && ("\n" + "\n")[..0] == "";
    assert Parse("\n" + "\n") == Parsed([], "");
    assert "\r\n"[2..] == "" && Normalize("\r\n") == "\n" + Normalize("");
  }

  // ---- The server's side ----------------------------------------------------------------

  // A durable event as `wire_event` sends it: UUID, type and one line of JSON.
  datatype Event = Event(id: string, kind: string, json: string)
  {
    ghost predicate WellFormed() {
      && id != ""
      && forall c | c in id + kind + json :: c != '\n' && c != '\r'
    }

    function Wire(): string {
      "id: " + id + "\n" + ("event: " + kind + "\n" + ("data: " + json + "\n\n"))
    }

    function AsFrame(): Frame {
      Frame(Some(id), kind, json)
    }
  }

  const KEEPALIVE := ": keepalive\n\n"

  // A line followed by something that does not start with a line feed.
  lemma {:induction false} BoundaryAfterLine(line: string, rest: string)
    requires '\n' !in line && rest != "" && rest[0] != '\n'
    ensures FindBoundary(line + "\n" + rest)
         == match FindBoundary(rest) case None => None case Some(i) => Some(|line| + 1 + i)
    decreases |line|
  {
    var s := line + "\n" + rest;
    if line == "" {
      assert s[1..] == rest;
    } else {
      assert s[0] == line[0] && line[0] in line && s[1..] == line[1..] + "\n" + rest;
      assert forall c | c in line[1..] :: c in line;
      BoundaryAfterLine(line[1..], rest);
    }
  }

  lemma {:induction false} BoundaryAtEnd(line: string)
    requires '\n' !in line
    ensures FindBoundary(line + "\n\n") == Some(|line|)
  {
    var s := line + "\n\n";
    if line != "" {
      assert s[0] == line[0] && line[0] in line && s[1..] == line[1..] + "\n\n";
      assert forall c | c in line[1..] :: c in line;
      BoundaryAtEnd(line[1..]);
    }
  }

  lemma LinesCons(line: string, rest: string)
    requires '\n' !in line
    ensures Lines(line + "\n" + rest) == [line] + Lines(rest)
    ensures Lines(line) == [line]
  {
    var s := line + "\n" + rest;
    IndexOfFirst(line, '\n', rest);
    assert s[..|line|] == line && s[|line| + 1..] == rest;
  }

  // Reading one field line back, whatever its value.
  lemma FieldLine(acc: Fields, name: string, value: string)
    requires name != "" && ':' !in name
    ensures AddLine(acc, name + ": " + value)
         == if name == "id" then acc.(id := Some(value))
            else if name == "event" then acc.(event := value)
            else if name == "data" then acc.(dataLines := acc.dataLines + [value])
            else acc
  {
    var line := name + ": " + value;
    assert line[0] == name[0] && name[0] in name;
    assert line == name + ":" + (" " + value);
    IndexOfFirst(name, ':', " " + value);
    assert line[..|name|] == name && line[|name| + 1..] == " " + value;
    assert (" " + value)[1..] == value;
  }

  lemma FieldsAreLines(e: Event)
    requires e.WellFormed()
    ensures '\n' !in "id: " + e.id && '\n' !in "event: " + e.kind && '\n' !in "data: " + e.json
  {
    assert (forall c | c in e.id :: c in e.id + e.kind + e.json)
        && (forall c | c in e.kind :: c in e.id + e.kind + e.json)
        && (forall c | c in e.json :: c in e.id + e.kind + e.json);
    assert '\n' !in "id: " && '\n' !in "event: " && '\n' !in "data: ";
  }

  // The only boundary of an event's text is at its end.
  lemma WireBoundary(e: Event)
    requires e.WellFormed()
    ensures FindBoundary(e.Wire()) == Some(|e.Wire()| - 2)
  {
    FieldsAreLines(e);
    var l1, l2, l3 := "id: " + e.id, "event: " + e.kind, "data: " + e.json;
    BoundaryAtEnd(l3);
    assert (l3 + "\n\n")[0] == 'd';
    BoundaryAfterLine(l2, l3 + "\n\n");
    assert (l2 + "\n" + (l3 + "\n\n"))[0] == 'e';
    BoundaryAfterLine(l1, l2 + "\n" + (l3 + "\n\n"));
    assert e.Wire() == l1 + "\n" + (l2 + "\n" + (l3 + "\n\n"));
  }

  lemma ThreeLines(l1: string, l2: string, l3: string)
    requires '\n' !in l1 && '\n' !in l2 && '\n' !in l3
    ensures Lines(l1 + "\n" + (l2 + "\n" + l3)) == [l1, l2, l3]
  {
    LinesCons(l1, l2 + "\n" + l3);
    LinesCons(l2, l3);
    LinesCons(l3, "");
  }

  lemma ThreeFields(l1: string, l2: string, l3: string, e: Event)
    requires l1 == "id" + ": " + e.id && l2 == "event" + ": " + e.kind && l3 == "data" + ": " + e.json
    ensures AddLines(NO_FIELDS, [l1, l2, l3]) == Fields(Some(e.id), e.kind, [e.json])
  {
    var a := NO_FIELDS.(id := Some(e.id));
    var b := a.(event := e.kind);
    FieldLine(NO_FIELDS, "id", e.id);
    FieldLine(a, "event", e.kind);
    FieldLine(b, "data", e.json);
    assert [l1, l2, l3][1..] == [l2, l3] && [l2, l3][1..] == [l3] && [l3][1..] == [];
    assert AddLines(b, [l3]) == AddLines(AddLine(b, l3), []);
  }

  // What the server sends for an event is, alone, exactly that event's frame.
  lemma WireParsesToFrame(e: Event)
    requires e.WellFormed()
    ensures Parse(e.Wire()) == Parsed([e.AsFrame()], "")
  {
    WireBoundary(e);
    FieldsAreLines(e);
    var l1, l2, l3 := "id: " + e.id, "event: " + e.kind, "data: " + e.json;
    var wire := e.Wire();
    var raw := l1 + "\n" + (l2 + "\n" + l3);
    assert wire == raw + "\n\n" by {
      AppendAssociates(l2 + "\n", l3, "\n\n");
      AppendAssociates(l1 + "\n", l2 + "\n" + l3, "\n\n");
    }
    assert wire[..|wire| - 2] == raw && wire[|wire|..] == "";
    FrameOfLines(l1, l2, l3, e);
    assert Parse(wire) == Parsed(FramesOf(raw) + [], "");
  }

  lemma FrameOfLines(l1: string, l2: string, l3: string, e: Event)
    requires '\n' !in l1 && '\n' !in l2 && '\n' !in l3
    requires l1 == "id: " + e.id && l2 == "event: " + e.kind && l3 == "data: " + e.json
    ensures FramesOf(l1 + "\n" + (l2 + "\n" + l3)) == [e.AsFrame()]
  {
    ThreeLines(l1, l2, l3);
    assert "id: " == "id" + ": " && "event: " == "event" + ": " && "data: " == "data" + ": ";
    ThreeFields(l1, l2, l3, e);
    assert Join([e.json], "\n") == e.json;
  }

  lemma CommentAddsNothing(line: string)
    requires '\n' !in line && line != "" && line[0] == ':'
    ensures FramesOf(line) == [Frame(None, "message", "")]
  {
    LinesCons(line, "");
    assert AddLines(NO_FIELDS, [line]) == AddLines(AddLine(NO_FIELDS, line), []);
  }

  // A keepalive comment parses to a frame without id and data.
  lemma KeepaliveParses()
    ensures FindBoundary(KEEPALIVE) == Some(|KEEPALIVE| - 2)
    ensures Parse(KEEPALIVE) == Parsed([Frame(None, "message", "")], "")
  {
    var line := ": keepalive";
    assert KEEPALIVE == line + "\n\n";
    assert KEEPALIVE[..|line|] == line && KEEPALIVE[|line| + 2..] == "";
    BoundaryAtEnd(line);
    CommentAddsNothing(line);
    ParseAt(KEEPALIVE, |line|);
    assert Parse("") == Parsed([], "");
  }
}
