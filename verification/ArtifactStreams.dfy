// Writing and reading a whole artifact: what the writer seals, what the reader
// opens, and what the one guarantees about the other.
module ArtifactStreams {
  import opened Prelude
  import opened Artifact

  // ---- Authenticated encryption under one data-encryption key ---------------------

  // Arguments are nonce, plaintext or ciphertext, associated data.
  datatype Aead = Aead(
    seal: (Bytes, Bytes, Bytes) -> Bytes,
    open: (Bytes, Bytes, Bytes) -> Option<Bytes>)

  ghost predicate Correct(aead: Aead) {
    forall nonce: Bytes, plain: Bytes, aad: Bytes ::
      aead.open(nonce, aead.seal(nonce, plain, aad), aad) == Some(plain)
  }

  datatype Record = Record(nonce: Bytes, plain: Bytes, aad: Bytes)

  // The ideal scheme: exactly what was sealed can be opened, and only with its own
  // nonce and associated data.
  ghost predicate Ideal(aead: Aead, log: iset<Record>) {
    forall nonce: Bytes, cipher: Bytes, aad: Bytes, plain: Bytes ::
      aead.open(nonce, cipher, aad) == Some(plain) <==>
        Record(nonce, plain, aad) in log && cipher == aead.seal(nonce, plain, aad)
  }

  // What reading back needs: everything in the log opens as it was sealed.
  ghost predicate Opens(aead: Aead, log: iset<Record>) {
    forall r: Record | r in log ::
      aead.open(r.nonce, aead.seal(r.nonce, r.plain, r.aad), r.aad) == Some(r.plain)
  }

  // A cipher that opens all it seals has this for every log, and the ideal one for its own.
  lemma CorrectOrIdealOpens(aead: Aead, log: iset<Record>)
    requires Correct(aead) || Ideal(aead, log)
    ensures Opens(aead, log)
  {
    if Ideal(aead, log) {
      forall r: Record | r in log
        ensures aead.open(r.nonce, aead.seal(r.nonce, r.plain, r.aad), r.aad) == Some(r.plain)
      {
        assert Record(r.nonce, r.plain, r.aad) == r;
      }
    }
  }

  // ---- Chunks ------------------------------------------------------------------------

  function Pieces(content: Bytes, max: nat): (r: seq<Bytes>)
    requires max > 0
    ensures content == [] ==> r == []
  {
    if content == [] then []
    else if |content| <= max then [content]
    else [content[..max]] + Pieces(content[max..], max)
  }

  // `_iter_chunks`: an empty content still gives one empty chunk.
  function Chunks(content: Bytes, max: nat): (r: seq<Bytes>)
    requires max > 0
    ensures r != []
  {
    if content == [] then [[]] else Pieces(content, max)
  }

  lemma {:induction false} PiecesRejoin(content: Bytes, max: nat)
    requires max > 0
    ensures Concat(Pieces(content, max)) == content
    decreases |content|
  {
    if content == [] {
    } else if |content| <= max {
      assert Concat([content]) == content + Concat([]);
    } else {
      PiecesRejoin(content[max..], max);
      var head, tail := content[..max], content[max..];
      assert content == head + tail;
      assert Concat([head] + Pieces(tail, max)) == head + Concat(Pieces(tail, max)) by {
        assert ([head] + Pieces(tail, max))[1..] == Pieces(tail, max);
      }
    }
  }

  // The smallest number of pieces that hold n bytes.
  function CeilDivide(n: nat, max: nat): nat
    requires max > 0
  {
    (n + max - 1) / max
  }

  lemma {:induction false} PiecesCount(content: Bytes, max: nat)
    requires max > 0
    ensures |Pieces(content, max)| == CeilDivide(|content|, max)
    decreases |content|
  {
    if content == [] {
      QuotientBetween(max - 1, max, 0);
    } else if |content| <= max {
      QuotientBetween(|content| + max - 1, max, 1);
    } else {
      PiecesCount(content[max..], max);
      OnePieceMore(|content| - max, max);
    }
  }

  lemma OnePieceMore(n: nat, max: nat)
    requires max > 0
    ensures CeilDivide(n + max, max) == CeilDivide(n, max) + 1
  {
    var c := CeilDivide(n, max);
    assert c * max <= n + max - 1 < c * max + max;
    assert (c + 1) * max == c * max + max;
    QuotientBetween(n + max + max - 1, max, c + 1);
  }

  lemma QuotientBetween(n: nat, d: nat, q: nat)
    requires d > 0 && q * d <= n < q * d + d
    ensures n / d == q
  {
    var p := n / d;
    assert p * d <= n < p * d + d;
    if p < q {
      TimesStep(p, q, d);
    } else if q < p {
      TimesStep(q, p, d);
    }
  }

  lemma {:induction false} TimesStep(a: nat, b: nat, d: nat)
    requires a < b
    ensures a * d + d <= b * d
    decreases b
  {
    assert b * d == (b - 1) * d + d;
    if a < b - 1 {
      TimesStep(a, b - 1, d);
    }
  }

  lemma ChunksRejoin(content: Bytes, max: nat)
    requires max > 0
    ensures Concat(Chunks(content, max)) == content
    ensures |Chunks(content, max)| == Max(1, CeilDivide(|content|, max))
  {
    PiecesRejoin(content, max);
    PiecesCount(content, max);
    if content == [] {
      assert Chunks(content, max)[0] + Concat(Chunks(content, max)[1..]) == [];
    }
  }

  // ---- Writing ---------------------------------------------------------------------

  // What the chunks of one component have in common.
  datatype Binding = Binding(name: string, manifest: Bytes, kek: string, base: Bytes)
  {
    predicate Valid() {
      |base| == NONCE_BYTES
    }
  }

  function Prepend(head: Bytes, rest: Option<Bytes>): Option<Bytes> {
    if rest.Some? then Some(head + rest.value) else None
  }

  // A length-prefixed ciphertext; None when nonce, data or length cannot be formed.
  function SealChunk(aead: Aead, b: Binding, index: nat, plain: Bytes): Option<Bytes>
    requires b.Valid()
  {
    var aad := ChunkAad(b.name, index, b.manifest, b.kek);
    var nonce := DeriveNonce(b.base, index);
    if aad.None? || nonce.None? then None
    else
      var cipher := aead.seal(nonce.value, plain, aad.value);
      if |cipher| >= U32_LIMIT then None else Some(PackU32(|cipher|) + cipher)
  }

  function SealChunks(aead: Aead, b: Binding, index: nat, chunks: seq<Bytes>): Option<Bytes>
    requires b.Valid()
    decreases |chunks|
  {
    if chunks == [] then Some([])
    else match SealChunk(aead, b, index, chunks[0])
      case None => None
      case Some(first) => Prepend(first, SealChunks(aead, b, index + 1, chunks[1..]))
  }

  function SealComponent(aead: Aead, b: Binding, content: Bytes, max: nat): Option<Bytes>
    requires b.Valid() && max > 0
  {
    var chunks := Chunks(content, max);
    if |chunks| >= U32_LIMIT then None
    else Prepend(b.base + PackU32(|chunks|), SealChunks(aead, b, 0, chunks))
  }

  // ---- When writing succeeds ----------------------------------------------------------

  const TAG_BYTES := 16

  // Counter mode keeps the length; the authentication tag is appended.
  ghost predicate AppendsTag(aead: Aead) {
    forall nonce: Bytes, plain: Bytes, aad: Bytes ::
      |aead.seal(nonce, plain, aad)| == |plain| + TAG_BYTES
  }

  // The text a chunk's associated data encodes as ASCII.
  function LabelOf(b: Binding): string {
    if b.name == MANIFEST then b.kek else b.name
  }

  lemma {:induction false} SealChunksSucceedsExactlyWhen(
      aead: Aead, b: Binding, index: nat, chunks: seq<Bytes>)
    requires b.Valid() && AppendsTag(aead)
    ensures SealChunks(aead, b, index, chunks).Some? <==>
              chunks == [] ||
              (Ascii(LabelOf(b)).Some? && index + |chunks| <= U32_LIMIT &&
               forall i | 0 <= i < |chunks| :: |chunks[i]| + TAG_BYTES < U32_LIMIT)
    decreases |chunks|
  {
    if chunks != [] {
      SealChunksSucceedsExactlyWhen(aead, b, index + 1, chunks[1..]);
      assert forall i | 1 <= i < |chunks| :: chunks[i] == chunks[1..][i - 1];
    }
  }

  lemma {:induction false} PieceSizes(content: Bytes, max: nat)
    requires max > 0 && content != []
    ensures Pieces(content, max) != [] && |Pieces(content, max)[0]| == Min(|content|, max)
    ensures forall i | 0 <= i < |Pieces(content, max)| :: |Pieces(content, max)[i]| <= Min(|content|, max)
    decreases |content|
  {
    if |content| > max {
      PieceSizes(content[max..], max);
    }
  }

  predicate Fits(content: Bytes, max: nat) {
    max > 0 && |Chunks(content, max)| < U32_LIMIT && Min(|content|, max) + TAG_BYTES < U32_LIMIT
  }

  lemma SealComponentSucceedsExactlyWhen(aead: Aead, b: Binding, content: Bytes, max: nat)
    requires b.Valid() && max > 0 && AppendsTag(aead)
    ensures SealComponent(aead, b, content, max).Some? <==>
              Ascii(LabelOf(b)).Some? && Fits(content, max)
  {
    var chunks := Chunks(content, max);
    SealChunksSucceedsExactlyWhen(aead, b, 0, chunks);
    if content != [] {
      PieceSizes(content, max);
    }
    assert |chunks[0]| == Min(|content|, max);
  }

  // ---- Reading ----------------------------------------------------------------------

  datatype Opened = Opened(plain: Bytes, rest: Bytes)

  // `_exact_read`.
  function Split(data: Bytes, n: nat): Option<(Bytes, Bytes)> {
    if n <= |data| then Some((data[..n], data[n..])) else None
  }

  function OpenChunk(aead: Aead, b: Binding, index: nat, data: Bytes): Option<Opened>
    requires b.Valid()
  {
    match Split(data, U32_BYTES)
    case None => None
    case Some((length, rest)) =>
      match Split(rest, UnpackU32(length))
      case None => None
      case Some((cipher, rest')) =>
        var aad := ChunkAad(b.name, index, b.manifest, b.kek);
        var nonce := DeriveNonce(b.base, index);
        if aad.None? || nonce.None? then None
        else match aead.open(nonce.value, cipher, aad.value)
          case None => None
          case Some(plain) => Some(Opened(plain, rest'))
  }

  function OpenChunks(aead: Aead, b: Binding, index: nat, count: nat, data: Bytes): Option<Opened>
    requires b.Valid()
    decreases count
  {
    if count == 0 then Some(Opened([], data))
    else match OpenChunk(aead, b, index, data)
      case None => None
      case Some(first) =>
        match OpenChunks(aead, b, index + 1, count - 1, first.rest)
        case None => None
        case Some(others) => Some(Opened(first.plain + others.plain, others.rest))
  }

  function OpenComponent(aead: Aead, name: string, manifest: Bytes, kek: string, data: Bytes): Option<Opened> {
    match Split(data, NONCE_BYTES)
    case None => None
    case Some((base, rest)) =>
      match Split(rest, U32_BYTES)
      case None => None
      case Some((count, rest')) =>
        OpenChunks(aead, Binding(name, manifest, kek, base), 0, UnpackU32(count), rest')
  }

  // Chunk by chunk: what a component seals opens again.
  ghost predicate OpensChunks(aead: Aead, b: Binding, index: nat, chunks: seq<Bytes>)
    requires b.Valid()
    decreases |chunks|
  {
    chunks == [] ||
    (OpensChunk(aead, b, index, chunks[0]) && OpensChunks(aead, b, index + 1, chunks[1..]))
  }

  ghost predicate OpensChunk(aead: Aead, b: Binding, index: nat, plain: Bytes)
    requires b.Valid()
  {
    var aad, nonce := ChunkAad(b.name, index, b.manifest, b.kek), DeriveNonce(b.base, index);
    aad.Some? && nonce.Some? ==>
      aead.open(nonce.value, aead.seal(nonce.value, plain, aad.value), aad.value) == Some(plain)
  }

  // ---- One component there and back ---------------------------------------------------

  lemma OpenInvertsSealChunk(aead: Aead, b: Binding, index: nat, plain: Bytes, tail: Bytes)
    requires b.Valid() && OpensChunk(aead, b, index, plain) && SealChunk(aead, b, index, plain).Some?
    ensures OpenChunk(aead, b, index, SealChunk(aead, b, index, plain).value + tail)
         == Some(Opened(plain, tail))
  {
    var aad := ChunkAad(b.name, index, b.manifest, b.kek).value;
    var nonce := DeriveNonce(b.base, index).value;
    var cipher := aead.seal(nonce, plain, aad);
    var head := PackU32(|cipher|);
    UnpackInvertsPack(|cipher|);
    var data := (head + cipher) + tail;
    assert data[..U32_BYTES] == head && data[U32_BYTES..] == cipher + tail;
    assert (cipher + tail)[..|cipher|] == cipher && (cipher + tail)[|cipher|..] == tail;
  }

  lemma {:induction false} OpenInvertsSealChunks(
      aead: Aead, b: Binding, index: nat, chunks: seq<Bytes>, tail: Bytes)
    requires b.Valid() && OpensChunks(aead, b, index, chunks) && SealChunks(aead, b, index, chunks).Some?
    ensures OpenChunks(aead, b, index, |chunks|, SealChunks(aead, b, index, chunks).value + tail)
         == Some(Opened(Concat(chunks), tail))
    decreases |chunks|
  {
    if chunks == [] {
      assert [] + tail == tail;
    } else {
      var first := SealChunk(aead, b, index, chunks[0]).value;
      var others := SealChunks(aead, b, index + 1, chunks[1..]).value;
      assert (first + others) + tail == first + (others + tail);
      OpenInvertsSealChunk(aead, b, index, chunks[0], others + tail);
      OpenInvertsSealChunks(aead, b, index + 1, chunks[1..], tail);
    }
  }

  // A component read back with the same binding gives its content, empty files included.
  lemma OpenInvertsSealComponent(
      aead: Aead, b: Binding, content: Bytes, max: nat, tail: Bytes)
    requires b.Valid() && max > 0 && OpensChunks(aead, b, 0, Chunks(content, max))
    requires SealComponent(aead, b, content, max).Some?
    ensures OpenComponent(aead, b.name, b.manifest, b.kek,
                          SealComponent(aead, b, content, max).value + tail)
         == Some(Opened(content, tail))
  {
    var chunks := Chunks(content, max);
    var count := PackU32(|chunks|);
    var body := SealChunks(aead, b, 0, chunks).value;
    UnpackInvertsPack(|chunks|);
    ChunksRejoin(content, max);
    var data := ((b.base + count) + body) + tail;
    assert data[..NONCE_BYTES] == b.base && data[NONCE_BYTES..] == count + (body + tail);
    assert (count + (body + tail))[..U32_BYTES] == count;
    assert (count + (body + tail))[U32_BYTES..] == body + tail;
    OpenInvertsSealChunks(aead, b, 0, chunks, tail);
  }

  // ---- Whole artifacts -------------------------------------------------------------------

  datatype Header = Header(
    formatVersion: int, kek: string, wrappedDek: string, aead: string, chunkMax: int,
    components: seq<string>)

  // `json.dumps` with sorted keys, and `json.loads` with the narrowing of the reader.
  datatype HeaderJson = HeaderJson(dumps: Header -> Bytes, loads: Bytes -> Option<Header>)

  datatype Component = Component(name: string, content: Bytes, base: Bytes)

  datatype Backup = Backup(
    kek: string, wrappedDek: string, manifest: Bytes, manifestBase: Bytes,
    components: seq<Component>, chunkMax: nat)
  {
    ghost predicate Valid() {
      && chunkMax > 0 && |manifestBase| == NONCE_BYTES
      && forall i | 0 <= i < |components| :: |components[i].base| == NONCE_BYTES
    }

    // What `write_artifact` is called with by the backup: distinct data components.
    ghost predicate DistinctNames() {
      && (forall i | 0 <= i < |components| :: components[i].name != MANIFEST)
      && forall i, j | 0 <= i < j < |components| :: components[i].name != components[j].name
    }

    function HeaderOf(): Header {
      Header(FORMAT_VERSION, kek, wrappedDek, ALGORITHM, chunkMax,
             [MANIFEST] + Names(components))
    }
  }

  function Names(components: seq<Component>): (r: seq<string>)
    ensures |r| == |components|
    ensures forall i | 0 <= i < |r| :: r[i] == components[i].name
  {
    seq(|components|, i requires 0 <= i < |components| => components[i].name)
  }

  function SealComponents(aead: Aead, backup: Backup, components: seq<Component>): Option<Bytes>
    requires backup.chunkMax > 0
    requires forall i | 0 <= i < |components| :: |components[i].base| == NONCE_BYTES
  {
    if components == [] then Some([])
    else
      var c := components[0];
      match SealComponent(aead, Binding(c.name, backup.manifest, backup.kek, c.base), c.content, backup.chunkMax)
      case None => None
      case Some(first) => Prepend(first, SealComponents(aead, backup, components[1..]))
  }

  // `write_artifact`; None when it raises and leaves no artifact.
  function WriteArtifact(json: HeaderJson, aead: Aead, backup: Backup): Option<Bytes>
    requires backup.Valid()
  {
    var header := json.dumps(backup.HeaderOf());
    if |header| >= U32_LIMIT then None
    else
      match SealComponent(
        aead, Binding(MANIFEST, backup.manifest, backup.kek, backup.manifestBase), backup.manifest, backup.chunkMax)
      case None => None
      case Some(first) =>
        Prepend(MAGIC + PackU32(|header|) + header + first,
                SealComponents(aead, backup, backup.components))
  }

  lemma {:induction false} SealComponentsSucceedsExactlyWhen(
      aead: Aead, backup: Backup, components: seq<Component>)
    requires backup.chunkMax > 0 && AppendsTag(aead)
    requires forall i | 0 <= i < |components| :: |components[i].base| == NONCE_BYTES
    requires forall i | 0 <= i < |components| :: components[i].name != MANIFEST
    ensures SealComponents(aead, backup, components).Some? <==>
              forall c | c in components :: Ascii(c.name).Some? && Fits(c.content, backup.chunkMax)
    decreases |components|
  {
    if components != [] {
      var c := components[0];
      SealComponentSucceedsExactlyWhen(
        aead, Binding(c.name, backup.manifest, backup.kek, c.base), c.content, backup.chunkMax);
      SealComponentsSucceedsExactlyWhen(aead, backup, components[1..]);
      assert forall d :: d in components <==> d == c || d in components[1..];
    }
  }

  // An artifact is written exactly when key version and names are ASCII and every length
  // and count fits 32 bits.
  lemma WritesExactlyWhen(json: HeaderJson, aead: Aead, backup: Backup)
    requires backup.Valid() && backup.DistinctNames() && AppendsTag(aead)
    ensures WriteArtifact(json, aead, backup).Some? <==>
              && |json.dumps(backup.HeaderOf())| < U32_LIMIT
              && Ascii(backup.kek).Some? && Fits(backup.manifest, backup.chunkMax)
              && forall c | c in backup.components :: Ascii(c.name).Some? && Fits(c.content, backup.chunkMax)
  {
    SealComponentSucceedsExactlyWhen(
      aead, Binding(MANIFEST, backup.manifest, backup.kek, backup.manifestBase), backup.manifest,
      backup.chunkMax);
    SealComponentsSucceedsExactlyWhen(aead, backup, backup.components);
  }

  // `read_artifact_header`.
  function ReadHeader(json: HeaderJson, data: Bytes): Option<Header> {
    match Split(data, |MAGIC|)
    case None => None
    case Some((magic, rest)) =>
      if magic != MAGIC then None
      else match Split(rest, U32_BYTES)
        case None => None
        case Some((length, rest')) =>
          match Split(rest', UnpackU32(length))
          case None => None
          case Some((text, _)) =>
            match json.loads(text)
            case None => None
            case Some(header) => if header.formatVersion != FORMAT_VERSION then None else Some(header)
  }

  // A header is read exactly from bytes that begin with the magic, a length and a text of
  // that length which parses to it, and only with version 1.
  lemma ReadsHeaderExactlyWhen(json: HeaderJson, data: Bytes, header: Header)
    ensures ReadHeader(json, data) == Some(header) <==>
              && |data| >= 9 && data[..5] == Text("RPBK1")
              && var n := UnpackU32(data[5..9]);
                 && |data| >= 9 + n && json.loads(data[9..9 + n]) == Some(header)
                 && header.formatVersion == 1
  {
    MagicMeans();
    if |data| >= 9 {
      assert data[5..][..4] == data[5..9] && data[5..][4..] == data[9..];
      var n := UnpackU32(data[5..9]);
      assert |data| >= 9 + n ==> data[9..][..n] == data[9..9 + n];
    }
  }

  // `handle.read(n)`: what is left after reading at most `n` bytes.
  function Skip(data: Bytes, n: nat): Bytes {
    data[Min(n, |data|)..]
  }

  datatype Decrypted = Decrypted(header: Header, manifest: Bytes, components: map<string, Bytes>)

  // The data components in header order; a repeated name overwrites the earlier file.
  function OpenComponents(
      aead: Aead, names: seq<string>, manifest: Bytes, kek: string, data: Bytes,
      done: map<string, Bytes>)
    : Option<map<string, Bytes>>
  {
    if names == [] then Some(done)
    else match OpenComponent(aead, names[0], manifest, kek, data)
      case None => None
      case Some(first) =>
        OpenComponents(aead, names[1..], manifest, kek, first.rest, done[names[0] := first.plain])
  }

  // `decrypt_artifact`; the header is skipped by the length of its re-serialisation.
  function DecryptArtifact(json: HeaderJson, aead: Aead, data: Bytes): Option<Decrypted> {
    match ReadHeader(json, data)
    case None => None
    case Some(header) =>
      if header.aead != ALGORITHM then None
      else
        var body := Skip(Skip(Skip(data, |MAGIC|), U32_BYTES), |json.dumps(header)|);
        if header.components == [] || header.components[0] != MANIFEST then None
        else match OpenComponent(aead, MANIFEST, [], header.kek, body)
          case None => None
          case Some(first) =>
            match OpenComponents(aead, header.components[1..], first.plain, header.kek, first.rest, map[])
            case None => None
            case Some(components) => Some(Decrypted(header, first.plain, components))
  }

  // ---- Round trip ---------------------------------------------------------------------------

  function Contents(components: seq<Component>, done: map<string, Bytes>): map<string, Bytes> {
    if components == [] then done
    else Contents(components[1..], done[components[0].name := components[0].content])
  }

  lemma {:induction false} ContentsOfDistinct(components: seq<Component>, done: map<string, Bytes>)
    requires forall i, j | 0 <= i < j < |components| :: components[i].name != components[j].name
    ensures forall i | 0 <= i < |components| ::
              components[i].name in Contents(components, done) &&
              Contents(components, done)[components[i].name] == components[i].content
    ensures forall n | n in done && (forall i | 0 <= i < |components| :: components[i].name != n) ::
              n in Contents(components, done) && Contents(components, done)[n] == done[n]
    ensures forall n | n in Contents(components, done) ::
              n in done || exists i :: 0 <= i < |components| && components[i].name == n
  {
    if components != [] {
      var rest := components[1..];
      var done' := done[components[0].name := components[0].content];
      ContentsOfDistinct(rest, done');
      forall i | 0 <= i < |components|
        ensures components[i].name in Contents(components, done) &&
                Contents(components, done)[components[i].name] == components[i].content
      {
        if i > 0 {
          assert components[i] == rest[i - 1];
        }
      }
    }
  }

  function BindingOf(backup: Backup, c: Component): Binding {
    Binding(c.name, backup.manifest, backup.kek, c.base)
  }

  function AllComponents(backup: Backup): seq<Component> {
    [Component(MANIFEST, backup.manifest, backup.manifestBase)] + backup.components
  }

  ghost predicate SealedAt(backup: Backup, c: Component, i: nat, r: Record)
    requires backup.Valid() && c in AllComponents(backup)
  {
    && i < |Chunks(c.content, backup.chunkMax)|
    && r.plain == Chunks(c.content, backup.chunkMax)[i]
    && Some(r.aad) == ChunkAad(c.name, i, backup.manifest, backup.kek)
    && Some(r.nonce) == DeriveNonce(c.base, i)
  }

  ghost predicate WasSealed(backup: Backup, r: Record)
    requires backup.Valid()
  {
    exists c: Component, i: nat :: c in AllComponents(backup) && SealedAt(backup, c, i, r)
  }

  // Everything the writer seals under this artifact's key.
  ghost function SealedLog(backup: Backup): iset<Record>
    requires backup.Valid()
  {
    iset r: Record | WasSealed(backup, r)
  }

  lemma {:induction false} LoggedChunksOpen(
      aead: Aead, backup: Backup, c: Component, index: nat, chunks: seq<Bytes>)
    requires backup.Valid() && Opens(aead, SealedLog(backup)) && c in AllComponents(backup)
    requires |c.base| == NONCE_BYTES && index <= |Chunks(c.content, backup.chunkMax)|
    requires chunks == Chunks(c.content, backup.chunkMax)[index..]
    ensures OpensChunks(aead, BindingOf(backup, c), index, chunks)
    decreases |chunks|
  {
    if chunks != [] {
      LoggedChunksOpen(aead, backup, c, index + 1, chunks[1..]);
      var aad, nonce := ChunkAad(c.name, index, backup.manifest, backup.kek), DeriveNonce(c.base, index);
      if aad.Some? && nonce.Some? {
        var r := Record(nonce.value, chunks[0], aad.value);
        assert SealedAt(backup, c, index, r);
        assert r in SealedLog(backup);
      }
    }
  }

  // Every component of a backup opens under a cipher that opens what the backup seals.
  lemma SealedComponentOpens(aead: Aead, backup: Backup, c: Component)
    requires backup.Valid() && Opens(aead, SealedLog(backup)) && c in AllComponents(backup)
    ensures |c.base| == NONCE_BYTES
    ensures OpensChunks(aead, BindingOf(backup, c), 0, Chunks(c.content, backup.chunkMax))
  {
    LoggedChunksOpen(aead, backup, c, 0, Chunks(c.content, backup.chunkMax));
  }

  ghost predicate OpensComponents(aead: Aead, backup: Backup, components: seq<Component>)
    requires backup.chunkMax > 0
    requires forall i | 0 <= i < |components| :: |components[i].base| == NONCE_BYTES
  {
    forall i | 0 <= i < |components| ::
      OpensChunks(aead, BindingOf(backup, components[i]), 0, Chunks(components[i].content, backup.chunkMax))
  }

  lemma SealedLogOpens(aead: Aead, backup: Backup)
    requires backup.Valid() && Opens(aead, SealedLog(backup))
    ensures OpensComponents(aead, backup, backup.components)
    ensures OpensChunks(aead, BindingOf(backup, AllComponents(backup)[0]), 0, Chunks(backup.manifest, backup.chunkMax))
  {
    SealedComponentOpens(aead, backup, AllComponents(backup)[0]);
    forall i | 0 <= i < |backup.components|
      ensures OpensChunks(aead, BindingOf(backup, backup.components[i]), 0,
                          Chunks(backup.components[i].content, backup.chunkMax))
    {
      assert AllComponents(backup)[i + 1] == backup.components[i];
      SealedComponentOpens(aead, backup, backup.components[i]);
    }
  }

  // Components read back by name, whatever names and bytes follow.
  lemma {:induction false} OpenInvertsSealComponents(
      aead: Aead, backup: Backup, components: seq<Component>, done: map<string, Bytes>,
      more: seq<string>, tail: Bytes)
    requires backup.chunkMax > 0
    requires forall i | 0 <= i < |components| :: |components[i].base| == NONCE_BYTES
    requires OpensComponents(aead, backup, components) && SealComponents(aead, backup, components).Some?
    ensures OpenComponents(aead, Names(components) + more, backup.manifest, backup.kek,
                           SealComponents(aead, backup, components).value + tail, done)
         == OpenComponents(aead, more, backup.manifest, backup.kek, tail, Contents(components, done))
    decreases |components|
  {
    if components == [] {
      assert Names(components) + more == more && [] + tail == tail;
    } else {
      var c := components[0];
      var b := Binding(c.name, backup.manifest, backup.kek, c.base);
      var first := SealComponent(aead, b, c.content, backup.chunkMax).value;
      var others := SealComponents(aead, backup, components[1..]).value;
      AppendAssociates(first, others, tail);
      OpenInvertsSealComponent(aead, b, c.content, backup.chunkMax, others + tail);
      assert (Names(components) + more)[0] == c.name;
      assert (Names(components) + more)[1..] == Names(components[1..]) + more;
      OpenInvertsSealComponents(aead, backup, components[1..], done[c.name := c.content], more, tail);
    }
  }

  // The manifest's own associated data does not depend on the manifest bytes.
  lemma {:induction false} ManifestBindsNothing(
      aead: Aead, b: Binding, m: Bytes, index: nat, count: nat, data: Bytes)
    requires b.Valid() && b.name == MANIFEST
    ensures OpenChunks(aead, b.(manifest := m), index, count, data)
         == OpenChunks(aead, b, index, count, data)
    decreases count
  {
    if count > 0 {
      var first := OpenChunk(aead, b, index, data);
      assert OpenChunk(aead, b.(manifest := m), index, data) == first;
      if first.Some? {
        ManifestBindsNothing(aead, b, m, index + 1, count - 1, first.value.rest);
      }
    }
  }

  lemma ManifestOpensUnbound(aead: Aead, m: Bytes, kek: string, data: Bytes)
    ensures OpenComponent(aead, MANIFEST, m, kek, data) == OpenComponent(aead, MANIFEST, [], kek, data)
  {
    if |data| >= NONCE_BYTES + U32_BYTES {
      var rest := data[NONCE_BYTES..];
      ManifestBindsNothing(aead, Binding(MANIFEST, [], kek, data[..NONCE_BYTES]), m, 0,
                           UnpackU32(rest[..U32_BYTES]), rest[U32_BYTES..]);
    }
  }

  // The reader's position after the header, computed from its re-serialisation, is
  // exactly the first byte of the manifest component.
  lemma HeaderLandsOnFirstComponent(json: HeaderJson, header: Header, body: Bytes)
    requires json.loads(json.dumps(header)) == Some(header)
    requires header.formatVersion == FORMAT_VERSION && |json.dumps(header)| < U32_LIMIT
    ensures var text := json.dumps(header);
            var data := MAGIC + PackU32(|text|) + text + body;
            && ReadHeader(json, data) == Some(header)
            && Skip(Skip(Skip(data, |MAGIC|), U32_BYTES), |text|) == body
  {
    var text := json.dumps(header);
    var length := PackU32(|text|);
    UnpackInvertsPack(|text|);
    var data := MAGIC + length + text + body;
    assert data[..|MAGIC|] == MAGIC && data[|MAGIC|..] == length + (text + body);
    assert (length + (text + body))[..U32_BYTES] == length;
    assert (length + (text + body))[U32_BYTES..] == text + body;
    assert (text + body)[..|text|] == text && (text + body)[|text|..] == body;
  }

  // The reader gets to the data components of a written artifact.
  lemma GenuineManifestOpens(json: HeaderJson, aead: Aead, backup: Backup)
    requires backup.Valid() && Opens(aead, SealedLog(backup))
    requires json.loads(json.dumps(backup.HeaderOf())) == Some(backup.HeaderOf())
    requires WriteArtifact(json, aead, backup).Some?
    ensures var data, header := WriteArtifact(json, aead, backup).value, backup.HeaderOf();
            && ReadHeader(json, data) == Some(header)
            && SealComponents(aead, backup, backup.components).Some?
            && OpenComponent(aead, MANIFEST, [], backup.kek,
                             Skip(Skip(Skip(data, |MAGIC|), U32_BYTES), |json.dumps(header)|))
               == Some(Opened(backup.manifest, SealComponents(aead, backup, backup.components).value))
  {
    var header := backup.HeaderOf();
    var text := json.dumps(header);
    var b := Binding(MANIFEST, backup.manifest, backup.kek, backup.manifestBase);
    var first := SealComponent(aead, b, backup.manifest, backup.chunkMax).value;
    var tail := SealComponents(aead, backup, backup.components).value;
    var prefix := MAGIC + PackU32(|text|) + text;
    Regroup(prefix, prefix + first, tail);
    HeaderLandsOnFirstComponent(json, header, first + tail);
    SealedLogOpens(aead, backup);
    OpenInvertsSealComponent(aead, b, backup.manifest, backup.chunkMax, tail);
    ManifestOpensUnbound(aead, backup.manifest, backup.kek, first + tail);
  }

  lemma GenuineComponentsOpen(aead: Aead, backup: Backup)
    requires backup.Valid() && Opens(aead, SealedLog(backup))
    requires SealComponents(aead, backup, backup.components).Some?
    ensures OpenComponents(aead, backup.HeaderOf().components[1..], backup.manifest, backup.kek,
                           SealComponents(aead, backup, backup.components).value, map[])
         == Some(Contents(backup.components, map[]))
  {
    var tail := SealComponents(aead, backup, backup.components).value;
    SealedLogOpens(aead, backup);
    OpenInvertsSealComponents(aead, backup, backup.components, map[], [], []);
    assert backup.HeaderOf().components[1..] == Names(backup.components);
    assert Names(backup.components) + [] == Names(backup.components) && tail + [] == tail;
  }

  lemma DecryptInvertsWrite(json: HeaderJson, aead: Aead, backup: Backup)
    requires backup.Valid() && Opens(aead, SealedLog(backup))
    requires json.loads(json.dumps(backup.HeaderOf())) == Some(backup.HeaderOf())
    requires WriteArtifact(json, aead, backup).Some?
    ensures DecryptArtifact(json, aead, WriteArtifact(json, aead, backup).value)
         == Some(Decrypted(backup.HeaderOf(), backup.manifest, Contents(backup.components, map[])))
  {
    GenuineManifestOpens(json, aead, backup);
    GenuineComponentsOpen(aead, backup);
  }

  // Decrypting a written artifact under the same key returns the manifest and every
  // component as they were.
  lemma RoundTrip(json: HeaderJson, aead: Aead, backup: Backup)
    requires backup.Valid() && backup.DistinctNames() && Opens(aead, SealedLog(backup))
    requires json.loads(json.dumps(backup.HeaderOf())) == Some(backup.HeaderOf())
    requires WriteArtifact(json, aead, backup).Some?
    ensures var r := DecryptArtifact(json, aead, WriteArtifact(json, aead, backup).value);
            && r.Some? && r.value.header == backup.HeaderOf() && r.value.manifest == backup.manifest
            && r.value.header == Header(1, backup.kek, backup.wrappedDek, "AES-256-GCM", backup.chunkMax,
                                        ["manifest"] + Names(backup.components))
            && r.value.components.Keys == (set c | c in backup.components :: c.name)
            && forall c | c in backup.components :: r.value.components[c.name] == c.content
  {
    DecryptInvertsWrite(json, aead, backup);
    ContentsOfDistinct(backup.components, map[]);
  }
}
