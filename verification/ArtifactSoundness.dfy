// What acceptance means: whatever bytes the reader is given, under an ideal cipher
// it only ever returns whole-chunk prefixes of what was sealed, and the restore
// checks turn that into equality.
module ArtifactSoundness {
  import opened Prelude
  import opened Artifact
  import opened ArtifactStreams

  // The ideal cipher exists for every log, so results that assume it say something.
  lemma IdealCipherExists(log: iset<Record>)
    ensures exists aead: Aead :: Ideal(aead, log)
  {
    var aead := Aead(
      (nonce: Bytes, plain: Bytes, aad: Bytes) => plain,
      (nonce: Bytes, cipher: Bytes, aad: Bytes) =>
        if Record(nonce, cipher, aad) in log then Some(cipher) else None);
    assert Ideal(aead, log);
  }

  // A name the backup sealed something under determines the component.
  lemma NameDetermines(backup: Backup, c: Component, d: Component)
    requires backup.Valid() && backup.DistinctNames()
    requires c in AllComponents(backup) && d in AllComponents(backup) && c.name == d.name
    ensures c == d
  {
    var all := AllComponents(backup);
    assert forall i, j | 0 <= i < j < |all| :: all[i].name != all[j].name by {
      assert forall j | 1 <= j < |all| :: all[j] == backup.components[j - 1];
    }
    var i :| 0 <= i < |all| && all[i] == c;
    var j :| 0 <= j < |all| && all[j] == d;
  }

  // A chunk that opens at a position of a component is the chunk sealed at that
  // position of the component of that name, under that very manifest or key version.
  lemma OpenedChunkWasSealed(
      aead: Aead, backup: Backup, b: Binding, index: nat, data: Bytes)
      returns (c: Component)
    requires backup.Valid() && Canonical(backup.manifest) && Ideal(aead, SealedLog(backup))
    requires b.Valid() && CanonicalPrefix(b.manifest) && OpenChunk(aead, b, index, data).Some?
    ensures c in AllComponents(backup) && c.name == b.name
    ensures index < |Chunks(c.content, backup.chunkMax)|
    ensures OpenChunk(aead, b, index, data).value.plain == Chunks(c.content, backup.chunkMax)[index]
    ensures if b.name == MANIFEST then b.kek == backup.kek else b.manifest == backup.manifest
  {
    var aad := ChunkAad(b.name, index, b.manifest, b.kek).value;
    var nonce := DeriveNonce(b.base, index).value;
    var cipher := data[U32_BYTES..][..UnpackU32(data[..U32_BYTES])];
    var plain := OpenChunk(aead, b, index, data).value.plain;
    assert aead.open(nonce, cipher, aad) == Some(plain);
    var r := Record(nonce, plain, aad);
    assert r in SealedLog(backup) && WasSealed(backup, r);
    var i: nat;
    c, i :| c in AllComponents(backup) && SealedAt(backup, c, i, r);
    AadBinds(b.name, index, b.manifest, b.kek, c.name, i, backup.manifest, backup.kek);
  }

  ghost predicate WholeChunks(part: Bytes, content: Bytes, max: nat, k: nat)
    requires max > 0
  {
    k <= |Chunks(content, max)| && part == Concat(Chunks(content, max)[..k])
  }

  lemma ConcatStep(parts: seq<Bytes>, i: nat, j: nat)
    requires i < j <= |parts|
    ensures Concat(parts[i..j]) == parts[i] + Concat(parts[i + 1..j])
  {
    assert parts[i..j][1..] == parts[i + 1..j];
  }

  lemma OpenedChunkIsChunkOf(
      aead: Aead, backup: Backup, c: Component, b: Binding, index: nat, data: Bytes)
    requires backup.Valid() && backup.DistinctNames()
    requires Canonical(backup.manifest) && Ideal(aead, SealedLog(backup))
    requires b.Valid() && CanonicalPrefix(b.manifest) && OpenChunk(aead, b, index, data).Some?
    requires c in AllComponents(backup) && c.name == b.name
    ensures index < |Chunks(c.content, backup.chunkMax)|
    ensures OpenChunk(aead, b, index, data).value.plain == Chunks(c.content, backup.chunkMax)[index]
  {
    var d := OpenedChunkWasSealed(aead, backup, b, index, data);
    NameDetermines(backup, c, d);
  }

  // Whatever opens at position i under this binding is chunks[i].
  ghost predicate OpensOnly(aead: Aead, b: Binding, chunks: seq<Bytes>)
    requires b.Valid()
  {
    forall i: nat, data: Bytes | OpenChunk(aead, b, i, data).Some? ::
      i < |chunks| && OpenChunk(aead, b, i, data).value.plain == chunks[i]
  }

  lemma {:induction false} OpenedChunksAreConsecutive(
      aead: Aead, b: Binding, chunks: seq<Bytes>, index: nat, count: nat, data: Bytes)
    requires b.Valid() && OpensOnly(aead, b, chunks) && index <= |chunks|
    requires OpenChunks(aead, b, index, count, data).Some?
    ensures index + count <= |chunks|
    ensures OpenChunks(aead, b, index, count, data).value.plain == Concat(chunks[index..index + count])
    decreases count
  {
    if count > 0 {
      var first := OpenChunk(aead, b, index, data).value;
      assert index < |chunks| && first.plain == chunks[index];
      var others := OpenChunks(aead, b, index + 1, count - 1, first.rest).value;
      assert others.plain == Concat(chunks[index + 1..index + count]) by {
        OpenedChunksAreConsecutive(aead, b, chunks, index + 1, count - 1, first.rest);
      }
      ConcatStep(chunks, index, index + count);
    } else {
      assert chunks[index..index + count] == [];
    }
  }

  lemma OpenedChunksWereSealed(
      aead: Aead, backup: Backup, c: Component, b: Binding, count: nat, data: Bytes)
    requires backup.Valid() && backup.DistinctNames()
    requires Canonical(backup.manifest) && Ideal(aead, SealedLog(backup))
    requires b.Valid() && CanonicalPrefix(b.manifest) && OpenChunks(aead, b, 0, count, data).Some?
    requires c in AllComponents(backup) && c.name == b.name
    ensures WholeChunks(OpenChunks(aead, b, 0, count, data).value.plain, c.content, backup.chunkMax, count)
  {
    var chunks := Chunks(c.content, backup.chunkMax);
    forall i: nat, piece: Bytes | OpenChunk(aead, b, i, piece).Some?
      ensures i < |chunks| && OpenChunk(aead, b, i, piece).value.plain == chunks[i]
    {
      OpenedChunkIsChunkOf(aead, backup, c, b, i, piece);
    }
    OpenedChunksAreConsecutive(aead, b, chunks, 0, count, data);
  }

  // What the reader may return under a name: a whole-chunk prefix of what was sealed
  // under it, and nothing at all under a name that was never used.
  ghost predicate Acceptable(backup: Backup, name: string, part: Bytes)
    requires backup.Valid()
  {
    || part == []
    || exists c: Component, k: nat ::
         c in AllComponents(backup) && c.name == name && WholeChunks(part, c.content, backup.chunkMax, k)
  }

  lemma OpenedComponentIsAcceptable(
      aead: Aead, backup: Backup, name: string, manifest: Bytes, kek: string, data: Bytes)
    requires backup.Valid() && backup.DistinctNames()
    requires Canonical(backup.manifest) && Ideal(aead, SealedLog(backup))
    requires CanonicalPrefix(manifest) && OpenComponent(aead, name, manifest, kek, data).Some?
    ensures var part := OpenComponent(aead, name, manifest, kek, data).value.plain;
            && Acceptable(backup, name, part)
            && (part != [] ==>
                  if name == MANIFEST then kek == backup.kek else manifest == backup.manifest)
  {
    var b := Binding(name, manifest, kek, data[..NONCE_BYTES]);
    var rest := data[NONCE_BYTES..];
    var count := UnpackU32(rest[..U32_BYTES]);
    var chunks := rest[U32_BYTES..];
    if count > 0 {
      var c := OpenedChunkWasSealed(aead, backup, b, 0, chunks);
      OpenedChunksWereSealed(aead, backup, c, b, count, chunks);
    }
  }

  lemma WholeChunksArePrefix(part: Bytes, content: Bytes, max: nat, k: nat)
    requires max > 0 && WholeChunks(part, content, max, k)
    ensures part <= content
  {
    var chunks := Chunks(content, max);
    assert chunks == chunks[..k] + chunks[k..];
    ConcatAppend(chunks[..k], chunks[k..]);
    ChunksRejoin(content, max);
  }

  lemma AcceptedManifestIsPrefix(backup: Backup, part: Bytes)
    requires backup.Valid() && backup.DistinctNames() && Acceptable(backup, MANIFEST, part)
    ensures part <= backup.manifest
  {
    if part != [] {
      var c: Component, k: nat :|
        c in AllComponents(backup) && c.name == MANIFEST && WholeChunks(part, c.content, backup.chunkMax, k);
      assert AllComponents(backup)[0] in AllComponents(backup);
      NameDetermines(backup, c, AllComponents(backup)[0]);
      WholeChunksArePrefix(part, c.content, backup.chunkMax, k);
    }
  }

  lemma {:induction false} OpenedComponentsAreAcceptable(
      aead: Aead, backup: Backup, names: seq<string>, manifest: Bytes, kek: string, data: Bytes,
      done: map<string, Bytes>)
    requires backup.Valid() && backup.DistinctNames()
    requires Canonical(backup.manifest) && Ideal(aead, SealedLog(backup)) && CanonicalPrefix(manifest)
    requires forall n | n in done :: Acceptable(backup, n, done[n])
    requires OpenComponents(aead, names, manifest, kek, data, done).Some?
    ensures var parts := OpenComponents(aead, names, manifest, kek, data, done).value;
            forall n | n in parts :: Acceptable(backup, n, parts[n])
    decreases |names|
  {
    if names != [] {
      OpenedComponentIsAcceptable(aead, backup, names[0], manifest, kek, data);
      var first := OpenComponent(aead, names[0], manifest, kek, data).value;
      OpenedComponentsAreAcceptable(
        aead, backup, names[1..], manifest, kek, first.rest, done[names[0] := first.plain]);
    }
  }

  // From any bytes whatsoever: every part the reader returns is a whole-chunk prefix
  // of the part sealed under its name. The header is not authenticated, so more
  // cannot be promised here.
  lemma ReaderReturnsSealedPrefixes(json: HeaderJson, aead: Aead, backup: Backup, data: Bytes)
    requires backup.Valid() && backup.DistinctNames()
    requires Canonical(backup.manifest) && Ideal(aead, SealedLog(backup))
    requires DecryptArtifact(json, aead, data).Some?
    ensures var d := DecryptArtifact(json, aead, data).value;
            && Acceptable(backup, MANIFEST, d.manifest) && d.manifest <= backup.manifest
            && (d.manifest != [] ==> d.header.kek == backup.kek)
            && forall n | n in d.components :: Acceptable(backup, n, d.components[n])
  {
    var header := ReadHeader(json, data).value;
    var body := Skip(Skip(Skip(data, |MAGIC|), U32_BYTES), |json.dumps(header)|);
    OpenedComponentIsAcceptable(aead, backup, MANIFEST, [], header.kek, body);
    var first := OpenComponent(aead, MANIFEST, [], header.kek, body).value;
    AcceptedManifestIsPrefix(backup, first.plain);
    assert CanonicalPrefix(first.plain);
    OpenedComponentsAreAcceptable(
      aead, backup, header.components[1..], first.plain, header.kek, first.rest, map[]);
  }

  // The reader alone cannot promise the whole component: with the chunk count in clear,
  // a count of zero is accepted for any component and gives nothing.
  lemma ZeroCountIsAccepted(aead: Aead, name: string, manifest: Bytes, kek: string, base: Bytes, rest: Bytes)
    requires |base| == NONCE_BYTES
    ensures OpenComponent(aead, name, manifest, kek, base + PackU32(0) + rest) == Some(Opened([], rest))
  {
    var data := base + PackU32(0) + rest;
    assert data[..NONCE_BYTES] == base && data[NONCE_BYTES..] == PackU32(0) + rest;
    assert (PackU32(0) + rest)[..U32_BYTES] == PackU32(0) && (PackU32(0) + rest)[U32_BYTES..] == rest;
    UnpackInvertsPack(0);
  }

  lemma {:induction false} PrefixIsSealed(aead: Aead, b: Binding, index: nat, chunks: seq<Bytes>, k: nat)
    requires b.Valid() && k <= |chunks| && SealChunks(aead, b, index, chunks).Some?
    requires OpensChunks(aead, b, index, chunks)
    ensures SealChunks(aead, b, index, chunks[..k]).Some? && OpensChunks(aead, b, index, chunks[..k])
    decreases k
  {
    if k > 0 {
      assert chunks[..k][0] == chunks[0] && chunks[..k][1..] == chunks[1..][..k - 1];
      PrefixIsSealed(aead, b, index + 1, chunks[1..], k - 1);
    }
  }

  // And so is every whole-chunk prefix of every component of a backup, also by the ideal
  // cipher: what the reader may return is exactly what `WholeChunks` allows.
  lemma WholeChunkPrefixIsAccepted(aead: Aead, backup: Backup, c: Component, k: nat)
    requires backup.Valid() && Opens(aead, SealedLog(backup)) && c in AllComponents(backup)
    requires SealComponent(aead, BindingOf(backup, c), c.content, backup.chunkMax).Some?
    requires k <= |Chunks(c.content, backup.chunkMax)|
    ensures exists data: Bytes, part: Bytes ::
              WholeChunks(part, c.content, backup.chunkMax, k) &&
              OpenComponent(aead, c.name, backup.manifest, backup.kek, data) == Some(Opened(part, []))
  {
    SealedComponentOpens(aead, backup, c);
    PrefixIsAccepted(aead, BindingOf(backup, c), c.content, backup.chunkMax, k);
  }

  lemma PrefixIsAccepted(aead: Aead, b: Binding, content: Bytes, max: nat, k: nat)
    requires b.Valid() && max > 0 && SealComponent(aead, b, content, max).Some?
    requires OpensChunks(aead, b, 0, Chunks(content, max)) && k <= |Chunks(content, max)|
    ensures exists data: Bytes, part: Bytes ::
              WholeChunks(part, content, max, k) &&
              OpenComponent(aead, b.name, b.manifest, b.kek, data) == Some(Opened(part, []))
  {
    var chunks := Chunks(content, max)[..k];
    PrefixIsSealed(aead, b, 0, Chunks(content, max), k);
    var body := SealChunks(aead, b, 0, chunks).value;
    var data := b.base + PackU32(k) + body;
    assert data[..NONCE_BYTES] == b.base && data[NONCE_BYTES..] == PackU32(k) + body;
    assert (PackU32(k) + body)[..U32_BYTES] == PackU32(k) && (PackU32(k) + body)[U32_BYTES..] == body;
    UnpackInvertsPack(k);
    OpenInvertsSealChunks(aead, b, 0, chunks, []);
    assert body + [] == body;
    assert OpenComponent(aead, b.name, b.manifest, b.kek, data) == Some(Opened(Concat(chunks), []));
    assert WholeChunks(Concat(chunks), content, max, k);
  }

  // ---- The restore checks on top ------------------------------------------------------------

  const PGDUMP := "pgdump"
  const FILES := "files"
  const MANIFEST_FORMAT_VERSION := "v1"

  datatype Manifest = Manifest(
    formatVersion: string, usable: bool, pgSha256: string, filesSha256: string, alembicHead: string)

  // `manifest_from_bytes`; None when parsing or field validation raises.
  type ManifestParser = Bytes -> Option<Manifest>

  type Sha256 = Bytes -> string

  // JSON text of an object: no strict prefix of it parses.
  ghost predicate ParsesOnlyWhole(parse: ManifestParser, text: Bytes) {
    forall k | 0 <= k < |text| :: parse(text[..k]) == None
  }

  ghost predicate CollisionFree(sha: Sha256) {
    forall x: Bytes, y: Bytes :: sha(x) == sha(y) ==> x == y
  }

  // Steps 4 and 5 of `_run_restore`: the code of the first check that fails.
  function Rejection(parse: ManifestParser, sha: Sha256, d: Decrypted): Option<string> {
    match parse(d.manifest)
    case None => Some("MANIFEST_INVALID")
    case Some(m) =>
      if m.formatVersion != MANIFEST_FORMAT_VERSION then Some("MANIFEST_FORMAT_VERSION_UNSUPPORTED")
      else if !m.usable then Some("MANIFEST_NOT_USABLE")
      else if PGDUMP !in d.components || FILES !in d.components then Some("MANIFEST_COMPONENTS_INCOMPLETE")
      else if sha(d.components[PGDUMP]) != m.pgSha256 then Some("PGDUMP_HASH_MISMATCH")
      else if sha(d.components[FILES]) != m.filesSha256 then Some("FILES_HASH_MISMATCH")
      else None
  }

  // A backup as `run_backup` makes it: a usable manifest that names the two hashes.
  ghost predicate WellMade(parse: ManifestParser, sha: Sha256, backup: Backup, pgdump: Bytes, files: Bytes) {
    && backup.Valid() && backup.DistinctNames() && Canonical(backup.manifest)
    && |backup.components| == 2
    && backup.components[0].name == PGDUMP && backup.components[0].content == pgdump
    && backup.components[1].name == FILES && backup.components[1].content == files
    && parse(backup.manifest).Some?
    && var m := parse(backup.manifest).value;
       && m.formatVersion == MANIFEST_FORMAT_VERSION && m.usable
       && m.pgSha256 == sha(pgdump) && m.filesSha256 == sha(files)
  }

  function AsText(b: Bytes): (t: string)
    ensures |t| == |b| && forall i | 0 <= i < |b| :: t[i] as int == b[i]
  {
    seq(|b|, i requires 0 <= i < |b| => b[i] as char)
  }

  // The hypotheses on hash and parser can be met together for every such backup.
  lemma HypothesesCanBeMet(backup: Backup, pgdump: Bytes, files: Bytes)
    requires backup.Valid() && backup.DistinctNames() && Canonical(backup.manifest)
    requires |backup.components| == 2
    requires backup.components[0].name == PGDUMP && backup.components[0].content == pgdump
    requires backup.components[1].name == FILES && backup.components[1].content == files
    ensures exists parse: ManifestParser, sha: Sha256 ::
              CollisionFree(sha) && ParsesOnlyWhole(parse, backup.manifest) &&
              WellMade(parse, sha, backup, pgdump, files)
  {
    var sha: Sha256 := AsText;
    assert CollisionFree(sha) by {
      forall x: Bytes, y: Bytes | sha(x) == sha(y) ensures x == y {
        assert AsText(x) == AsText(y);
        assert forall i | 0 <= i < |x| :: x[i] == y[i];
      }
    }
    var m := Manifest(MANIFEST_FORMAT_VERSION, true, sha(pgdump), sha(files), "");
    var parse: ManifestParser := (b: Bytes) => if b == backup.manifest then Some(m) else None;
    assert ParsesOnlyWhole(parse, backup.manifest);
    assert WellMade(parse, sha, backup, pgdump, files);
  }

  // Once the manifest parses and the hashes match, both data components are the originals.
  lemma AcceptedRestoreIsExact(
      json: HeaderJson, aead: Aead, parse: ManifestParser, sha: Sha256, backup: Backup,
      pgdump: Bytes, files: Bytes, data: Bytes)
    requires WellMade(parse, sha, backup, pgdump, files) && ParsesOnlyWhole(parse, backup.manifest)
    requires Ideal(aead, SealedLog(backup)) && CollisionFree(sha)
    requires DecryptArtifact(json, aead, data).Some?
    requires Rejection(parse, sha, DecryptArtifact(json, aead, data).value) == None
    ensures var d := DecryptArtifact(json, aead, data).value;
            && d.manifest == backup.manifest && d.header.kek == backup.kek
            && d.components[PGDUMP] == pgdump && d.components[FILES] == files
  {
    var d := DecryptArtifact(json, aead, data).value;
    assert d.manifest <= backup.manifest && (d.manifest != [] ==> d.header.kek == backup.kek) by {
      ReaderReturnsSealedPrefixes(json, aead, backup, data);
    }
    assert d.manifest == backup.manifest[..|d.manifest|];
    assert d.manifest == backup.manifest && d.manifest != [];
  }

  // And the artifact as written is accepted: the checks refuse nothing genuine.
  lemma GenuineArtifactIsAccepted(
      json: HeaderJson, aead: Aead, parse: ManifestParser, sha: Sha256, backup: Backup,
      pgdump: Bytes, files: Bytes)
    requires WellMade(parse, sha, backup, pgdump, files) && Opens(aead, SealedLog(backup))
    requires json.loads(json.dumps(backup.HeaderOf())) == Some(backup.HeaderOf())
    requires WriteArtifact(json, aead, backup).Some?
    ensures var r := DecryptArtifact(json, aead, WriteArtifact(json, aead, backup).value);
            r.Some? && Rejection(parse, sha, r.value) == None
  {
    RoundTrip(json, aead, backup);
    assert backup.components[0] in backup.components && backup.components[1] in backup.components;
  }
}
