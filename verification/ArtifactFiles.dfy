// The writer and the reader as they run: loops over file handles, in memory for the
// manifest and streaming for the data components.
module ArtifactFiles {
  import opened Prelude
  import opened Artifact
  import opened ArtifactStreams
  import opened ArtifactDisk
  import opened FileSystem

  // A file opened for writing.
  class Sink {
    var data: Bytes

    constructor ()
      ensures data == []
    {
      data := [];
    }

    method Write(b: Bytes)
      modifies this
      ensures data == old(data) + b
    {
      data := data + b;
    }
  }

  // A file opened for reading: the bytes not read yet.
  class Source {
    var rest: Bytes

    constructor (data: Bytes)
      ensures rest == data
    {
      rest := data;
    }

    method Read(n: nat) returns (b: Bytes)
      modifies this
      ensures b == old(rest)[..Min(n, |old(rest)|)] && rest == Skip(old(rest), n)
    {
      var m := Min(n, |rest|);
      b := rest[..m];
      rest := rest[m..];
    }

    method ReadExactly(n: nat) returns (r: Option<Bytes>)
      modifies this
      ensures match Split(old(rest), n)
              case None => r == None
              case Some((head, tail)) => r == Some(head) && rest == tail
    {
      var b := Read(n);
      return if |b| != n then None else Some(b);
    }
  }

  // ---- Writing -------------------------------------------------------------------

  // Encrypt one chunk and write it with its length.
  method EmitChunk(out: Sink, aead: Aead, b: Binding, index: nat, plain: Bytes) returns (ok: bool)
    requires b.Valid()
    modifies out
    ensures ok <==> SealChunk(aead, b, index, plain).Some?
    ensures ok ==> out.data == old(out.data) + SealChunk(aead, b, index, plain).value
  {
    var aad := ChunkAad(b.name, index, b.manifest, b.kek);
    var nonce := DeriveNonce(b.base, index);
    if aad.None? || nonce.None? {
      return false;
    }
    var cipher := aead.seal(nonce.value, plain, aad.value);
    if |cipher| >= U32_LIMIT {
      return false;
    }
    out.Write(PackU32(|cipher|));
    out.Write(cipher);
    return true;
  }

  lemma PrependNothing(rest: Option<Bytes>)
    ensures Prepend([], rest) == rest
  {
    assert rest.Some? ==> [] + rest.value == rest.value;
  }

  // One more chunk written moves it from what is left to what is done.
  lemma SealChunksStep(aead: Aead, b: Binding, chunks: seq<Bytes>, i: nat, done: Bytes)
    requires b.Valid() && i < |chunks|
    ensures var one := SealChunk(aead, b, i, chunks[i]);
            Prepend(done, SealChunks(aead, b, i, chunks[i..]))
            == if one.None? then None
               else Prepend(done + one.value, SealChunks(aead, b, i + 1, chunks[i + 1..]))
  {
    assert chunks[i..][1..] == chunks[i + 1..];
    var one, others := SealChunk(aead, b, i, chunks[i]), SealChunks(aead, b, i + 1, chunks[i + 1..]);
    if one.Some? && others.Some? {
      assert done + (one.value + others.value) == (done + one.value) + others.value;
    }
  }

  method EmitChunks(out: Sink, aead: Aead, b: Binding, chunks: seq<Bytes>) returns (ok: bool)
    requires b.Valid()
    modifies out
    ensures ok <==> SealChunks(aead, b, 0, chunks).Some?
    ensures ok ==> out.data == old(out.data) + SealChunks(aead, b, 0, chunks).value
  {
    ghost var start, done: Bytes := out.data, [];
    assert chunks[0..] == chunks;
    PrependNothing(SealChunks(aead, b, 0, chunks));
    for i := 0 to |chunks|
      invariant out.data == start + done
      invariant SealChunks(aead, b, 0, chunks) == Prepend(done, SealChunks(aead, b, i, chunks[i..]))
    {
      SealChunksStep(aead, b, chunks, i, done);
      ok := EmitChunk(out, aead, b, i, chunks[i]);
      if !ok {
        return;
      }
      ghost var one := SealChunk(aead, b, i, chunks[i]).value;
      AppendAssociates(start, done, one);
      done := done + one;
    }
    return true;
  }

  // `_write_component`.
  method WriteComponent(out: Sink, aead: Aead, b: Binding, plaintext: Bytes, max: nat) returns (ok: bool)
    requires b.Valid() && max > 0
    modifies out
    ensures ok <==> SealComponent(aead, b, plaintext, max).Some?
    ensures ok ==> out.data == old(out.data) + SealComponent(aead, b, plaintext, max).value
  {
    var chunks := Chunks(plaintext, max);
    if |chunks| >= U32_LIMIT {
      return false;
    }
    out.Write(b.base);
    out.Write(PackU32(|chunks|));
    assert out.data == old(out.data) + (b.base + PackU32(|chunks|));
    ok := EmitChunks(out, aead, b, chunks);
  }

  datatype WriteStatus = Written | Failed | ChunkCountMismatch

  lemma PiecesStep(content: Bytes, max: nat)
    requires max > 0 && content != []
    ensures Pieces(content, max) ==
              [content[..Min(max, |content|)]] + Pieces(content[Min(max, |content|)..], max)
  {
    if |content| <= max {
      assert content[..|content|] == content && content[|content|..] == [];
    }
  }

  // The read loop of the streaming writer: encrypt until the file is exhausted.
  method EmitStream(out: Sink, handle: Source, aead: Aead, b: Binding, max: nat)
    returns (ok: bool, index: nat)
    requires b.Valid() && max > 0
    modifies out, handle
    ensures var pieces := Pieces(old(handle.rest), max);
            && (ok <==> SealChunks(aead, b, 0, pieces).Some?)
            && (ok ==> index == |pieces| &&
                       out.data == old(out.data) + SealChunks(aead, b, 0, pieces).value)
  {
    ghost var pieces, start, done := Pieces(handle.rest, max), out.data, [];
    index := 0;
    assert pieces[0..] == pieces;
    PrependNothing(SealChunks(aead, b, 0, pieces));
    while true
      invariant index <= |pieces| && out.data == start + done
      invariant pieces[index..] == Pieces(handle.rest, max)
      invariant SealChunks(aead, b, 0, pieces) == Prepend(done, SealChunks(aead, b, index, pieces[index..]))
      decreases |handle.rest|
    {
      ghost var before := handle.rest;
      var chunk := handle.Read(max);
      if chunk == [] {
        assert before == [] && pieces[index..] == [];
        return true, index;
      }
      PiecesStep(before, max);
      assert pieces[index..][0] == chunk && pieces[index..][1..] == pieces[index + 1..];
      SealChunksStep(aead, b, pieces, index, done);
      ok := EmitChunk(out, aead, b, index, chunk);
      if !ok {
        return;
      }
      ghost var one := SealChunk(aead, b, index, chunk).value;
      AppendAssociates(start, done, one);
      done := done + one;
      index := index + 1;
    }
  }

  lemma SealSingleChunk(aead: Aead, b: Binding, plain: Bytes)
    requires b.Valid()
    ensures SealChunks(aead, b, 0, [plain]) == SealChunk(aead, b, 0, plain)
  {
    var one := SealChunk(aead, b, 0, plain);
    assert one.Some? ==> one.value + [] == one.value;
  }

  // `_write_component_stream`: same bytes as the in-memory writer, and the count fixed in
  // advance from the file size always agrees with the chunks emitted.
  method WriteComponentStream(out: Sink, aead: Aead, b: Binding, content: Bytes, max: nat)
    returns (status: WriteStatus)
    requires b.Valid() && max > 0
    modifies out
    ensures status != ChunkCountMismatch
    ensures status.Written? <==> SealComponent(aead, b, content, max).Some?
    ensures status.Written? ==> out.data == old(out.data) + SealComponent(aead, b, content, max).value
  {
    var chunkCount := Max(1, (|content| + max - 1) / max);
    ChunksRejoin(content, max);
    if chunkCount >= U32_LIMIT {
      return Failed;
    }
    out.Write(b.base);
    out.Write(PackU32(chunkCount));
    ghost var head := b.base + PackU32(chunkCount);
    AppendAssociates(old(out.data), b.base, PackU32(chunkCount));
    var handle := new Source(content);
    var ok, chunksWritten := EmitStream(out, handle, aead, b, max);
    if !ok {
      return Failed;
    }
    if chunksWritten == 0 {
      assert content == [] && SealChunks(aead, b, 0, Pieces(content, max)).value == [];
      SealSingleChunk(aead, b, []);
      ok := EmitChunk(out, aead, b, 0, []);
      if !ok {
        return Failed;
      }
      chunksWritten := 1;
    }
    if chunksWritten != chunkCount {
      return ChunkCountMismatch;
    }
    ghost var body := SealChunks(aead, b, 0, Chunks(content, max)).value;
    assert out.data == old(out.data) + head + body;
    AppendAssociates(old(out.data), head, body);
    return Written;
  }

  lemma SealComponentsStep(aead: Aead, backup: Backup, i: nat, done: Bytes)
    requires backup.Valid() && i < |backup.components|
    ensures var c := backup.components[i];
            var one := SealComponent(
              aead, Binding(c.name, backup.manifest, backup.kek, c.base), c.content, backup.chunkMax);
            Prepend(done, SealComponents(aead, backup, backup.components[i..]))
            == if one.None? then None
               else Prepend(done + one.value, SealComponents(aead, backup, backup.components[i + 1..]))
  {
    var c := backup.components[i];
    assert backup.components[i..][1..] == backup.components[i + 1..];
    var one := SealComponent(
      aead, Binding(c.name, backup.manifest, backup.kek, c.base), c.content, backup.chunkMax);
    var others := SealComponents(aead, backup, backup.components[i + 1..]);
    if one.Some? && others.Some? {
      assert done + (one.value + others.value) == (done + one.value) + others.value;
    }
  }

  // The loop over the data components.
  method WriteDataComponents(out: Sink, aead: Aead, backup: Backup) returns (ok: bool)
    requires backup.Valid()
    modifies out
    ensures ok <==> SealComponents(aead, backup, backup.components).Some?
    ensures ok ==> out.data == old(out.data) + SealComponents(aead, backup, backup.components).value
  {
    ghost var start, done: Bytes := out.data, [];
    ghost var all := SealComponents(aead, backup, backup.components);
    assert backup.components[0..] == backup.components;
    PrependNothing(all);
    for i := 0 to |backup.components|
      invariant out.data == start + done
      invariant all == Prepend(done, SealComponents(aead, backup, backup.components[i..]))
    {
      SealComponentsStep(aead, backup, i, done);
      var c := backup.components[i];
      var status := WriteComponentStream(
        out, aead, Binding(c.name, backup.manifest, backup.kek, c.base), c.content, backup.chunkMax);
      if !status.Written? {
        return false;
      }
      ghost var one := SealComponent(
        aead, Binding(c.name, backup.manifest, backup.kek, c.base), c.content, backup.chunkMax).value;
      AppendAssociates(start, done, one);
      done := done + one;
    }
    assert backup.components[|backup.components|..] == [];
    return true;
  }

  // `write_artifact`: None when it raises, and then no artifact is left behind.
  method Write(json: HeaderJson, aead: Aead, backup: Backup) returns (artifact: Option<Bytes>)
    requires backup.Valid()
    ensures artifact == WriteArtifact(json, aead, backup)
  {
    var header := json.dumps(backup.HeaderOf());
    if |header| >= U32_LIMIT {
      return None;
    }
    var out := new Sink();
    out.Write(MAGIC);
    out.Write(PackU32(|header|));
    out.Write(header);
    assert out.data == MAGIC + PackU32(|header|) + header;
    var b := Binding(MANIFEST, backup.manifest, backup.kek, backup.manifestBase);
    var ok := WriteComponent(out, aead, b, backup.manifest, backup.chunkMax);
    if !ok {
      return None;
    }
    ok := WriteDataComponents(out, aead, backup);
    if !ok {
      return None;
    }
    return Some(out.data);
  }

  // ---- Reading ---------------------------------------------------------------------

  function Extend(head: Bytes, rest: Option<Opened>): Option<Opened> {
    if rest.Some? then Some(Opened(head + rest.value.plain, rest.value.rest)) else None
  }

  lemma ExtendNothing(rest: Option<Opened>)
    ensures Extend([], rest) == rest
  {
    assert rest.Some? ==> [] + rest.value.plain == rest.value.plain;
  }

  lemma OpenChunksStep(aead: Aead, b: Binding, index: nat, count: nat, data: Bytes, done: Bytes)
    requires b.Valid() && count > 0 && OpenChunk(aead, b, index, data).Some?
    ensures var one := OpenChunk(aead, b, index, data).value;
            Extend(done, OpenChunks(aead, b, index, count, data))
            == Extend(done + one.plain, OpenChunks(aead, b, index + 1, count - 1, one.rest))
  {
    var one := OpenChunk(aead, b, index, data).value;
    var others := OpenChunks(aead, b, index + 1, count - 1, one.rest);
    if others.Some? {
      assert done + (one.plain + others.value.plain) == (done + one.plain) + others.value.plain;
    }
  }

  method ReadChunk(handle: Source, aead: Aead, b: Binding, index: nat) returns (r: Option<Bytes>)
    requires b.Valid()
    modifies handle
    ensures match OpenChunk(aead, b, index, old(handle.rest))
            case None => r == None
            case Some(o) => r == Some(o.plain) && handle.rest == o.rest
  {
    var size := handle.ReadExactly(U32_BYTES);
    if size.None? {
      return None;
    }
    var cipher := handle.ReadExactly(UnpackU32(size.value));
    if cipher.None? {
      return None;
    }
    var aad := ChunkAad(b.name, index, b.manifest, b.kek);
    var nonce := DeriveNonce(b.base, index);
    if aad.None? || nonce.None? {
      return None;
    }
    r := aead.open(nonce.value, cipher.value, aad.value);
  }

  method ReadChunks(handle: Source, aead: Aead, b: Binding, count: nat) returns (r: Option<Bytes>)
    requires b.Valid()
    modifies handle
    ensures match OpenChunks(aead, b, 0, count, old(handle.rest))
            case None => r == None
            case Some(o) => r == Some(o.plain) && handle.rest == o.rest
  {
    ghost var all := OpenChunks(aead, b, 0, count, handle.rest);
    var plain: Bytes := [];
    ExtendNothing(all);
    for i := 0 to count
      invariant all == Extend(plain, OpenChunks(aead, b, i, count - i, handle.rest))
    {
      ghost var before := handle.rest;
      var part := ReadChunk(handle, aead, b, i);
      if part.None? {
        return None;
      }
      OpenChunksStep(aead, b, i, count - i, before, plain);
      plain := plain + part.value;
    }
    assert OpenChunks(aead, b, count, 0, handle.rest) == Some(Opened([], handle.rest));
    assert plain + [] == plain;
    return Some(plain);
  }

  // `_read_component`: the manifest, in memory.
  method ReadComponent(handle: Source, aead: Aead, name: string, manifest: Bytes, kek: string)
    returns (r: Option<Bytes>)
    modifies handle
    ensures match OpenComponent(aead, name, manifest, kek, old(handle.rest))
            case None => r == None
            case Some(o) => r == Some(o.plain) && handle.rest == o.rest
  {
    var base := handle.ReadExactly(NONCE_BYTES);
    if base.None? {
      return None;
    }
    var length := handle.ReadExactly(U32_BYTES);
    if length.None? {
      return None;
    }
    var count := UnpackU32(length.value);
    var b := Binding(name, manifest, kek, base.value);
    r := ReadChunks(handle, aead, b, count);
  }

  // The loop of the streaming reader, on a file that has just been emptied.
  method StreamChunks(handle: Source, disk: Disk, p: Path, aead: Aead, b: Binding, count: nat)
    returns (ok: bool)
    requires b.Valid() && p in disk.fs.files && disk.fs.files[p] == []
    modifies handle, disk
    ensures var stream := Streamed(aead, b, 0, count, old(handle.rest));
            && disk.fs == WithFile(old(disk.fs), p, stream.plain)
            && (ok <==> stream.rest.Some?) && (ok ==> handle.rest == stream.rest.value)
  {
    ghost var all := Streamed(aead, b, 0, count, handle.rest);
    ghost var start, plain: Bytes := disk.fs, [];
    AfterNothing(all);
    FileIsThere(start, p, []);
    for i := 0 to count
      invariant disk.fs == WithFile(start, p, plain)
      invariant all == After(plain, Streamed(aead, b, i, count - i, handle.rest))
    {
      StreamStep(aead, b, i, count - i, handle.rest, plain);
      var part := ReadChunk(handle, aead, b, i);
      if part.None? {
        return false;
      }
      AppendToFile(start, p, plain, part.value);
      disk.Append(p, part.value);
      plain := plain + part.value;
    }
    assert plain + [] == plain;
    return true;
  }

  lemma AfterNothing(s: Stream)
    ensures After([], s) == s
  {
    assert [] + s.plain == s.plain;
  }

  lemma StreamStep(aead: Aead, b: Binding, index: nat, count: nat, data: Bytes, done: Bytes)
    requires b.Valid() && count > 0
    ensures After(done, Streamed(aead, b, index, count, data)) ==
              match OpenChunk(aead, b, index, data)
              case None => Stream(done, None)
              case Some(o) => After(done + o.plain, Streamed(aead, b, index + 1, count - 1, o.rest))
  {
    match OpenChunk(aead, b, index, data)
    case None =>
      assert done + [] == done;
    case Some(o) =>
      AppendAssociates(done, o.plain, Streamed(aead, b, index + 1, count - 1, o.rest).plain);
  }

  // `_read_component_stream`, joined with the choice of its target by `decrypt_artifact`.
  method ReadComponentStream(
      handle: Source, disk: Disk, dir: Path, aead: Aead, name: string, manifest: Bytes, kek: string)
    returns (place: Option<Path>)
    modifies handle, disk
    ensures var d := StoreComponent(aead, dir, name, manifest, kek, old(disk.fs), old(handle.rest));
            disk.fs == d.fs && place == d.place && (place.Some? ==> handle.rest == d.rest)
  {
    ghost var data, fs := handle.rest, disk.fs;
    var base := handle.ReadExactly(NONCE_BYTES);
    if base.None? {
      return None;
    }
    var length := handle.ReadExactly(U32_BYTES);
    if length.None? {
      return None;
    }
    place := Place(disk.fs.dirs, dir, name);
    if place.None? {
      return;
    }
    var count := UnpackU32(length.value);
    var b := Binding(name, manifest, kek, base.value);
    ghost var body := handle.rest;
    assert body == data[NONCE_BYTES..][U32_BYTES..];
    disk.Truncate(place.value);
    var ok := StreamChunks(handle, disk, place.value, aead, b, count);
    assert disk.fs == WithFile(fs, place.value, Streamed(aead, b, 0, count, body).plain);
    if !ok {
      return None;
    }
  }

  // `decrypt_artifact`.
  method Decrypt(json: HeaderJson, aead: Aead, data: Bytes, disk: Disk, dir: Path)
    returns (r: Option<Stored>)
    modifies disk
    ensures (disk.fs, r) == DecryptToDisk(json, aead, data, old(disk.fs), dir)
  {
    var accepted := AcceptedHeader(json, data);
    if accepted.None? {
      return None;
    }
    var header := accepted.value;
    var made := MakeDir(disk.fs, dir);
    if made.None? {
      return None;
    }
    disk.fs := made.value;
    var handle := new Source(data);
    var _ := handle.Read(|MAGIC|);
    var _ := handle.Read(U32_BYTES);
    var _ := handle.Read(|json.dumps(header)|);
    if header.components == [] || header.components[0] != MANIFEST {
      return None;
    }
    var manifest := ReadComponent(handle, aead, MANIFEST, [], header.kek);
    if manifest.None? {
      return None;
    }
    assert OpenManifest(json, aead, header, data) == Some(Opened(manifest.value, handle.rest));
    var paths := ReadDataComponents(handle, disk, dir, aead, header.components[1..], manifest.value, header.kek);
    return if paths.None? then None else Some(Stored(header, manifest.value, paths.value));
  }

  // The loop over the data components.
  method ReadDataComponents(
      handle: Source, disk: Disk, dir: Path, aead: Aead, names: seq<string>, manifest: Bytes, kek: string)
    returns (paths: Option<map<string, Path>>)
    modifies handle, disk
    ensures (disk.fs, paths) ==
              StoreComponents(aead, dir, names, manifest, kek, old(disk.fs), old(handle.rest), map[])
  {
    ghost var all := StoreComponents(aead, dir, names, manifest, kek, disk.fs, handle.rest, map[]);
    var done: map<string, Path> := map[];
    assert names[0..] == names;
    for i := 0 to |names|
      invariant all == StoreComponents(aead, dir, names[i..], manifest, kek, disk.fs, handle.rest, done)
    {
      assert names[i..][0] == names[i] && names[i..][1..] == names[i + 1..];
      var place := ReadComponentStream(handle, disk, dir, aead, names[i], manifest, kek);
      if place.None? {
        return None;
      }
      done := done[names[i] := place.value];
    }
    return Some(done);
  }
}
