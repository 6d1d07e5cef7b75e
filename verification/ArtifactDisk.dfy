// Where decryption writes: every data component goes to the place its name in the header
// leads to. The header is not authenticated, so that need not be a file of its own inside
// the plaintext directory; what follows from that, and when it cannot happen.
module ArtifactDisk {
  import opened Prelude
  import opened Artifact
  import opened ArtifactStreams
  import opened ArtifactSoundness
  import opened FileSystem

  // ---- The reader with its effects ------------------------------------------------------

  // The plaintext of the chunks that open before the first that does not, and what is left
  // to read if all of them open.
  datatype Stream = Stream(plain: Bytes, rest: Option<Bytes>)

  function Streamed(aead: Aead, b: Binding, index: nat, count: nat, data: Bytes): Stream
    requires b.Valid()
    decreases count
  {
    if count == 0 then Stream([], Some(data))
    else match OpenChunk(aead, b, index, data)
      case None => Stream([], None)
      case Some(first) => After(first.plain, Streamed(aead, b, index + 1, count - 1, first.rest))
  }

  function After(head: Bytes, s: Stream): Stream {
    Stream(head + s.plain, s.rest)
  }

  // The disk afterwards, and the place and what is left to read if all went well.
  datatype Delivery = Delivery(fs: Fs, place: Option<Path>, rest: Bytes)

  // `_read_component_stream`: the file is created or emptied before the first chunk is
  // read, and keeps what was recovered when a later one fails.
  function StoreComponent(
      aead: Aead, dir: Path, name: string, manifest: Bytes, kek: string, fs: Fs, data: Bytes): Delivery
  {
    if |data| < NONCE_BYTES + U32_BYTES then Delivery(fs, None, [])
    else
      match Place(fs.dirs, dir, name)
      case None => Delivery(fs, None, [])
      case Some(p) =>
        var b := Binding(name, manifest, kek, data[..NONCE_BYTES]);
        var count := UnpackU32(data[NONCE_BYTES..][..U32_BYTES]);
        var body := data[NONCE_BYTES..][U32_BYTES..];
        var stream := Streamed(aead, b, 0, count, body);
        var fs' := WithFile(fs, p, stream.plain);
        match stream.rest
        case None => Delivery(fs', None, [])
        case Some(rest) => Delivery(fs', Some(p), rest)
  }

  // The loop over the data components; None when one of them is rejected.
  function StoreComponents(
      aead: Aead, dir: Path, names: seq<string>, manifest: Bytes, kek: string, fs: Fs, data: Bytes,
      paths: map<string, Path>)
    : (Fs, Option<map<string, Path>>)
    decreases |names|
  {
    if names == [] then (fs, Some(paths))
    else
      var d := StoreComponent(aead, dir, names[0], manifest, kek, fs, data);
      if d.place.None? then (d.fs, None)
      else
        StoreComponents(
          aead, dir, names[1..], manifest, kek, d.fs, d.rest, paths[names[0] := d.place.value])
  }

  datatype Stored = Stored(header: Header, manifest: Bytes, paths: map<string, Path>)

  // The header, if the reader goes on with it.
  function AcceptedHeader(json: HeaderJson, data: Bytes): Option<Header> {
    match ReadHeader(json, data)
    case None => None
    case Some(header) => if header.aead != ALGORITHM then None else Some(header)
  }

  lemma AcceptsExactlyWhen(json: HeaderJson, data: Bytes, header: Header)
    ensures AcceptedHeader(json, data) == Some(header) <==>
              ReadHeader(json, data) == Some(header) && header.aead == "AES-256-GCM"
  {
  }

  // The manifest component, which stays in memory; the header is skipped by the length of
  // its re-serialisation.
  function OpenManifest(json: HeaderJson, aead: Aead, header: Header, data: Bytes): Option<Opened> {
    if header.components == [] || header.components[0] != MANIFEST then None
    else
      OpenComponent(aead, MANIFEST, [], header.kek,
                    Skip(Skip(Skip(data, |MAGIC|), U32_BYTES), |json.dumps(header)|))
  }

  function StoreData(aead: Aead, dir: Path, header: Header, first: Opened, fs: Fs)
    : (Fs, Option<map<string, Path>>)
    requires header.components != []
  {
    StoreComponents(aead, dir, header.components[1..], first.plain, header.kek, fs, first.rest, map[])
  }

  // `decrypt_artifact`.
  function DecryptToDisk(
      json: HeaderJson, aead: Aead, data: Bytes, fs: Fs, dir: Path): (Fs, Option<Stored>)
  {
    match AcceptedHeader(json, data)
    case None => (fs, None)
    case Some(header) =>
      match MakeDir(fs, dir)
      case None => (fs, None)
      case Some(made) =>
        match OpenManifest(json, aead, header, data)
        case None => (made, None)
        case Some(first) =>
          Finished(header, first.plain, StoreData(aead, dir, header, first, made))
  }

  function Finished(header: Header, manifest: Bytes, r: (Fs, Option<map<string, Path>>)): (Fs, Option<Stored>) {
    (r.0, if r.1.None? then None else Some(Stored(header, manifest, r.1.value)))
  }

  lemma DecryptStores(
      json: HeaderJson, aead: Aead, data: Bytes, fs: Fs, dir: Path, header: Header, first: Opened)
    requires AcceptedHeader(json, data) == Some(header) && MakeDir(fs, dir).Some?
    requires OpenManifest(json, aead, header, data) == Some(first)
    ensures DecryptToDisk(json, aead, data, fs, dir) ==
              Finished(header, first.plain, StoreData(aead, dir, header, first, MakeDir(fs, dir).value))
  {
  }

  // The reader that keeps the components by name takes the same steps.
  lemma DecryptsByTheSameSteps(json: HeaderJson, aead: Aead, data: Bytes)
    ensures DecryptArtifact(json, aead, data) ==
              if AcceptedHeader(json, data).None? then None
              else ByName(json, aead, AcceptedHeader(json, data).value, data)
  {
  }

  function ByName(json: HeaderJson, aead: Aead, header: Header, data: Bytes): Option<Decrypted> {
    match OpenManifest(json, aead, header, data)
    case None => None
    case Some(first) =>
      match OpenComponents(aead, header.components[1..], first.plain, header.kek, first.rest, map[])
      case None => None
      case Some(components) => Some(Decrypted(header, first.plain, components))
  }

  // What a later step finds in the file of a component.
  function FileContents(fs: Fs, paths: map<string, Path>): map<string, Bytes> {
    map n | n in paths :: if paths[n] in fs.files then fs.files[paths[n]] else []
  }

  function Found(fs: Fs, stored: Stored): Decrypted {
    Decrypted(stored.header, stored.manifest, FileContents(fs, stored.paths))
  }

  // Where an accepted result comes from.
  lemma StoredComesFrom(
      json: HeaderJson, aead: Aead, data: Bytes, fs: Fs, dir: Path, fs': Fs, stored: Stored)
    requires DecryptToDisk(json, aead, data, fs, dir) == (fs', Some(stored))
    ensures AcceptedHeader(json, data) == Some(stored.header) && MakeDir(fs, dir).Some?
    ensures var first := OpenManifest(json, aead, stored.header, data);
            && first.Some? && first.value.plain == stored.manifest
            && StoreData(aead, dir, stored.header, first.value, MakeDir(fs, dir).value) == (fs', Some(stored.paths))
  {
    assert AcceptedHeader(json, data).Some? && MakeDir(fs, dir).Some?;
    var header := AcceptedHeader(json, data).value;
    assert OpenManifest(json, aead, header, data).Some?;
    DecryptStores(json, aead, data, fs, dir, header, OpenManifest(json, aead, header, data).value);
  }

  // ---- One component --------------------------------------------------------------------

  lemma {:induction false} StreamedIsOpened(aead: Aead, b: Binding, index: nat, count: nat, data: Bytes)
    requires b.Valid()
    ensures OpenChunks(aead, b, index, count, data) ==
              match Streamed(aead, b, index, count, data).rest
              case None => None
              case Some(rest) => Some(Opened(Streamed(aead, b, index, count, data).plain, rest))
    decreases count
  {
    if count > 0 && OpenChunk(aead, b, index, data).Some? {
      StreamedIsOpened(aead, b, index + 1, count - 1, OpenChunk(aead, b, index, data).value.rest);
    }
  }

  // A component is delivered exactly when it opens and its name leads to a place, and then
  // the file there holds what opened. Either way no other file is touched.
  lemma StoreComponentDelivers(
      aead: Aead, dir: Path, name: string, manifest: Bytes, kek: string, fs: Fs, data: Bytes)
    ensures var d := StoreComponent(aead, dir, name, manifest, kek, fs, data);
            var result := OpenComponent(aead, name, manifest, kek, data);
            var place := Place(fs.dirs, dir, name);
            && d.fs.dirs == fs.dirs
            && (d.place.Some? <==> result.Some? && place.Some?)
            && (d.place.Some? ==>
                  d.place == place && d.rest == result.value.rest &&
                  d.fs.files == fs.files[place.value := result.value.plain])
            && (forall p | place != Some(p) :: SameFile(d.fs, fs, p))
  {
    if |data| >= NONCE_BYTES + U32_BYTES {
      var b := Binding(name, manifest, kek, data[..NONCE_BYTES]);
      var count := UnpackU32(data[NONCE_BYTES..][..U32_BYTES]);
      var body := data[NONCE_BYTES..][U32_BYTES..];
      StreamedIsOpened(aead, b, 0, count, body);
    }
  }

  ghost predicate SameFile(f: Fs, g: Fs, p: Path) {
    (p in f.files <==> p in g.files) && (p in f.files ==> f.files[p] == g.files[p])
  }

  // ---- Files outside the plaintext directory ----------------------------------------------

  // Only the places of the names are touched, whatever the bytes are.
  lemma {:induction false} OnlyPlacesAreTouched(
      aead: Aead, dir: Path, names: seq<string>, manifest: Bytes, kek: string, fs: Fs, data: Bytes,
      paths: map<string, Path>, p: Path)
    requires NoPlaceIs(fs.dirs, dir, names, p)
    ensures SameFile(StoreComponents(aead, dir, names, manifest, kek, fs, data, paths).0, fs, p)
    ensures StoreComponents(aead, dir, names, manifest, kek, fs, data, paths).0.dirs == fs.dirs
    decreases |names|
  {
    if names != [] {
      var d := StoreComponent(aead, dir, names[0], manifest, kek, fs, data);
      StoreComponentDelivers(aead, dir, names[0], manifest, kek, fs, data);
      if Place(fs.dirs, dir, names[0]) == Some(p) {
        assert Reachable(fs.dirs, dir, names, 0);
      }
      if d.place.Some? {
        forall i | 0 <= i < |names[1..]| && Reachable(fs.dirs, dir, names[1..], i)
          ensures Place(fs.dirs, dir, names[1..][i]) != Some(p)
        {
          ReachableCons(fs.dirs, dir, names, i);
        }
        OnlyPlacesAreTouched(
          aead, dir, names[1..], manifest, kek, d.fs, d.rest, paths[names[0] := d.place.value], p);
      }
    }
  }

  // Every name up to and including the i-th leads to a place.
  ghost predicate Reachable(dirs: set<Path>, dir: Path, names: seq<string>, i: nat) {
    i < |names| && forall j | 0 <= j <= i :: Place(dirs, dir, names[j]).Some?
  }

  lemma ReachableCons(dirs: set<Path>, dir: Path, names: seq<string>, i: nat)
    requires names != [] && Place(dirs, dir, names[0]).Some? && Reachable(dirs, dir, names[1..], i)
    ensures Reachable(dirs, dir, names, i + 1) && names[i + 1] == names[1..][i]
  {
    forall j | 0 <= j <= i + 1 ensures Place(dirs, dir, names[j]).Some? {
      if j > 0 {
        assert names[j] == names[1..][j - 1];
      }
    }
  }

  lemma ReachableTail(dirs: set<Path>, dir: Path, names: seq<string>, i: nat)
    requires i > 0 && Reachable(dirs, dir, names, i)
    ensures Reachable(dirs, dir, names[1..], i - 1) && names[i] == names[1..][i - 1]
  {
    forall j | 0 <= j <= i - 1 ensures Place(dirs, dir, names[1..][j]).Some? {
      assert names[1..][j] == names[j + 1];
    }
  }

  // Every place the reader can get to lies below the directory.
  ghost predicate StaysInside(dirs: set<Path>, dir: Path, names: seq<string>) {
    forall i | 0 <= i < |names| && Reachable(dirs, dir, names, i) :: dir < Place(dirs, dir, names[i]).value
  }

  ghost predicate UntouchedOutside(after: Fs, before: Fs, dir: Path) {
    forall p | !(dir < p) :: SameFile(after, before, p)
  }

  // The same for a whole artifact.
  lemma DecryptTouchesOnlyPlaces(json: HeaderJson, aead: Aead, data: Bytes, fs: Fs, dir: Path, p: Path)
    requires ReadHeader(json, data).Some? && ReadHeader(json, data).value.components != [] ==>
               NoPlaceIs(Parents(fs.dirs, dir), dir, ReadHeader(json, data).value.components[1..], p)
    ensures SameFile(DecryptToDisk(json, aead, data, fs, dir).0, fs, p)
  {
    if AcceptedHeader(json, data).Some? && MakeDir(fs, dir).Some? {
      var header, made := AcceptedHeader(json, data).value, MakeDir(fs, dir).value;
      if OpenManifest(json, aead, header, data).Some? {
        var first := OpenManifest(json, aead, header, data).value;
        DecryptStores(json, aead, data, fs, dir, header, first);
        OnlyPlacesAreTouched(
          aead, dir, header.components[1..], first.plain, header.kek, made, first.rest, map[], p);
      }
    }
  }

  ghost predicate NoPlaceIs(dirs: set<Path>, dir: Path, names: seq<string>, p: Path) {
    forall i | 0 <= i < |names| && Reachable(dirs, dir, names, i) :: Place(dirs, dir, names[i]) != Some(p)
  }

  lemma InsideIsUntouchedOutside(json: HeaderJson, aead: Aead, data: Bytes, fs: Fs, dir: Path)
    requires ReadHeader(json, data).Some? && ReadHeader(json, data).value.components != [] ==>
               StaysInside(Parents(fs.dirs, dir), dir, ReadHeader(json, data).value.components[1..])
    ensures UntouchedOutside(DecryptToDisk(json, aead, data, fs, dir).0, fs, dir)
  {
    var fs' := DecryptToDisk(json, aead, data, fs, dir).0;
    forall p | !(dir < p) ensures SameFile(fs', fs, p) {
      DecryptTouchesOnlyPlaces(json, aead, data, fs, dir, p);
    }
  }

  // ---- Artifacts of empty components ---------------------------------------------------------

  // n components with a chunk count of zero. Nothing in them is sealed.
  function Hollow(n: nat): Bytes {
    if n == 0 then [] else HollowComponent() + Hollow(n - 1)
  }

  function HollowComponent(): Bytes {
    seq(NONCE_BYTES, i => 0) + PackU32(0)
  }

  lemma HollowOpens(aead: Aead, name: string, manifest: Bytes, kek: string, rest: Bytes)
    ensures OpenComponent(aead, name, manifest, kek, HollowComponent() + rest) == Some(Opened([], rest))
  {
    ZeroCountIsAccepted(aead, name, manifest, kek, seq(NONCE_BYTES, i => 0), rest);
  }

  // Reading such components empties one named place after the other.
  lemma HollowStep(
      aead: Aead, dir: Path, names: seq<string>, manifest: Bytes, kek: string, fs: Fs, paths: map<string, Path>)
    requires names != []
    ensures var place := Place(fs.dirs, dir, names[0]);
            StoreComponents(aead, dir, names, manifest, kek, fs, Hollow(|names|), paths) ==
              if place.None? then (fs, None)
              else StoreComponents(aead, dir, names[1..], manifest, kek, WithFile(fs, place.value, []),
                                   Hollow(|names[1..]|), paths[names[0] := place.value])
  {
    var rest := Hollow(|names| - 1);
    assert Hollow(|names|) == HollowComponent() + rest;
    HollowIsStored(aead, dir, names[0], manifest, kek, fs, rest);
  }

  lemma HollowIsStored(
      aead: Aead, dir: Path, name: string, manifest: Bytes, kek: string, fs: Fs, rest: Bytes)
    ensures var place := Place(fs.dirs, dir, name);
            StoreComponent(aead, dir, name, manifest, kek, fs, HollowComponent() + rest) ==
              if place.None? then Delivery(fs, None, [])
              else Delivery(WithFile(fs, place.value, []), place, rest)
  {
    HollowOpens(aead, name, manifest, kek, rest);
    StoreComponentDelivers(aead, dir, name, manifest, kek, fs, HollowComponent() + rest);
  }

  ghost predicate IsEmptied(fs: Fs, p: Path) {
    p in fs.files && fs.files[p] == []
  }

  lemma {:induction false} HollowEmptiesPlaces(
      aead: Aead, dir: Path, names: seq<string>, manifest: Bytes, kek: string, fs: Fs,
      paths: map<string, Path>, i: nat)
    requires Reachable(fs.dirs, dir, names, i)
    ensures IsEmptied(StoreComponents(aead, dir, names, manifest, kek, fs, Hollow(|names|), paths).0,
                      Place(fs.dirs, dir, names[i]).value)
    decreases |names|
  {
    assert Place(fs.dirs, dir, names[0]).Some?;
    var p := Place(fs.dirs, dir, names[0]).value;
    HollowStep(aead, dir, names, manifest, kek, fs, paths);
    if i > 0 {
      ReachableTail(fs.dirs, dir, names, i);
      HollowEmptiesPlaces(
        aead, dir, names[1..], manifest, kek, WithFile(fs, p, []), paths[names[0] := p], i - 1);
    } else {
      HollowKeepsEmpty(aead, dir, names[1..], manifest, kek, WithFile(fs, p, []), paths[names[0] := p], p);
    }
  }

  lemma {:induction false} HollowKeepsEmpty(
      aead: Aead, dir: Path, names: seq<string>, manifest: Bytes, kek: string, fs: Fs,
      paths: map<string, Path>, p: Path)
    requires IsEmptied(fs, p)
    ensures IsEmptied(StoreComponents(aead, dir, names, manifest, kek, fs, Hollow(|names|), paths).0, p)
    decreases |names|
  {
    if names != [] {
      HollowStep(aead, dir, names, manifest, kek, fs, paths);
      var place := Place(fs.dirs, dir, names[0]);
      if place.Some? {
        HollowKeepsEmpty(
          aead, dir, names[1..], manifest, kek, WithFile(fs, place.value, []),
          paths[names[0] := place.value], p);
      }
    }
  }

  // An artifact with this header and nothing in its components.
  function HollowArtifact(json: HeaderJson, header: Header): Bytes
    requires |json.dumps(header)| < U32_LIMIT
  {
    MAGIC + PackU32(|json.dumps(header)|) + json.dumps(header) + Hollow(|header.components|)
  }

  // A header as the reader accepts it.
  ghost predicate Readable(json: HeaderJson, header: Header) {
    && json.loads(json.dumps(header)) == Some(header) && |json.dumps(header)| < U32_LIMIT
    && header.formatVersion == FORMAT_VERSION && header.aead == ALGORITHM
    && header.components != [] && header.components[0] == MANIFEST
  }

  lemma HollowArtifactIsRead(json: HeaderJson, aead: Aead, header: Header)
    requires Readable(json, header)
    ensures var data := HollowArtifact(json, header);
            && ReadHeader(json, data) == Some(header)
            && OpenManifest(json, aead, header, data) == Some(Opened([], Hollow(|header.components| - 1)))
  {
    HeaderLandsOnFirstComponent(json, header, Hollow(|header.components|));
    HollowOpens(aead, MANIFEST, [], header.kek, Hollow(|header.components| - 1));
  }

  lemma HollowArtifactEmptiesPlaces(
      json: HeaderJson, aead: Aead, header: Header, fs: Fs, dir: Path, i: nat)
    requires Readable(json, header) && MakeDir(fs, dir).Some?
    requires Reachable(Parents(fs.dirs, dir), dir, header.components[1..], i)
    ensures ReadHeader(json, HollowArtifact(json, header)) == Some(header)
    ensures IsEmptied(DecryptToDisk(json, aead, HollowArtifact(json, header), fs, dir).0,
                      Place(Parents(fs.dirs, dir), dir, header.components[1..][i]).value)
  {
    var names, made := header.components[1..], MakeDir(fs, dir).value;
    HollowArtifactIsRead(json, aead, header);
    DecryptStores(json, aead, HollowArtifact(json, header), fs, dir, header, Opened([], Hollow(|names|)));
    HollowEmptiesPlaces(aead, dir, names, [], header.kek, made, map[], i);
  }

  // Decrypting leaves every file outside the plaintext directory alone, for all bytes with
  // this header and all files on the disk, exactly when every place its names lead to lies
  // inside. No key is needed for the failing bytes.
  lemma UntouchedExactlyWhenInside(
      json: HeaderJson, aead: Aead, header: Header, dirs: set<Path>, dir: Path)
    requires Readable(json, header)
    ensures (forall data: Bytes, fs: Fs | fs.dirs == dirs && ReadHeader(json, data) == Some(header) ::
               UntouchedOutside(DecryptToDisk(json, aead, data, fs, dir).0, fs, dir))
            <==> StaysInside(Parents(dirs, dir), dir, header.components[1..])
  {
    var names := header.components[1..];
    if StaysInside(Parents(dirs, dir), dir, names) {
      forall data: Bytes, fs: Fs | fs.dirs == dirs && ReadHeader(json, data) == Some(header)
        ensures UntouchedOutside(DecryptToDisk(json, aead, data, fs, dir).0, fs, dir)
      {
        InsideIsUntouchedOutside(json, aead, data, fs, dir);
      }
    } else {
      var i :| 0 <= i < |names| && Reachable(Parents(dirs, dir), dir, names, i) &&
               !(dir < Place(Parents(dirs, dir), dir, names[i]).value);
      var fs, data := Fs(map[], dirs), HollowArtifact(json, header);
      HollowArtifactEmptiesPlaces(json, aead, header, fs, dir, i);
      var p := Place(Parents(dirs, dir), dir, names[i]).value;
      assert !SameFile(DecryptToDisk(json, aead, data, fs, dir).0, fs, p);
      assert !UntouchedOutside(DecryptToDisk(json, aead, data, fs, dir).0, fs, dir);
    }
  }

  // Distinct plain names stay inside.
  lemma PlainNamesStayInside(dirs: set<Path>, dir: Path, names: seq<string>)
    requires dir in dirs && forall i | 0 <= i < |names| :: IsPlain(names[i])
    ensures StaysInside(dirs, dir, names)
  {
    forall i | 0 <= i < |names| && Reachable(dirs, dir, names, i)
      ensures dir < Place(dirs, dir, names[i]).value
    {
      PlainPlace(dirs, dir, names[i]);
    }
  }

  // ---- Files and names ------------------------------------------------------------------------

  // Whether a component of this name can hold anything: its label has to be ASCII.
  predicate CanCarry(kek: string, name: string) {
    Ascii(if name == MANIFEST then kek else name).Some?
  }

  lemma MuteComponentIsEmpty(aead: Aead, name: string, manifest: Bytes, kek: string, data: Bytes)
    requires !CanCarry(kek, name) && OpenComponent(aead, name, manifest, kek, data).Some?
    ensures OpenComponent(aead, name, manifest, kek, data).value.plain == []
  {
  }

  // Every name leads to a place, and different names to different ones, unless neither of
  // them can hold anything.
  ghost predicate Separate(dirs: set<Path>, dir: Path, kek: string, names: set<string>) {
    && (forall n | n in names :: Place(dirs, dir, n).Some?)
    && (forall m, n | m in names && n in names && m != n && Place(dirs, dir, m) == Place(dirs, dir, n) ::
          !CanCarry(kek, m) && !CanCarry(kek, n))
  }

  // What the reader keeps per name agrees with what it left in the files.
  ghost predicate Agrees(
      dirs: set<Path>, dir: Path, kek: string, fs: Fs, paths: map<string, Path>, done: map<string, Bytes>)
  {
    && fs.dirs == dirs && paths.Keys == done.Keys
    && (forall n | n in paths ::
          Place(dirs, dir, n) == Some(paths[n]) && paths[n] in fs.files && fs.files[paths[n]] == done[n])
    && forall n | n in done && !CanCarry(kek, n) :: done[n] == []
  }

  lemma {:induction false} StoreComponentsAgrees(
      aead: Aead, dirs: set<Path>, dir: Path, names: seq<string>, manifest: Bytes, kek: string,
      fs: Fs, data: Bytes, paths: map<string, Path>, done: map<string, Bytes>, all: set<string>)
    requires Separate(dirs, dir, kek, all) && paths.Keys <= all && forall n | n in names :: n in all
    requires Agrees(dirs, dir, kek, fs, paths, done)
    ensures var (fs', paths') := StoreComponents(aead, dir, names, manifest, kek, fs, data, paths);
            var result := OpenComponents(aead, names, manifest, kek, data, done);
            && (paths'.Some? <==> result.Some?)
            && (paths'.Some? ==> Agrees(dirs, dir, kek, fs', paths'.value, result.value))
    decreases |names|
  {
    if names != [] {
      var name := names[0];
      var d := StoreComponent(aead, dir, name, manifest, kek, fs, data);
      StoreComponentDelivers(aead, dir, name, manifest, kek, fs, data);
      assert name in all && Place(dirs, dir, name).Some?;
      if d.place.Some? {
        var first := OpenComponent(aead, name, manifest, kek, data).value;
        if !CanCarry(kek, name) {
          MuteComponentIsEmpty(aead, name, manifest, kek, data);
        }
        DeliveryAgrees(dirs, dir, kek, fs, d.fs, paths, done, all, name, d.place.value, first.plain);
        StoreComponentsAgrees(
          aead, dirs, dir, names[1..], manifest, kek, d.fs, d.rest,
          paths[name := d.place.value], done[name := first.plain], all);
      }
    }
  }

  lemma DeliveryAgrees(
      dirs: set<Path>, dir: Path, kek: string, fs: Fs, fs': Fs, paths: map<string, Path>,
      done: map<string, Bytes>, all: set<string>, name: string, p: Path, plain: Bytes)
    requires Separate(dirs, dir, kek, all) && paths.Keys <= all && name in all
    requires Agrees(dirs, dir, kek, fs, paths, done) && Place(dirs, dir, name) == Some(p)
    requires fs'.dirs == fs.dirs && fs'.files == fs.files[p := plain]
    requires !CanCarry(kek, name) ==> plain == []
    ensures Agrees(dirs, dir, kek, fs', paths[name := p], done[name := plain])
  {
  }

  // Reading into files and reading by name accept the same and find the same.
  ghost predicate DiskAgrees(json: HeaderJson, aead: Aead, data: Bytes, fs: Fs, dir: Path) {
    var (fs', stored) := DecryptToDisk(json, aead, data, fs, dir);
    DecryptArtifact(json, aead, data) == if stored.Some? then Some(Found(fs', stored.value)) else None
  }

  // With separate places the files hold exactly what a reader that keeps the components by
  // name would return, and one accepts what the other does.
  lemma DiskAgreesWithNames(json: HeaderJson, aead: Aead, data: Bytes, fs: Fs, dir: Path)
    requires MakeDir(fs, dir).Some?
    requires ReadHeader(json, data).Some? && ReadHeader(json, data).value.components != [] ==>
               Separate(Parents(fs.dirs, dir), dir, ReadHeader(json, data).value.kek,
                        Set(ReadHeader(json, data).value.components[1..]))
    ensures DiskAgrees(json, aead, data, fs, dir)
  {
    DecryptsByTheSameSteps(json, aead, data);
    if AcceptedHeader(json, data).Some? {
      var header := AcceptedHeader(json, data).value;
      if OpenManifest(json, aead, header, data).Some? {
        var first := OpenManifest(json, aead, header, data).value;
        DecryptStores(json, aead, data, fs, dir, header, first);
        StoreDataAgrees(aead, header, first, MakeDir(fs, dir).value, dir);
      }
    }
  }

  lemma StoreDataAgrees(aead: Aead, header: Header, first: Opened, fs: Fs, dir: Path)
    requires header.components != [] && Separate(fs.dirs, dir, header.kek, Set(header.components[1..]))
    ensures var (fs', paths) := StoreData(aead, dir, header, first, fs);
            var done := OpenComponents(aead, header.components[1..], first.plain, header.kek, first.rest, map[]);
            if paths.Some? then done == Some(FileContents(fs', paths.value)) else done == None
  {
    var names := header.components[1..];
    StoreComponentsAgrees(
      aead, fs.dirs, dir, names, first.plain, header.kek, fs, first.rest, map[], map[], Set(names));
    var (fs', paths) := StoreData(aead, dir, header, first, fs);
    if paths.Some? {
      var done := OpenComponents(aead, names, first.plain, header.kek, first.rest, map[]);
      assert FileContents(fs', paths.value) == done.value;
    }
  }

  function Set(names: seq<string>): (s: set<string>) {
    set n | n in names
  }

  // Plain names have separate places, unless directories of these names exist.
  lemma PlainNamesAreSeparate(dirs: set<Path>, dir: Path, kek: string, names: set<string>)
    requires dir in dirs && forall n | n in names :: IsPlain(n) && dir + [n] !in dirs
    ensures Separate(dirs, dir, kek, names)
  {
    forall n | n in names ensures Place(dirs, dir, n) == Some(dir + [n]) {
      PlainPlace(dirs, dir, n);
    }
    forall m, n | m in names && n in names && m != n ensures dir + [m] != dir + [n] {
      assert (dir + [m])[|dir|] == m && (dir + [n])[|dir|] == n;
    }
  }

  // Whatever the names are, what the disk reader accepts opens; the manifest is never on
  // the disk.
  lemma {:induction false} StoredComponentsOpened(
      aead: Aead, dir: Path, names: seq<string>, manifest: Bytes, kek: string, fs: Fs, data: Bytes,
      paths: map<string, Path>, done: map<string, Bytes>)
    requires StoreComponents(aead, dir, names, manifest, kek, fs, data, paths).1.Some?
    ensures OpenComponents(aead, names, manifest, kek, data, done).Some?
    decreases |names|
  {
    if names != [] {
      var d := StoreComponent(aead, dir, names[0], manifest, kek, fs, data);
      StoreComponentDelivers(aead, dir, names[0], manifest, kek, fs, data);
      var first := OpenComponent(aead, names[0], manifest, kek, data).value;
      StoredComponentsOpened(
        aead, dir, names[1..], manifest, kek, d.fs, d.rest, paths[names[0] := d.place.value],
        done[names[0] := first.plain]);
    }
  }

  lemma StoredWasDecrypted(
      json: HeaderJson, aead: Aead, data: Bytes, fs: Fs, dir: Path, fs': Fs, stored: Stored)
    requires DecryptToDisk(json, aead, data, fs, dir) == (fs', Some(stored))
    ensures var d := DecryptArtifact(json, aead, data);
            d.Some? && d.value.header == stored.header && d.value.manifest == stored.manifest
  {
    StoredComesFrom(json, aead, data, fs, dir, fs', stored);
    DecryptsByTheSameSteps(json, aead, data);
    var header := stored.header;
    var first := OpenManifest(json, aead, header, data).value;
    StoredComponentsOpened(
      aead, dir, header.components[1..], first.plain, header.kek, MakeDir(fs, dir).value, first.rest, map[], map[]);
  }

  // Every path kept for a name is its place, and there is a file.
  ghost predicate AtPlaces(dirs: set<Path>, dir: Path, fs: Fs, paths: map<string, Path>) {
    forall n | n in paths :: Place(dirs, dir, n) == Some(paths[n]) && paths[n] in fs.files
  }

  lemma {:induction false} PathsArePlaces(
      aead: Aead, dir: Path, names: seq<string>, manifest: Bytes, kek: string, fs: Fs, data: Bytes,
      paths: map<string, Path>)
    requires AtPlaces(fs.dirs, dir, fs, paths)
    ensures var (fs', paths') := StoreComponents(aead, dir, names, manifest, kek, fs, data, paths);
            paths'.Some? ==> AtPlaces(fs.dirs, dir, fs', paths'.value)
    decreases |names|
  {
    if names != [] {
      var d := StoreComponent(aead, dir, names[0], manifest, kek, fs, data);
      StoreComponentDelivers(aead, dir, names[0], manifest, kek, fs, data);
      if d.place.Some? {
        PathsArePlaces(
          aead, dir, names[1..], manifest, kek, d.fs, d.rest, paths[names[0] := d.place.value]);
      }
    }
  }

  lemma PlacesOfStored(
      json: HeaderJson, aead: Aead, data: Bytes, fs: Fs, dir: Path, fs': Fs, stored: Stored)
    requires DecryptToDisk(json, aead, data, fs, dir) == (fs', Some(stored))
    ensures AtPlaces(Parents(fs.dirs, dir), dir, fs', stored.paths)
  {
    StoredComesFrom(json, aead, data, fs, dir, fs', stored);
    var header, made := stored.header, MakeDir(fs, dir).value;
    var first := OpenManifest(json, aead, header, data).value;
    PathsArePlaces(aead, dir, header.components[1..], first.plain, header.kek, made, first.rest, map[]);
  }

  lemma FoundAtPlainPlace(dirs: set<Path>, dir: Path, fs: Fs, paths: map<string, Path>, n: string)
    requires AtPlaces(dirs, dir, fs, paths) && n in paths && IsPlain(n) && dir in dirs
    ensures dir + [n] in fs.files && fs.files[dir + [n]] == FileContents(fs, paths)[n]
  {
    PlainPlace(dirs, dir, n);
  }

  lemma GenuineNamesArePlain(backup: Backup, dirs: set<Path>, dir: Path)
    requires forall c | c in backup.components :: IsPlain(c.name) && dir + [c.name] !in dirs
    ensures var names := backup.HeaderOf().components[1..];
            && (forall n | n in Set(names) :: IsPlain(n) && dir + [n] !in dirs)
            && (forall i | 0 <= i < |names| :: IsPlain(names[i]))
  {
    var names := backup.HeaderOf().components[1..];
    assert names == Names(backup.components);
    forall i | 0 <= i < |names| ensures IsPlain(names[i]) && dir + [names[i]] !in dirs {
      assert backup.components[i] in backup.components;
    }
  }

  // With plain names that are not those of directories, files and names agree and nothing
  // outside is touched.
  lemma PlainNamesAreSafe(json: HeaderJson, aead: Aead, data: Bytes, fs: Fs, dir: Path, names: seq<string>)
    requires ReadHeader(json, data).Some? && ReadHeader(json, data).value.components != []
    requires names == ReadHeader(json, data).value.components[1..] && MakeDir(fs, dir).Some?
    requires forall n | n in Set(names) :: IsPlain(n) && dir + [n] !in Parents(fs.dirs, dir)
    ensures UntouchedOutside(DecryptToDisk(json, aead, data, fs, dir).0, fs, dir)
    ensures DiskAgrees(json, aead, data, fs, dir)
  {
    var dirs := Parents(fs.dirs, dir);
    assert dir == dir[..|dir|] && dir in dirs;
    PlainNamesAreSeparate(dirs, dir, ReadHeader(json, data).value.kek, Set(names));
    DiskAgreesWithNames(json, aead, data, fs, dir);
    assert forall i | 0 <= i < |names| :: names[i] in Set(names);
    PlainNamesStayInside(dirs, dir, names);
    InsideIsUntouchedOutside(json, aead, data, fs, dir);
  }

  // A written artifact with plain names ends up, component by component, in the files of
  // the plaintext directory.
  lemma RoundTripOnDisk(
      json: HeaderJson, aead: Aead, backup: Backup, data: Bytes, fs: Fs, dir: Path, fs': Fs, r: Option<Stored>)
    requires backup.Valid() && backup.DistinctNames() && Opens(aead, SealedLog(backup))
    requires json.loads(json.dumps(backup.HeaderOf())) == Some(backup.HeaderOf())
    requires WriteArtifact(json, aead, backup) == Some(data) && MakeDir(fs, dir).Some?
    requires forall c | c in backup.components :: IsPlain(c.name) && dir + [c.name] !in Parents(fs.dirs, dir)
    requires DecryptToDisk(json, aead, data, fs, dir) == (fs', r)
    ensures r.Some? && r.value.manifest == backup.manifest && UntouchedOutside(fs', fs, dir)
    ensures forall c | c in backup.components ::
              dir + [c.name] in fs'.files && fs'.files[dir + [c.name]] == c.content
  {
    GenuineIsFound(json, aead, backup, data, fs, dir, fs', r);
    var dirs := Parents(fs.dirs, dir);
    assert AtPlaces(dirs, dir, fs', r.value.paths) by {
      PlacesOfStored(json, aead, data, fs, dir, fs', r.value);
    }
    assert dir == dir[..|dir|];
    forall c | c in backup.components
      ensures dir + [c.name] in fs'.files && fs'.files[dir + [c.name]] == c.content
    {
      ComponentIsFound(json, aead, backup, data, dirs, dir, fs', r.value, c);
    }
  }

  // And these files are all it adds to the disk.
  lemma GenuineAddsItsFiles(
      json: HeaderJson, aead: Aead, backup: Backup, data: Bytes, fs: Fs, dir: Path, fs': Fs, r: Option<Stored>,
      p: Path)
    requires backup.Valid() && backup.DistinctNames() && Opens(aead, SealedLog(backup))
    requires json.loads(json.dumps(backup.HeaderOf())) == Some(backup.HeaderOf())
    requires WriteArtifact(json, aead, backup) == Some(data) && MakeDir(fs, dir).Some?
    requires forall c | c in backup.components :: IsPlain(c.name) && dir + [c.name] !in Parents(fs.dirs, dir)
    requires DecryptToDisk(json, aead, data, fs, dir) == (fs', r)
    ensures fs'.dirs == Parents(fs.dirs, dir)
    ensures p in fs'.files <==> p in fs.files || exists c :: c in backup.components && p == dir + [c.name]
  {
    RoundTripOnDisk(json, aead, backup, data, fs, dir, fs', r);
    StoredKeepsDirs(json, aead, data, fs, dir, fs', r.value);
    if forall c | c in backup.components :: p != dir + [c.name] {
      GenuinePlaces(backup, Parents(fs.dirs, dir), dir, p);
      assert ReadHeader(json, data) == Some(backup.HeaderOf()) by {
        RoundTrip(json, aead, backup);
      }
      DecryptTouchesOnlyPlaces(json, aead, data, fs, dir, p);
    } else {
      GenuineNeverRemoves(json, aead, backup, data, fs, dir, fs', r, p);
    }
  }

  lemma GenuineNeverRemoves(
      json: HeaderJson, aead: Aead, backup: Backup, data: Bytes, fs: Fs, dir: Path, fs': Fs, r: Option<Stored>,
      p: Path)
    requires backup.Valid() && backup.DistinctNames() && Opens(aead, SealedLog(backup))
    requires json.loads(json.dumps(backup.HeaderOf())) == Some(backup.HeaderOf())
    requires WriteArtifact(json, aead, backup) == Some(data) && MakeDir(fs, dir).Some?
    requires forall c | c in backup.components :: IsPlain(c.name) && dir + [c.name] !in Parents(fs.dirs, dir)
    requires DecryptToDisk(json, aead, data, fs, dir) == (fs', r)
    requires exists c :: c in backup.components && p == dir + [c.name]
    ensures p in fs'.files
  {
    RoundTripOnDisk(json, aead, backup, data, fs, dir, fs', r);
  }

  lemma GenuinePlaces(backup: Backup, dirs: set<Path>, dir: Path, p: Path)
    requires dir in dirs && forall c | c in backup.components :: IsPlain(c.name) && p != dir + [c.name]
    ensures NoPlaceIs(dirs, dir, backup.HeaderOf().components[1..], p)
  {
    var names := backup.HeaderOf().components[1..];
    assert names == Names(backup.components);
    forall i | 0 <= i < |names| ensures Place(dirs, dir, names[i]) != Some(p) {
      assert backup.components[i] in backup.components;
      PlainPlace(dirs, dir, names[i]);
    }
  }

  lemma StoredKeepsDirs(
      json: HeaderJson, aead: Aead, data: Bytes, fs: Fs, dir: Path, fs': Fs, stored: Stored)
    requires DecryptToDisk(json, aead, data, fs, dir) == (fs', Some(stored))
    ensures fs'.dirs == Parents(fs.dirs, dir) && dir in fs'.dirs
  {
    StoredComesFrom(json, aead, data, fs, dir, fs', stored);
    var first := OpenManifest(json, aead, stored.header, data).value;
    DirsAreKept(aead, dir, stored.header.components[1..], first.plain, stored.header.kek,
                MakeDir(fs, dir).value, first.rest, map[]);
    assert dir == dir[..|dir|];
  }

  lemma {:induction false} DirsAreKept(
      aead: Aead, dir: Path, names: seq<string>, manifest: Bytes, kek: string, fs: Fs, data: Bytes,
      paths: map<string, Path>)
    ensures StoreComponents(aead, dir, names, manifest, kek, fs, data, paths).0.dirs == fs.dirs
    decreases |names|
  {
    if names != [] {
      var d := StoreComponent(aead, dir, names[0], manifest, kek, fs, data);
      StoreComponentDelivers(aead, dir, names[0], manifest, kek, fs, data);
      if d.place.Some? {
        DirsAreKept(
          aead, dir, names[1..], manifest, kek, d.fs, d.rest, paths[names[0] := d.place.value]);
      }
    }
  }

  lemma GenuineIsFound(
      json: HeaderJson, aead: Aead, backup: Backup, data: Bytes, fs: Fs, dir: Path, fs': Fs, r: Option<Stored>)
    requires backup.Valid() && backup.DistinctNames() && Opens(aead, SealedLog(backup))
    requires json.loads(json.dumps(backup.HeaderOf())) == Some(backup.HeaderOf())
    requires WriteArtifact(json, aead, backup) == Some(data) && MakeDir(fs, dir).Some?
    requires forall c | c in backup.components :: IsPlain(c.name) && dir + [c.name] !in Parents(fs.dirs, dir)
    requires DecryptToDisk(json, aead, data, fs, dir) == (fs', r)
    ensures r.Some? && r.value.manifest == backup.manifest && UntouchedOutside(fs', fs, dir)
    ensures DecryptArtifact(json, aead, data) == Some(Found(fs', r.value))
  {
    var d := DecryptArtifact(json, aead, data);
    assert d.Some? && d.value.header == backup.HeaderOf() && d.value.manifest == backup.manifest by {
      RoundTrip(json, aead, backup);
    }
    assert ReadHeader(json, data) == Some(backup.HeaderOf());
    GenuineNamesArePlain(backup, Parents(fs.dirs, dir), dir);
    PlainNamesAreSafe(json, aead, data, fs, dir, backup.HeaderOf().components[1..]);
  }

  lemma ComponentIsFound(
      json: HeaderJson, aead: Aead, backup: Backup, data: Bytes, dirs: set<Path>, dir: Path, fs: Fs,
      stored: Stored, c: Component)
    requires backup.Valid() && backup.DistinctNames() && Opens(aead, SealedLog(backup)) && c in backup.components
    requires json.loads(json.dumps(backup.HeaderOf())) == Some(backup.HeaderOf())
    requires WriteArtifact(json, aead, backup) == Some(data)
    requires DecryptArtifact(json, aead, data) == Some(Found(fs, stored))
    requires AtPlaces(dirs, dir, fs, stored.paths) && IsPlain(c.name) && dir in dirs
    ensures dir + [c.name] in fs.files && fs.files[dir + [c.name]] == c.content
  {
    assert c.name in Found(fs, stored).components && Found(fs, stored).components[c.name] == c.content by {
      RoundTrip(json, aead, backup);
      assert c.name in set e | e in backup.components :: e.name;
    }
    FoundAtPlainPlace(dirs, dir, fs, stored.paths, c.name);
  }

  // ---- A name too many -----------------------------------------------------------------------

  // The header of a backup with one more name.
  function ExtendedHeader(backup: Backup, name: string): Header {
    backup.HeaderOf().(components := backup.HeaderOf().components + [name])
  }

  lemma ExtendedNames(backup: Backup, name: string)
    ensures var header := ExtendedHeader(backup, name);
            && header.components != [] && header.components[0] == MANIFEST
            && header.components[1..] == Names(backup.components) + [name]
  {
    AppendAssociates([MANIFEST], Names(backup.components), [name]);
    Regroup([MANIFEST], [MANIFEST] + (Names(backup.components) + [name]), []);
  }

  function SealedBody(aead: Aead, backup: Backup): Option<Bytes>
    requires backup.Valid()
  {
    var b := Binding(MANIFEST, backup.manifest, backup.kek, backup.manifestBase);
    match SealComponent(aead, b, backup.manifest, backup.chunkMax)
    case None => None
    case Some(first) => Prepend(first, SealComponents(aead, backup, backup.components))
  }

  function Extended(json: HeaderJson, aead: Aead, backup: Backup, name: string): Bytes
    requires backup.Valid() && SealedBody(aead, backup).Some?
    requires |json.dumps(ExtendedHeader(backup, name))| < U32_LIMIT
  {
    var text := json.dumps(ExtendedHeader(backup, name));
    MAGIC + PackU32(|text|) + text + (SealedBody(aead, backup).value + Hollow(1))
  }

  // Bytes that read as the artifact of this backup with one more name and an empty
  // component at the end: everything that is authenticated is genuine.
  ghost predicate AddsName(json: HeaderJson, aead: Aead, backup: Backup, name: string, data: Bytes)
    requires backup.Valid()
  {
    && AcceptedHeader(json, data) == Some(ExtendedHeader(backup, name))
    && SealComponents(aead, backup, backup.components).Some?
    && OpenManifest(json, aead, ExtendedHeader(backup, name), data) == Some(Opened(
         backup.manifest, SealComponents(aead, backup, backup.components).value + Hollow(1)))
  }

  // There are such bytes, and the key is not needed to make them from the artifact.
  lemma ExtendedAddsName(json: HeaderJson, aead: Aead, backup: Backup, name: string)
    requires backup.Valid() && Opens(aead, SealedLog(backup)) && SealedBody(aead, backup).Some?
    requires Readable(json, ExtendedHeader(backup, name))
    ensures AddsName(json, aead, backup, name, Extended(json, aead, backup, name))
  {
    var header := ExtendedHeader(backup, name);
    var b := Binding(MANIFEST, backup.manifest, backup.kek, backup.manifestBase);
    var first := SealComponent(aead, b, backup.manifest, backup.chunkMax).value;
    var others := SealComponents(aead, backup, backup.components).value;
    SealedLogOpens(aead, backup);
    AppendAssociates(first, others, Hollow(1));
    HeaderLandsOnFirstComponent(json, header, first + (others + Hollow(1)));
    OpenInvertsSealComponent(aead, b, backup.manifest, backup.chunkMax, others + Hollow(1));
    ManifestOpensUnbound(aead, backup.manifest, backup.kek, first + (others + Hollow(1)));
  }

  // Genuine components are all delivered, as long as their names lead to places.
  lemma {:induction false} GenuineIsStored(
      aead: Aead, backup: Backup, components: seq<Component>, dir: Path, fs: Fs, paths: map<string, Path>,
      more: seq<string>, tail: Bytes)
    returns (fs': Fs, paths': map<string, Path>)
    requires backup.chunkMax > 0
    requires forall i | 0 <= i < |components| :: |components[i].base| == NONCE_BYTES
    requires OpensComponents(aead, backup, components) && SealComponents(aead, backup, components).Some?
    requires forall i | 0 <= i < |components| :: Place(fs.dirs, dir, components[i].name).Some?
    ensures fs'.dirs == fs.dirs
    ensures StoreComponents(aead, dir, Names(components) + more, backup.manifest, backup.kek, fs,
                            SealComponents(aead, backup, components).value + tail, paths)
         == StoreComponents(aead, dir, more, backup.manifest, backup.kek, fs', tail, paths')
    decreases |components|
  {
    if components == [] {
      assert Names(components) + more == more && [] + tail == tail;
      fs', paths' := fs, paths;
    } else {
      var c := components[0];
      var p := Place(fs.dirs, dir, c.name).value;
      var made := WithFile(fs, p, c.content);
      assert Place(fs.dirs, dir, components[0].name).Some?;
      fs', paths' := GenuineIsStored(aead, backup, components[1..], dir, made, paths[c.name := p], more, tail);
      GenuineStep(aead, backup, components, dir, fs, paths, more, tail);
    }
  }

  lemma GenuineStep(
      aead: Aead, backup: Backup, components: seq<Component>, dir: Path, fs: Fs, paths: map<string, Path>,
      more: seq<string>, tail: Bytes)
    requires backup.chunkMax > 0 && components != []
    requires forall i | 0 <= i < |components| :: |components[i].base| == NONCE_BYTES
    requires OpensComponents(aead, backup, components)
    requires SealComponents(aead, backup, components).Some? && Place(fs.dirs, dir, components[0].name).Some?
    ensures SealComponents(aead, backup, components[1..]).Some?
    ensures var c := components[0];
            var p := Place(fs.dirs, dir, c.name).value;
            (StoreComponents(aead, dir, Names(components) + more, backup.manifest, backup.kek, fs,
                             SealComponents(aead, backup, components).value + tail, paths)
             == StoreComponents(aead, dir, Names(components[1..]) + more, backup.manifest, backup.kek,
                                WithFile(fs, p, c.content),
                                SealComponents(aead, backup, components[1..]).value + tail, paths[c.name := p]))
  {
    var c, names := components[0], Names(components) + more;
    var b := Binding(c.name, backup.manifest, backup.kek, c.base);
    var first := SealComponent(aead, b, c.content, backup.chunkMax).value;
    var others := SealComponents(aead, backup, components[1..]).value;
    AppendAssociates(first, others, tail);
    assert names[0] == c.name && names[1..] == Names(components[1..]) + more;
    GenuineIsDelivered(aead, backup, c, dir, fs, others + tail);
  }

  lemma GenuineIsDelivered(aead: Aead, backup: Backup, c: Component, dir: Path, fs: Fs, tail: Bytes)
    requires backup.chunkMax > 0 && |c.base| == NONCE_BYTES
    requires OpensChunks(aead, BindingOf(backup, c), 0, Chunks(c.content, backup.chunkMax))
    requires SealComponent(aead, BindingOf(backup, c), c.content, backup.chunkMax).Some?
    requires Place(fs.dirs, dir, c.name).Some?
    ensures var b := Binding(c.name, backup.manifest, backup.kek, c.base);
            var place := Place(fs.dirs, dir, c.name);
            (StoreComponent(aead, dir, c.name, backup.manifest, backup.kek, fs,
                            SealComponent(aead, b, c.content, backup.chunkMax).value + tail)
             == Delivery(WithFile(fs, place.value, c.content), place, tail))
  {
    var b := Binding(c.name, backup.manifest, backup.kek, c.base);
    var data := SealComponent(aead, b, c.content, backup.chunkMax).value + tail;
    OpenInvertsSealComponent(aead, b, c.content, backup.chunkMax, tail);
    StoreComponentDelivers(aead, dir, c.name, backup.manifest, backup.kek, fs, data);
  }

  // Such an artifact is accepted, and whatever file the added name leads to has been
  // emptied, although everything returned by name is genuine.
  lemma AddedNameEmptiesItsPlace(
      json: HeaderJson, aead: Aead, backup: Backup, name: string, data: Bytes, fs: Fs, dir: Path,
      fs': Fs, r: Option<Stored>)
    requires backup.Valid() && Opens(aead, SealedLog(backup)) && AddsName(json, aead, backup, name, data)
    requires MakeDir(fs, dir).Some? && Place(Parents(fs.dirs, dir), dir, name).Some?
    requires forall c | c in backup.components :: Place(Parents(fs.dirs, dir), dir, c.name).Some?
    requires DecryptToDisk(json, aead, data, fs, dir) == (fs', r)
    ensures r.Some? && r.value.manifest == backup.manifest
    ensures IsEmptied(fs', Place(Parents(fs.dirs, dir), dir, name).value)
  {
    var header, made := ExtendedHeader(backup, name), MakeDir(fs, dir).value;
    var first := OpenManifest(json, aead, header, data).value;
    DecryptStores(json, aead, data, fs, dir, header, first);
    ExtendedNames(backup, name);
    AddedNameIsStored(aead, backup, name, made, dir);
  }

  // The added name may be the absolute name of any path.
  lemma AddedAbsoluteNameEmptiesPath(
      json: HeaderJson, aead: Aead, backup: Backup, p: Path, data: Bytes, fs: Fs, dir: Path,
      fs': Fs, r: Option<Stored>)
    requires backup.Valid() && Opens(aead, SealedLog(backup)) && MakeDir(fs, dir).Some?
    requires AddsName(json, aead, backup, AbsoluteName(p), data)
    requires IsReachablePath(Parents(fs.dirs, dir), p)
    requires forall c | c in backup.components :: Place(Parents(fs.dirs, dir), dir, c.name).Some?
    requires DecryptToDisk(json, aead, data, fs, dir) == (fs', r)
    ensures r.Some? && r.value.manifest == backup.manifest && IsEmptied(fs', p)
  {
    AbsolutePlace(Parents(fs.dirs, dir), dir, p);
    AddedNameEmptiesItsPlace(json, aead, backup, AbsoluteName(p), data, fs, dir, fs', r);
  }

  lemma AddedNameIsStored(aead: Aead, backup: Backup, name: string, fs: Fs, dir: Path)
    requires backup.Valid() && Opens(aead, SealedLog(backup)) && SealComponents(aead, backup, backup.components).Some?
    requires forall c | c in backup.components :: Place(fs.dirs, dir, c.name).Some?
    requires Place(fs.dirs, dir, name).Some?
    ensures var (fs', paths) := StoreComponents(
              aead, dir, Names(backup.components) + [name], backup.manifest, backup.kek, fs,
              SealComponents(aead, backup, backup.components).value + Hollow(1), map[]);
            paths.Some? && IsEmptied(fs', Place(fs.dirs, dir, name).value)
  {
    forall i | 0 <= i < |backup.components| ensures Place(fs.dirs, dir, backup.components[i].name).Some? {
      assert backup.components[i] in backup.components;
    }
    SealedLogOpens(aead, backup);
    var fs2, paths2 := GenuineIsStored(
      aead, backup, backup.components, dir, fs, map[], [name], Hollow(1));
    HollowStep(aead, dir, [name], backup.manifest, backup.kek, fs2, paths2);
    assert [name][1..] == [];
  }

  lemma AddedNameByName(json: HeaderJson, aead: Aead, backup: Backup, name: string, data: Bytes)
    requires backup.Valid() && backup.DistinctNames() && Opens(aead, SealedLog(backup))
    requires AddsName(json, aead, backup, name, data) && forall c | c in backup.components :: c.name != name
    ensures var byName := DecryptArtifact(json, aead, data);
            && byName.Some? && byName.value.manifest == backup.manifest
            && forall c | c in backup.components ::
                 c.name in byName.value.components && byName.value.components[c.name] == c.content
  {
    AddedNameDecrypts(json, aead, backup, name, data);
    ComponentsByName(backup);
  }

  lemma AddedNameDecrypts(json: HeaderJson, aead: Aead, backup: Backup, name: string, data: Bytes)
    requires backup.Valid() && Opens(aead, SealedLog(backup)) && AddsName(json, aead, backup, name, data)
    ensures DecryptArtifact(json, aead, data) == Some(Decrypted(
              ExtendedHeader(backup, name), backup.manifest,
              ArtifactStreams.Contents(backup.components, map[])[name := []]))
  {
    var header, done := ExtendedHeader(backup, name), ArtifactStreams.Contents(backup.components, map[]);
    var body := SealComponents(aead, backup, backup.components).value;
    assert DecryptArtifact(json, aead, data) == ByName(json, aead, header, data) by {
      DecryptsByTheSameSteps(json, aead, data);
    }
    ExtendedNames(backup, name);
    assert OpenComponents(aead, Names(backup.components) + [name], backup.manifest, backup.kek,
                          body + Hollow(1), map[]) == Some(done[name := []]) by {
      SealedLogOpens(aead, backup);
      OpenInvertsSealComponents(aead, backup, backup.components, map[], [name], Hollow(1));
      HollowByName(aead, name, backup.manifest, backup.kek, done);
    }
    ByNameReturns(json, aead, header, data, Opened(backup.manifest, body + Hollow(1)), done[name := []]);
  }

  lemma ByNameReturns(
      json: HeaderJson, aead: Aead, header: Header, data: Bytes, first: Opened, components: map<string, Bytes>)
    requires OpenManifest(json, aead, header, data) == Some(first)
    requires OpenComponents(aead, header.components[1..], first.plain, header.kek, first.rest, map[])
          == Some(components)
    ensures ByName(json, aead, header, data) == Some(Decrypted(header, first.plain, components))
  {
  }

  lemma ComponentsByName(backup: Backup)
    requires backup.DistinctNames()
    ensures var done := ArtifactStreams.Contents(backup.components, map[]);
            forall c | c in backup.components :: c.name in done && done[c.name] == c.content
  {
    var done := ArtifactStreams.Contents(backup.components, map[]);
    ContentsOfDistinct(backup.components, map[]);
    forall c | c in backup.components ensures c.name in done && done[c.name] == c.content {
      var i :| 0 <= i < |backup.components| && backup.components[i] == c;
    }
  }

  lemma HollowByName(aead: Aead, name: string, manifest: Bytes, kek: string, done: map<string, Bytes>)
    ensures OpenComponents(aead, [name], manifest, kek, Hollow(1), done) == Some(done[name := []])
  {
    assert Hollow(1) == HollowComponent() + Hollow(0);
    HollowOpens(aead, name, manifest, kek, []);
    assert [name][1..] == [];
  }

  // ---- When files and names agree ------------------------------------------------------------

  // Components of which exactly those in `lit` hold something, a single byte.
  function LitPart(aead: Aead, kek: string, name: string, lit: set<string>): Bytes {
    var sealed := SealComponent(aead, LitBinding(kek, name), [0], 1);
    if name in lit && sealed.Some? then sealed.value else HollowComponent()
  }

  function LitBinding(kek: string, name: string): Binding {
    Binding(name, [], kek, seq(NONCE_BYTES, i => 0))
  }

  function LitBody(aead: Aead, kek: string, names: seq<string>, lit: set<string>): Bytes {
    if names == [] then [] else LitPart(aead, kek, names[0], lit) + LitBody(aead, kek, names[1..], lit)
  }

  function LitContent(name: string, lit: set<string>): Bytes {
    if name in lit then [0] else []
  }

  lemma LitPartOpens(aead: Aead, kek: string, name: string, lit: set<string>, tail: Bytes)
    requires Correct(aead) && AppendsTag(aead) && (name in lit ==> CanCarry(kek, name))
    ensures OpenComponent(aead, name, [], kek, LitPart(aead, kek, name, lit) + tail)
         == Some(Opened(LitContent(name, lit), tail))
  {
    if name in lit {
      var b := LitBinding(kek, name);
      assert Chunks([0], 1) == [[0]] && [[0]][1..] == [];
      SealComponentSucceedsExactlyWhen(aead, b, [0], 1);
      assert OpensChunk(aead, b, 0, [0]) && OpensChunks(aead, b, 1, []);
      OpenInvertsSealComponent(aead, b, [0], 1, tail);
    } else {
      HollowOpens(aead, name, [], kek, tail);
    }
  }

  // By name they read back as they are.
  lemma {:induction false} LitBodyByName(
      aead: Aead, kek: string, names: seq<string>, lit: set<string>, done: map<string, Bytes>)
    requires Correct(aead) && AppendsTag(aead) && forall n | n in lit :: CanCarry(kek, n)
    requires forall n | n in done :: done[n] == LitContent(n, lit)
    ensures var r := OpenComponents(aead, names, [], kek, LitBody(aead, kek, names, lit), done);
            && r.Some? && done.Keys <= r.value.Keys && Set(names) <= r.value.Keys
            && forall n | n in r.value :: r.value[n] == LitContent(n, lit)
    decreases |names|
  {
    if names != [] {
      LitPartOpens(aead, kek, names[0], lit, LitBody(aead, kek, names[1..], lit));
      LitBodyByName(aead, kek, names[1..], lit, done[names[0] := LitContent(names[0], lit)]);
      assert forall n | n in names :: n == names[0] || n in names[1..];
    }
  }

  function LitArtifact(json: HeaderJson, aead: Aead, header: Header, lit: set<string>): Bytes
    requires Readable(json, header)
  {
    var text := json.dumps(header);
    MAGIC + PackU32(|text|) + text
    + (HollowComponent() + LitBody(aead, header.kek, header.components[1..], lit))
  }

  lemma LitArtifactByName(json: HeaderJson, aead: Aead, header: Header, lit: set<string>)
    requires Readable(json, header) && Correct(aead) && AppendsTag(aead)
    requires forall n | n in lit :: CanCarry(header.kek, n)
    ensures ReadHeader(json, LitArtifact(json, aead, header, lit)) == Some(header)
    ensures var r := DecryptArtifact(json, aead, LitArtifact(json, aead, header, lit));
            && r.Some? && Set(header.components[1..]) <= r.value.components.Keys
            && forall n | n in r.value.components :: r.value.components[n] == LitContent(n, lit)
  {
    var data := LitArtifact(json, aead, header, lit);
    var body := LitBody(aead, header.kek, header.components[1..], lit);
    assert ReadHeader(json, data) == Some(header)
        && OpenManifest(json, aead, header, data) == Some(Opened([], body)) by {
      HeaderLandsOnFirstComponent(json, header, HollowComponent() + body);
      HollowOpens(aead, MANIFEST, [], header.kek, body);
    }
    assert DecryptArtifact(json, aead, data) == ByName(json, aead, header, data) by {
      DecryptsByTheSameSteps(json, aead, data);
    }
    LitBodyByName(aead, header.kek, header.components[1..], lit, map[]);
    ByNameReturns(
      json, aead, header, data, Opened([], body),
      OpenComponents(aead, header.components[1..], [], header.kek, body, map[]).value);
  }

  // If they agree on what is read under two names, these have places, and different ones
  // if different things are read.
  lemma AgreementShowsPlaces(
      json: HeaderJson, aead: Aead, data: Bytes, fs: Fs, dir: Path, m: string, n: string)
    requires DiskAgrees(json, aead, data, fs, dir) && DecryptArtifact(json, aead, data).Some?
    requires var found := DecryptArtifact(json, aead, data).value.components; m in found && n in found
    ensures var found, dirs := DecryptArtifact(json, aead, data).value.components, Parents(fs.dirs, dir);
            && Place(dirs, dir, m).Some? && Place(dirs, dir, n).Some?
            && (Place(dirs, dir, m) == Place(dirs, dir, n) ==> found[m] == found[n])
  {
    var (fs', stored) := DecryptToDisk(json, aead, data, fs, dir);
    PlacesOfStored(json, aead, data, fs, dir, fs', stored.value);
  }

  // Reading into files agrees with reading by name, for all bytes with this header and on
  // all disks with these directories, exactly when every name leads to a place, and two
  // names to the same one only if neither of them can hold anything.
  lemma DiskAgreesExactlyWhenSeparate(
      json: HeaderJson, aead: Aead, header: Header, dirs: set<Path>, dir: Path)
    requires Readable(json, header) && Correct(aead) && AppendsTag(aead)
    ensures (forall data: Bytes, fs: Fs |
               fs.dirs == dirs && MakeDir(fs, dir).Some? && ReadHeader(json, data) == Some(header) ::
               DiskAgrees(json, aead, data, fs, dir))
            <==> Separate(Parents(dirs, dir), dir, header.kek, Set(header.components[1..]))
  {
    var names := Set(header.components[1..]);
    if Separate(Parents(dirs, dir), dir, header.kek, names) {
      forall data: Bytes, fs: Fs |
        fs.dirs == dirs && MakeDir(fs, dir).Some? && ReadHeader(json, data) == Some(header)
        ensures DiskAgrees(json, aead, data, fs, dir)
      {
        DiskAgreesWithNames(json, aead, data, fs, dir);
      }
    } else {
      var m, n, lit := WitnessOfClash(Parents(dirs, dir), dir, header.kek, names);
      var fs, data := Fs(map[], dirs), LitArtifact(json, aead, header, lit);
      LitArtifactByName(json, aead, header, lit);
      if DiskAgrees(json, aead, data, fs, dir) {
        AgreementShowsPlaces(json, aead, data, fs, dir, m, n);
      }
      assert fs.dirs == dirs && MakeDir(fs, dir).Some? && !DiskAgrees(json, aead, data, fs, dir);
    }
  }

  // Where names are not separate: one without a place, or two with the same, of which one
  // can hold something.
  lemma WitnessOfClash(dirs: set<Path>, dir: Path, kek: string, names: set<string>)
    returns (m: string, n: string, lit: set<string>)
    requires !Separate(dirs, dir, kek, names)
    ensures m in names && n in names && forall l | l in lit :: CanCarry(kek, l)
    ensures || Place(dirs, dir, m).None?
            || (Place(dirs, dir, m) == Place(dirs, dir, n) && LitContent(m, lit) != LitContent(n, lit))
  {
    if x :| x in names && Place(dirs, dir, x).None? {
      m, n, lit := x, x, {};
    } else {
      m, n :| m in names && n in names && m != n && Place(dirs, dir, m) == Place(dirs, dir, n)
              && (CanCarry(kek, m) || CanCarry(kek, n));
      lit := if CanCarry(kek, m) then {m} else {n};
    }
  }
}
