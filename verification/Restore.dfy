// The one-shot restore: a sequence of checks and effects that fills an outcome, where
// any failure means that no success is claimed.
module Restore {
  import opened Prelude
  import opened ArtifactStreams
  import opened ArtifactSoundness
  import opened ArtifactDisk
  import opened FileSystem
  import opened Reconcile
  import ArtifactFiles

  // What `extract_files` leaves under the restore root.
  datatype Tree = Tree(files: set<Path>, dirs: set<Path>)

  datatype Audit = Audit(total: nat, verified: nat, valid: bool)

  // Keys, ciphers and parsers of the surroundings.
  datatype Tools = Tools(
    json: HeaderJson,
    keyVersions: set<string>,
    unwrapDek: (string, string) -> Result<Bytes, string>,
    cipher: Bytes -> Aead,
    parse: ManifestParser,
    sha: Sha256,
    extract: Bytes -> Option<Tree>)

  // Where to restore, and what probing the database gives once the dump has been restored.
  datatype Target = Target(
    root: Path, plaintextDir: Path, databaseEmpty: bool, restores: bool, audit: Audit,
    alembicHead: string, storageKeys: seq<Path>, importSubdir: Path,
    undeletable: set<Path>, stuck: set<Path>)

  class RestoreOutcome {
    var manifest: Option<Manifest>
    var audit: Option<Audit>
    var reconcile: Option<Summary>
    var error: Option<string>
    var restoredDump: Option<Bytes>
    var extracted: Option<Bytes>

    constructor ()
      ensures manifest == None && audit == None && reconcile == None && error == None
      ensures restoredDump == None && extracted == None
    {
      manifest, audit, reconcile, error := None, None, None, None;
      restoredDump, extracted := None, None;
    }

    predicate Ok()
      reads this
    {
      error == None && manifest.Some?
    }
  }

  // ---- Steps 1 to 5 -----------------------------------------------------------------------

  // The key for the artifact, under the version its header names.
  function KeyOf(tools: Tools, artifact: Bytes): Result<Bytes, string> {
    match ReadHeader(tools.json, artifact)
    case None => Err("ARTIFACT_REJECTED")
    case Some(header) =>
      if header.kek !in tools.keyVersions then Err("MISSING_KEK_VERSION")
      else tools.unwrapDek(header.wrappedDek, header.kek)
  }

  // The decrypted artifact as the files hold it, once every check has passed; and the disk.
  function Checked(tools: Tools, artifact: Bytes, fs: Fs, dir: Path): (Fs, Result<Decrypted, string>) {
    match KeyOf(tools, artifact)
    case Err(code) => (fs, Err(code))
    case Ok(dek) =>
      var (fs', stored) := DecryptToDisk(tools.json, tools.cipher(dek), artifact, fs, dir);
      (fs', Verdict(tools, if stored.None? then None else Some(Found(fs', stored.value))))
  }

  function Verdict(tools: Tools, d: Option<Decrypted>): Result<Decrypted, string> {
    match d
    case None => Err("ARTIFACT_REJECTED")
    case Some(found) =>
      match Rejection(tools.parse, tools.sha, found)
      case Some(code) => Err(code)
      case None => Ok(found)
  }

  // Step by step, and nothing but these steps: what the checks answer, in terms of the
  // header, the keys, the manifest as parsed, the files found and their hashes.
  lemma ChecksAnswer(tools: Tools, artifact: Bytes, fs: Fs, dir: Path)
    ensures var header, (fs', r) := ReadHeader(tools.json, artifact), Checked(tools, artifact, fs, dir);
            if header.None? then fs' == fs && r == Err("ARTIFACT_REJECTED")
            else if header.value.kek !in tools.keyVersions then fs' == fs && r == Err("MISSING_KEK_VERSION")
            else
              var dek := tools.unwrapDek(header.value.wrappedDek, header.value.kek);
              if dek.Err? then fs' == fs && r == Err(dek.error)
              else
                var (after, stored) := DecryptToDisk(tools.json, tools.cipher(dek.value), artifact, fs, dir);
                && fs' == after
                && if stored.None? then r == Err("ARTIFACT_REJECTED") else FilesAnswer(tools, after, stored.value, r)
  {
  }

  // Steps 4 and 5 on what decryption left.
  ghost predicate FilesAnswer(tools: Tools, fs: Fs, stored: Stored, r: Result<Decrypted, string>) {
    var m := tools.parse(stored.manifest);
    if m.None? then r == Err("MANIFEST_INVALID")
    else if m.value.formatVersion != "v1" then r == Err("MANIFEST_FORMAT_VERSION_UNSUPPORTED")
    else if !m.value.usable then r == Err("MANIFEST_NOT_USABLE")
    else if "pgdump" !in stored.paths || "files" !in stored.paths then r == Err("MANIFEST_COMPONENTS_INCOMPLETE")
    else if tools.sha(FileAt(fs, stored.paths["pgdump"])) != m.value.pgSha256 then r == Err("PGDUMP_HASH_MISMATCH")
    else if tools.sha(FileAt(fs, stored.paths["files"])) != m.value.filesSha256 then r == Err("FILES_HASH_MISMATCH")
    else
      && r.Ok? && r.value.header == stored.header && r.value.manifest == stored.manifest
      && r.value.components.Keys == stored.paths.Keys
      && forall n | n in stored.paths :: r.value.components[n] == FileAt(fs, stored.paths[n])
  }

  function FileAt(fs: Fs, p: Path): Bytes {
    if p in fs.files then fs.files[p] else []
  }

  // What it takes to pass.
  lemma PassingMeans(tools: Tools, artifact: Bytes, fs: Fs, dir: Path)
    requires Checked(tools, artifact, fs, dir).1.Ok?
    ensures var d := Checked(tools, artifact, fs, dir).1.value;
            && ReadHeader(tools.json, artifact) == Some(d.header) && d.header.kek in tools.keyVersions
            && "pgdump" in d.components && "files" in d.components
            && var m := tools.parse(d.manifest);
               && m.Some? && m.value.formatVersion == "v1" && m.value.usable
               && tools.sha(d.components["pgdump"]) == m.value.pgSha256
               && tools.sha(d.components["files"]) == m.value.filesSha256
  {
    ChecksAnswer(tools, artifact, fs, dir);
    var key := KeyOf(tools, artifact);
    var (fs', stored) := DecryptToDisk(tools.json, tools.cipher(key.value), artifact, fs, dir);
    StoredComesFrom(tools.json, tools.cipher(key.value), artifact, fs, dir, fs', stored.value);
  }

  // The same for a reader that keeps components by name instead of in files.
  function CheckedByName(tools: Tools, artifact: Bytes): Result<Decrypted, string> {
    match KeyOf(tools, artifact)
    case Err(code) => Err(code)
    case Ok(dek) => Verdict(tools, DecryptArtifact(tools.json, tools.cipher(dek), artifact))
  }

  method Accept(tools: Tools, artifact: Bytes, disk: Disk, dir: Path, outcome: RestoreOutcome)
    returns (r: Result<Decrypted, string>)
    requires outcome.manifest == None
    modifies disk, outcome`manifest
    ensures (disk.fs, r) == Checked(tools, artifact, old(disk.fs), dir)
    ensures r.Ok? ==> outcome.manifest.Some? && outcome.manifest == tools.parse(r.value.manifest)
  {
    var key := KeyOf(tools, artifact);
    if key.Err? {
      return Err(key.error);
    }
    var stored := ArtifactFiles.Decrypt(tools.json, tools.cipher(key.value), artifact, disk, dir);
    if stored.None? {
      return Err("ARTIFACT_REJECTED");
    }
    var found := Found(disk.fs, stored.value);
    var rejection := Rejection(tools.parse, tools.sha, found);
    if rejection.None? || rejection.value in {"PGDUMP_HASH_MISMATCH", "FILES_HASH_MISMATCH"} {
      outcome.manifest := tools.parse(found.manifest);
    }
    if rejection.Some? {
      return Err(rejection.value);
    }
    return Ok(found);
  }

  // ---- Steps 6 to 9 -----------------------------------------------------------------------

  // `_assert_storage_empty`, which also makes the root.
  ghost predicate IsEmptyRoot(fs: Fs, root: Path) {
    MakeDir(fs, root).Some? && forall p | p in fs.files.Keys + fs.dirs :: !(root < p)
  }

  // What the storage looks like when these steps succeed.
  ghost predicate Restored(
      tools: Tools, target: Target, d: Decrypted, files: set<Path>, dirs: set<Path>)
  {
    && FILES in d.components && tools.extract(d.components[FILES]).Some?
    && var tree := tools.extract(d.components[FILES]).value;
       && files == Referenced(target.storageKeys, target.importSubdir) && files <= tree.files
       && dirs == set p | p in tree.dirs && Needed(p, files, target.stuck * tree.dirs)
  }

  // What steps 6 to 8 and step 9 look at, apart from the restore root.
  ghost predicate DatabaseReady(tools: Tools, target: Target, d: Decrypted) {
    && target.databaseEmpty && target.restores && target.audit.valid
    && tools.parse(d.manifest).Some? && target.alembicHead == tools.parse(d.manifest).value.alembicHead
  }

  // Every file the restored database references is in the archive, and every other file
  // can be deleted.
  ghost predicate FilesReady(tools: Tools, target: Target, d: Decrypted) {
    && FILES in d.components && tools.extract(d.components[FILES]).Some?
    && var files := tools.extract(d.components[FILES]).value.files;
       var referenced := Referenced(target.storageKeys, target.importSubdir);
       referenced <= files && (files - referenced) * target.undeletable == {}
  }

  // When these steps succeed.
  ghost predicate Restorable(tools: Tools, target: Target, d: Decrypted, fs: Fs) {
    DatabaseReady(tools, target, d) && IsEmptyRoot(fs, target.root) && FilesReady(tools, target, d)
  }

  ghost predicate ExtractsTree(tools: Tools, d: Decrypted) {
    FILES in d.components && tools.extract(d.components[FILES]).Some? ==>
      var tree := tools.extract(d.components[FILES]).value; IsTree(tree.files, tree.dirs)
  }

  // Steps 6 to 8; the first failing check gives the error code.
  method RestoreDatabase(
      tools: Tools, d: Decrypted, target: Target, disk: Disk, outcome: RestoreOutcome)
    returns (failure: Option<string>)
    requires PGDUMP in d.components
    requires outcome.manifest.Some? && outcome.manifest == tools.parse(d.manifest)
    modifies disk, outcome`audit, outcome`restoredDump
    ensures failure.None? <==> DatabaseReady(tools, target, d) && IsEmptyRoot(old(disk.fs), target.root)
    ensures failure.None? ==>
              outcome.audit == Some(target.audit) && outcome.restoredDump == Some(d.components[PGDUMP])
    ensures disk.fs.files == old(disk.fs).files
    // Each error code has its cause, and the first one to apply is given.
    ensures !target.databaseEmpty || !IsEmptyRoot(old(disk.fs), target.root) ==>
              failure == Some("RESTORE_TARGET_NOT_EMPTY") && outcome.restoredDump == old(outcome.restoredDump)
    ensures target.databaseEmpty && IsEmptyRoot(old(disk.fs), target.root) ==>
              && outcome.restoredDump == Some(d.components[PGDUMP])
              && (!target.restores ==> failure == Some("PG_RESTORE_FAILED"))
              && (target.restores && !target.audit.valid ==> failure == Some("AUDIT_CHAIN_BROKEN"))
              && (target.restores && target.audit.valid &&
                  target.alembicHead != tools.parse(d.manifest).value.alembicHead ==>
                    failure == Some("ALEMBIC_HEAD_MISMATCH"))
  {
    if !target.databaseEmpty {
      return Some("RESTORE_TARGET_NOT_EMPTY");
    }
    var made := MakeDir(disk.fs, target.root);
    if made.None? || exists p :: p in disk.fs.files.Keys + disk.fs.dirs && target.root < p {
      return Some("RESTORE_TARGET_NOT_EMPTY");
    }
    disk.fs := made.value;
    outcome.restoredDump := Some(d.components[PGDUMP]);
    if !target.restores {
      return Some("PG_RESTORE_FAILED");
    }
    outcome.audit := Some(target.audit);
    if !target.audit.valid {
      return Some("AUDIT_CHAIN_BROKEN");
    }
    if target.alembicHead != outcome.manifest.value.alembicHead {
      return Some("ALEMBIC_HEAD_MISMATCH");
    }
    return None;
  }

  // Step 9.
  method RestoreFiles(tools: Tools, d: Decrypted, target: Target, storage: Storage, outcome: RestoreOutcome)
    returns (failure: Option<string>)
    requires ExtractsTree(tools, d) && FILES in d.components
    modifies storage, outcome`reconcile, outcome`extracted
    ensures failure.None? <==> FilesReady(tools, target, d)
    ensures failure.None? ==>
              Restored(tools, target, d, storage.files, storage.dirs) && outcome.reconcile.Some?
    ensures failure.None? ==> outcome.extracted == Some(d.components[FILES])
    ensures failure == Some("FILES_ARCHIVE_CORRUPT") <==> tools.extract(d.components[FILES]).None?
    ensures failure.Some? ==>
              failure.value in {"FILES_ARCHIVE_CORRUPT", "RESTORE_ORPHAN_CLEANUP_FAILED",
                                "RESTORE_MISSING_REFERENCED_FILE"}
  {
    var tree := tools.extract(d.components[FILES]);
    if tree.None? {
      return Some("FILES_ARCHIVE_CORRUPT");
    }
    outcome.extracted := Some(d.components[FILES]);
    storage.files, storage.dirs := tree.value.files, tree.value.dirs;
    var r := storage.ReconcileFiles(
      target.storageKeys, target.importSubdir, target.undeletable, target.stuck * tree.value.dirs);
    if r.Err? {
      return Some(r.error);
    }
    outcome.reconcile := Some(r.value);
    return None;
  }

  // Steps 6 to 9.
  method Apply(
      tools: Tools, d: Decrypted, target: Target, disk: Disk, storage: Storage, outcome: RestoreOutcome)
    returns (failure: Option<string>)
    requires ExtractsTree(tools, d) && PGDUMP in d.components && FILES in d.components
    requires outcome.manifest.Some? && outcome.manifest == tools.parse(d.manifest)
    modifies disk, storage, outcome`audit, outcome`reconcile, outcome`restoredDump, outcome`extracted
    ensures failure.None? <==> Restorable(tools, target, d, old(disk.fs))
    ensures failure.None? ==> Restored(tools, target, d, storage.files, storage.dirs)
    ensures failure.None? ==> outcome.audit == Some(target.audit) && outcome.reconcile.Some?
    ensures failure.None? ==> outcome.restoredDump == Some(d.components[PGDUMP])
    ensures failure.None? ==> outcome.extracted == Some(d.components[FILES])
    ensures disk.fs.files == old(disk.fs).files
  {
    failure := RestoreDatabase(tools, d, target, disk, outcome);
    if failure.None? {
      failure := RestoreFiles(tools, d, target, storage, outcome);
    }
  }

  // `_cleanup_all`: it takes everything below the plaintext directory, the restore root
  // included should it lie there.
  method CleanUp(target: Target, disk: Disk, storage: Storage)
    modifies disk, storage
    ensures disk.fs == Removed(old(disk.fs), target.plaintextDir)
    ensures forall p :: (p in disk.fs.files <==> p in old(disk.fs).files && !(target.plaintextDir <= p)) &&
                        (p in disk.fs.files ==> disk.fs.files[p] == old(disk.fs).files[p])
    ensures if target.plaintextDir <= target.root then storage.files == {} && storage.dirs == {}
            else storage.files == old(storage.files) && storage.dirs == old(storage.dirs)
  {
    disk.fs := Removed(disk.fs, target.plaintextDir);
    if target.plaintextDir <= target.root {
      storage.files, storage.dirs := {}, {};
    }
  }

  // What the outcome says, and what lies below the restore root, after checks with this
  // result that left this disk.
  ghost predicate Concluded(
      tools: Tools, target: Target, fs: Fs, checked: Result<Decrypted, string>,
      outcome: RestoreOutcome, storage: Storage)
    reads outcome, storage
  {
    match checked
    // Nothing reaches the database, and nothing is extracted, unless the manifest and both
    // hashes have been checked.
    case Err(code) =>
      && !outcome.Ok() && outcome.error == Some(code)
      && outcome.restoredDump == None && outcome.extracted == None
      && storage.files == {} && storage.dirs == {}
    case Ok(d) =>
      && (outcome.Ok() <==> Restorable(tools, target, d, fs))
      && (outcome.Ok() ==>
            && PGDUMP in d.components && FILES in d.components
            && outcome.manifest == tools.parse(d.manifest)
            && outcome.restoredDump == Some(d.components[PGDUMP])
            && outcome.extracted == Some(d.components[FILES])
            && if target.plaintextDir <= target.root then storage.files == {} && storage.dirs == {}
               else Restored(tools, target, d, storage.files, storage.dirs))
  }

  // `run_restore`: every failure ends up in the outcome, which then is not ok. `storage` is
  // what lies below the restore root in the end.
  method RunRestore(tools: Tools, artifact: Bytes, target: Target, disk: Disk)
    returns (outcome: RestoreOutcome, storage: Storage)
    requires var checked := Checked(tools, artifact, disk.fs, target.plaintextDir).1;
             checked.Ok? ==> ExtractsTree(tools, checked.value)
    modifies disk
    ensures fresh(outcome) && fresh(storage)
    ensures var (fs, checked) := Checked(tools, artifact, old(disk.fs), target.plaintextDir);
            && Concluded(tools, target, fs, checked, outcome, storage)
            // The files on the disk are those that decryption left, without the plaintext.
            && disk.fs.files == Removed(fs, target.plaintextDir).files
    // What an outcome that is ok vouches for.
    ensures outcome.Ok() ==>
              && outcome.manifest.Some? && outcome.restoredDump.Some? && outcome.extracted.Some?
              && var m := outcome.manifest.value;
                 && m.formatVersion == "v1" && m.usable
                 && tools.sha(outcome.restoredDump.value) == m.pgSha256
                 && tools.sha(outcome.extracted.value) == m.filesSha256
                 && target.databaseEmpty && target.audit.valid && target.alembicHead == m.alembicHead
                 && ReadHeader(tools.json, artifact).Some?
                 && ReadHeader(tools.json, artifact).value.kek in tools.keyVersions
  {
    outcome := new RestoreOutcome();
    storage := new Storage();
    ghost var fs := disk.fs;
    var accepted := Accept(tools, artifact, disk, target.plaintextDir, outcome);
    if accepted.Ok? {
      PassingMeans(tools, artifact, fs, target.plaintextDir);
    }
    Conclude(tools, target, accepted, disk, outcome, storage);
  }

  // What follows the checks.
  method Conclude(
      tools: Tools, target: Target, accepted: Result<Decrypted, string>, disk: Disk,
      outcome: RestoreOutcome, storage: Storage)
    requires accepted.Ok? ==>
               var d := accepted.value;
               && ExtractsTree(tools, d) && PGDUMP in d.components && FILES in d.components
               && outcome.manifest.Some? && outcome.manifest == tools.parse(d.manifest)
    requires outcome.error == None && outcome.restoredDump == None && outcome.extracted == None
    requires storage.files == {} && storage.dirs == {}
    modifies disk, outcome, storage
    ensures Concluded(tools, target, old(disk.fs), accepted, outcome, storage)
    ensures disk.fs.files == Removed(old(disk.fs), target.plaintextDir).files
  {
    if accepted.Err? {
      outcome.error := Some(accepted.error);
    } else {
      var failure := Apply(tools, accepted.value, target, disk, storage, outcome);
      outcome.error := failure;
    }
    CleanUp(target, disk, storage);
  }

  // ---- What passes the checks -----------------------------------------------------------------

  // Whatever bytes are offered and wherever their components went: a dump that reaches the
  // database, and the archive that is extracted, are those of the backup whose key the
  // artifact unwraps to.
  lemma RestoreIsExact(
      tools: Tools, artifact: Bytes, backup: Backup, pgdump: Bytes, files: Bytes, dek: Bytes, fs: Fs, dir: Path)
    requires WellMade(tools.parse, tools.sha, backup, pgdump, files)
    requires ParsesOnlyWhole(tools.parse, backup.manifest) && CollisionFree(tools.sha)
    requires Ideal(tools.cipher(dek), SealedLog(backup))
    requires KeyOf(tools, artifact) == Ok(dek) && Checked(tools, artifact, fs, dir).1.Ok?
    ensures var d := Checked(tools, artifact, fs, dir).1.value;
            d.components[PGDUMP] == pgdump && d.components[FILES] == files && d.manifest == backup.manifest
  {
    var aead := tools.cipher(dek);
    var (fs', stored) := DecryptToDisk(tools.json, aead, artifact, fs, dir);
    var found := Found(fs', stored.value);
    StoredWasDecrypted(tools.json, aead, artifact, fs, dir, fs', stored.value);
    assert found.manifest <= backup.manifest by {
      ReaderReturnsSealedPrefixes(tools.json, aead, backup, artifact);
    }
    assert found.manifest == backup.manifest[..|found.manifest|];
    assert found.manifest == backup.manifest;
  }

  // An artifact as written, opened with its key, where its two files can be created.
  ghost predicate GenuineAt(
      tools: Tools, artifact: Bytes, backup: Backup, pgdump: Bytes, files: Bytes, dek: Bytes, fs: Fs, dir: Path)
  {
    && WellMade(tools.parse, tools.sha, backup, pgdump, files)
    && Opens(tools.cipher(dek), SealedLog(backup))
    && tools.json.loads(tools.json.dumps(backup.HeaderOf())) == Some(backup.HeaderOf())
    && WriteArtifact(tools.json, tools.cipher(dek), backup) == Some(artifact)
    && KeyOf(tools, artifact) == Ok(dek) && MakeDir(fs, dir).Some?
    && dir + [PGDUMP] !in Parents(fs.dirs, dir) && dir + [FILES] !in Parents(fs.dirs, dir)
  }

  lemma WellMadeNames(
      parse: ManifestParser, sha: Sha256, backup: Backup, pgdump: Bytes, files: Bytes, dirs: set<Path>, dir: Path)
    requires WellMade(parse, sha, backup, pgdump, files)
    requires dir + [PGDUMP] !in dirs && dir + [FILES] !in dirs
    ensures forall c | c in backup.components :: IsPlain(c.name) && dir + [c.name] !in dirs
  {
    assert forall c | c in backup.components :: c == backup.components[0] || c == backup.components[1];
  }

  lemma WellMadeFiles(
      parse: ManifestParser, sha: Sha256, backup: Backup, pgdump: Bytes, files: Bytes, dir: Path, p: Path)
    requires WellMade(parse, sha, backup, pgdump, files)
    ensures (exists c :: c in backup.components && p == dir + [c.name]) <==>
              p == dir + [PGDUMP] || p == dir + [FILES]
  {
    assert backup.components[0] in backup.components && backup.components[1] in backup.components;
    assert forall c | c in backup.components :: c == backup.components[0] || c == backup.components[1];
  }

  // It passes the checks.
  lemma GenuineIsRestored(
      tools: Tools, artifact: Bytes, backup: Backup, pgdump: Bytes, files: Bytes, dek: Bytes, fs: Fs, dir: Path)
    requires GenuineAt(tools, artifact, backup, pgdump, files, dek, fs, dir)
    ensures Checked(tools, artifact, fs, dir).1.Ok?
  {
    var aead := tools.cipher(dek);
    var (fs', r) := DecryptToDisk(tools.json, aead, artifact, fs, dir);
    assert r.Some? && DecryptArtifact(tools.json, aead, artifact) == Some(Found(fs', r.value)) by {
      WellMadeNames(tools.parse, tools.sha, backup, pgdump, files, Parents(fs.dirs, dir), dir);
      GenuineIsFound(tools.json, aead, backup, artifact, fs, dir, fs', r);
    }
    GenuineArtifactIsAccepted(tools.json, aead, tools.parse, tools.sha, backup, pgdump, files);
    CheckedOnDisk(tools, artifact, dek, fs, dir, fs', r);
  }

  // Also under the ideal cipher, where what passes is the backup and nothing else.
  lemma GenuinePassesIdealCipher(
      tools: Tools, artifact: Bytes, backup: Backup, pgdump: Bytes, files: Bytes, dek: Bytes, fs: Fs, dir: Path)
    requires GenuineAt(tools, artifact, backup, pgdump, files, dek, fs, dir)
    requires Ideal(tools.cipher(dek), SealedLog(backup))
    requires ParsesOnlyWhole(tools.parse, backup.manifest) && CollisionFree(tools.sha)
    ensures var checked := Checked(tools, artifact, fs, dir).1;
            checked.Ok? && checked.value.components[PGDUMP] == pgdump && checked.value.components[FILES] == files
  {
    GenuineIsRestored(tools, artifact, backup, pgdump, files, dek, fs, dir);
    RestoreIsExact(tools, artifact, backup, pgdump, files, dek, fs, dir);
  }

  // The only files it adds to the disk are the two of the plaintext directory.
  lemma GenuineLeavesTwoFiles(
      tools: Tools, artifact: Bytes, backup: Backup, pgdump: Bytes, files: Bytes, dek: Bytes, fs: Fs, dir: Path,
      p: Path)
    requires GenuineAt(tools, artifact, backup, pgdump, files, dek, fs, dir)
    ensures var fs' := Checked(tools, artifact, fs, dir).0;
            && fs'.dirs == Parents(fs.dirs, dir)
            && (p in fs'.files <==> p in fs.files || p == dir + [PGDUMP] || p == dir + [FILES])
  {
    var aead := tools.cipher(dek);
    var (fs', r) := DecryptToDisk(tools.json, aead, artifact, fs, dir);
    WellMadeNames(tools.parse, tools.sha, backup, pgdump, files, Parents(fs.dirs, dir), dir);
    WellMadeFiles(tools.parse, tools.sha, backup, pgdump, files, dir, p);
    GenuineAddsItsFiles(tools.json, aead, backup, artifact, fs, dir, fs', r, p);
    CheckedOnDisk(tools, artifact, dek, fs, dir, fs', r);
  }

  // Neither path leads through the other.
  predicate Apart(p: Path, q: Path) {
    !(p <= q) && !(q <= p)
  }

  lemma RootStaysEmptyExactlyWhen(fs': Fs, made: Fs, p: Path, q: Path, root: Path)
    requires fs'.dirs == made.dirs
    requires forall x :: x in fs'.files <==> x in made.files || x == p || x == q
    ensures IsEmptyRoot(fs', root) <==> IsEmptyRoot(made, root) && Apart(root, p) && Apart(root, q)
  {
    assert p in fs'.files.Keys + fs'.dirs && q in fs'.files.Keys + fs'.dirs;
    if p <= root {
      assert root[..|p|] == p;
    }
    if q <= root {
      assert root[..|q|] == q;
    }
    if IsEmptyRoot(fs', root) {
      assert forall x | x in made.files.Keys + made.dirs :: x in fs'.files.Keys + fs'.dirs;
      assert forall n | 0 <= n <= |root| :: root[..n] !in fs'.files;
    }
    if IsEmptyRoot(made, root) && Apart(root, p) && Apart(root, q) {
      forall n | 0 <= n <= |root| ensures root[..n] !in fs'.files {
        assert root[..n] <= root;
      }
      forall x | x in fs'.files.Keys + fs'.dirs ensures !(root < x) {
        assert x in made.files.Keys + made.dirs || x == p || x == q;
      }
    }
  }

  // A genuine artifact is restored exactly when database, archive and references are in
  // order, and the restore root is empty and lies apart from the two files.
  lemma GenuineIsRestorableExactlyWhen(
      tools: Tools, artifact: Bytes, backup: Backup, pgdump: Bytes, files: Bytes, dek: Bytes, fs: Fs,
      target: Target)
    requires GenuineAt(tools, artifact, backup, pgdump, files, dek, fs, target.plaintextDir)
    ensures var (fs', checked) := Checked(tools, artifact, fs, target.plaintextDir);
            && checked.Ok?
            && (Restorable(tools, target, checked.value, fs') <==>
                  && DatabaseReady(tools, target, checked.value) && FilesReady(tools, target, checked.value)
                  && IsEmptyRoot(MakeDir(fs, target.plaintextDir).value, target.root)
                  && Apart(target.root, target.plaintextDir + [PGDUMP])
                  && Apart(target.root, target.plaintextDir + [FILES]))
  {
    var dir := target.plaintextDir;
    GenuineIsRestored(tools, artifact, backup, pgdump, files, dek, fs, dir);
    var fs' := Checked(tools, artifact, fs, dir).0;
    forall x
      ensures fs'.dirs == Parents(fs.dirs, dir)
      ensures x in fs'.files <==> x in fs.files || x == dir + [PGDUMP] || x == dir + [FILES]
    {
      GenuineLeavesTwoFiles(tools, artifact, backup, pgdump, files, dek, fs, dir, x);
    }
    assert fs'.dirs == MakeDir(fs, dir).value.dirs by {
      GenuineLeavesTwoFiles(tools, artifact, backup, pgdump, files, dek, fs, dir, []);
    }
    RootStaysEmptyExactlyWhen(fs', MakeDir(fs, dir).value, dir + [PGDUMP], dir + [FILES], target.root);
  }

  // So a restore root that is another entry of the plaintext directory passes: the outcome
  // is ok, and the clean-up has taken everything that was restored.
  lemma RootInPlaintextIsWiped(
      tools: Tools, artifact: Bytes, backup: Backup, pgdump: Bytes, files: Bytes, dek: Bytes, fs: Fs,
      target: Target, name: string)
    requires GenuineAt(tools, artifact, backup, pgdump, files, dek, fs, target.plaintextDir)
    requires target.root == target.plaintextDir + [name] && name != PGDUMP && name != FILES
    requires IsEmptyRoot(MakeDir(fs, target.plaintextDir).value, target.root)
    requires var checked := Checked(tools, artifact, fs, target.plaintextDir).1;
             checked.Ok? ==> DatabaseReady(tools, target, checked.value) && FilesReady(tools, target, checked.value)
    ensures target.plaintextDir <= target.root
    ensures var (fs', checked) := Checked(tools, artifact, fs, target.plaintextDir);
            checked.Ok? && Restorable(tools, target, checked.value, fs')
  {
    var dir := target.plaintextDir;
    GenuineIsRestorableExactlyWhen(tools, artifact, backup, pgdump, files, dek, fs, target);
    assert forall n | n != name :: (dir + [n])[|dir|] != (dir + [name])[|dir|];
  }

  // The plaintext directory itself, or one around it, never passes, whatever the artifact:
  // the dump lies there.
  lemma RootAroundPlaintextIsRefused(tools: Tools, artifact: Bytes, target: Target, fs: Fs)
    requires target.root <= target.plaintextDir
    ensures var (fs', checked) := Checked(tools, artifact, fs, target.plaintextDir);
            checked.Ok? ==> !Restorable(tools, target, checked.value, fs')
  {
    var dir := target.plaintextDir;
    var key := KeyOf(tools, artifact);
    if key.Ok? {
      var (fs', r) := DecryptToDisk(tools.json, tools.cipher(key.value), artifact, fs, dir);
      CheckedOnDisk(tools, artifact, key.value, fs, dir, fs', r);
      if Checked(tools, artifact, fs, dir).1.Ok? {
        DumpFillsDirectory(tools.json, tools.cipher(key.value), artifact, fs, dir, fs', r.value);
        FileFillsRoot(fs', target.root, dir + [PGDUMP]);
      }
    }
  }

  lemma DumpFillsDirectory(
      json: HeaderJson, aead: Aead, artifact: Bytes, fs: Fs, dir: Path, fs': Fs, stored: Stored)
    requires DecryptToDisk(json, aead, artifact, fs, dir) == (fs', Some(stored))
    requires PGDUMP in stored.paths
    ensures dir + [PGDUMP] in fs'.files
  {
    PlacesOfStored(json, aead, artifact, fs, dir, fs', stored);
    assert dir == dir[..|dir|];
    FoundAtPlainPlace(Parents(fs.dirs, dir), dir, fs', stored.paths, PGDUMP);
  }

  // ---- Where decryption writes ----------------------------------------------------------------

  // Every component name is a single path segment that is not the name of a directory.
  ghost predicate HasPlainNames(json: HeaderJson, artifact: Bytes, fs: Fs, dir: Path) {
    ReadHeader(json, artifact).Some? && ReadHeader(json, artifact).value.components != [] ==>
      forall n | n in ReadHeader(json, artifact).value.components[1..] ::
        IsPlain(n) && dir + [n] !in Parents(fs.dirs, dir)
  }

  // Whenever names have separate places the checks see exactly what was read by name, and
  // whenever these lie inside, no file outside the plaintext directory is touched.
  lemma SeparateNamesAreRestoredByName(tools: Tools, artifact: Bytes, fs: Fs, dir: Path)
    requires MakeDir(fs, dir).Some? && ReadHeader(tools.json, artifact).Some?
    requires var header := ReadHeader(tools.json, artifact).value;
             header.components != [] ==>
               Separate(Parents(fs.dirs, dir), dir, header.kek, Set(header.components[1..]))
    ensures Checked(tools, artifact, fs, dir).1 == CheckedByName(tools, artifact)
  {
    var key := KeyOf(tools, artifact);
    if key.Ok? {
      DiskAgreesWithNames(tools.json, tools.cipher(key.value), artifact, fs, dir);
      var (fs', r) := DecryptToDisk(tools.json, tools.cipher(key.value), artifact, fs, dir);
      CheckedOnDisk(tools, artifact, key.value, fs, dir, fs', r);
    }
  }

  // With plain names the files outside the plaintext directory are left alone whatever the
  // checks say, and the checks see exactly what was read under each name.
  lemma PlainNamesAreRestoredByName(tools: Tools, artifact: Bytes, fs: Fs, dir: Path)
    requires HasPlainNames(tools.json, artifact, fs, dir) && MakeDir(fs, dir).Some?
    ensures var (fs', checked) := Checked(tools, artifact, fs, dir);
            && checked == CheckedByName(tools, artifact)
            && UntouchedOutside(fs', fs, dir) && Removed(fs', dir).files == Removed(fs, dir).files
  {
    var fs' := Checked(tools, artifact, fs, dir).0;
    var key := KeyOf(tools, artifact);
    if key.Ok? {
      var header := ReadHeader(tools.json, artifact).value;
      if header.components == [] {
        DecryptsByTheSameSteps(tools.json, tools.cipher(key.value), artifact);
      } else {
        PlainNamesAreSafe(tools.json, tools.cipher(key.value), artifact, fs, dir, header.components[1..]);
      }
    }
    UntouchedAfterCleaning(fs', fs, dir);
  }

  lemma UntouchedAfterCleaning(fs': Fs, fs: Fs, dir: Path)
    requires UntouchedOutside(fs', fs, dir)
    ensures Removed(fs', dir).files == Removed(fs, dir).files
  {
    var left, right := Removed(fs', dir).files, Removed(fs, dir).files;
    forall p ensures p in left <==> p in right {
      assert !(dir < p) ==> SameFile(fs', fs, p);
    }
    forall p | p in left ensures left[p] == right[p] {
      assert SameFile(fs', fs, p);
    }
  }

  // An artifact of a well-made backup with one more name and an empty component, opened with
  // its key. All data components of the backup have a place.
  ghost predicate AddsNameTo(
      tools: Tools, artifact: Bytes, backup: Backup, dek: Bytes, name: string, fs: Fs, dir: Path)
    requires backup.Valid()
  {
    && KeyOf(tools, artifact) == Ok(dek) && Opens(tools.cipher(dek), SealedLog(backup))
    && AddsName(tools.json, tools.cipher(dek), backup, name, artifact)
    && MakeDir(fs, dir).Some? && Place(Parents(fs.dirs, dir), dir, name).Some?
    && forall c | c in backup.components :: c.name != name && Place(Parents(fs.dirs, dir), dir, c.name).Some?
  }

  lemma AddedNamePassesByName(
      tools: Tools, artifact: Bytes, backup: Backup, pgdump: Bytes, files: Bytes, dek: Bytes,
      name: string, fs: Fs, dir: Path)
    requires WellMade(tools.parse, tools.sha, backup, pgdump, files)
    requires AddsNameTo(tools, artifact, backup, dek, name, fs, dir)
    ensures CheckedByName(tools, artifact).Ok?
  {
    AddedNameByName(tools.json, tools.cipher(dek), backup, name, artifact);
    assert backup.components[0] in backup.components && backup.components[1] in backup.components;
  }

  // If the added name leads below the restore root, a file there is created or emptied
  // before anything has been checked, and the restore is refused although everything
  // authenticated is genuine.
  lemma AddedNameReachesStorage(
      tools: Tools, artifact: Bytes, backup: Backup, pgdump: Bytes, files: Bytes, dek: Bytes,
      target: Target, p: Path, fs: Fs)
    requires WellMade(tools.parse, tools.sha, backup, pgdump, files)
    requires AddsNameTo(tools, artifact, backup, dek, AbsoluteName(p), fs, target.plaintextDir)
    requires target.root < p && IsReachablePath(Parents(fs.dirs, target.plaintextDir), p)
    ensures CheckedByName(tools, artifact).Ok?
    ensures var (fs', checked) := Checked(tools, artifact, fs, target.plaintextDir);
            IsEmptied(fs', p) && !IsEmptyRoot(fs', target.root)
  {
    var dir, aead, name := target.plaintextDir, tools.cipher(dek), AbsoluteName(p);
    AddedNamePassesByName(tools, artifact, backup, pgdump, files, dek, name, fs, dir);
    var (fs', r) := DecryptToDisk(tools.json, aead, artifact, fs, dir);
    AddedAbsoluteNameEmptiesPath(tools.json, aead, backup, p, artifact, fs, dir, fs', r);
    CheckedOnDisk(tools, artifact, dek, fs, dir, fs', r);
    FileFillsRoot(fs', target.root, p);
  }

  lemma FileFillsRoot(fs: Fs, root: Path, p: Path)
    requires p in fs.files && root < p
    ensures !IsEmptyRoot(fs, root)
  {
    assert p in fs.files.Keys + fs.dirs;
  }

  lemma CheckedOnDisk(
      tools: Tools, artifact: Bytes, dek: Bytes, fs: Fs, dir: Path, fs': Fs, stored: Option<Stored>)
    requires KeyOf(tools, artifact) == Ok(dek)
    requires DecryptToDisk(tools.json, tools.cipher(dek), artifact, fs, dir) == (fs', stored)
    ensures Checked(tools, artifact, fs, dir) ==
              (fs', Verdict(tools, if stored.None? then None else Some(Found(fs', stored.value))))
  {
  }

  // If the added name is an alias of the dump's, the dump is emptied, and the restore is
  // refused for its hash.
  lemma AliasEmptiesDump(
      tools: Tools, artifact: Bytes, backup: Backup, pgdump: Bytes, files: Bytes, dek: Bytes, fs: Fs, dir: Path)
    requires WellMade(tools.parse, tools.sha, backup, pgdump, files)
    requires AddsNameTo(tools, artifact, backup, dek, "./" + PGDUMP, fs, dir)
    requires pgdump != [] && CollisionFree(tools.sha)
    ensures CheckedByName(tools, artifact).Ok?
    ensures Checked(tools, artifact, fs, dir).1.Err?
  {
    var aead := tools.cipher(dek);
    AddedNamePassesByName(tools, artifact, backup, pgdump, files, dek, "./" + PGDUMP, fs, dir);
    var (fs', r) := DecryptToDisk(tools.json, aead, artifact, fs, dir);
    AddedNameEmptiesItsPlace(tools.json, aead, backup, "./" + PGDUMP, artifact, fs, dir, fs', r);
    assert Rejection(tools.parse, tools.sha, Found(fs', r.value)).Some? by {
      DumpIsFoundEmpty(tools.json, aead, artifact, fs, dir, fs', r.value);
      HollowDumpIsRejected(tools, backup, pgdump, files, Found(fs', r.value));
    }
    CheckedOnDisk(tools, artifact, dek, fs, dir, fs', r);
  }

  lemma DumpIsFoundEmpty(
      json: HeaderJson, aead: Aead, artifact: Bytes, fs: Fs, dir: Path, fs': Fs, stored: Stored)
    requires DecryptToDisk(json, aead, artifact, fs, dir) == (fs', Some(stored))
    requires var place := Place(Parents(fs.dirs, dir), dir, "./" + PGDUMP);
             place.Some? && IsEmptied(fs', place.value)
    ensures var found := Found(fs', stored).components;
            PGDUMP in found ==> found[PGDUMP] == []
  {
    PlacesOfStored(json, aead, artifact, fs, dir, fs', stored);
    assert dir == dir[..|dir|];
    AliasIsFoundEmpty(Parents(fs.dirs, dir), dir, fs', stored.paths, PGDUMP);
  }

  lemma AliasIsFoundEmpty(dirs: set<Path>, dir: Path, fs: Fs, paths: map<string, Path>, name: string)
    requires AtPlaces(dirs, dir, fs, paths) && dir in dirs && IsPlain(name)
    requires Place(dirs, dir, "./" + name).Some? && IsEmptied(fs, Place(dirs, dir, "./" + name).value)
    ensures name in paths ==> FileContents(fs, paths)[name] == []
  {
    AliasPlace(dirs, dir, name);
  }

  lemma HollowDumpIsRejected(tools: Tools, backup: Backup, pgdump: Bytes, files: Bytes, found: Decrypted)
    requires WellMade(tools.parse, tools.sha, backup, pgdump, files) && CollisionFree(tools.sha)
    requires found.manifest == backup.manifest && pgdump != []
    requires PGDUMP in found.components ==> found.components[PGDUMP] == []
    ensures Rejection(tools.parse, tools.sha, found).Some?
  {
    assert tools.sha([]) != tools.sha(pgdump);
  }
}
