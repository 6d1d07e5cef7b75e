// Restore-time reconciliation of the extracted files with the database, and the
// pruning of directories that are no longer needed.
module Reconcile {
  import opened Prelude
  import opened FileSystem

  // ---- The order `sorted` puts paths in -----------------------------------------------

  predicate TextLess(a: string, b: string) {
    b != "" && (a == "" || a[0] < b[0] || (a[0] == b[0] && TextLess(a[1..], b[1..])))
  }

  predicate PathLess(a: Path, b: Path) {
    b != [] && (a == [] || TextLess(a[0], b[0]) || (a[0] == b[0] && PathLess(a[1..], b[1..])))
  }

  // Texts are ordered by the first character that differs, a beginning before the whole.
  lemma {:induction false} TextLessMeans(a: string, b: string)
    ensures TextLess(a, b) <==>
              exists k :: 0 <= k <= |a| && k < |b| && a[..k] == b[..k] && (k == |a| || a[k] < b[k])
  {
    if a != "" && b != "" {
      TextLessMeans(a[1..], b[1..]);
      if a[0] == b[0] {
        if k :| 0 <= k <= |a[1..]| && k < |b[1..]| && a[1..][..k] == b[1..][..k]
                && (k == |a[1..]| || a[1..][k] < b[1..][k]) {
          assert a[..k + 1] == [a[0]] + a[1..][..k] && b[..k + 1] == [b[0]] + b[1..][..k];
        }
        if k :| 0 <= k <= |a| && k < |b| && a[..k] == b[..k] && (k == |a| || a[k] < b[k]) {
          assert k > 0 && a[1..][..k - 1] == a[..k][1..] && b[1..][..k - 1] == b[..k][1..];
          assert a[1..][..k - 1] == b[1..][..k - 1];
          assert k - 1 < |a[1..]| ==> a[1..][k - 1] == a[k];
          assert b[1..][k - 1] == b[k];
        }
      } else {
        assert a[..0] == b[..0];
        forall k | 0 < k <= |a| && k < |b| ensures a[..k] != b[..k] {
          assert a[..k][0] != b[..k][0];
        }
      }
    } else if b != "" {
      assert a[..0] == b[..0];
    }
  }

  // And paths by the first segment that differs, a directory before what lies below it.
  lemma {:induction false} PathLessMeans(a: Path, b: Path)
    ensures PathLess(a, b) <==>
              exists k :: 0 <= k <= |a| && k < |b| && a[..k] == b[..k] && (k == |a| || TextLess(a[k], b[k]))
  {
    if a != [] && b != [] {
      PathLessMeans(a[1..], b[1..]);
      TextOrderIsIrreflexive(a[0]);
      if a[0] == b[0] {
        if k :| 0 <= k <= |a[1..]| && k < |b[1..]| && a[1..][..k] == b[1..][..k]
                && (k == |a[1..]| || TextLess(a[1..][k], b[1..][k])) {
          assert a[..k + 1] == [a[0]] + a[1..][..k] && b[..k + 1] == [b[0]] + b[1..][..k];
        }
        if k :| 0 <= k <= |a| && k < |b| && a[..k] == b[..k] && (k == |a| || TextLess(a[k], b[k])) {
          assert k > 0 && a[1..][..k - 1] == a[..k][1..] && b[1..][..k - 1] == b[..k][1..];
          assert a[1..][..k - 1] == b[1..][..k - 1];
          assert k - 1 < |a[1..]| ==> a[1..][k - 1] == a[k];
          assert b[1..][k - 1] == b[k];
        }
      } else {
        assert a[..0] == b[..0];
        forall k | 0 < k <= |a| && k < |b| ensures a[..k] != b[..k] {
          assert a[..k][0] != b[..k][0];
        }
      }
    } else if b != [] {
      assert a[..0] == b[..0];
    }
  }

  lemma {:induction false} TextOrderIsTotal(a: string, b: string)
    ensures a == b || TextLess(a, b) || TextLess(b, a)
  {
    if a != "" && b != "" && a[0] == b[0] {
      TextOrderIsTotal(a[1..], b[1..]);
      assert a == [a[0]] + a[1..] && b == [b[0]] + b[1..];
    }
  }

  lemma {:induction false} TextOrderIsTransitive(a: string, b: string, c: string)
    requires TextLess(a, b) && TextLess(b, c)
    ensures TextLess(a, c)
  {
    if a != "" && a[0] == b[0] == c[0] {
      TextOrderIsTransitive(a[1..], b[1..], c[1..]);
    }
  }

  lemma {:induction false} TextOrderIsIrreflexive(a: string)
    ensures !TextLess(a, a)
  {
    if a != "" {
      TextOrderIsIrreflexive(a[1..]);
    }
  }

  lemma {:induction false} PathOrderIsTotal(a: Path, b: Path)
    ensures a == b || PathLess(a, b) || PathLess(b, a)
  {
    if a != [] && b != [] {
      TextOrderIsTotal(a[0], b[0]);
      if a[0] == b[0] {
        PathOrderIsTotal(a[1..], b[1..]);
        assert a == [a[0]] + a[1..] && b == [b[0]] + b[1..];
      }
    }
  }

  lemma {:induction false} PathOrderIsTransitive(a: Path, b: Path, c: Path)
    requires PathLess(a, b) && PathLess(b, c)
    ensures PathLess(a, c)
  {
    if a != [] {
      if TextLess(a[0], b[0]) && TextLess(b[0], c[0]) {
        TextOrderIsTransitive(a[0], b[0], c[0]);
      } else if a[0] == b[0] == c[0] && PathLess(a[1..], b[1..]) && PathLess(b[1..], c[1..]) {
        PathOrderIsTransitive(a[1..], b[1..], c[1..]);
      }
    }
  }

  lemma {:induction false} PathOrderIsIrreflexive(a: Path)
    ensures !PathLess(a, a)
  {
    if a != [] {
      TextOrderIsIrreflexive(a[0]);
      PathOrderIsIrreflexive(a[1..]);
    }
  }

  // An ancestor sorts before everything below it.
  lemma {:induction false} AncestorsSortFirst(a: Path, b: Path)
    requires a < b
    ensures PathLess(a, b)
  {
    if a != [] {
      AncestorsSortFirst(a[1..], b[1..]);
    }
  }

  ghost predicate IsGreatest(p: Path, s: set<Path>) {
    p in s && forall q | q in s && q != p :: PathLess(q, p)
  }

  ghost predicate IsLeast(p: Path, s: set<Path>) {
    p in s && forall q | q in s && q != p :: PathLess(p, q)
  }

  lemma {:induction false} ExtremesExist(s: set<Path>) returns (least: Path, greatest: Path)
    requires s != {}
    ensures IsLeast(least, s) && IsGreatest(greatest, s)
    decreases |s|
  {
    var p :| p in s;
    if s == {p} {
      least, greatest := p, p;
    } else {
      var rest := s - {p};
      var l, g := ExtremesExist(rest);
      PathOrderIsTotal(p, l);
      PathOrderIsTotal(p, g);
      least := if PathLess(p, l) then p else l;
      greatest := if PathLess(g, p) then p else g;
      forall q | q in s && q != least ensures PathLess(least, q) {
        if least == p && q != l {
          PathOrderIsTransitive(p, l, q);
        }
      }
      forall q | q in s && q != greatest ensures PathLess(q, greatest) {
        if greatest == p && q != g {
          PathOrderIsTransitive(q, g, p);
        }
      }
    }
  }

  ghost predicate Sorted(ps: seq<Path>) {
    forall i, j | 0 <= i < j < |ps| :: PathLess(ps[i], ps[j])
  }

  lemma SortedSnoc(ps: seq<Path>, p: Path)
    requires Sorted(ps) && forall q | q in ps :: PathLess(q, p)
    ensures Sorted(ps + [p])
  {
  }

  // ---- Storage ------------------------------------------------------------------------------

  // Paths are relative to the storage root, which itself is the empty path. Every file and
  // directory lies in directories up to the root.
  ghost predicate IsTree(files: set<Path>, dirs: set<Path>) {
    && [] !in files && [] !in dirs && files !! dirs
    && forall p, n | p in files + dirs && 0 < n < |p| :: p[..n] in dirs
  }

  // What still needs directory d: a file below it, or a directory at or below it that
  // the file system refuses to remove.
  ghost predicate Needed(d: Path, files: set<Path>, stuck: set<Path>) {
    (exists f :: f in files && d < f) || (exists s :: s in stuck && d <= s)
  }

  predicate IsChild(c: Path, d: Path) {
    |c| == |d| + 1 && d < c
  }

  // With all deeper directories settled, a directory can be removed exactly when it is
  // not needed.
  lemma RemovableExactlyWhenNotNeeded(
      d: Path, files: set<Path>, all: set<Path>, dirs: set<Path>, stuck: set<Path>)
    requires IsTree(files, all) && d in all && stuck <= all && dirs <= all
    requires forall c | c in all && d < c :: c in dirs <==> Needed(c, files, stuck)
    ensures (d !in stuck && forall c | c in files + dirs :: !IsChild(c, d)) <==> !Needed(d, files, stuck)
  {
    if f :| f in files && d < f {
      var c := f[..|d| + 1];
      assert IsChild(c, d);
      if c != f {
        assert c in all && c < f && Needed(c, files, stuck);
      } else {
        assert c in files + dirs;
      }
    } else if s :| s in stuck && d <= s {
      if d != s {
        var c := s[..|d| + 1];
        assert IsChild(c, d) && c <= s;
        assert c in all by {
          if c != s {
            assert s in files + all;
          }
        }
        assert Needed(c, files, stuck);
      }
    }
    if c :| c in files + dirs && IsChild(c, d) {
      assert c in dirs ==> Needed(c, files, stuck);
      assert Needed(d, files, stuck);
    }
  }

  datatype Summary = Summary(referenced: nat, present: nat, orphansRemoved: seq<Path>)

  class Storage {
    var files: set<Path>
    var dirs: set<Path>

    constructor ()
      ensures files == {} && dirs == {}
    {
      files, dirs := {}, {};
    }

    // Unlink the orphans in sorted order; the first failure stops the restore.
    method RemoveOrphans(orphans: set<Path>, undeletable: set<Path>) returns (removed: Option<seq<Path>>)
      requires orphans <= files
      modifies this`files
      ensures removed.Some? <==> orphans * undeletable == {}
      ensures removed.Some? ==> files == old(files) - orphans
      ensures removed.Some? ==> Sorted(removed.value) && forall p :: p in removed.value <==> p in orphans
      ensures removed.None? ==>
                exists first :: IsLeast(first, orphans * undeletable) &&
                  files == old(files) - (set p | p in orphans && PathLess(p, first))
    {
      var todo, done: seq<Path> := orphans, [];
      while todo != {}
        invariant todo <= orphans && files == old(files) - (orphans - todo)
        invariant forall p :: p in done <==> p in orphans - todo
        invariant orphans * undeletable <= todo && Sorted(done)
        invariant forall p, q | p in done && q in todo :: PathLess(p, q)
        decreases |todo|
      {
        ghost var l, g := ExtremesExist(todo);
        var orphan :| orphan in todo && forall q | q in todo && q != orphan :: PathLess(orphan, q);
        if orphan in undeletable {
          forall p | p in orphans ensures PathLess(p, orphan) <==> p !in todo {
            if p in todo && PathLess(p, orphan) {
              PathOrderIsIrreflexive(orphan);
              if p != orphan {
                PathOrderIsTransitive(orphan, p, orphan);
              }
            }
          }
          assert IsLeast(orphan, orphans * undeletable);
          assert files == old(files) - (set p | p in orphans && PathLess(p, orphan));
          return None;
        }
        files := files - {orphan};
        todo := todo - {orphan};
        SortedSnoc(done, orphan);
        done := done + [orphan];
      }
      assert orphans * undeletable == {};
      return Some(done);
    }

    // `_prune_empty_dirs`: directories in reverse sorted order, each removed if it can be.
    method PruneEmptyDirs(stuck: set<Path>)
      requires IsTree(files, dirs) && stuck <= dirs
      modifies this`dirs
      ensures dirs == set d | d in old(dirs) && Needed(d, files, stuck)
    {
      ghost var all := dirs;
      var todo := dirs;
      while todo != {}
        invariant todo <= dirs <= all
        invariant forall d | d in all - todo :: d in dirs <==> Needed(d, files, stuck)
        invariant forall d, e | d in todo && e in all - todo :: PathLess(d, e)
        decreases |todo|
      {
        ghost var l, g := ExtremesExist(todo);
        var d :| d in todo && forall q | q in todo && q != d :: PathLess(q, d);
        forall c | c in all && d < c ensures c in dirs <==> Needed(c, files, stuck) {
          AncestorsSortFirst(d, c);
          if c in todo {
            PathOrderIsTransitive(d, c, d);
            PathOrderIsIrreflexive(d);
          }
        }
        RemovableExactlyWhenNotNeeded(d, files, all, dirs, stuck);
        if d !in stuck && forall c | c in files + dirs :: !IsChild(c, d) {
          dirs := dirs - {d};
        }
        todo := todo - {d};
      }
    }

    // `reconcile_files`. Success says the surviving files are exactly the referenced
    // ones and the remaining directories exactly their ancestors (and those of
    // directories that could not be removed).
    method ReconcileFiles(keys: seq<Path>, importSubdir: Path, undeletable: set<Path>, stuck: set<Path>)
      returns (r: Result<Summary, string>)
      requires IsTree(files, dirs) && stuck <= dirs
      modifies this
      ensures var referenced := Referenced(keys, importSubdir);
              && (r.Ok? <==> referenced <= old(files) && (old(files) - referenced) * undeletable == {})
              && (r.Ok? ==> files == referenced &&
                            dirs == (set d | d in old(dirs) && Needed(d, referenced, stuck)) &&
                            r.value.referenced == |referenced| && r.value.present == |old(files)| &&
                            Sorted(r.value.orphansRemoved) &&
                            forall p :: p in r.value.orphansRemoved <==> p in old(files) - referenced)
              && (forall p :: p in referenced <==>
                    importSubdir <= p && exists k :: k in keys && k == p[|importSubdir|..])
              && (r == Err("RESTORE_MISSING_REFERENCED_FILE") <==>
                    !(referenced <= old(files)) && (old(files) - referenced) * undeletable == {})
              && (r == Err("RESTORE_MISSING_REFERENCED_FILE") ==>
                    files == old(files) * referenced &&
                    dirs == (set d | d in old(dirs) && Needed(d, files, stuck)))
              && ((old(files) - referenced) * undeletable != {} ==>
                    r == Err("RESTORE_ORPHAN_CLEANUP_FAILED") && dirs == old(dirs) &&
                    exists first ::
                      IsLeast(first, (old(files) - referenced) * undeletable) &&
                      files == old(files) - (set p | p in old(files) - referenced && PathLess(p, first)))
    {
      var referenced := Referenced(keys, importSubdir);
      forall p
        ensures p in referenced <==>
                  importSubdir <= p && exists k :: k in keys && k == p[|importSubdir|..]
      {
        ReferencedMeans(keys, importSubdir, p);
      }
      var present := files;
      var missing := referenced - present;
      var orphans := present - referenced;
      var removed := RemoveOrphans(orphans, undeletable);
      if removed.None? {
        return Err("RESTORE_ORPHAN_CLEANUP_FAILED");
      }
      assert files == present * referenced;
      PruneEmptyDirs(stuck);
      if missing != {} {
        return Err("RESTORE_MISSING_REFERENCED_FILE");
      }
      assert forall p | p in referenced :: p in present || p in missing;
      return Ok(Summary(|referenced|, |present|, removed.value));
    }
  }

  // `import_root / key` for every key the database references.
  function Referenced(keys: seq<Path>, importSubdir: Path): set<Path> {
    set k | k in keys :: importSubdir + k
  }

  // A file is referenced when it lies in the import directory and a key names it there.
  lemma ReferencedMeans(keys: seq<Path>, importSubdir: Path, p: Path)
    ensures p in Referenced(keys, importSubdir) <==>
              importSubdir <= p && exists k :: k in keys && p == importSubdir + k
  {
    if p in Referenced(keys, importSubdir) {
      var k :| k in keys && p == importSubdir + k;
    }
  }

  // When nothing is stuck, what remains is a tree without empty directories.
  lemma NoEmptyDirectoryRemains(files: set<Path>, all: set<Path>, dirs: set<Path>, d: Path)
    requires IsTree(files, all) && dirs == set e | e in all && Needed(e, files, {})
    requires d in dirs
    ensures IsTree(files, dirs) && exists c :: c in files + dirs && IsChild(c, d)
  {
    assert Needed(d, files, {});
    var f :| f in files && d < f;
    var c := f[..|d| + 1];
    assert IsChild(c, d);
    if c != f {
      assert f in files + all && c in all && c < f && Needed(c, files, {});
    }
    assert c in files + dirs;
    forall p, n | p in files + dirs && 0 < n < |p| ensures p[..n] in dirs {
      assert p in files + all && p[..n] in all;
      if p in files {
        assert p[..n] < p;
      } else {
        var g :| g in files && p < g;
        assert p[..n] < g;
      }
      assert Needed(p[..n], files, {});
    }
  }
}
