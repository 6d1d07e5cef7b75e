// Files and directories as values, and the place a name leads to when it is joined to a
// directory and opened for writing.
module FileSystem {
  import opened Prelude

  // The segments below a root, which itself is the empty path.
  type Path = seq<string>

  datatype Fs = Fs(files: map<Path, Bytes>, dirs: set<Path>)

  function WithFile(fs: Fs, p: Path, content: Bytes): Fs {
    fs.(files := fs.files[p := content])
  }

  class Disk {
    var fs: Fs

    constructor (fs: Fs)
      ensures this.fs == fs
    {
      this.fs := fs;
    }

    // Opening a path for writing creates the file or empties it.
    method Truncate(p: Path)
      modifies this
      ensures fs == WithFile(old(fs), p, [])
    {
      fs := WithFile(fs, p, []);
    }

    method Append(p: Path, b: Bytes)
      requires p in fs.files
      modifies this
      ensures fs == WithFile(old(fs), p, old(fs).files[p] + b)
    {
      fs := WithFile(fs, p, fs.files[p] + b);
    }
  }

  lemma FileIsThere(fs: Fs, p: Path, content: Bytes)
    requires p in fs.files && fs.files[p] == content
    ensures fs == WithFile(fs, p, content)
  {
    assert fs.files == fs.files[p := content];
  }

  lemma AppendToFile(fs: Fs, p: Path, content: Bytes, more: Bytes)
    ensures var with := WithFile(fs, p, content);
            && p in with.files && with.files[p] == content
            && WithFile(with, p, content + more) == WithFile(fs, p, content + more)
  {
    assert fs.files[p := content][p := content + more] == fs.files[p := content + more];
  }

  // `mkdir(parents=True, exist_ok=True)`; None when a file is in the way.
  function MakeDir(fs: Fs, dir: Path): Option<Fs> {
    if exists n :: 0 <= n <= |dir| && dir[..n] in fs.files then None
    else Some(fs.(dirs := Parents(fs.dirs, dir)))
  }

  function Parents(dirs: set<Path>, dir: Path): set<Path> {
    dirs + set n | 0 <= n <= |dir| :: dir[..n]
  }

  // `rmtree`.
  function Removed(fs: Fs, dir: Path): Fs {
    Fs(map p | p in fs.files && !(dir <= p) :: fs.files[p], set p | p in fs.dirs && !(dir <= p))
  }

  // Exactly what lies at or below the directory is gone.
  lemma RemovedMeans(fs: Fs, dir: Path, p: Path)
    ensures p in Removed(fs, dir).files <==> p in fs.files && !(dir <= p)
    ensures p in Removed(fs, dir).files ==> Removed(fs, dir).files[p] == fs.files[p]
    ensures p in Removed(fs, dir).dirs <==> p in fs.dirs && !(dir <= p)
  {
  }

  // The directory and those above it are its prefixes.
  lemma ParentsMeans(dirs: set<Path>, dir: Path, p: Path)
    ensures p in Parents(dirs, dir) <==> p in dirs || p <= dir
  {
    assert p <= dir ==> p == dir[..|p|];
  }

  // Making a directory adds it and those above it, and fails exactly for a file among them.
  lemma MakeDirMeans(fs: Fs, dir: Path)
    ensures MakeDir(fs, dir).None? <==> exists p :: p in fs.files && p <= dir
    ensures MakeDir(fs, dir).Some? ==>
              && MakeDir(fs, dir).value.files == fs.files
              && forall p :: p in MakeDir(fs, dir).value.dirs <==> p in fs.dirs || p <= dir
  {
    forall p | p in Parents(fs.dirs, dir) || p in fs.dirs || p <= dir
      ensures p in Parents(fs.dirs, dir) <==> p in fs.dirs || p <= dir
    {
      ParentsMeans(fs.dirs, dir, p);
    }
    if p :| p in fs.files && p <= dir {
      assert dir[..|p|] == p;
    }
  }

  // ---- Where a name leads ---------------------------------------------------------------

  // The name split at its slashes.
  function Segments(name: string): (r: seq<string>)
    ensures r != []
  {
    if name == "" then [""]
    else
      var rest := Segments(name[1..]);
      if name[0] == '/' then [""] + rest else [[name[0]] + rest[0]] + rest[1..]
  }

  // Walking along segments from `at`: empty ones and "." stay, ".." goes up, and whatever
  // is walked through must be a directory.
  function Walk(dirs: set<Path>, at: Path, segments: seq<string>): Option<Path>
    decreases |segments|
  {
    if segments == [] then Some(at)
    else if segments[0] in {"", "."} then Walk(dirs, at, segments[1..])
    else if at !in dirs then None
    else if segments[0] == ".." then Walk(dirs, at[..Max(|at| - 1, 0)], segments[1..])
    else Walk(dirs, at + [segments[0]], segments[1..])
  }

  // The segments are the name's parts between its slashes.
  lemma {:induction false} SegmentsRejoin(name: string)
    ensures Join(Segments(name), "/") == name
    ensures forall i | 0 <= i < |Segments(name)| :: '/' !in Segments(name)[i]
  {
    if name != "" {
      SegmentsRejoin(name[1..]);
      var rest := Segments(name[1..]);
      if name[0] == '/' {
        assert ([""] + rest)[1..] == rest;
      } else {
        var longer := [[name[0]] + rest[0]] + rest[1..];
        assert longer[1..] == rest[1..];
      }
    }
  }

  // One step of a walk.
  ghost predicate StepsTo(dirs: set<Path>, p: Path, segment: string, q: Path) {
    if segment == "" || segment == "." then q == p
    else p in dirs && if segment == ".." then q == (if p == [] then [] else p[..|p| - 1]) else q == p + [segment]
  }

  ghost predicate IsTrail(dirs: set<Path>, at: Path, segments: seq<string>, p: Path, trail: seq<Path>) {
    && |trail| == |segments| + 1 && trail[0] == at && trail[|segments|] == p
    && forall i | 0 <= i < |segments| :: StepsTo(dirs, trail[i], segments[i], trail[i + 1])
  }

  // A walk ends somewhere exactly when steps lead there, through directories only.
  lemma {:induction false} WalkFollowsTrail(dirs: set<Path>, at: Path, segments: seq<string>, p: Path)
    ensures Walk(dirs, at, segments) == Some(p) <==> exists trail :: IsTrail(dirs, at, segments, p, trail)
    decreases |segments|
  {
    if segments == [] {
      assert at == p ==> IsTrail(dirs, at, segments, p, [at]);
    } else {
      forall q | StepsTo(dirs, at, segments[0], q)
        ensures Walk(dirs, at, segments) == Walk(dirs, q, segments[1..])
        ensures Walk(dirs, q, segments[1..]) == Some(p) <==> exists trail :: IsTrail(dirs, q, segments[1..], p, trail)
      {
        WalkFollowsTrail(dirs, q, segments[1..], p);
      }
      if Walk(dirs, at, segments) == Some(p) {
        var q := if segments[0] in {"", "."} then at
                 else if segments[0] == ".." then at[..Max(|at| - 1, 0)] else at + [segments[0]];
        assert StepsTo(dirs, at, segments[0], q);
        var trail :| IsTrail(dirs, q, segments[1..], p, trail);
        assert IsTrail(dirs, at, segments, p, [at] + trail);
      }
      if trail :| IsTrail(dirs, at, segments, p, trail) {
        assert StepsTo(dirs, at, segments[0], trail[1]);
        assert IsTrail(dirs, trail[1], segments[1..], p, trail[1..]);
      }
    }
  }

  // The file that opening `dir / name` for writing creates or empties; an absolute name
  // replaces the directory. None when there is no such place or it is a directory.
  function Place(dirs: set<Path>, dir: Path, name: string): (p: Option<Path>)
    ensures p.Some? ==> p.value !in dirs
  {
    var start := if name != "" && name[0] == '/' then [] else dir;
    match Walk(dirs, start, Segments(name))
    case None => None
    case Some(p) => if p in dirs then None else Some(p)
  }

  // A single path segment that names an entry.
  predicate IsPlain(name: string) {
    name !in {"", ".", ".."} && '/' !in name
  }

  lemma {:induction false} SegmentsOfOne(name: string)
    requires '/' !in name
    ensures Segments(name) == [name]
  {
    if name != "" {
      assert name[0] in name && forall c | c in name[1..] :: c in name;
      SegmentsOfOne(name[1..]);
      assert [name[0]] + name[1..] == name;
    }
  }

  lemma {:induction false} SegmentsCons(first: string, rest: string)
    requires '/' !in first
    ensures Segments(first + "/" + rest) == [first] + Segments(rest)
  {
    var name := first + "/" + rest;
    if first == "" {
      assert name[0] == '/' && name[1..] == rest;
    } else {
      assert first[0] in first && forall c | c in first[1..] :: c in first;
      assert name[0] == first[0] && name[1..] == first[1..] + "/" + rest;
      SegmentsCons(first[1..], rest);
      assert [first[0]] + first[1..] == first;
    }
  }

  // A plain name leads into the directory it is joined to.
  lemma PlainPlace(dirs: set<Path>, dir: Path, name: string)
    requires IsPlain(name) && dir in dirs
    ensures Place(dirs, dir, name) == if dir + [name] in dirs then None else Some(dir + [name])
  {
    SegmentsOfOne(name);
    assert name[0] in name;
    assert [name][1..] == [];
    assert Walk(dirs, dir, [name]) == Walk(dirs, dir + [name], []);
  }

  // "./" before a plain name is an alias of it.
  lemma AliasPlace(dirs: set<Path>, dir: Path, name: string)
    requires IsPlain(name) && dir in dirs
    ensures "./" + name != name && Place(dirs, dir, "./" + name) == Place(dirs, dir, name)
  {
    assert |"./" + name| == |name| + 2;
    assert "./" + name == "." + "/" + name;
    SegmentsCons(".", name);
    SegmentsOfOne(name);
    assert name[0] in name;
    assert (["."] + [name])[1..] == [name];
  }

  // "../" before a plain name leads beside the directory.
  lemma ParentPlace(dirs: set<Path>, parent: Path, own: string, name: string)
    requires IsPlain(name) && parent in dirs && parent + [own] in dirs && parent + [name] !in dirs
    ensures Place(dirs, parent + [own], "../" + name) == Some(parent + [name])
  {
    var dir := parent + [own];
    assert "../" + name == ".." + "/" + name;
    SegmentsCons("..", name);
    SegmentsOfOne(name);
    assert ([".."] + [name])[1..] == [name] && [name][1..] == [];
    assert dir[..|dir| - 1] == parent;
    assert Walk(dirs, dir, [".."] + [name]) == Walk(dirs, parent, [name]);
    assert Walk(dirs, parent, [name]) == Walk(dirs, parent + [name], []);
  }

  // The absolute name of a path.
  function AbsoluteName(p: Path): string {
    if p == [] then "" else "/" + p[0] + AbsoluteName(p[1..])
  }

  lemma {:induction false} WalkAlong(dirs: set<Path>, at: Path, p: Path)
    requires forall i | 0 <= i < |p| :: IsPlain(p[i])
    requires forall n | 0 <= n < |p| :: at + p[..n] in dirs
    ensures Walk(dirs, at, p) == Some(at + p)
    decreases |p|
  {
    if p != [] {
      assert at + p[..0] == at && IsPlain(p[0]);
      var next := at + [p[0]];
      forall n | 0 <= n < |p[1..]| ensures next + p[1..][..n] in dirs {
        assert next + p[1..][..n] == at + p[..n + 1];
      }
      WalkAlong(dirs, next, p[1..]);
      assert next + p[1..] == at + p;
    } else {
      assert at + p == at;
    }
  }

  lemma {:induction false} SegmentsOfAbsolute(first: string, p: Path)
    requires '/' !in first && forall i | 0 <= i < |p| :: IsPlain(p[i])
    ensures Segments(first + AbsoluteName(p)) == [first] + p
    decreases |p|
  {
    if p == [] {
      SegmentsOfOne(first);
      assert first + "" == first && [first] + p == [first];
    } else {
      assert IsPlain(p[0]);
      var rest := p[0] + AbsoluteName(p[1..]);
      SegmentsOfAbsolute(p[0], p[1..]);
      assert Segments(rest) == p;
      SegmentsCons(first, rest);
      SlashesAssociate(first, p);
    }
  }

  lemma SlashesAssociate(first: string, p: Path)
    requires p != []
    ensures first + AbsoluteName(p) == first + "/" + (p[0] + AbsoluteName(p[1..]))
  {
    AppendAssociates("/", p[0], AbsoluteName(p[1..]));
    AppendAssociates(first, "/", p[0] + AbsoluteName(p[1..]));
  }

  // A path in an existing directory that is none itself.
  ghost predicate IsReachablePath(dirs: set<Path>, p: Path) {
    && p != [] && p !in dirs && (forall i | 0 <= i < |p| :: IsPlain(p[i]))
    && forall n | 0 <= n < |p| :: p[..n] in dirs
  }

  // An absolute name leads to its own path, whatever directory it is joined to.
  lemma AbsolutePlace(dirs: set<Path>, dir: Path, p: Path)
    requires IsReachablePath(dirs, p)
    ensures Place(dirs, dir, AbsoluteName(p)) == Some(p)
  {
    var name := AbsoluteName(p);
    assert name[0] == '/' && Segments(name) == [""] + p by {
      SegmentsOfAbsolute("", p);
      assert "" + name == name;
    }
    assert Walk(dirs, [], p) == Some(p) by {
      forall n | 0 <= n < |p| ensures [] + p[..n] in dirs {
        assert [] + p[..n] == p[..n];
      }
      WalkAlong(dirs, [], p);
      assert [] + p == p;
    }
    assert Walk(dirs, [], [""] + p) == Walk(dirs, [], p) by {
      assert ([""] + p)[0] == "" && ([""] + p)[1..] == p;
    }
  }
}
