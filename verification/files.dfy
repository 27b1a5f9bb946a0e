/**
 * The part of the POSIX filesystem the handlers touch: directories, regular
 * files with their bytes, and the scratch directories made by `tempfile`.
 * Symbolic links, permissions and I/O errors other than a missing or
 * clashing directory are not modelled.
 */
module Files {
  import opened Wrappers
  import opened Pathlib

  newtype byte = x: int | 0 <= x < 256

  type Bytes = seq<byte>

  /** A place in the directory tree: its components from the root, after the OS has resolved `..`. */
  type Location = seq<string>

  /** A location spelled without `.`, `..` or empty components. */
  predicate Resolved(loc: Location) {
    forall k :: 0 <= k < |loc| ==> IsPart(loc[k]) && loc[k] != ".."
  }

  /** `loc` is `dir` itself or lies somewhere below it. */
  predicate Within(loc: Location, dir: Location) {
    dir <= loc
  }

  /** The directory holding `loc`; the root is its own parent. */
  function Up(loc: Location): Location {
    if loc == [] then [] else loc[..|loc| - 1]
  }

  /**
   * The directory the OS reaches from `cur` by following `comps`: `..` climbs one
   * level (and stays at the root), every other component must name an existing
   * directory. None when a component is missing.
   */
  function Walk(dirs: set<Location>, cur: Location, comps: seq<string>): Option<Location>
    decreases |comps|
  {
    if comps == [] then Some(cur)
    else if comps[0] == ".." then Walk(dirs, Up(cur), comps[1..])
    else if cur + [comps[0]] in dirs then Walk(dirs, cur + [comps[0]], comps[1..])
    else None
  }

  /**
   * The regular file that opening the absolute path `p` for writing creates or
   * truncates; None when the OS refuses: no final component, a missing directory
   * on the way, or a final component that names a directory.
   */
  function WriteTarget(dirs: set<Location>, p: PurePath): Option<Location>
    requires p.rooted
  {
    if p.parts == [] then None
    else
      var last := p.parts[|p.parts| - 1];
      if last == ".." then None
      else match Walk(dirs, [], p.parts[..|p.parts| - 1])
        case None => None
        case Some(dir) => if dir + [last] in dirs then None else Some(dir + [last])
  }

  /** A file that can be written is named after the path's final component. */
  lemma WriteTargetName(dirs: set<Location>, p: PurePath)
    requires p.rooted && WriteTarget(dirs, p).Some?
    ensures var t := WriteTarget(dirs, p).value; t != [] && t[|t| - 1] == p.parts[|p.parts| - 1]
  {
  }

  /** Without `..`, walking only descends: the result is `cur` followed by the components. */
  lemma {:induction false} WalkDescends(dirs: set<Location>, cur: Location, comps: seq<string>)
    requires ".." !in comps
    requires Walk(dirs, cur, comps).Some?
    ensures Walk(dirs, cur, comps) == Some(cur + comps)
    decreases |comps|
  {
    if comps != [] {
      assert comps[0] in comps;
      assert forall c :: c in comps[1..] ==> c in comps;
      assert Walk(dirs, cur, comps) == Walk(dirs, cur + [comps[0]], comps[1..]);
      WalkDescends(dirs, cur + [comps[0]], comps[1..]);
      assert cur + [comps[0]] + comps[1..] == cur + comps;
    } else {
      assert cur + comps == cur;
    }
  }

  /** Walking `a + b` is walking `a`, then `b` from wherever `a` led. */
  lemma {:induction false} WalkAppend(dirs: set<Location>, cur: Location, a: seq<string>, b: seq<string>)
    ensures Walk(dirs, cur, a + b) ==
      match Walk(dirs, cur, a)
      case None => None
      case Some(mid) => Walk(dirs, mid, b)
    decreases |a|
  {
    if a == [] {
      assert a + b == b;
    } else {
      assert (a + b)[0] == a[0] && (a + b)[1..] == a[1..] + b;
      if a[0] == ".." {
        WalkAppend(dirs, Up(cur), a[1..], b);
      } else if cur + [a[0]] in dirs {
        WalkAppend(dirs, cur + [a[0]], a[1..], b);
      }
    }
  }

  /** A walk that succeeds keeps succeeding, with the same result, once more directories exist. */
  lemma {:induction false} WalkMonotone(dirs: set<Location>, more: set<Location>, cur: Location, comps: seq<string>)
    requires dirs <= more
    requires Walk(dirs, cur, comps).Some?
    ensures Walk(more, cur, comps) == Walk(dirs, cur, comps)
    decreases |comps|
  {
    if comps != [] {
      if comps[0] == ".." {
        WalkMonotone(dirs, more, Up(cur), comps[1..]);
      } else {
        WalkMonotone(dirs, more, cur + [comps[0]], comps[1..]);
      }
    }
  }

  /** Every directory on the way from the root to `dir` exists. */
  predicate Reachable(dirs: set<Location>, dir: Location) {
    Walk(dirs, [], dir) == Some(dir)
  }

  /** Walking through a resolved location succeeds exactly when each of its ancestors exists. */
  lemma {:induction false} ReachableChild(dirs: set<Location>, dir: Location, name: string)
    requires Reachable(dirs, dir) && name != ".."
    ensures Walk(dirs, [], dir + [name]) == (if dir + [name] in dirs then Some(dir + [name]) else None)
  {
    WalkAppend(dirs, [], dir, [name]);
  }

  /**
   * An upload path joined to a reachable directory without `..` or a leading `/`
   * can only land strictly below that directory.
   */
  lemma {:induction false} RelativeWriteStaysWithin(dirs: set<Location>, dir: Location, rel: PurePath)
    requires Reachable(dirs, dir)
    requires !rel.rooted && rel.parts != [] && ".." !in rel.parts
    requires WriteTarget(dirs, Join(PurePath(true, dir), rel)).Some?
    ensures var t := WriteTarget(dirs, Join(PurePath(true, dir), rel)).value;
      t == dir + rel.parts && Within(t, dir) && t != dir
  {
    var parts := dir + rel.parts;
    var prefix := rel.parts[..|rel.parts| - 1];
    var last := rel.parts[|rel.parts| - 1];
    assert Join(PurePath(true, dir), rel).parts == parts;
    assert parts[..|parts| - 1] == dir + prefix && parts[|parts| - 1] == last;
    assert Walk(dirs, [], dir + prefix) == Some(dir + prefix) by {
      WalkAppend(dirs, [], dir, prefix);
      assert ".." !in prefix by {
        assert forall c :: c in prefix ==> c in rel.parts;
      }
      WalkDescends(dirs, dir, prefix);
    }
    assert dir + prefix + [last] == parts;
  }

  /** A reachable directory other than the root exists. */
  lemma ReachableExists(dirs: set<Location>, dir: Location)
    requires Reachable(dirs, dir) && Resolved(dir) && dir != []
    ensures dir in dirs
  {
    var last := dir[|dir| - 1];
    assert Up(dir) + [last] == dir;
    WalkAppend(dirs, [], Up(dir), [last]);
    assert last != "..";
  }

  /** A leading `..` in the upload name writes next to the directory, not inside it. */
  lemma ParentRelativeWriteEscapes(dirs: set<Location>, dir: Location, name: string)
    requires Reachable(dirs, dir) && Resolved(dir) && dir != []
    requires IsPart(name) && name != ".." && Up(dir) + [name] !in dirs
    ensures WriteTarget(dirs, Join(PurePath(true, dir), PurePath(false, ["..", name]))) == Some(Up(dir) + [name])
    ensures !Within(Up(dir) + [name], dir)
  {
    var parts := dir + ["..", name];
    assert parts[..|parts| - 1] == dir + [".."];
    WalkAppend(dirs, [], dir, [".."]);
    ReachableExists(dirs, dir);
    var t := Up(dir) + [name];
    assert |t| == |dir|;
    assert Within(t, dir) ==> t == dir;
  }

  /** An absolute upload name replaces the directory altogether. */
  lemma AbsoluteWriteEscapes(dirs: set<Location>, dir: Location, name: string)
    requires Reachable(dirs, dir) && Resolved(dir) && dir != []
    requires IsPart(name) && name != ".." && [name] !in dirs
    ensures WriteTarget(dirs, Join(PurePath(true, dir), PurePath(true, [name]))) == Some([name])
    ensures !Within([name], dir)
  {
    ReachableExists(dirs, dir);
    assert [name][..0] == [];
    assert [] + [name] == [name];
  }

  /** A file system holding directories, regular files and the live scratch directories. */
  class FileSystem {
    var dirs: set<Location>
    var files: map<Location, Bytes>
    /** Scratch directories made by `tempfile` and not yet removed. */
    var workspaces: set<Location>

    ghost predicate Valid()
      reads this
    {
      && [] in dirs
      && workspaces <= dirs
      && (forall loc :: loc in files ==> loc !in dirs)
    }

    /** `name` is free for a new scratch directory: nothing exists at or below it. */
    predicate FreshName(name: Location)
      reads this
    {
      && |name| >= 1
      && Resolved(name)
      && Reachable(dirs, Up(name))
      && (forall d :: d in dirs ==> !Within(d, name))
      && (forall loc :: loc in files ==> !Within(loc, name))
    }

    /** A file system holding only the root and the given system temporary directory. */
    constructor (tempRoot: Location)
      requires Resolved(tempRoot)
      ensures Valid()
      ensures dirs == (set k | 0 <= k <= |tempRoot| :: tempRoot[..k])
      ensures files == map[] && workspaces == {}
    {
      dirs := set k | 0 <= k <= |tempRoot| :: tempRoot[..k];
      files := map[];
      workspaces := {};
      assert tempRoot[..0] == [];
    }

    /** `tempfile.mkdtemp()`, with the random name it settles on passed in. */
    method MakeTempDir(name: Location)
      requires Valid() && FreshName(name)
      modifies this
      ensures Valid()
      ensures dirs == old(dirs) + {name} && files == old(files)
      ensures workspaces == old(workspaces) + {name}
    {
      dirs := dirs + {name};
      workspaces := workspaces + {name};
    }

    /** `Path(dir).mkdir()` where the parent exists and the name is free. */
    method MakeDir(dir: Location)
      requires Valid() && dir != [] && Up(dir) in dirs && dir !in dirs && dir !in files
      modifies this
      ensures Valid()
      ensures dirs == old(dirs) + {dir} && files == old(files) && workspaces == old(workspaces)
    {
      dirs := dirs + {dir};
    }

    /** `Path(p).write_bytes(data)`; `ok` is false where the OS raises. */
    method WriteBytes(p: PurePath, data: Bytes) returns (ok: bool)
      requires Valid() && p.rooted
      modifies this
      ensures Valid()
      ensures ok == WriteTarget(dirs, p).Some?
      ensures dirs == old(dirs) && workspaces == old(workspaces)
      ensures files == if ok then old(files)[WriteTarget(dirs, p).value := data] else old(files)
    {
      var target := WriteTarget(dirs, p);
      ok := target.Some?;
      if ok {
        files := files[target.value := data];
      }
    }

    /** Files appearing in `dir`, as the engine writes them. */
    method SaveFiles(dir: Location, written: map<string, Bytes>)
      requires Valid() && dir in dirs
      requires forall n :: n in written ==> dir + [n] !in dirs
      modifies this
      ensures Valid()
      ensures dirs == old(dirs) && workspaces == old(workspaces)
      ensures files == old(files) + FilesIn(dir, written)
    {
      files := files + FilesIn(dir, written);
    }

    /** `shutil.rmtree(dir)`: the directory and everything below it disappear. */
    method RemoveTree(dir: Location)
      requires Valid() && dir != []
      modifies this
      ensures Valid()
      ensures dirs == set d | d in old(dirs) && !Within(d, dir)
      ensures files == Outside(old(files), dir)
      ensures workspaces == set w | w in old(workspaces) && !Within(w, dir)
    {
      dirs := set d | d in dirs && !Within(d, dir);
      files := Outside(files, dir);
      workspaces := set w | w in workspaces && !Within(w, dir);
    }
  }

  /** The files named in `written`, placed in `dir`. */
  function FilesIn(dir: Location, written: map<string, Bytes>): (m: map<Location, Bytes>)
    ensures forall n :: n in written ==> dir + [n] in m && m[dir + [n]] == written[n]
    ensures forall loc :: loc in m ==> |loc| == |dir| + 1 && loc[..|dir|] == dir && loc[|dir|] in written
  {
    var locs := set n | n in written :: dir + [n];
    map loc | loc in locs :: written[loc[|dir|]]
  }

  /** The files that are not at or below `dir`. */
  function Outside(files: map<Location, Bytes>, dir: Location): (m: map<Location, Bytes>)
    ensures forall loc :: loc in m <==> loc in files && !Within(loc, dir)
    ensures forall loc :: loc in m ==> m[loc] == files[loc]
  {
    map loc | loc in files && !Within(loc, dir) :: files[loc]
  }

  /** Files added below a directory make no difference once the directory is removed. */
  lemma OutsideIgnoresInside(files: map<Location, Bytes>, extra: map<Location, Bytes>, dir: Location)
    requires forall loc :: loc in extra ==> Within(loc, dir)
    ensures Outside(files + extra, dir) == Outside(files, dir)
  {
    var after, before := Outside(files + extra, dir), Outside(files, dir);
    assert forall loc :: loc in after <==> loc in before;
  }

  /** Outside a directory that held no files, only a file written outside it remains. */
  lemma OutsideOfFresh(before: map<Location, Bytes>, dir: Location, target: Location, content: Bytes)
    requires forall loc :: loc in before ==> !Within(loc, dir)
    ensures Outside(before, dir) == before
    ensures Outside(before[target := content], dir) == if Within(target, dir) then before else before[target := content]
  {
  }
}
