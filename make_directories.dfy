// makeDirectories.ts: the experiment paths `a-b-c` become a tree of directories `a`,
// `a/b` holding the file `c`. The source builds the tree in place through a cursor
// `parentForFile` that points into it; here the tree is a value and the cursor is the
// sequence of child indices that leads from the root to the cursor's directory.

module MakeDirectories {
  import opened Common
  import opened Strings

  /** `Path`: a file, or a directory and its entries in insertion order. */
  datatype Path = File(name: string) | Dir(name: string, subs: seq<Path>)

  /** The result of `breakUpPath`. */
  datatype Broken = Broken(dirs: seq<Path>, file: Path)

  function NamesOf(ps: seq<Path>): (names: seq<string>)
    ensures |names| == |ps| && forall k :: 0 <= k < |ps| ==> names[k] == ps[k].name
  {
    if ps == [] then [] else NamesOf(ps[..|ps| - 1]) + [ps[|ps| - 1].name]
  }

  predicate AllEmptyDirs(ps: seq<Path>) {
    forall k :: 0 <= k < |ps| ==> ps[k].Dir? && ps[k].subs == []
  }

  // ---------------------------------------------------------------------------------
  // breakUpPath

  /** `breakUpPath(path)`: the file is the last '-' piece, the directories the pieces
    * before it, in order and empty; joining all the names with '-' gives the path back. */
  method BreakUpPath(path: string) returns (r: Broken)
    ensures r.file.File? && '-' !in r.file.name
    ensures AllEmptyDirs(r.dirs) && forall k :: 0 <= k < |r.dirs| ==> '-' !in r.dirs[k].name
    ensures '-' !in path ==> r.dirs == [] && r.file.name == path
    ensures Join(NamesOf(r.dirs) + [r.file.name], "-") == path
  {
    var paths := Split(path, '-');
    JoinSplit(path, '-');
    var file := File(paths[|paths| - 1]);
    if |paths| == 1 {
      assert NamesOf([]) + [file.name] == paths;
      return Broken([], file);
    }
    var prefixes := paths[..|paths| - 1];
    var dirs: seq<Path> := [];
    for i := 0 to |prefixes|
      invariant |dirs| == i && AllEmptyDirs(dirs)
      invariant forall k :: 0 <= k < i ==> dirs[k].name == prefixes[k]
    {
      dirs := dirs + [Dir(prefixes[i], [])];
    }
    assert NamesOf(dirs) + [file.name] == paths;
    r := Broken(dirs, file);
  }

  // ---------------------------------------------------------------------------------
  // The tree, its cursors, and growth.

  /** `c` leads from `t` through directories only. */
  predicate IsDirPath(t: Path, c: seq<nat>)
    decreases |c|
  {
    t.Dir? && (c == [] || (c[0] < |t.subs| && IsDirPath(t.subs[c[0]], c[1..])))
  }

  /** The directory `c` leads to. */
  function At(t: Path, c: seq<nat>): (d: Path)
    requires IsDirPath(t, c)
    ensures d.Dir?
    decreases |c|
  {
    if c == [] then t else At(t.subs[c[0]], c[1..])
  }

  /** The names of the directories `c` passes through, the root excluded. */
  function NamesAlong(t: Path, c: seq<nat>): (names: seq<string>)
    requires IsDirPath(t, c)
    ensures |names| == |c|
    decreases |c|
  {
    if c == [] then [] else [t.subs[c[0]].name] + NamesAlong(t.subs[c[0]], c[1..])
  }

  /** `At(t, c).subs.push(p)`. */
  function PushAt(t: Path, c: seq<nat>, p: Path): (r: Path)
    requires IsDirPath(t, c)
    decreases |c|
  {
    if c == [] then Dir(t.name, t.subs + [p])
    else Dir(t.name, t.subs[c[0] := PushAt(t.subs[c[0]], c[1..], p)])
  }

  /** `t'` is `t` after entries were pushed: nothing renamed, removed or reordered. */
  predicate Grows(t: Path, t': Path) {
    if t.File? then t' == t
    else
      && t'.Dir? && t'.name == t.name && |t.subs| <= |t'.subs|
      && forall k :: 0 <= k < |t.subs| ==> Grows(t.subs[k], t'.subs[k])
  }

  /** No directory holds two directories of the same name. */
  predicate UniqueDirs(t: Path) {
    t.Dir? ==>
      && (forall i, j :: 0 <= i < j < |t.subs| && t.subs[i].Dir? && t.subs[j].Dir? ==>
            t.subs[i].name != t.subs[j].name)
      && forall k :: 0 <= k < |t.subs| ==> UniqueDirs(t.subs[k])
  }

  /** The number of files in a tree. */
  function FileCount(t: Path): nat
    decreases t
  {
    match t
    case File(_) => 1
    case Dir(_, subs) => FilesOf(subs)
  }

  function FilesOf(s: seq<Path>): nat
    decreases s
  {
    if s == [] then 0 else FilesOf(s[..|s| - 1]) + FileCount(s[|s| - 1])
  }

  lemma {:induction false} FilesOfUpdate(s: seq<Path>, k: nat, x: Path)
    requires k < |s|
    ensures FilesOf(s[k := x]) == FilesOf(s) - FileCount(s[k]) + FileCount(x)
    decreases |s|
  {
    var s' := s[k := x];
    if k < |s| - 1 {
      assert s'[..|s'| - 1] == s[..|s| - 1][k := x];
      FilesOfUpdate(s[..|s| - 1], k, x);
    } else {
      assert s'[..|s'| - 1] == s[..|s| - 1];
    }
  }

  /** One step further down a cursor. */
  lemma {:induction false} CursorStep(t: Path, c: seq<nat>, k: nat)
    requires IsDirPath(t, c) && k < |At(t, c).subs| && At(t, c).subs[k].Dir?
    ensures IsDirPath(t, c + [k]) && At(t, c + [k]) == At(t, c).subs[k]
    ensures NamesAlong(t, c + [k]) == NamesAlong(t, c) + [At(t, c).subs[k].name]
    decreases |c|
  {
    if c != [] {
      assert (c + [k])[1..] == c[1..] + [k];
      CursorStep(t.subs[c[0]], c[1..], k);
    }
  }

  /** Pushing at a cursor keeps the cursor, its names and everything else, and appends
    * to the entries of the cursor's directory. */
  lemma {:induction false} PushAtShape(t: Path, c: seq<nat>, p: Path)
    requires IsDirPath(t, c)
    ensures IsDirPath(PushAt(t, c, p), c) && NamesAlong(PushAt(t, c, p), c) == NamesAlong(t, c)
    ensures At(PushAt(t, c, p), c) == Dir(At(t, c).name, At(t, c).subs + [p])
    ensures Grows(t, PushAt(t, c, p))
    ensures FileCount(PushAt(t, c, p)) == FileCount(t) + FileCount(p)
    decreases |c|
  {
    var r := PushAt(t, c, p);
    if c == [] {
      assert r.subs[..|r.subs| - 1] == t.subs;
      forall k | 0 <= k < |t.subs|
        ensures Grows(t.subs[k], r.subs[k])
      {
        GrowsRefl(t.subs[k]);
      }
    } else {
      var i := c[0];
      PushAtShape(t.subs[i], c[1..], p);
      forall k | 0 <= k < |t.subs| && k != i
        ensures Grows(t.subs[k], r.subs[k])
      {
        GrowsRefl(t.subs[k]);
      }
      FilesOfUpdate(t.subs, i, PushAt(t.subs[i], c[1..], p));
    }
  }

  /** Pushing a file, or a directory whose name is new at the cursor, keeps the names
    * of sibling directories distinct. */
  lemma {:induction false} PushAtUnique(t: Path, c: seq<nat>, p: Path)
    requires IsDirPath(t, c) && UniqueDirs(t) && UniqueDirs(p)
    requires p.Dir? ==> forall k :: 0 <= k < |At(t, c).subs| && At(t, c).subs[k].Dir? ==> At(t, c).subs[k].name != p.name
    ensures UniqueDirs(PushAt(t, c, p))
    decreases |c|
  {
    if c == [] {
      var r := PushAt(t, c, p);
      assert At(t, c) == t && r.subs == t.subs + [p];
      forall i, j | 0 <= i < j < |r.subs| && r.subs[i].Dir? && r.subs[j].Dir?
        ensures r.subs[i].name != r.subs[j].name
      {
        if j == |t.subs| {
          assert r.subs[i] == t.subs[i];
        }
      }
    } else {
      assert At(t, c) == At(t.subs[c[0]], c[1..]);
      PushAtUnique(t.subs[c[0]], c[1..], p);
      var r := PushAt(t, c, p);
      var child := PushAt(t.subs[c[0]], c[1..], p);
      PushAtShape(t.subs[c[0]], c[1..], p);
      assert child.Dir? && child.name == t.subs[c[0]].name;
      assert forall k :: 0 <= k < |t.subs| ==> r.subs[k].Dir? == t.subs[k].Dir? && r.subs[k].name == t.subs[k].name;
    }
  }

  lemma {:induction false} GrowsRefl(t: Path)
    ensures Grows(t, t)
  {
    if t.Dir? {
      forall k | 0 <= k < |t.subs|
        ensures Grows(t.subs[k], t.subs[k])
      {
        GrowsRefl(t.subs[k]);
      }
    }
  }

  lemma {:induction false} GrowsTrans(t: Path, t': Path, t'': Path)
    requires Grows(t, t') && Grows(t', t'')
    ensures Grows(t, t'')
  {
    if t.Dir? {
      forall k | 0 <= k < |t.subs|
        ensures Grows(t.subs[k], t''.subs[k])
      {
        GrowsTrans(t.subs[k], t'.subs[k], t''.subs[k]);
      }
    }
  }

  /** A cursor of `t` is a cursor of every tree `t` grows into, through the same names,
    * to a directory that still holds every file it held. */
  lemma {:induction false} GrowsKeepsCursor(t: Path, t': Path, c: seq<nat>)
    requires Grows(t, t') && IsDirPath(t, c)
    ensures IsDirPath(t', c) && NamesAlong(t', c) == NamesAlong(t, c) && Grows(At(t, c), At(t', c))
    ensures forall f :: File(f) in At(t, c).subs ==> File(f) in At(t', c).subs
    decreases |c|
  {
    if c != [] {
      GrowsKeepsCursor(t.subs[c[0]], t'.subs[c[0]], c[1..]);
    } else {
      forall f | File(f) in t.subs
        ensures File(f) in t'.subs
      {
        var k :| 0 <= k < |t.subs| && t.subs[k] == File(f);
        assert t'.subs[k] == File(f);
      }
    }
  }

  // ---------------------------------------------------------------------------------
  // returnDirFrom, addDirsToRoot, makeDirectories

  /** `returnDirFrom(src, targetName)` over `src.subs`: the index of the first directory
    * named `targetName`, or `None`. */
  method ReturnDirFrom(subs: seq<Path>, targetName: string) returns (r: Option<nat>)
    ensures r.Some? ==> r.value < |subs| && subs[r.value].Dir? && subs[r.value].name == targetName
    ensures r.Some? ==> forall k :: 0 <= k < r.value ==> !(subs[k].Dir? && subs[k].name == targetName)
    ensures r.None? ==> forall k :: 0 <= k < |subs| ==> !(subs[k].Dir? && subs[k].name == targetName)
  {
    for i := 0 to |subs|
      invariant forall k :: 0 <= k < i ==> !(subs[k].Dir? && subs[k].name == targetName)
    {
      if subs[i].name == targetName && subs[i].Dir? {
        return Some(i);
      }
    }
    return None;
  }

  /** `addDirsToRoot(root, newDirs)`: walks down from the root, entering the directory of
    * each name when there is one and pushing the new directory otherwise. The result is
    * the grown tree and the cursor of the deepest directory, whose path spells the
    * names of `newDirs`. */
  method AddDirsToRoot(root: Path, newDirs: seq<Path>) returns (tree: Path, parentForFile: seq<nat>)
    requires root.Dir? && forall k :: 0 <= k < |newDirs| ==> newDirs[k].Dir?
    ensures Grows(root, tree) && IsDirPath(tree, parentForFile)
    ensures NamesAlong(tree, parentForFile) == NamesOf(newDirs)
    ensures AllEmptyDirs(newDirs) ==> FileCount(tree) == FileCount(root)
    ensures AllEmptyDirs(newDirs) && UniqueDirs(root) ==> UniqueDirs(tree)
  {
    tree := root;
    parentForFile := [];
    GrowsRefl(root);
    for i := 0 to |newDirs|
      invariant Grows(root, tree) && IsDirPath(tree, parentForFile)
      invariant NamesAlong(tree, parentForFile) == NamesOf(newDirs[..i])
      invariant AllEmptyDirs(newDirs) ==> FileCount(tree) == FileCount(root)
      invariant AllEmptyDirs(newDirs) && UniqueDirs(root) ==> UniqueDirs(tree)
    {
      var newDir := newDirs[i];
      assert NamesOf(newDirs[..i + 1]) == NamesOf(newDirs[..i]) + [newDir.name] by {
        assert newDirs[..i + 1][..i] == newDirs[..i];
      }
      var findSub := ReturnDirFrom(At(tree, parentForFile).subs, newDir.name);
      if findSub.None? {
        var k := |At(tree, parentForFile).subs|;
        var before := tree;
        PushAtShape(before, parentForFile, newDir);
        if AllEmptyDirs(newDirs) && UniqueDirs(root) {
          PushAtUnique(before, parentForFile, newDir);
        }
        tree := PushAt(before, parentForFile, newDir);
        GrowsTrans(root, before, tree);
        CursorStep(tree, parentForFile, k);
        parentForFile := parentForFile + [k];
      } else {
        CursorStep(tree, parentForFile, findSub.value);
        parentForFile := parentForFile + [findSub.value];
      }
    }
    assert newDirs[..|newDirs|] == newDirs;
  }

  /** The directories of `path`, then its file, are reachable from `t`. */
  ghost predicate HasWalk(t: Path, path: string) {
    var parts := Split(path, '-');
    exists c :: IsDirPath(t, c) && NamesAlong(t, c) == parts[..|parts| - 1] && File(parts[|parts| - 1]) in At(t, c).subs
  }

  /** A walk through the tree spells the path: the names along it and the file's name,
    * joined with '-', give the path back. */
  lemma WalkSpellsPath(t: Path, c: seq<nat>, path: string)
    requires IsDirPath(t, c)
    requires var parts := Split(path, '-');
      NamesAlong(t, c) == parts[..|parts| - 1] && File(parts[|parts| - 1]) in At(t, c).subs
    ensures exists f :: File(f) in At(t, c).subs && Join(NamesAlong(t, c) + [f], "-") == path
  {
    var parts := Split(path, '-');
    JoinSplit(path, '-');
    assert NamesAlong(t, c) + [parts[|parts| - 1]] == parts;
  }

  /** `makeDirectories(experiments)`, given the experiments' paths: every path has a walk
    * in the tree, the tree holds one file per path, and no directory holds two
    * directories of the same name. */
  method MakeDirectories(allPaths: seq<string>) returns (root: Path)
    ensures root.Dir? && root.name == ""
    ensures FileCount(root) == |allPaths|
    ensures UniqueDirs(root)
    ensures forall j :: 0 <= j < |allPaths| ==> HasWalk(root, allPaths[j])
  {
    root := Dir("", []);
    for i := 0 to |allPaths|
      invariant root.Dir? && root.name == ""
      invariant FileCount(root) == i && UniqueDirs(root)
      invariant forall j :: 0 <= j < i ==> HasWalk(root, allPaths[j])
    {
      var newFile := BreakUpPath(allPaths[i]);
      ghost var before := root;
      var tree, parentForFile := AddDirsToRoot(root, newFile.dirs);
      PushAtShape(tree, parentForFile, newFile.file);
      PushAtUnique(tree, parentForFile, newFile.file);
      root := PushAt(tree, parentForFile, newFile.file);
      GrowsTrans(before, tree, root);
      WalksAfterPush(before, root, parentForFile, allPaths, i, newFile);
    }
  }

  /** After the file of path `i` is pushed at its cursor, paths `0` to `i` have walks. */
  lemma WalksAfterPush(before: Path, after: Path, c: seq<nat>, paths: seq<string>, i: nat, r: Broken)
    requires Grows(before, after) && i < |paths|
    requires forall j :: 0 <= j < i ==> HasWalk(before, paths[j])
    requires r.file.File? && '-' !in r.file.name
    requires forall k :: 0 <= k < |r.dirs| ==> '-' !in r.dirs[k].name
    requires Join(NamesOf(r.dirs) + [r.file.name], "-") == paths[i]
    requires IsDirPath(after, c) && NamesAlong(after, c) == NamesOf(r.dirs) && r.file in At(after, c).subs
    ensures forall j :: 0 <= j < i + 1 ==> HasWalk(after, paths[j])
  {
    WalksKept(before, after, paths, i);
    NewWalk(after, c, paths[i], r);
  }

  /** Walks that exist before a tree grows still exist after. */
  lemma WalksKept(before: Path, after: Path, paths: seq<string>, i: nat)
    requires Grows(before, after) && i <= |paths|
    requires forall j :: 0 <= j < i ==> HasWalk(before, paths[j])
    ensures forall j :: 0 <= j < i ==> HasWalk(after, paths[j])
  {
    forall j | 0 <= j < i
      ensures HasWalk(after, paths[j])
    {
      var parts := Split(paths[j], '-');
      var c :| IsDirPath(before, c) && NamesAlong(before, c) == parts[..|parts| - 1] &&
               File(parts[|parts| - 1]) in At(before, c).subs;
      GrowsKeepsCursor(before, after, c);
    }
  }

  /** The cursor the directories of a broken-up path lead to, holding its file, is a
    * walk of that path. */
  lemma NewWalk(t: Path, c: seq<nat>, path: string, r: Broken)
    requires r.file.File? && '-' !in r.file.name
    requires forall k :: 0 <= k < |r.dirs| ==> '-' !in r.dirs[k].name
    requires Join(NamesOf(r.dirs) + [r.file.name], "-") == path
    requires IsDirPath(t, c) && NamesAlong(t, c) == NamesOf(r.dirs) && r.file in At(t, c).subs
    ensures HasWalk(t, path)
  {
    var parts := Split(path, '-');
    BrokenParts(path, r);
    assert File(parts[|parts| - 1]) in At(t, c).subs;
  }

  /** The names `breakUpPath` gives are the pieces of the path. */
  lemma BrokenParts(path: string, r: Broken)
    requires r.file.File? && '-' !in r.file.name
    requires forall k :: 0 <= k < |r.dirs| ==> '-' !in r.dirs[k].name
    requires Join(NamesOf(r.dirs) + [r.file.name], "-") == path
    ensures var parts := Split(path, '-');
      NamesOf(r.dirs) == parts[..|parts| - 1] && r.file.name == parts[|parts| - 1]
  {
    var names := NamesOf(r.dirs) + [r.file.name];
    forall k | 0 <= k < |names|
      ensures '-' !in names[k]
    {
    }
    SplitJoin(names, '-');
    assert names[..|names| - 1] == NamesOf(r.dirs);
  }
}
