/** The import root of a set of proto files (imports.go): a directory trie, the walk down
    to the first branching or occupied directory, and the base folders below it. A
    directory is its sequence of parts. */
module ImportRoot {
  import opened Options
  import opened Keyed

  type Dir = seq<string>

  datatype Node = Node(path: Dir, children: seq<Node>, files: seq<nat>)

  function PathOf(): Node -> Dir { (n: Node) => n.path }

  function ChildOf(node: Node, part: string): (r: Option<nat>)
    ensures r.Some? ==> r.value < |node.children| && node.children[r.value].path == node.path + [part]
    ensures r.None? ==> forall i | 0 <= i < |node.children| :: node.children[i].path != node.path + [part]
  {
    Find(node.children, PathOf(), node.path + [part])
  }

  /** A file under the directory `rest` below a node; missing nodes are made. */
  function Insert(node: Node, rest: Dir, file: nat): (r: Node)
    ensures r.path == node.path
    decreases |rest|
  {
    if rest == [] then node.(files := node.files + [file])
    else
      var child := ChildOf(node, rest[0]);
      if child.Some? then
        node.(children := node.children[child.value := Insert(node.children[child.value], rest[1..], file)])
      else node.(children := node.children + [Insert(Node(node.path + [rest[0]], [], []), rest[1..], file)])
  }

  /** The files of the directory `rest` below a node. */
  function Files(node: Node, rest: Dir): seq<nat>
    decreases |rest|
  {
    if rest == [] then node.files
    else
      var child := ChildOf(node, rest[0]);
      if child.Some? then Files(node.children[child.value], rest[1..]) else []
  }

  /** Children carry distinct directories one part below, and each leads to some file. */
  ghost predicate WellFormed(node: Node) {
    Distinct(node.children, PathOf()) &&
    forall i | 0 <= i < |node.children| ::
      WellFormed(node.children[i]) && IsBelow(node.children[i].path, node.path) && Occupied(node.children[i])
  }

  ghost predicate IsBelow(path: Dir, parent: Dir) { |path| == |parent| + 1 && path[..|parent|] == parent }

  ghost predicate Occupied(node: Node) { exists rest: Dir :: Files(node, rest) != [] }

  // Insertion

  lemma {:induction false} FindSame(a: seq<Node>, b: seq<Node>, path: Dir)
    requires |a| == |b| && forall i | 0 <= i < |a| :: a[i].path == b[i].path
    ensures Find(a, PathOf(), path) == Find(b, PathOf(), path)
  {
    if a == [] {
    } else {
      FindSame(a[..|a| - 1], b[..|b| - 1], path);
    }
  }

  lemma ChildOfMade(node: Node, made: Node, part: string)
    requires forall i | 0 <= i < |node.children| :: node.children[i].path != made.path
    ensures ChildOf(node.(children := node.children + [made]), part) ==
            if made.path == node.path + [part] then Some(|node.children|) else ChildOf(node, part)
  {
    assert (node.children + [made])[..|node.children|] == node.children;
  }

  lemma ChildOfChanged(node: Node, i: nat, changed: Node, part: string)
    requires i < |node.children| && changed.path == node.children[i].path
    ensures ChildOf(node.(children := node.children[i := changed]), part) == ChildOf(node, part)
  {
    FindSame(node.children[i := changed], node.children, node.path + [part]);
  }

  lemma SameChild(node: Node, part: string, other: string)
    requires ChildOf(node, part).Some? && ChildOf(node, part) == ChildOf(node, other)
    ensures part == other
  {
    assert (node.path + [part])[|node.path|] == part && (node.path + [other])[|node.path|] == other;
  }

  lemma EmptyNode(path: Dir, rest: Dir)
    ensures Files(Node(path, [], []), rest) == []
  {
  }

  lemma {:induction false} InsertFiles(node: Node, rest: Dir, file: nat, at: Dir)
    ensures Files(Insert(node, rest, file), at) == Files(node, at) + (if at == rest then [file] else [])
    decreases |rest|
  {
    if rest == [] || at == [] { return; }
    var part, child, made := rest[0], ChildOf(node, rest[0]), Node(node.path + [rest[0]], [], []);
    assert at == rest <==> at[0] == part && at[1..] == rest[1..] by {
      assert at == [at[0]] + at[1..] && rest == [rest[0]] + rest[1..];
    }
    if child.Some? {
      var i := child.value;
      var changed := Insert(node.children[i], rest[1..], file);
      ChildOfChanged(node, i, changed, at[0]);
      InsertFiles(node.children[i], rest[1..], file, at[1..]);
      if ChildOf(node, at[0]) == child { SameChild(node, part, at[0]); }
    } else {
      var grown := Insert(made, rest[1..], file);
      ChildOfMade(node, grown, at[0]);
      InsertFiles(made, rest[1..], file, at[1..]);
      EmptyNode(made.path, at[1..]);
      assert (node.path + [part])[|node.path|] == part && (node.path + [at[0]])[|node.path|] == at[0];
    }
  }

  lemma {:induction false} InsertWellFormed(node: Node, rest: Dir, file: nat)
    requires WellFormed(node)
    ensures WellFormed(Insert(node, rest, file)) && Occupied(Insert(node, rest, file))
    decreases |rest|
  {
    InsertFiles(node, rest, file, rest);
    assert Files(Insert(node, rest, file), rest) != [];
    if rest == [] {
    } else {
      var child, made := ChildOf(node, rest[0]), Node(node.path + [rest[0]], [], []);
      if child.Some? {
        var i := child.value;
        InsertWellFormed(node.children[i], rest[1..], file);
        WellFormedChanged(node, i, Insert(node.children[i], rest[1..], file));
      } else {
        InsertWellFormed(made, rest[1..], file);
        WellFormedMade(node, Insert(made, rest[1..], file));
      }
      hide Files, WellFormed, Occupied;
    }
  }

  lemma WellFormedChanged(node: Node, i: nat, changed: Node)
    requires WellFormed(node) && i < |node.children| && WellFormed(changed) && Occupied(changed)
    requires changed.path == node.children[i].path
    ensures WellFormed(node.(children := node.children[i := changed]))
  {
    hide Occupied;
  }

  lemma WellFormedMade(node: Node, made: Node)
    requires WellFormed(node) && WellFormed(made) && Occupied(made) && IsBelow(made.path, node.path)
    requires forall i | 0 <= i < |node.children| :: node.children[i].path != made.path
    ensures WellFormed(node.(children := node.children + [made]))
  {
    hide Occupied;
  }

  // Building

  /** The files of a directory among the first `n`. */
  function FilesIn(dirs: seq<Dir>, n: nat, dir: Dir): seq<nat>
    requires n <= |dirs|
  {
    if n == 0 then [] else FilesIn(dirs, n - 1, dir) + (if dirs[n - 1] == dir then [n - 1] else [])
  }

  lemma {:induction false} FilesInIs(dirs: seq<Dir>, n: nat, dir: Dir, i: nat)
    requires n <= |dirs|
    ensures i in FilesIn(dirs, n, dir) <==> i < n && dirs[i] == dir
  {
    if n == 0 {
    } else {
      FilesInIs(dirs, n - 1, dir, i);
    }
  }

  ghost predicate Holds(root: Node, dirs: seq<Dir>, n: nat)
    requires n <= |dirs|
  {
    WellFormed(root) && root.path == [] && forall dir: Dir :: Files(root, dir) == FilesIn(dirs, n, dir)
  }

  lemma HoldsMore(root: Node, dirs: seq<Dir>, n: nat)
    requires n < |dirs| && Holds(root, dirs, n)
    ensures Holds(Insert(root, dirs[n], n), dirs, n + 1)
  {
    InsertWellFormed(root, dirs[n], n);
    forall dir: Dir
      ensures Files(Insert(root, dirs[n], n), dir) == FilesIn(dirs, n + 1, dir)
    {
      InsertFiles(root, dirs[n], n, dir);
    }
    hide Files, Insert, WellFormed, FilesIn;
  }

  method BuildTrie(dirs: seq<Dir>) returns (root: Node)
    ensures Holds(root, dirs, |dirs|)
  {
    root := Node([], [], []);
    assert forall dir: Dir :: Files(root, dir) == [];
    for i := 0 to |dirs|
      invariant Holds(root, dirs, i)
    {
      HoldsMore(root, dirs, i);
      hide Holds, Insert;
      root := Insert(root, dirs[i], i);
    }
  }

  // The walk down

  /** The node lists, under `rest`, exactly the files of that directory, once. */
  ghost predicate Lists(node: Node, dirs: seq<Dir>, rest: Dir) {
    NoTwice(Files(node, rest)) && forall f: nat :: f in Files(node, rest) <==> f < |dirs| && dirs[f] == node.path + rest
  }

  ghost predicate Owns(node: Node, dirs: seq<Dir>) {
    WellFormed(node) && forall rest: Dir :: Lists(node, dirs, rest)
  }

  ghost predicate NoTwice(s: seq<nat>) { forall i, j | 0 <= i < j < |s| :: s[i] < s[j] }

  lemma {:induction false} FilesInOnce(dirs: seq<Dir>, n: nat, dir: Dir)
    requires n <= |dirs|
    ensures NoTwice(FilesIn(dirs, n, dir)) &&
            forall i | 0 <= i < |FilesIn(dirs, n, dir)| :: FilesIn(dirs, n, dir)[i] < n
  {
    if n == 0 {
    } else {
      FilesInOnce(dirs, n - 1, dir);
    }
  }

  lemma RootOwns(root: Node, dirs: seq<Dir>)
    requires Holds(root, dirs, |dirs|)
    ensures Owns(root, dirs)
  {
    forall rest: Dir
      ensures Lists(root, dirs, rest)
    {
      FilesInOnce(dirs, |dirs|, rest);
      assert root.path + rest == rest;
      forall f: nat
        ensures f in Files(root, rest) <==> f < |dirs| && dirs[f] == rest
      {
        FilesInIs(dirs, |dirs|, rest, f);
        hide Files, FilesIn;
      }
      hide Files, FilesIn;
    }
    hide Lists;
  }

  /** A child lists the files below it. */
  lemma ChildFiles(node: Node, i: nat, rest: Dir)
    requires WellFormed(node) && i < |node.children|
    ensures var part := node.children[i].path[|node.path|];
            node.children[i].path == node.path + [part] && ChildOf(node, part) == Some(i) &&
            Files(node, [part] + rest) == Files(node.children[i], rest)
  {
    var child := node.children[i];
    assert IsBelow(child.path, node.path);
    var part := child.path[|node.path|];
    assert child.path == node.path + [part];
    assert ([part] + rest)[1..] == rest;
    assert ChildOf(node, part).Some?;
    OnlyChild(node.children, i, ChildOf(node, part).value);
  }

  lemma OnlyChild(children: seq<Node>, i: nat, j: nat)
    requires Distinct(children, PathOf()) && i < |children| && j < |children| && children[i].path == children[j].path
    ensures i == j
  {
    assert PathOf()(children[i]) == PathOf()(children[j]);
  }

  lemma ChildOwns(node: Node, dirs: seq<Dir>, i: nat)
    requires Owns(node, dirs) && i < |node.children|
    ensures Owns(node.children[i], dirs)
  {
    var child := node.children[i];
    forall rest: Dir
      ensures Lists(child, dirs, rest)
    {
      ChildFiles(node, i, rest);
      var part := child.path[|node.path|];
      assert Lists(node, dirs, [part] + rest);
      assert child.path + rest == node.path + ([part] + rest);
      hide Files, ChildOf, WellFormed;
    }
    hide Lists;
  }

  ghost predicate IsCommon(dirs: seq<Dir>, dir: Dir) { forall i | 0 <= i < |dirs| :: dir <= dirs[i] }

  /** The longest directory that is an ancestor of all, or one of them. */
  ghost predicate IsLongestCommon(dirs: seq<Dir>, dir: Dir) {
    IsCommon(dirs, dir) && forall other | IsCommon(dirs, other) :: other <= dir
  }

  /** The walk goes on while there is one child and no file. */
  predicate Narrow(node: Node) { |node.children| == 1 && node.files == [] }

  lemma NarrowStep(node: Node, dirs: seq<Dir>)
    requires Owns(node, dirs) && IsCommon(dirs, node.path) && Narrow(node)
    ensures Owns(node.children[0], dirs) && IsCommon(dirs, node.children[0].path)
  {
    ChildOwns(node, dirs, 0);
    var child := node.children[0];
    forall i | 0 <= i < |dirs|
      ensures child.path <= dirs[i]
    {
      var rest := dirs[i][|node.path|..];
      assert dirs[i] == node.path + rest;
      assert Lists(node, dirs, rest);
      assert i in Files(node, rest);
      assert rest != [] && ChildOf(node, rest[0]) == Some(0);
      assert dirs[i] == node.path + rest && rest == [rest[0]] + rest[1..];
      assert child.path == node.path + [rest[0]];
      assert dirs[i] == child.path + rest[1..];
    }
  }

  lemma SomeFile(node: Node, dirs: seq<Dir>, i: nat) returns (f: nat)
    requires Owns(node, dirs) && i < |node.children|
    ensures f < |dirs| && node.children[i].path <= dirs[f]
  {
    ChildOwns(node, dirs, i);
    assert Occupied(node.children[i]);
    var rest: Dir :| Files(node.children[i], rest) != [];
    assert Lists(node.children[i], dirs, rest);
    hide Files, WellFormed;
    f := Files(node.children[i], rest)[0];
    assert f in Files(node.children[i], rest);
  }

  /** Where the walk stops is the longest common directory. */
  lemma StopsAtLongest(node: Node, dirs: seq<Dir>)
    requires Owns(node, dirs) && IsCommon(dirs, node.path) && !Narrow(node) && (node.files != [] || node.children != [])
    ensures IsLongestCommon(dirs, node.path)
  {
    forall other | IsCommon(dirs, other)
      ensures other <= node.path
    {
      if node.files != [] {
        var f := node.files[0];
        assert Lists(node, dirs, []) && f in Files(node, []);
        assert node.path + [] == node.path;
      } else {
        var f := SomeFile(node, dirs, 0);
        var g := SomeFile(node, dirs, 1);
        var a, b := node.children[0].path, node.children[1].path;
        assert IsBelow(a, node.path) && IsBelow(b, node.path) &&
        PathOf()(node.children[0]) != PathOf()(node.children[1]);
        Branch(other, node.path, a, b, dirs[f], dirs[g]);
      }
    }
  }

  lemma Branch(other: Dir, dir: Dir, a: Dir, b: Dir, x: Dir, y: Dir)
    requires IsBelow(a, dir) && IsBelow(b, dir) && a != b && a <= x && b <= y && other <= x && other <= y
    ensures other <= dir
  {
    var n := |dir|;
    assert a == a[..n] + [a[n]] && b == b[..n] + [b[n]];
    assert x[n] == a[n] && y[n] == b[n];
    PrefixShort(other, x, y, n);
    assert dir == x[..n];
    assert other == x[..|other|];
  }

  lemma PrefixShort(other: Dir, x: Dir, y: Dir, n: nat)
    requires other <= x && other <= y && n < |x| && n < |y| && x[n] != y[n]
    ensures |other| <= n
  {
  }

  method Descend(root: Node, ghost dirs: seq<Dir>) returns (node: Node)
    requires Holds(root, dirs, |dirs|)
    ensures Owns(node, dirs) && IsCommon(dirs, node.path) && !Narrow(node)
  {
    node := root;
    RootOwns(root, dirs);
    hide Owns;
    while |node.children| > 0 && |node.children| == 1 && |node.files| == 0
      invariant Owns(node, dirs) && IsCommon(dirs, node.path)
      decreases node
    {
      NarrowStep(node, dirs);
      node := node.children[0];
    }
  }

  // Base folders

  /** The files in a directory or below it. */
  ghost function Under(dirs: seq<Dir>, dir: Dir): set<nat> {
    set f: nat | f < |dirs| && dir <= dirs[f]
  }

  /** The files of the node itself and of its first `i` children. */
  ghost function UnderFirst(node: Node, dirs: seq<Dir>, i: nat): set<nat>
    requires i <= |node.children|
  {
    if i == 0 then set f: nat | f < |dirs| && dirs[f] == node.path
    else UnderFirst(node, dirs, i - 1) + Under(dirs, node.children[i - 1].path)
  }

  lemma {:induction false} UnderFirstIs(node: Node, dirs: seq<Dir>, i: nat, f: nat)
    requires i <= |node.children|
    ensures f in UnderFirst(node, dirs, i) <==>
            f < |dirs| && (dirs[f] == node.path || exists c :: 0 <= c < i && node.children[c].path <= dirs[f])
  {
    if i == 0 {
    } else {
      UnderFirstIs(node, dirs, i - 1, f);
    }
  }

  lemma UnderAll(node: Node, dirs: seq<Dir>)
    requires Owns(node, dirs)
    ensures UnderFirst(node, dirs, |node.children|) == Under(dirs, node.path)
  {
    forall f: nat
      ensures f in UnderFirst(node, dirs, |node.children|) <==> f in Under(dirs, node.path)
    {
      UnderFirstIs(node, dirs, |node.children|, f);
      if f < |dirs| && node.path <= dirs[f] && dirs[f] != node.path { BelowSome(node, dirs, f); }
      if c :| f < |dirs| && 0 <= c < |node.children| && node.children[c].path <= dirs[f] {
        assert IsBelow(node.children[c].path, node.path);
        assert node.path == dirs[f][..|node.path|];
      }
      hide UnderFirst, Lists, Files;
    }
  }

  lemma BelowSome(node: Node, dirs: seq<Dir>, f: nat)
    requires Owns(node, dirs) && f < |dirs| && node.path <= dirs[f] && dirs[f] != node.path
    ensures exists c :: 0 <= c < |node.children| && node.children[c].path <= dirs[f]
  {
    var rest := dirs[f][|node.path|..];
    assert dirs[f] == node.path + rest && Lists(node, dirs, rest) && f in Files(node, rest);
    var c := ChildOf(node, rest[0]);
    assert rest == [rest[0]] + rest[1..];
    assert dirs[f] == node.children[c.value].path + rest[1..];
  }

  /** What one child lists, neither the node nor an earlier child does. */
  lemma ChildrenApart(node: Node, dirs: seq<Dir>, i: nat, f: nat)
    requires WellFormed(node) && i < |node.children| && f in Under(dirs, node.children[i].path)
    ensures f !in UnderFirst(node, dirs, i)
  {
    UnderFirstIs(node, dirs, i, f);
    assert IsBelow(node.children[i].path, node.path);
    forall c | 0 <= c < i
      ensures !(node.children[c].path <= dirs[f])
    {
      assert IsBelow(node.children[c].path, node.path);
      assert PathOf()(node.children[c]) != PathOf()(node.children[i]);
      hide WellFormed;
    }
  }

  lemma OwnFiles(node: Node, dirs: seq<Dir>)
    requires Owns(node, dirs)
    ensures NoTwice(node.files) && forall f: nat :: f in node.files <==> f in UnderFirst(node, dirs, 0)
  {
    assert Lists(node, dirs, []) && Files(node, []) == node.files && node.path + [] == node.path;
  }

  /** The base folder is set for the files in `done`, and for no other. */
  ghost predicate Assigned(was: seq<Option<Dir>>, now: seq<Option<Dir>>, done: set<nat>, base: Dir) {
    |now| == |was| && forall f | 0 <= f < |was| :: now[f] == if f in done then Some(base) else was[f]
  }

  lemma AssignedMore(a: seq<Option<Dir>>, b: seq<Option<Dir>>, c: seq<Option<Dir>>, d: set<nat>, e: set<nat>, base: Dir)
    requires Assigned(a, b, d, base) && Assigned(b, c, e, base)
    ensures Assigned(a, c, d + e, base)
  {
  }

  /** The assignments to the files of the node itself, each made once. */
  method AssignFiles(node: Node, base: Dir, folders: array<Option<Dir>>, ghost dirs: seq<Dir>, ghost before: set<nat>)
    returns (ghost written: set<nat>)
    requires Owns(node, dirs) && folders.Length == |dirs| && before !! UnderFirst(node, dirs, 0)
    modifies folders
    ensures Assigned(old(folders[..]), folders[..], UnderFirst(node, dirs, 0), base) &&
            written == before + UnderFirst(node, dirs, 0)
  {
    OwnFiles(node, dirs);
    hide Owns;
    written := before;
    ghost var done: set<nat> := {};
    for k := 0 to |node.files|
      invariant Assigned(old(folders[..]), folders[..], done, base) && written == before + done
      invariant forall f: nat :: f in done <==> f in node.files[..k]
    {
      var file := node.files[k];
      assert file in node.files && file in UnderFirst(node, dirs, 0);
      assert file !in written;
      folders[file], written, done := Some(base), written + {file}, done + {file};
      assert node.files[..k + 1] == node.files[..k] + [file];
    }
    assert node.files[..|node.files|] == node.files;
    assert done == UnderFirst(node, dirs, 0);
  }

  /** recursivelyAssignImportBaseFolder: every file in the directory or below it gets the
      base folder, once; the others keep theirs. */
  method AssignBase(node: Node, base: Dir, folders: array<Option<Dir>>, ghost dirs: seq<Dir>, ghost before: set<nat>)
    returns (ghost written: set<nat>)
    requires Owns(node, dirs) && folders.Length == |dirs| && before !! Under(dirs, node.path)
    modifies folders
    ensures Assigned(old(folders[..]), folders[..], Under(dirs, node.path), base) &&
            written == before + Under(dirs, node.path)
    decreases node
  {
    UnderAll(node, dirs);
    UnderGrows(node, dirs, 0, |node.children|);
    written := AssignFiles(node, base, folders, dirs, before);
    for i := 0 to |node.children|
      invariant Assigned(old(folders[..]), folders[..], UnderFirst(node, dirs, i), base) &&
                written == before + UnderFirst(node, dirs, i)
    {
      hide Owns, WellFormed, Lists, Under, Assigned;
      ChildOwns(node, dirs, i);
      UnderGrows(node, dirs, i + 1, |node.children|);
      Apart(node, dirs, i, before, written);
      ghost var soFar := folders[..];
      written := AssignBase(node.children[i], base, folders, dirs, written);
      AssignedMore(old(folders[..]), soFar, folders[..], UnderFirst(node, dirs, i), Under(dirs,
        node.children[i].path), base);
    }
  }

  lemma Apart(node: Node, dirs: seq<Dir>, i: nat, before: set<nat>, written: set<nat>)
    requires Owns(node, dirs) && i < |node.children|
    requires before !! UnderFirst(node, dirs, i + 1) && written == before + UnderFirst(node, dirs, i)
    ensures written !! Under(dirs, node.children[i].path)
  {
    forall f | f in Under(dirs, node.children[i].path)
      ensures f !in UnderFirst(node, dirs, i)
    {
      ChildrenApart(node, dirs, i, f);
    }
    hide Under, Owns;
  }

  lemma {:induction false} UnderGrows(node: Node, dirs: seq<Dir>, i: nat, j: nat)
    requires i <= j <= |node.children|
    ensures UnderFirst(node, dirs, i) <= UnderFirst(node, dirs, j)
  {
    if i == j {
    } else {
      UnderGrows(node, dirs, i, j - 1);
    }
  }

  // The whole

  datatype Outcome = Resolved(root: Dir) | NoFiles | Ambiguous(root: Dir)

  /** The longest common directory holds a file itself while another lies below. */
  ghost predicate Mixed(dirs: seq<Dir>, root: Dir) {
    IsLongestCommon(dirs, root) &&
    exists i, j :: 0 <= i < |dirs| && 0 <= j < |dirs| && dirs[i] == root && dirs[j] != root
  }

  /** The base folder of a file: the root it lies in, or the child of it on its path. */
  function BaseOf(dir: Dir, root: Dir): Dir { if dir == root || |dir| <= |root| then root else dir[..|root| + 1] }

  /** resolveBaseFolders. It fails without files, and when the root is ambiguous. */
  method ResolveBaseFolders(dirs: seq<Dir>, folders: array<Option<Dir>>) returns (r: Outcome)
    requires folders.Length == |dirs|
    modifies folders
    ensures r.NoFiles? <==> dirs == []
    ensures r.Ambiguous? ==> Mixed(dirs, r.root)
    ensures r.Resolved? ==> IsLongestCommon(dirs, r.root) && !Mixed(dirs, r.root) &&
                            forall f | 0 <= f < |dirs| ::
                              folders[f] == Some(BaseOf(dirs[f], r.root)) && BaseOf(dirs[f], r.root) <= dirs[f]
    ensures !r.Resolved? ==> folders[..] == old(folders[..])
  {
    var root := BuildTrie(dirs);
    var node := Descend(root, dirs);
    Occupancy(node, dirs);
    if |node.children| == 0 && |node.files| == 0 { return NoFiles; }
    StopsAtLongest(node, dirs);
    if |node.files| > 0 && |node.children| > 0 { return Ambiguous(node.path); }
    ghost var written := {};
    OwnFiles(node, dirs);
    if |node.files| > 0 {
      written := AssignFiles(node, node.path, folders, dirs, {});
    }
    BasedFiles(node, dirs, folders);
    hide Lists, Under, BaseOf;
    for i := 0 to |node.children|
      invariant written == UnderFirst(node, dirs, i)
      invariant forall f | f in UnderFirst(node, dirs, i) ::
                  f < folders.Length && folders[f] == Some(BaseOf(dirs[f], node.path))
    {
      ChildOwns(node, dirs, i);
      forall f | f in Under(dirs, node.children[i].path)
        ensures f !in UnderFirst(node, dirs, i) && f < |dirs| && BaseOf(dirs[f], node.path) == node.children[i].path
      {
        ChildrenApart(node, dirs, i, f);
        BaseBelow(node, dirs, i, f);
      }
      written := AssignBase(node.children[i], node.children[i].path, folders, dirs, written);
    }
    UnderAll(node, dirs);
    AllUnder(node, dirs);
    r := Resolved(node.path);
  }

  lemma BasedFiles(node: Node, dirs: seq<Dir>, folders: array<Option<Dir>>)
    requires folders.Length == |dirs|
    requires forall f | f in UnderFirst(node, dirs, 0) :: f < |dirs| && folders[f] == Some(node.path)
    ensures forall f | f in UnderFirst(node, dirs, 0) :: f < |dirs| && folders[f] == Some(BaseOf(dirs[f], node.path))
  {
  }

  lemma BaseBelow(node: Node, dirs: seq<Dir>, i: nat, f: nat)
    requires WellFormed(node) && i < |node.children| && f in Under(dirs, node.children[i].path)
    ensures f < |dirs| && BaseOf(dirs[f], node.path) == node.children[i].path
  {
    assert IsBelow(node.children[i].path, node.path);
  }

  lemma AllUnder(node: Node, dirs: seq<Dir>)
    requires IsCommon(dirs, node.path)
    ensures forall f: nat | f < |dirs| :: f in Under(dirs, node.path) && BaseOf(dirs[f], node.path) <= dirs[f]
  {
  }

  /** What the two branches for bad structures test. */
  lemma Occupancy(node: Node, dirs: seq<Dir>)
    requires Owns(node, dirs) && IsCommon(dirs, node.path)
    ensures node.files != [] <==> exists i :: 0 <= i < |dirs| && dirs[i] == node.path
    ensures node.children != [] <==> exists i :: 0 <= i < |dirs| && dirs[i] != node.path
    ensures node.children == [] && node.files == [] <==> dirs == []
  {
    OwnFiles(node, dirs);
    if node.files != [] { assert node.files[0] in node.files; }
    if i :| 0 <= i < |dirs| && dirs[i] == node.path { assert i in node.files; }
    if node.children != [] {
      var f := SomeFile(node, dirs, 0);
      assert IsBelow(node.children[0].path, node.path);
    }
    UnderAll(node, dirs);
    AllUnder(node, dirs);
    if dirs != [] { assert dirs[0] == node.path || dirs[0] != node.path; }
    if i :| 0 <= i < |dirs| && dirs[i] != node.path {
      UnderFirstIs(node, dirs, |node.children|, i);
    }
  }
}
