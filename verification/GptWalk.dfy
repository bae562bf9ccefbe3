/** Listing a policy template directory with an explicit stack, and deleting it in the reverse of that order. */
module GptWalk {
  import opened Strings

  /** A path is the names that lead to it from the root of the share. */
  type Path = seq<string>

  /** What exists: true for directories, false for files. */
  type Nodes = map<Path, bool>

  predicate IsDot(name: string) {
    name == "." || name == ".."
  }

  /** Everything but the share itself is in a directory, under a name that is not a dot. */
  ghost predicate IsTree(nodes: Nodes) {
    forall p :: p in nodes && p != [] ==> Parent(p) in nodes && nodes[Parent(p)] && !IsDot(p[|p| - 1])
  }

  function Parent(p: Path): Path
    requires p != []
  {
    p[..|p| - 1]
  }

  /** How the source writes a path; a child is its parent's text, a slash and its name. */
  function PathText(p: Path): string {
    Join(p, "/")
  }

  /** So a path is told by its text, names having no slash. */
  lemma TextTellsPath(p: Path, q: Path)
    requires p != [] && q != [] && forall n :: n in p || n in q ==> '/' !in n
    ensures PathText(p) == PathText(q) ==> p == q
    ensures forall n :: PathText(p + [n]) == PathText(p) + "/" + n
  {
    assert "/" == ['/'];
    SplitJoined(p, '/');
    SplitJoined(q, '/');
    forall n ensures PathText(p + [n]) == PathText(p) + "/" + n {
      JoinSnoc(p, n, "/");
    }
  }

  /** The names that a directory listing gives, in any order: those of the entries, and possibly the dots. */
  ghost predicate IsListing(nodes: Nodes, path: Path, names: seq<string>) {
    && (forall i, j :: 0 <= i < j < |names| ==> names[i] != names[j])
    && (forall n :: n in names && !IsDot(n) ==> path + [n] in nodes)
    && (forall n :: path + [n] in nodes ==> n in names)
  }

  // ---------------------------------------------------------------------------
  // The walk.

  datatype Walk = Walk(explore: seq<Path>, seen: seq<Path>)

  function Children(path: Path, names: seq<string>): seq<Path> {
    if names == [] then []
    else
      Children(path, names[..|names| - 1]) +
      (if IsDot(names[|names| - 1]) then [] else [path + [names[|names| - 1]]])
  }

  function Directories(nodes: Nodes, paths: seq<Path>): seq<Path> {
    if paths == [] then []
    else
      var p := paths[|paths| - 1];
      Directories(nodes, paths[..|paths| - 1]) + (if p in nodes && nodes[p] then [p] else [])
  }

  /** One turn of the outer loop. */
  function Explored(nodes: Nodes, w: Walk, names: seq<string>): Walk
    requires w.explore != []
  {
    var children := Children(w.explore[|w.explore| - 1], names);
    Walk(w.explore[..|w.explore| - 1] + Directories(nodes, children), w.seen + children)
  }

  ghost predicate NoRepeats(paths: seq<Path>) {
    forall i, j :: 0 <= i < j < |paths| ==> paths[i] != paths[j]
  }

  /** Every path but the first comes after its parent. */
  ghost predicate ParentsFirst(seen: seq<Path>) {
    forall j :: 0 < j < |seen| ==> seen[j] != [] && Parent(seen[j]) in seen[..j]
  }

  /** The entries of a directory all come before the entries of any directory below it. */
  ghost predicate LevelsFollow(seen: seq<Path>) {
    forall i, j :: 0 < i < |seen| && 0 < j < |seen| && IsAbove(seen[i], seen[j]) ==> i < j
  }

  predicate IsAbove(p: Path, q: Path) {
    p != [] && q != [] && Parent(p) < Parent(q)
  }

  /** The state between two turns; done are the directories already read. */
  ghost predicate IsWalking(nodes: Nodes, root: Path, w: Walk, done: set<Path>) {
    && w.seen != [] && w.seen[0] == root && NoRepeats(w.seen) && NoRepeats(w.explore)
    && ParentsFirst(w.seen) && LevelsFollow(w.seen)
    && IsCovered(nodes, root, w, done)
    && IsClosed(nodes, root, w.seen, done)
  }

  /** Only what is under the root is seen, and its directories are either to explore or done. */
  ghost predicate IsCovered(nodes: Nodes, root: Path, w: Walk, done: set<Path>) {
    && (forall p :: p in w.seen ==> p in nodes && root <= p)
    && (forall p :: p in w.explore ==> p in w.seen && nodes[p])
    && (forall p :: p in done ==> p in w.seen && nodes[p] && p !in w.explore)
    && (forall p :: p in w.seen && nodes[p] ==> p in done || p in w.explore)
  }

  /** What is in the done directories is seen, and nothing else is, beside the root. */
  ghost predicate IsClosed(nodes: Nodes, root: Path, seen: seq<Path>, done: set<Path>) {
    && (forall p, n :: p in done && p + [n] in nodes ==> p + [n] in seen)
    && (forall p :: p in seen && p != root ==> p != [] && Parent(p) in done)
  }

  lemma {:induction false} ChildrenAre(path: Path, names: seq<string>)
    ensures forall p :: p in Children(path, names) <==>
                        |p| == |path| + 1 && path <= p && p[|path|] in names && !IsDot(p[|path|])
  {
    if names != [] {
      var last, front := names[|names| - 1], names[..|names| - 1];
      assert names == front + [last];
      ChildrenAre(path, front);
      forall p | |p| == |path| + 1 && path <= p && p[|path|] == last ensures p == path + [last] {
        assert p == path + [p[|path|]];
      }
    }
  }

  lemma {:induction false} ChildrenDiffer(path: Path, names: seq<string>)
    requires forall i, j :: 0 <= i < j < |names| ==> names[i] != names[j]
    ensures NoRepeats(Children(path, names))
  {
    if names != [] {
      var last, front := names[|names| - 1], names[..|names| - 1];
      ChildrenDiffer(path, front);
      ChildrenAre(path, front);
      assert last !in front;
      assert (path + [last])[|path|] == last;
      assert path + [last] !in Children(path, front);
      OneMoreDiffers(Children(path, front), path + [last]);
    }
  }

  lemma OneMoreDiffers(paths: seq<Path>, p: Path)
    requires NoRepeats(paths) && p !in paths
    ensures NoRepeats(paths + [p])
  {
  }

  lemma {:induction false} DirectoriesAre(nodes: Nodes, paths: seq<Path>)
    requires NoRepeats(paths)
    ensures forall p :: p in Directories(nodes, paths) <==> p in paths && p in nodes && nodes[p]
    ensures NoRepeats(Directories(nodes, paths))
  {
    if paths != [] {
      var last, front := paths[|paths| - 1], paths[..|paths| - 1];
      assert paths == front + [last];
      DirectoriesAre(nodes, front);
      assert last !in front;
      if last in nodes && nodes[last] {
        OneMoreDiffers(Directories(nodes, front), last);
      }
    }
  }

  lemma Concatenated(a: seq<Path>, b: seq<Path>)
    requires NoRepeats(a) && NoRepeats(b) && forall p :: p in b ==> p !in a
    ensures NoRepeats(a + b)
  {
    forall i, j | 0 <= i < j < |a + b| ensures (a + b)[i] != (a + b)[j] {
      if i < |a| <= j {
        assert (a + b)[j] in b;
      }
    }
  }

  lemma ParentsStayFirst(seen: seq<Path>, path: Path, children: seq<Path>)
    requires seen != [] && path in seen && ParentsFirst(seen)
    requires forall p :: p in children ==> p != [] && Parent(p) == path
    ensures ParentsFirst(seen + children)
  {
    var all := seen + children;
    forall j | 0 < j < |all| ensures all[j] != [] && Parent(all[j]) in all[..j] {
      if j < |seen| {
        assert all[..j] == seen[..j];
      } else {
        assert all[j] in children;
        assert all[..j] == seen + children[..j - |seen|];
      }
    }
  }

  ghost predicate IsNewChild(nodes: Nodes, root: Path, seen: seq<Path>, path: Path, p: Path) {
    p in nodes && root <= p && p != [] && Parent(p) == path && p !in seen
  }

  /** What a directory lists was never seen before: everything seen has its parent's listing read. */
  lemma ChildIsNew(nodes: Nodes, root: Path, w: Walk, done: set<Path>, path: Path, n: string)
    requires IsWalking(nodes, root, w, done) && path in w.explore && path + [n] in nodes
    ensures IsNewChild(nodes, root, w.seen, path, path + [n])
  {
    var p := path + [n];
    assert path in w.seen && root <= path;
    assert |p| > |root| && Parent(p) == path;
  }

  lemma {:induction false} ChildrenAreNew(nodes: Nodes, root: Path, seen: seq<Path>, path: Path, names: seq<string>)
    requires forall n :: n in names && !IsDot(n) ==> IsNewChild(nodes, root, seen, path, path + [n])
    ensures forall p :: p in Children(path, names) ==> IsNewChild(nodes, root, seen, path, p)
  {
    if names != [] {
      ChildrenAreNew(nodes, root, seen, path, names[..|names| - 1]);
      assert names[|names| - 1] in names;
    }
  }

  /** One turn keeps the state: the directory read is done. */
  lemma TurnKeepsWalking(nodes: Nodes, root: Path, w: Walk, done: set<Path>, names: seq<string>)
    requires IsWalking(nodes, root, w, done) && w.explore != []
    requires IsListing(nodes, w.explore[|w.explore| - 1], names) && IsTree(nodes)
    ensures IsWalking(nodes, root, Explored(nodes, w, names), done + {w.explore[|w.explore| - 1]})
  {
    var n := |w.explore| - 1;
    TurnFrom(nodes, root, w, done, w.explore[n], w.explore[..n], names);
  }

  lemma TurnFrom(nodes: Nodes, root: Path, w: Walk, done: set<Path>, path: Path, rest: seq<Path>, names: seq<string>)
    requires IsWalking(nodes, root, w, done) && w.explore == rest + [path] && path !in rest
    requires IsListing(nodes, path, names) && IsTree(nodes)
    ensures IsWalking(nodes, root,
            Walk(rest + Directories(nodes, Children(path, names)), w.seen + Children(path, names)),
                      done + {path})
  {
    var children := Children(path, names);
    var directories := Directories(nodes, children);
    assert path in w.explore && path in w.seen && forall p :: p in rest ==> p in w.explore;
    forall n | n in names && !IsDot(n) ensures IsNewChild(nodes, root, w.seen, path, path + [n]) {
      ChildIsNew(nodes, root, w, done, path, n);
    }
    ChildrenAreNew(nodes, root, w.seen, path, names);
    ChildrenAre(path, names);
    ChildrenDiffer(path, names);
    DirectoriesAre(nodes, children);
    Grows(nodes, root, w.seen, path, rest, children, directories);
    LevelsStay(nodes, root, w, done, path, children);
    TurnDone(nodes, root, w, done, path, rest, children, directories, names);
  }

  lemma Grows(
      nodes: Nodes, root: Path, seen: seq<Path>, path: Path, rest: seq<Path>, children: seq<Path>,
          directories: seq<Path>)
    requires seen != [] && path in seen && ParentsFirst(seen) && NoRepeats(seen) && NoRepeats(rest + [path])
    requires NoRepeats(children) && NoRepeats(directories)
    requires forall p :: p in children ==> IsNewChild(nodes, root, seen, path, p)
    requires (forall p :: p in directories ==> p in children) && forall p :: p in rest ==> p in seen
    ensures NoRepeats(seen + children) && ParentsFirst(seen + children) && NoRepeats(rest + directories)
  {
    assert forall i :: 0 <= i < |rest| ==> rest[i] == (rest + [path])[i];
    Concatenated(seen, children);
    Concatenated(rest, directories);
    ParentsStayFirst(seen, path, children);
  }

  /** Above anything seen every directory is done. */
  lemma {:induction false} AboveIsDone(nodes: Nodes, root: Path, w: Walk, done: set<Path>, p: Path, q: Path)
    requires IsCovered(nodes, root, w, done) && IsClosed(nodes, root, w.seen, done)
    requires q in w.seen && root <= p < q
    ensures p in done
    decreases |q|
  {
    var parent := Parent(q);
    if p != parent {
      AboveIsDone(nodes, root, w, done, p, parent);
    }
  }

  lemma LevelsStay(nodes: Nodes, root: Path, w: Walk, done: set<Path>, path: Path, children: seq<Path>)
    requires IsCovered(nodes, root, w, done) && IsClosed(nodes, root, w.seen, done)
    requires path in w.explore && LevelsFollow(w.seen)
    requires forall p :: p in children ==> IsNewChild(nodes, root, w.seen, path, p)
    ensures LevelsFollow(w.seen + children)
  {
    var all := w.seen + children;
    forall q | q in w.seen ensures q == [] || !(path < Parent(q)) {
      NothingBelow(nodes, root, w, done, path, q);
    }
    assert forall k :: |w.seen| <= k < |all| ==> all[k] in children;
    assert forall k :: 0 <= k < |w.seen| ==> all[k] in w.seen;
  }

  /** Nothing was listed yet below a directory that waits to be explored. */
  lemma NothingBelow(nodes: Nodes, root: Path, w: Walk, done: set<Path>, path: Path, q: Path)
    requires IsCovered(nodes, root, w, done) && IsClosed(nodes, root, w.seen, done)
    requires path in w.explore && q in w.seen
    ensures q == [] || !(path < Parent(q))
  {
    if q != [] && path < Parent(q) {
      AboveIsDone(nodes, root, w, done, path, q);
    }
  }

  lemma TurnDone(nodes: Nodes, root: Path, w: Walk, done: set<Path>, path: Path, rest: seq<Path>,
                 children: seq<Path>, directories: seq<Path>, names: seq<string>)
    requires IsWalking(nodes, root, w, done) && w.explore == rest + [path] && path !in rest
    requires IsListing(nodes, path, names) && IsTree(nodes)
    requires forall p :: p in children <==> |p| == |path| + 1 && path <= p && p[|path|] in names && !IsDot(p[|path|])
    requires forall p :: p in children ==> IsNewChild(nodes, root, w.seen, path, p)
    requires forall p :: p in directories <==> p in children && p in nodes && nodes[p]
    requires NoRepeats(w.seen + children) && NoRepeats(rest + directories)
    requires ParentsFirst(w.seen + children) && LevelsFollow(w.seen + children)
    ensures IsWalking(nodes, root, Walk(rest + directories, w.seen + children), done + {path})
  {
    assert path in w.explore;
    TurnCovers(nodes, root, w, done, path, rest, children, directories);
    forall n | path + [n] in nodes ensures path + [n] in children {
      assert (path + [n])[|path + [n]| - 1] == n;
    }
    TurnCloses(nodes, root, w.seen, done, path, children);
  }

  lemma TurnCovers(nodes: Nodes, root: Path, w: Walk, done: set<Path>, path: Path, rest: seq<Path>,
                   children: seq<Path>, directories: seq<Path>)
    requires IsCovered(nodes, root, w, done) && w.explore == rest + [path] && path !in rest
    requires forall p :: p in children ==> p in nodes && root <= p && p !in w.seen
    requires forall p :: p in directories <==> p in children && p in nodes && nodes[p]
    ensures IsCovered(nodes, root, Walk(rest + directories, w.seen + children), done + {path})
  {
    assert path in w.explore;
  }

  lemma TurnCloses(nodes: Nodes, root: Path, seen: seq<Path>, done: set<Path>, path: Path, children: seq<Path>)
    requires IsClosed(nodes, root, seen, done)
    requires forall n :: path + [n] in nodes ==> path + [n] in children
    requires forall p :: p in children ==> p != [] && Parent(p) == path
    ensures IsClosed(nodes, root, seen + children, done + {path})
  {
  }

  // ---------------------------------------------------------------------------
  // What the finished walk gives.

  ghost predicate IsUnder(nodes: Nodes, root: Path, p: Path) {
    p in nodes && root <= p
  }

  /** Each path at or under the root exactly once, and each directory before everything below it. */
  ghost predicate IsContents(nodes: Nodes, root: Path, paths: seq<Path>) {
    && NoRepeats(paths)
    && (forall p :: p in paths <==> IsUnder(nodes, root, p))
    && (forall i, j :: 0 <= i < |paths| && 0 <= j < |paths| && paths[i] < paths[j] ==> i < j)
  }

  lemma {:induction false} EverythingIsSeen(nodes: Nodes, root: Path, w: Walk, done: set<Path>, p: Path)
    requires IsTree(nodes) && root in w.seen && w.explore == []
    requires IsCovered(nodes, root, w, done) && IsClosed(nodes, root, w.seen, done)
    requires IsUnder(nodes, root, p)
    ensures p in w.seen
    decreases |p|
  {
    if p != root {
      var parent := Parent(p);
      ParentIsUnder(nodes, root, p);
      EverythingIsSeen(nodes, root, w, done, parent);
    }
  }

  lemma ParentIsUnder(nodes: Nodes, root: Path, p: Path)
    requires IsTree(nodes) && IsUnder(nodes, root, p) && p != root
    ensures p != [] && IsUnder(nodes, root, Parent(p)) && nodes[Parent(p)] && p == Parent(p) + [p[|p| - 1]]
  {
  }

  lemma {:induction false} AboveIsEarlier(root: Path, seen: seq<Path>, i: nat, j: nat)
    requires i < |seen| && j < |seen| && seen[i] < seen[j] && root <= seen[i]
    requires seen[0] == root && NoRepeats(seen) && ParentsFirst(seen)
    ensures i < j
    decreases j
  {
    assert j > 0;
    var parent := Parent(seen[j]);
    var k :| 0 <= k < j && seen[..j][k] == parent;
    assert seen[k] == parent;
    if seen[i] == parent {
      assert i == k;
    } else {
      AboveIsEarlier(root, seen, i, k);
    }
  }

  /** The paths are in the order of increasing depth. */
  ghost predicate IsByDepth(paths: seq<Path>) {
    forall i, j :: 0 <= i < j < |paths| ==> |paths[i]| <= |paths[j]|
  }

  ghost predicate IsEntry(nodes: Nodes, root: Path, p: Path) {
    IsUnder(nodes, root, p) && p != root
  }

  /** Of two entries at different depths, the less deep one is in a directory above that of the other. */
  ghost predicate IsNarrow(nodes: Nodes, root: Path) {
    forall p, q :: IsEntry(nodes, root, p) && IsEntry(nodes, root, q) && |p| < |q| ==> IsAbove(p, q)
  }

  /** In such a tree the walk does list by increasing depth, in whatever order the directories list. */
  lemma NarrowIsByDepth(nodes: Nodes, root: Path, w: Walk, done: set<Path>)
    requires IsWalking(nodes, root, w, done) && IsNarrow(nodes, root)
    ensures IsByDepth(w.seen)
  {
    assert forall i :: 0 <= i < |w.seen| ==> w.seen[i] in w.seen;
    forall i, j | 0 <= i < j < |w.seen| ensures |w.seen[i]| <= |w.seen[j]| {
      if i > 0 {
        assert IsEntry(nodes, root, w.seen[i]) && IsEntry(nodes, root, w.seen[j]);
      }
    }
  }

  lemma FinishedWalk(nodes: Nodes, root: Path, w: Walk, done: set<Path>)
    requires IsTree(nodes) && IsWalking(nodes, root, w, done) && w.explore == []
    ensures IsContents(nodes, root, w.seen) && w.seen[0] == root
  {
    forall p ensures p in w.seen <==> IsUnder(nodes, root, p) {
      if IsUnder(nodes, root, p) {
        EverythingIsSeen(nodes, root, w, done, p);
      }
    }
    forall i, j | 0 <= i < |w.seen| && 0 <= j < |w.seen| && w.seen[i] < w.seen[j] ensures i < j {
      assert w.seen[i] in w.seen;
      AboveIsEarlier(root, w.seen, i, j);
    }
  }

  lemma StartOfWalk(nodes: Nodes, root: Path)
    requires root in nodes && nodes[root]
    ensures IsWalking(nodes, root, Walk([root], [root]), {})
  {
  }

  /** Reversed, the contents come children first. */
  lemma ReversedContents(nodes: Nodes, root: Path, paths: seq<Path>)
    requires IsContents(nodes, root, paths)
    ensures NoRepeats(Reverse(paths))
    ensures forall p :: p in Reverse(paths) <==> IsUnder(nodes, root, p)
    ensures forall i, j :: 0 <= i < |paths| && 0 <= j < |paths| && Reverse(paths)[i] < Reverse(paths)[j] ==> j < i
  {
    var reversed := Reverse(paths);
    forall i | 0 <= i < |paths| ensures reversed[i] == paths[|paths| - 1 - i] {
      ReverseAt(paths, i);
    }
    assert forall i :: 0 <= i < |paths| ==> paths[i] == reversed[|paths| - 1 - i];
  }

  /** What is left when the first k paths of a children-first listing have been deleted. */
  ghost predicate IsLeft(nodes: Nodes, paths: seq<Path>, k: nat, left: Nodes)
    requires k <= |paths|
  {
    left == map p | p in nodes && p !in paths[..k] :: nodes[p]
  }

  /** The next path still exists and has nothing under it any more; a tree without it is a tree. */
  lemma NextIsEmpty(nodes: Nodes, root: Path, paths: seq<Path>, k: nat, left: Nodes)
    requires k < |paths| && NoRepeats(paths) && IsLeft(nodes, paths, k, left)
    requires forall p :: p in paths <==> IsUnder(nodes, root, p)
    requires forall i, j :: 0 <= i < |paths| && 0 <= j < |paths| && paths[i] < paths[j] ==> j < i
    ensures paths[k] in left && left[paths[k]] == nodes[paths[k]]
    ensures forall n :: paths[k] + [n] !in left
    ensures IsLeft(nodes, paths, k + 1, left - {paths[k]})
  {
    assert paths[k] in paths;
    forall n ensures paths[k] + [n] !in left {
      var p := paths[k] + [n];
      if p in nodes {
        assert IsUnder(nodes, root, p);
        var i :| 0 <= i < |paths| && paths[i] == p;
        assert paths[k] < paths[i];
        assert paths[..k][i] == p;
      }
    }
    assert paths[..k + 1] == paths[..k] + [paths[k]];
  }

  lemma AllDeleted(nodes: Nodes, root: Path, paths: seq<Path>, left: Nodes)
    requires IsTree(nodes) && IsLeft(nodes, paths, |paths|, left)
    requires forall p :: p in paths <==> IsUnder(nodes, root, p)
    ensures left == map p | p in nodes && !(root <= p) :: nodes[p]
    ensures IsTree(left)
  {
    assert paths[..|paths|] == paths;
  }

  /** One entry of a listing: where the two stacks stand after it. */
  lemma NextEntry(nodes: Nodes, path: Path, names: seq<string>, i: nat, rest: seq<Path>, before: seq<Path>)
    requires i < |names|
    ensures var was, now, child := Children(path, names[..i]), Children(path, names[..i + 1]), path + [names[i]];
            if IsDot(names[i]) then now == was
            else
              before + now == before + was + [child] &&
              rest + Directories(nodes, now) ==
              if child in nodes && nodes[child] then rest + Directories(nodes, was) + [child]
                  else rest + Directories(nodes, was)
  {
    assert names[..i + 1][..i] == names[..i];
    NextDirectory(nodes, Children(path, names[..i]), path + [names[i]], rest);
  }

  lemma NextDirectory(nodes: Nodes, was: seq<Path>, child: Path, rest: seq<Path>)
    ensures rest + Directories(nodes, was + [child]) ==
            if child in nodes && nodes[child] then rest + Directories(nodes, was) + [child]
                else rest + Directories(nodes, was)
  {
    assert (was + [child])[..|was|] == was;
  }

  function EntryNames(nodes: Nodes, path: Path): set<string> {
    set p | p in nodes && p != [] && Parent(p) == path :: p[|p| - 1]
  }

  lemma EntryNamesAre(nodes: Nodes, path: Path)
    ensures forall n :: path + [n] in nodes <==> n in EntryNames(nodes, path)
    ensures forall n :: n in EntryNames(nodes, path) && IsTree(nodes) ==> !IsDot(n)
  {
    forall n ensures path + [n] in nodes <==> n in EntryNames(nodes, path) {
      assert Parent(path + [n]) == path;
      assert (path + [n])[|path|] == n;
      forall p | p in nodes && p != [] && Parent(p) == path && p[|p| - 1] == n ensures p == path + [n] {
      }
    }
  }

  /** The directories of a share, as the SMB client sees them. */
  class Share {
    var nodes: Nodes

    ghost predicate Valid()
      reads this
    {
      IsTree(nodes)
    }

    /** Lists a directory in no particular order, dots included. */
    method ReadDir(path: Path) returns (names: seq<string>)
      requires Valid()
      ensures IsListing(nodes, path, names)
    {
      names := [".", ".."];
      var left := EntryNames(nodes, path);
      EntryNamesAre(nodes, path);
      ghost var all := left;
      while left != {}
        invariant left <= all && "." !in all && ".." !in all
        invariant forall i, j :: 0 <= i < j < |names| ==> names[i] != names[j]
        invariant forall n :: n in names <==> IsDot(n) || n in all - left
        decreases left
      {
        var n :| n in left;
        left := left - {n};
        names := names + [n];
      }
    }

    /** Succeeds exactly on an existing directory, and then gives its contents, parents first. */
    method GetGptContents(root: Path) returns (ok: bool, paths: seq<Path>)
      requires Valid()
      ensures ok == (root in nodes && nodes[root])
      ensures ok ==> IsContents(nodes, root, paths) && paths != [] && paths[0] == root
      ensures ok && IsNarrow(nodes, root) ==> IsByDepth(paths)
      ensures !ok ==> paths == []
    {
      var explore, seen := [root], [root];
      ghost var done: set<Path> := {};
      if root in nodes && nodes[root] {
        StartOfWalk(nodes, root);
      }
      while explore != []
        invariant root in nodes && nodes[root] ==> IsWalking(nodes, root, Walk(explore, seen), done)
        invariant !(root in nodes && nodes[root]) ==> explore == [root]
        decreases nodes.Keys - done
      {
        var path := explore[|explore| - 1];
        if path !in nodes || !nodes[path] {
          return false, [];
        }
        explore, seen := ReadEntries(root, explore, seen, done);
        done := done + {path};
      }
      FinishedWalk(nodes, root, Walk(explore, seen), done);
      if IsNarrow(nodes, root) {
        NarrowIsByDepth(nodes, root, Walk(explore, seen), done);
      }
      return true, seen;
    }

    /** One turn of the walk: takes the directory on top of the stack and goes through its entries. */
    method ReadEntries(ghost root: Path, stack: seq<Path>, before: seq<Path>, ghost done: set<Path>)
      returns (explore: seq<Path>, seen: seq<Path>)
      requires Valid() && stack != [] && IsWalking(nodes, root, Walk(stack, before), done)
      ensures IsWalking(nodes, root, Walk(explore, seen), done + {stack[|stack| - 1]})
    {
      var path, rest := stack[|stack| - 1], stack[..|stack| - 1];
      var names := ReadDir(path);
      explore, seen := PushEntries(path, names, rest, before);
      TurnKeepsWalking(nodes, root, Walk(stack, before), done, names);
    }

    method PushEntries(path: Path, names: seq<string>, rest: seq<Path>, before: seq<Path>)
      returns (explore: seq<Path>, seen: seq<Path>)
      requires IsListing(nodes, path, names)
      ensures explore == rest + Directories(nodes, Children(path, names)) && seen == before + Children(path, names)
    {
      explore, seen := rest, before;
      for i := 0 to |names|
        invariant seen == before + Children(path, names[..i])
        invariant explore == rest + Directories(nodes, Children(path, names[..i]))
      {
        NextEntry(nodes, path, names, i, rest, before);
        if IsDot(names[i]) {
          continue;
        }
        var child := path + [names[i]];
        seen := seen + [child];
        if nodes[child] {
          explore := explore + [child];
        }
      }
      assert names[..|names|] == names;
    }

    /** Fails on a directory that is not empty. */
    method RemoveDir(path: Path) returns (ok: bool)
      modifies this
      ensures ok == (path in old(nodes) && old(nodes)[path] && forall n :: path + [n] !in old(nodes))
      ensures nodes == if ok then old(nodes) - {path} else old(nodes)
    {
      EntryNamesAre(nodes, path);
      ok := path in nodes && nodes[path] && EntryNames(nodes, path) == {};
      if ok {
        nodes := nodes - {path};
      }
    }

    method Unlink(path: Path) returns (ok: bool)
      modifies this
      ensures ok == (path in old(nodes) && !old(nodes)[path])
      ensures nodes == if ok then old(nodes) - {path} else old(nodes)
    {
      ok := path in nodes && !nodes[path];
      if ok {
        nodes := nodes - {path};
      }
    }

    /** No removal fails: exactly the root and what is under it are gone, and the rest is as it was. */
    method DeleteGpt(root: Path) returns (ok: bool)
      requires Valid()
      modifies this
      ensures ok == (root in old(nodes) && old(nodes)[root])
      ensures nodes == if ok then map p | p in old(nodes) && !(root <= p) :: old(nodes)[p] else old(nodes)
      ensures Valid()
    {
      ghost var before := nodes;
      var paths;
      ok, paths := GetGptContents(root);
      if !ok {
        return false;
      }
      ReversedContents(before, root, paths);
      paths := Reverse(paths);
      for k := 0 to |paths|
        invariant IsLeft(before, paths, k, nodes)
      {
        NextIsEmpty(before, root, paths, k, nodes);
        if nodes[paths[k]] {
          ok := RemoveDir(paths[k]);
        } else {
          ok := Unlink(paths[k]);
        }
        if !ok {
          return;
        }
      }
      AllDeleted(before, root, paths, nodes);
      return true;
    }
  }
}
