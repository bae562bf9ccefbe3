/** Exactly for which trees the contents of a policy template come in the order of increasing depth. */
module GptDepth {
  import opened GptWalk

  /** The walk continued with what the server answers, one listing a turn. */
  function Run(nodes: Nodes, w: Walk, listings: seq<seq<string>>): Walk
    decreases |listings|
  {
    if listings == [] || w.explore == [] then w else Run(nodes, Explored(nodes, w, listings[0]), listings[1..])
  }

  function Top(w: Walk): Path
    requires w.explore != []
  {
    w.explore[|w.explore| - 1]
  }

  /** The answers are listings of the directories asked for, and they end when there is nothing left to ask. */
  ghost predicate IsComplete(nodes: Nodes, w: Walk, listings: seq<seq<string>>)
    decreases |listings|
  {
    if w.explore == [] then listings == []
    else
      listings != [] && IsListing(nodes, Top(w), listings[0]) &&
      IsComplete(nodes, Explored(nodes, w, listings[0]), listings[1..])
  }

  lemma {:induction false} RunIsWalking(nodes: Nodes, root: Path, w: Walk, done: set<Path>, listings: seq<seq<string>>)
    returns (all: set<Path>)
    requires IsTree(nodes) && IsWalking(nodes, root, w, done) && IsComplete(nodes, w, listings)
    ensures IsWalking(nodes, root, Run(nodes, w, listings), all) && Run(nodes, w, listings).explore == []
    decreases |listings|
  {
    all := done;
    if w.explore != [] {
      TurnKeepsWalking(nodes, root, w, done, listings[0]);
      all := RunIsWalking(nodes, root, Explored(nodes, w, listings[0]), done + {Top(w)}, listings[1..]);
    }
  }

  // ---------------------------------------------------------------------------
  // A server may list any entry last.

  lemma {:induction false} SomeOrder(names: set<string>) returns (list: seq<string>)
    ensures forall i, j :: 0 <= i < j < |list| ==> list[i] != list[j]
    ensures forall n :: n in list <==> n in names
  {
    list := [];
    if names != {} {
      var n :| n in names;
      list := SomeOrder(names - {n});
      list := list + [n];
    }
  }

  lemma ListingWithLast(nodes: Nodes, path: Path, last: string) returns (names: seq<string>)
    requires path + [last] in nodes
    ensures IsListing(nodes, path, names) && names != [] && names[|names| - 1] == last
  {
    EntryNamesAre(nodes, path);
    var others := SomeOrder(EntryNames(nodes, path) - {last});
    names := others + [last];
    assert last !in others;
    forall n | path + [n] in nodes ensures n in names {
      assert n == last || n in others;
    }
  }

  lemma SomeListing(nodes: Nodes, path: Path) returns (names: seq<string>)
    ensures IsListing(nodes, path, names)
  {
    EntryNamesAre(nodes, path);
    names := SomeOrder(EntryNames(nodes, path));
  }

  /** Every walk can be finished. */
  lemma {:induction false} CanFinish(nodes: Nodes, root: Path, w: Walk, done: set<Path>)
      returns (listings: seq<seq<string>>)
    requires IsTree(nodes) && IsWalking(nodes, root, w, done)
    ensures IsComplete(nodes, w, listings)
    decreases nodes.Keys - done
  {
    listings := [];
    if w.explore != [] {
      var names := SomeListing(nodes, Top(w));
      TurnKeepsWalking(nodes, root, w, done, names);
      TopIsNotDone(nodes, root, w, done);
      var rest := CanFinish(nodes, root, Explored(nodes, w, names), done + {Top(w)});
      listings := [names] + rest;
    }
  }

  lemma {:induction false} RunAppends(nodes: Nodes, w: Walk, listings: seq<seq<string>>)
    ensures w.seen <= Run(nodes, w, listings).seen
    decreases |listings|
  {
    if listings != [] && w.explore != [] {
      RunAppends(nodes, Explored(nodes, w, listings[0]), listings[1..]);
    }
  }

  lemma TopIsNotDone(nodes: Nodes, root: Path, w: Walk, done: set<Path>)
    requires IsWalking(nodes, root, w, done) && w.explore != []
    ensures Top(w) in nodes && Top(w) !in done && Top(w) in w.seen
  {
    assert Top(w) in w.explore;
  }

  // ---------------------------------------------------------------------------
  // Walking straight down to a deep entry.

  /** A is listed before b. */
  ghost predicate Precedes(seen: seq<Path>, a: Path, b: Path) {
    exists i, j :: 0 <= i < j < |seen| && seen[i] == a && seen[j] == b
  }

  lemma SeenLater(before: seq<Path>, after: seq<Path>, a: Path, b: Path)
    requires before <= after && a in before && b !in before && b in after
    ensures Precedes(after, a, b)
  {
    var i :| 0 <= i < |before| && before[i] == a;
    var j :| 0 <= j < |after| && after[j] == b;
    assert after[i] == a;
    assert forall k :: 0 <= k < |before| ==> after[k] == before[k] && before[k] in before;
  }

  /** On the way down to q, listing the next directory last each time, only entries of directories above q are seen. */
  lemma {:induction false} DeepFirst(nodes: Nodes, root: Path, w: Walk, done: set<Path>, p: Path, q: Path)
    returns (listings: seq<seq<string>>)
    requires IsTree(nodes) && IsWalking(nodes, root, w, done) && w.explore != []
    requires IsEntry(nodes, root, p) && IsEntry(nodes, root, q) && |p| < |q| && !IsAbove(p, q)
    requires root <= Top(w) < q && p !in w.seen && q !in w.seen
    ensures IsComplete(nodes, w, listings) && Precedes(Run(nodes, w, listings).seen, q, p)
    decreases |q| - |Top(w)|
  {
    var top := Top(w);
    var n := q[|top|];
    OnTheWay(nodes, top, q);
    var names := ListingWithLast(nodes, top, n);
    var next := Explored(nodes, w, names);
    TurnKeepsWalking(nodes, root, w, done, names);
    LastChild(nodes, w, names, n, p, q);
    var rest;
    if top + [n] == q {
      rest := CanFinish(nodes, root, next, done + {top});
      var all := RunIsWalking(nodes, root, next, done + {top}, rest);
      RunAppends(nodes, next, rest);
      FinishedWalk(nodes, root, Run(nodes, next, rest), all);
      SeenLater(next.seen, Run(nodes, next, rest).seen, q, p);
    } else {
      rest := DeepFirst(nodes, root, next, done + {top}, p, q);
    }
    listings := [names] + rest;
  }

  lemma OnTheWay(nodes: Nodes, top: Path, q: Path)
    requires IsTree(nodes) && q in nodes && top < q
    ensures var child := top + [q[|top|]];
            child in nodes && child <= q && !IsDot(q[|top|]) && (child != q ==> nodes[child])
    decreases |q|
  {
    var child := top + [q[|top|]];
    assert child <= q;
    if child != q {
      var parent := Parent(q);
      assert parent in nodes;
      if child != parent {
        OnTheWay(nodes, top, parent);
      }
    }
  }

  /** After that turn the directory on the way is on top, or the deep entry is seen; the other entry is not seen. */
  lemma LastChild(nodes: Nodes, w: Walk, names: seq<string>, n: string, p: Path, q: Path)
    requires w.explore != [] && Top(w) < q && n == q[|Top(w)|] && names != [] && names[|names| - 1] == n && !IsDot(n)
    requires p != [] && |p| < |q| && !IsAbove(p, q) && p !in w.seen && q !in w.seen
    requires Top(w) + [n] in nodes && (Top(w) + [n] != q ==> nodes[Top(w) + [n]])
    ensures var next := Explored(nodes, w, names);
            p !in next.seen && (Top(w) + [n] == q ==> q in next.seen) &&
            (Top(w) + [n] != q ==> q !in next.seen && next.explore != [] && Top(next) == Top(w) + [n])
  {
    var top := Top(w);
    ChildrenAre(top, names);
    OnlyTheWay(top, p, q);
    LastIsOnTop(nodes, top, names, w.explore[..|w.explore| - 1]);
  }

  /** The less deep entry is not in a directory on the way, and of those only the last one has the deep entry. */
  lemma OnlyTheWay(top: Path, p: Path, q: Path)
    requires p != [] && |p| < |q| && !IsAbove(p, q) && top < q
    ensures |p| == |top| + 1 ==> !(top <= p)
    ensures |q| == |top| + 1 ==> q == top + [q[|top|]]
  {
    assert top <= Parent(q);
    if |p| == |top| + 1 && top <= p {
      ParentIs(top, p);
    }
  }

  lemma ParentIs(top: Path, p: Path)
    requires |p| == |top| + 1 && top <= p
    ensures Parent(p) == top
  {
  }

  lemma LastIsOnTop(nodes: Nodes, top: Path, names: seq<string>, rest: seq<Path>)
    requires names != [] && !IsDot(names[|names| - 1])
    ensures var child, children := top + [names[|names| - 1]], Children(top, names);
            child in children &&
            (child in nodes && nodes[child] ==>
               var explore := rest + Directories(nodes, children);
               explore != [] && explore[|explore| - 1] == child)
  {
    var child, children := top + [names[|names| - 1]], Children(top, names);
    assert children[|children| - 1] == child;
  }

  // ---------------------------------------------------------------------------

  function Start(root: Path): Walk {
    Walk([root], [root])
  }

  /**
   The contents are by increasing depth in whatever order the server lists, exactly when of two
   entries at different depths the less deep one is always in a directory above the other's.
   */
  lemma ByDepthExactly(nodes: Nodes, root: Path)
    requires IsTree(nodes) && root in nodes && nodes[root]
    ensures IsNarrow(nodes, root) <==>
            forall listings :: IsComplete(nodes, Start(root), listings) ==>
                IsByDepth(Run(nodes, Start(root), listings).seen)
  {
    if IsNarrow(nodes, root) {
      forall listings | IsComplete(nodes, Start(root), listings)
        ensures IsByDepth(Run(nodes, Start(root), listings).seen)
      {
        NarrowRun(nodes, root, listings);
      }
    } else {
      var listings := BadRun(nodes, root);
    }
  }

  lemma NarrowRun(nodes: Nodes, root: Path, listings: seq<seq<string>>)
    requires IsTree(nodes) && root in nodes && nodes[root] && IsNarrow(nodes, root)
    requires IsComplete(nodes, Start(root), listings)
    ensures IsByDepth(Run(nodes, Start(root), listings).seen)
  {
    StartOfWalk(nodes, root);
    var all := RunIsWalking(nodes, root, Start(root), {}, listings);
    NarrowIsByDepth(nodes, root, Run(nodes, Start(root), listings), all);
  }

  lemma BadRun(nodes: Nodes, root: Path) returns (listings: seq<seq<string>>)
    requires IsTree(nodes) && root in nodes && nodes[root] && !IsNarrow(nodes, root)
    ensures IsComplete(nodes, Start(root), listings) && !IsByDepth(Run(nodes, Start(root), listings).seen)
  {
    StartOfWalk(nodes, root);
    var p, q :| IsEntry(nodes, root, p) && IsEntry(nodes, root, q) && |p| < |q| && !IsAbove(p, q);
    listings := DeepFirst(nodes, root, Start(root), {}, p, q);
  }

  // ---------------------------------------------------------------------------
  // A tree whose contents may come in another order.

  lemma Grow(nodes: Nodes, p: Path, isDir: bool)
    requires IsTree(nodes) && p !in nodes && p != [] && Parent(p) in nodes && nodes[Parent(p)] && !IsDot(p[|p| - 1])
    ensures IsTree(nodes[p := isDir])
  {
  }

  /** A directory with a file, beside a directory with a directory with a file. */
  lemma SampleTree() returns (nodes: Nodes)
    ensures IsTree(nodes) && [] in nodes && nodes[[]]
    ensures ["a", "c"] in nodes && ["b", "d", "e"] in nodes && |nodes| == 6
  {
    nodes := map[[] := true];
    var a, b, c, d, e: Path := ["a"], ["b"], ["a", "c"], ["b", "d"], ["b", "d", "e"];
    assert Parent(a) == [] && Parent(b) == [] && Parent(c) == a && Parent(d) == b && Parent(e) == d;
    assert a[0] != d[0];
    Grow(nodes, a, true);
    nodes := nodes[a := true];
    Grow(nodes, b, true);
    nodes := nodes[b := true];
    Grow(nodes, c, false);
    nodes := nodes[c := false];
    Grow(nodes, d, true);
    nodes := nodes[d := true];
    Grow(nodes, e, false);
    nodes := nodes[e := false];
  }

  /** The server may list the deeper file before the other one. */
  lemma FileBesideDeeperFile() returns (nodes: Nodes, listings: seq<seq<string>>)
    ensures IsTree(nodes) && [] in nodes && nodes[[]] && ["a", "c"] in nodes && ["b", "d", "e"] in nodes && |nodes| == 6
    ensures IsComplete(nodes, Start([]), listings) && !IsByDepth(Run(nodes, Start([]), listings).seen)
  {
    nodes := SampleTree();
    var c, e: Path := ["a", "c"], ["b", "d", "e"];
    assert Parent(c)[0] != Parent(e)[0];
    assert IsEntry(nodes, [], c) && IsEntry(nodes, [], e) && !IsAbove(c, e);
    listings := BadRun(nodes, []);
  }
}
