/** Loading the attributes of a class that rights can be given on, and of every class reachable as its inferior. */
module Schemas {
  import opened Primitives

  datatype ClassSchema = ClassSchema(allowed: seq<string>, mayContain: seq<string>)

  datatype AttributeSchema = AttributeSchema(linkId: Option<int>, systemFlags: set<nat>, systemOnly: bool)

  /** What the directory answers: class entries, the possible inferiors of a class, and attribute entries. */
  datatype Schema = Schema(classes: map<string, ClassSchema>, inferiors: map<string, seq<string>>,
                           attributes: map<string, AttributeSchema>)

  const CONSTRUCTED: nat := 2
  const NO_ATTRIBUTE := AttributeSchema(None, {}, false)

  function PossibleInferiors(schema: Schema, cls: string): seq<string> {
    if cls in schema.inferiors then schema.inferiors[cls] else []
  }

  function Attribute(schema: Schema, attribute: string): AttributeSchema {
    if attribute in schema.attributes then schema.attributes[attribute] else NO_ATTRIBUTE
  }

  predicate IsBacklink(a: AttributeSchema) {
    a.linkId.Some? && a.linkId.value % 2 != 0
  }

  predicate IsHidden(schema: Schema, attribute: string) {
    var a := Attribute(schema, attribute);
    IsBacklink(a) || CONSTRUCTED in a.systemFlags || a.systemOnly
  }

  /**
   What rights can be given on: attributes without an entry, and those with an even link identifier or
   none, of which bit 2 of the system flags, 0x4, is clear and which are not for the system alone.
   */
  ghost predicate MayBeListed(schema: Schema, attribute: string) {
    attribute in schema.attributes ==>
      match schema.attributes[attribute]
      case AttributeSchema(link, flags, systemOnly) =>
        (link == None || exists k :: link == Some(2 * k)) && 2 !in flags && !systemOnly
  }

  lemma HiddenExactly(schema: Schema, attribute: string)
    ensures IsHidden(schema, attribute) <==> !MayBeListed(schema, attribute)
  {
    var link := Attribute(schema, attribute).linkId;
    if link.Some? && link.value % 2 == 0 {
      assert link == Some(2 * (link.value / 2));
    }
  }

  // ---------------------------------------------------------------------------
  // Sorted lists of names.

  predicate Less(a: string, b: string) {
    b != "" && (a == "" || a[0] < b[0] || (a[0] == b[0] && Less(a[1..], b[1..])))
  }

  /** The order of a dictionary: after a common start one word ends, or the characters differ. */
  ghost predicate ComesBefore(a: string, b: string, k: int) {
    && 0 <= k <= |a| && k < |b| && a[..k] == b[..k]
    && (k == |a| || a[k] < b[k])
  }

  lemma {:induction false} LessExactly(a: string, b: string)
    ensures Less(a, b) <==> exists k :: ComesBefore(a, b, k)
  {
    if a != "" && b != "" && a[0] == b[0] {
      var x, y := a[1..], b[1..];
      LessExactly(x, y);
      forall k | ComesBefore(x, y, k) ensures ComesBefore(a, b, k + 1) {
        assert a[..k + 1] == [a[0]] + x[..k] && b[..k + 1] == [b[0]] + y[..k];
      }
      forall k | ComesBefore(a, b, k) ensures k > 0 && ComesBefore(x, y, k - 1) {
        assert k > 0 ==> x[..k - 1] == a[..k][1..] && y[..k - 1] == b[..k][1..];
      }
    } else if b != "" {
      assert Less(a, b) ==> ComesBefore(a, b, 0);
      CommonStart(a, b);
    }
  }

  lemma CommonStart(a: string, b: string)
    ensures forall k :: ComesBefore(a, b, k) && k > 0 ==> a[0] == b[0]
  {
    forall k | ComesBefore(a, b, k) && k > 0 ensures a[0] == b[0] {
      assert a[..k][0] == a[0] && b[..k][0] == b[0];
    }
  }

  lemma {:induction false} LessIsTotal(a: string, b: string)
    ensures a != b ==> Less(a, b) || Less(b, a)
    ensures Less(a, b) ==> a != b && !Less(b, a)
  {
    if a != "" && b != "" {
      assert a == [a[0]] + a[1..] && b == [b[0]] + b[1..];
      LessIsTotal(a[1..], b[1..]);
    }
  }

  lemma {:induction false} LessIsTransitive(a: string, b: string, c: string)
    requires Less(a, b) && Less(b, c)
    ensures Less(a, c)
  {
    if a != "" && a[0] == b[0] && b[0] == c[0] {
      LessIsTransitive(a[1..], b[1..], c[1..]);
    }
  }

  predicate IsSorted(names: seq<string>) {
    forall i, j :: 0 <= i < j < |names| ==> Less(names[i], names[j])
  }

  /** A strictly sorted list is determined by its members. */
  lemma {:induction false} SortedIsUnique(a: seq<string>, b: seq<string>)
    requires IsSorted(a) && IsSorted(b)
    requires forall x :: x in a <==> x in b
    ensures a == b
    decreases |a|
  {
    assert forall i :: 0 <= i < |a| ==> a[i] in b;
    assert forall i :: 0 <= i < |b| ==> b[i] in a;
    if a != [] && b != [] {
      SameFirst(a, b);
      SameFirst(b, a);
      LessIsTotal(a[0], b[0]);
      SameRest(a, b);
      SortedIsUnique(a[1..], b[1..]);
      assert a == [a[0]] + a[1..] && b == [b[0]] + b[1..];
    }
  }

  lemma SameFirst(a: seq<string>, b: seq<string>)
    requires IsSorted(b) && a != [] && b != [] && a[0] in b
    ensures a[0] == b[0] || Less(b[0], a[0])
  {
  }

  lemma SameRest(a: seq<string>, b: seq<string>)
    requires IsSorted(a) && IsSorted(b) && a != [] && b != [] && a[0] == b[0]
    requires forall x :: x in a <==> x in b
    ensures forall x :: x in a[1..] <==> x in b[1..]
  {
    LessIsTotal(a[0], a[0]);
    forall x ensures (x in a[1..] ==> x in b[1..]) && (x in b[1..] ==> x in a[1..]) {
      if x in a[1..] {
        assert x in b && x != b[0];
      }
      if x in b[1..] {
        assert x in a && x != a[0];
      }
    }
  }

  function Insert(names: seq<string>, x: string): seq<string> {
    if names == [] || Less(x, names[0]) then [x] + names else [names[0]] + Insert(names[1..], x)
  }

  lemma {:induction false} InsertKeepsSorted(names: seq<string>, x: string)
    requires IsSorted(names) && x !in names
    ensures IsSorted(Insert(names, x)) && forall y :: y in Insert(names, x) <==> y == x || y in names
  {
    if names != [] {
      LessIsTotal(x, names[0]);
      if Less(x, names[0]) {
        forall j | 0 < j < |names| ensures Less(x, names[j]) {
          LessIsTransitive(x, names[0], names[j]);
        }
      } else {
        var rest := Insert(names[1..], x);
        InsertKeepsSorted(names[1..], x);
        assert names == [names[0]] + names[1..];
        assert forall j :: 0 <= j < |rest| ==> rest[j] in rest;
      }
    }
  }

  method Sort(names: set<string>) returns (sorted: seq<string>)
    ensures IsSorted(sorted) && forall x :: x in sorted <==> x in names
  {
    sorted := [];
    var left := names;
    while left != {}
      invariant left <= names && IsSorted(sorted)
      invariant forall x :: x in sorted <==> x in names - left
      decreases left
    {
      var x :| x in left;
      InsertKeepsSorted(sorted, x);
      sorted := Insert(sorted, x);
      left := left - {x};
    }
  }

  // ---------------------------------------------------------------------------
  // What is to be loaded.

  /** The sorted list, without repetitions, of the attributes the class allows that may be listed. */
  ghost predicate IsAttributeList(schema: Schema, cls: string, names: seq<string>)
    requires cls in schema.classes
  {
    IsSorted(names) &&
    forall a :: a in names <==>
                (a in schema.classes[cls].allowed || a in schema.classes[cls].mayContain) && MayBeListed(schema, a)
  }

  /** There is only one such list. */
  lemma AttributeListIsUnique(schema: Schema, cls: string, a: seq<string>, b: seq<string>)
    requires cls in schema.classes && IsAttributeList(schema, cls, a) && IsAttributeList(schema, cls, b)
    ensures a == b
  {
    SortedIsUnique(a, b);
  }

  /** Of a forward link and its backlink, as "member" of a group and "memberOf" are, only the first is listed. */
  lemma MemberIsListed(schema: Schema, cls: string, names: seq<string>)
    requires cls in schema.classes && IsAttributeList(schema, cls, names)
    requires schema.classes[cls] == ClassSchema(["memberOf", "member"], ["member"])
    requires "member" in schema.attributes && schema.attributes["member"] == AttributeSchema(Some(2), {}, false)
    requires "memberOf" in schema.attributes && schema.attributes["memberOf"] == AttributeSchema(Some(3), {}, false)
    ensures names == ["member"]
  {
    assert Some(2) == Some(2 * 1);
    assert MayBeListed(schema, "member") && !MayBeListed(schema, "memberOf");
    SortedIsUnique(names, ["member"]);
  }

  /** A chain of inferiors through classes that have an entry; after its first class it avoids a set. */
  ghost predicate IsChain(schema: Schema, chain: seq<string>, avoid: set<string>) {
    && chain != []
    && (forall i :: 0 <= i < |chain| ==> chain[i] in schema.classes)
    && (forall i :: 1 <= i < |chain| ==> chain[i] in PossibleInferiors(schema, chain[i - 1]) && chain[i] !in avoid)
  }

  ghost predicate Reaches(schema: Schema, start: string, cls: string, avoid: set<string>) {
    exists chain :: IsChain(schema, chain, avoid) && chain[0] == start && chain[|chain| - 1] == cls
  }

  lemma ReachesItself(schema: Schema, start: string, avoid: set<string>)
    requires start in schema.classes
    ensures Reaches(schema, start, start, avoid)
  {
    assert IsChain(schema, [start], avoid);
    var chain := [start];
    assert chain[0] == start && chain[|chain| - 1] == start;
  }

  lemma ReachesFurther(schema: Schema, start: string, next: string, cls: string, avoid: set<string>, less: set<string>)
    requires start in schema.classes && next in PossibleInferiors(schema, start) && next !in less
    requires Reaches(schema, next, cls, avoid) && less <= avoid
    ensures Reaches(schema, start, cls, less)
  {
    var chain :| IsChain(schema, chain, avoid) && chain[0] == next && chain[|chain| - 1] == cls;
    var longer := [start] + chain;
    assert forall i :: 1 <= i < |longer| ==> longer[i] == chain[i - 1];
    assert IsChain(schema, longer, less);
    assert longer[0] == start && longer[|longer| - 1] == cls;
  }

  lemma ReachesInferior(schema: Schema, start: string, cls: string, inferior: string, avoid: set<string>)
    requires Reaches(schema, start, cls, avoid)
    requires inferior in PossibleInferiors(schema, cls) && inferior in schema.classes && inferior !in avoid
    ensures Reaches(schema, start, inferior, avoid)
  {
    var chain :| IsChain(schema, chain, avoid) && chain[0] == start && chain[|chain| - 1] == cls;
    var longer := chain + [inferior];
    assert IsChain(schema, longer, avoid);
    assert longer[0] == start && longer[|longer| - 1] == inferior;
  }

  /** Every inferior that has an entry, of every class in some, is in all. */
  ghost predicate Closed(schema: Schema, some: set<string>, all: set<string>) {
    forall c, d :: c in some && d in PossibleInferiors(schema, c) && d in schema.classes ==> d in all
  }

  /** A closed set that holds the start of a chain holds all of it. */
  lemma {:induction false} ChainStaysInside(schema: Schema, chain: seq<string>, avoid: set<string>, all: set<string>)
    requires IsChain(schema, chain, avoid) && chain[0] in all
    requires Closed(schema, {chain[0]} + (all - avoid), all)
    ensures chain[|chain| - 1] in all
    decreases |chain|
  {
    if |chain| > 1 {
      var front := chain[..|chain| - 1];
      ChainStaysInside(schema, front, avoid, all);
      assert chain[|chain| - 1] in PossibleInferiors(schema, chain[|chain| - 2]);
    }
  }

  /** The classes reachable from a class are the least set that holds it and is closed under inferiors. */
  lemma ReachableIsLeast(schema: Schema, start: string, cls: string, all: set<string>)
    requires start in all && Closed(schema, all, all)
    requires Reaches(schema, start, cls, {})
    ensures cls in all
  {
    var chain :| IsChain(schema, chain, {}) && chain[0] == start && chain[|chain| - 1] == cls;
    ChainStaysInside(schema, chain, {}, all);
  }

  /** What is already loaded can be avoided when it is closed: nothing reachable is missed. */
  lemma ClosedCanBeAvoided(schema: Schema, start: string, cls: string, loaded: set<string>)
    requires Closed(schema, loaded, loaded)
    ensures cls in loaded || Reaches(schema, start, cls, loaded) <==> cls in loaded || Reaches(schema, start, cls, {})
  {
    if Reaches(schema, start, cls, {}) && cls !in loaded {
      var chain :| IsChain(schema, chain, {}) && chain[0] == start && chain[|chain| - 1] == cls;
      forall i | 1 <= i < |chain| ensures chain[i] !in loaded {
        if chain[i] in loaded {
          assert IsChain(schema, chain[i..], {});
          ChainStaysInside(schema, chain[i..], {}, loaded);
        }
      }
      assert IsChain(schema, chain, loaded);
    }
    if Reaches(schema, start, cls, loaded) {
      var chain :| IsChain(schema, chain, loaded) && chain[0] == start && chain[|chain| - 1] == cls;
      assert IsChain(schema, chain, {});
    }
  }

  // ---------------------------------------------------------------------------
  // The loader.

  class AdConfig {
    var permissionable: map<string, seq<string>>

    constructor ()
      ensures permissionable == map[]
    {
      permissionable := map[];
    }

    predicate IsPermissionable(cls: string)
      reads this
    {
      cls in permissionable
    }

    method PermissionableAttributes(schema: Schema, cls: string) returns (names: seq<string>)
      requires cls in schema.classes
      ensures IsAttributeList(schema, cls, names)
    {
      var entry := schema.classes[cls];
      var allowed := (set a | a in entry.allowed) + (set a | a in entry.mayContain);
      var kept, left := allowed, allowed;
      while left != {}
        invariant left <= allowed
        invariant kept == set a | a in allowed && (a in left || !IsHidden(schema, a))
        decreases left
      {
        var a :| a in left;
        if IsHidden(schema, a) {
          kept := kept - {a};
        }
        left := left - {a};
      }
      forall a ensures IsHidden(schema, a) <==> !MayBeListed(schema, a) {
        HiddenExactly(schema, a);
      }
      names := Sort(kept);
    }

    /** Loads a class and, recursively, its inferiors that are not loaded yet. */
    method LoadPermissionableAttributes(schema: Schema, cls: string)
      modifies this
      ensures IsLoaded(schema, cls, old(permissionable), permissionable)
      decreases schema.classes.Keys - permissionable.Keys, if cls in permissionable then 1 else 0
    {
      ghost var before := permissionable;
      if cls !in schema.classes {
        NoEntry(schema, cls, before);
        return;
      }
      var names := PermissionableAttributes(schema, cls);
      permissionable := permissionable[cls := names];
      ReachesItself(schema, cls, before.Keys);

      var inferiors := PossibleInferiors(schema, cls);
      for i := 0 to |inferiors|
        invariant cls in schema.classes && IsLoading(schema, cls, before, permissionable)
        invariant forall k :: 0 <= k < i && inferiors[k] in schema.classes ==> inferiors[k] in permissionable
      {
        var inferior := inferiors[i];
        if inferior == cls || IsPermissionable(inferior) {
          continue;
        }
        ghost var middle := permissionable;
        LoadPermissionableAttributes(schema, inferior);
        NestedLoad(schema, cls, inferior, before, middle, permissionable);
      }
      AllAreReached(schema, cls, before.Keys, permissionable.Keys);
    }
  }

  /** Exactly the classes reachable through classes not loaded before are added; only they and the class itself get
      a new list, which is the right one; the other lists are left as they were. */
  ghost predicate IsLoaded(schema: Schema, cls: string, was: map<string, seq<string>>, now: map<string, seq<string>>) {
    && (forall c :: c in now <==> c in was || Reaches(schema, cls, c, was.Keys))
    && (forall c :: c in was && (c != cls || cls !in schema.classes) ==> now[c] == was[c])
    && (cls in schema.classes ==> NewAreRight(schema, cls, was, now))
  }

  ghost predicate NewAreRight(
      schema: Schema, cls: string, was: map<string, seq<string>>, now: map<string, seq<string>>) {
    forall c :: c in now && (c == cls || c !in was) ==> c in schema.classes && IsAttributeList(schema, c, now[c])
  }

  /** The state while the inferiors of a class are gone through. */
  ghost predicate IsLoading(schema: Schema, cls: string, was: map<string, seq<string>>, now: map<string, seq<string>>) {
    && was.Keys + {cls} <= now.Keys
    && (forall c :: c in now ==> c in was || Reaches(schema, cls, c, was.Keys))
    && Closed(schema, now.Keys - was.Keys - {cls}, now.Keys)
    && (forall c :: c in was && c != cls ==> now[c] == was[c])
    && NewAreRight(schema, cls, was, now)
  }

  lemma NoEntry(schema: Schema, cls: string, was: map<string, seq<string>>)
    requires cls !in schema.classes
    ensures IsLoaded(schema, cls, was, was)
  {
  }

  lemma NestedLoad(schema: Schema, cls: string, inferior: string,
                   was: map<string, seq<string>>, middle: map<string, seq<string>>, now: map<string, seq<string>>)
    requires cls in schema.classes && inferior in PossibleInferiors(schema, cls) && inferior !in middle
    requires IsLoading(schema, cls, was, middle) && IsLoaded(schema, inferior, middle, now)
    ensures IsLoading(schema, cls, was, now) && middle.Keys <= now.Keys
    ensures inferior in schema.classes ==> inferior in now
  {
    NewAreReached(schema, cls, inferior, was.Keys, middle.Keys, now.Keys);
    NewAreClosed(schema, cls, inferior, was.Keys, middle.Keys, now.Keys);
    if inferior in schema.classes {
      ReachesItself(schema, inferior, middle.Keys);
    } else {
      assert forall c :: !Reaches(schema, inferior, c, middle.Keys);
    }
  }

  lemma NewAreReached(
      schema: Schema, cls: string, inferior: string, before: set<string>, middle: set<string>, after: set<string>)
    requires cls in schema.classes && inferior in PossibleInferiors(schema, cls) && inferior !in middle &&
            before <= middle
    requires forall c :: c in middle ==> c in before || Reaches(schema, cls, c, before)
    requires forall c :: c in after <==> c in middle || Reaches(schema, inferior, c, middle)
    ensures forall c :: c in after ==> c in before || Reaches(schema, cls, c, before)
  {
    forall c | c in after && c !in middle ensures Reaches(schema, cls, c, before) {
      ReachesFurther(schema, cls, inferior, c, middle, before);
    }
  }

  /** The classes a nested load adds have their inferiors loaded as well: a chain to one of them can be extended. */
  lemma NewAreClosed(
      schema: Schema, cls: string, inferior: string, before: set<string>, middle: set<string>, after: set<string>)
    requires Closed(schema, middle - before - {cls}, middle)
    requires forall c :: c in after <==> c in middle || Reaches(schema, inferior, c, middle)
    ensures Closed(schema, after - before - {cls}, after)
  {
    forall c, d | c in after - before - {cls} && d in PossibleInferiors(schema, c) && d in schema.classes
      ensures d in after
    {
      if c !in middle && d !in middle {
        ReachesInferior(schema, inferior, c, d, middle);
      }
    }
  }

  lemma AllAreReached(schema: Schema, cls: string, before: set<string>, after: set<string>)
    requires before + {cls} <= after
    requires Closed(schema, after - before - {cls}, after)
    requires forall d :: d in PossibleInferiors(schema, cls) && d in schema.classes ==> d in after
    ensures forall c :: Reaches(schema, cls, c, before) ==> c in after
  {
    forall c | Reaches(schema, cls, c, before) ensures c in after {
      var chain :| IsChain(schema, chain, before) && chain[0] == cls && chain[|chain| - 1] == c;
      ChainStaysInside(schema, chain, before, after);
    }
  }

  // ---------------------------------------------------------------------------
  // Several loads, one after the other.

  lemma LoadKeepsClosed(schema: Schema, cls: string, was: map<string, seq<string>>, now: map<string, seq<string>>)
    requires Closed(schema, was.Keys, was.Keys) && IsLoaded(schema, cls, was, now)
    ensures Closed(schema, now.Keys, now.Keys)
  {
    forall c, d | c in now && d in PossibleInferiors(schema, c) && d in schema.classes ensures d in now {
      if c !in was && d !in was {
        ReachesInferior(schema, cls, c, d, was.Keys);
      }
    }
  }

  ghost predicate IsRunOfLoads(schema: Schema, requests: seq<string>, states: seq<map<string, seq<string>>>) {
    && |states| == |requests| + 1
    && states[0] == map[]
    && forall i :: 0 <= i < |requests| ==> IsLoaded(schema, requests[i], states[i], states[i + 1])
  }

  ghost predicate IsRequested(schema: Schema, requests: seq<string>, cls: string) {
    exists i :: 0 <= i < |requests| && Reaches(schema, requests[i], cls, {})
  }

  /** After any run of loads from nothing, whatever the cycles among the classes, the loaded classes are exactly
      those reachable from a requested class, each with its one right list. */
  lemma {:induction false} LoadsReachExactly(
      schema: Schema, requests: seq<string>, states: seq<map<string, seq<string>>>)
    requires IsRunOfLoads(schema, requests, states)
    ensures Closed(schema, states[|requests|].Keys, states[|requests|].Keys)
    ensures forall c :: c in states[|requests|] <==> IsRequested(schema, requests, c)
    ensures forall c :: c in states[|requests|] ==>
                          c in schema.classes && IsAttributeList(schema, c, states[|requests|][c])
    ensures forall c, names :: c in states[|requests|] && IsAttributeList(schema, c, names) ==>
                                 names == states[|requests|][c]
    decreases |requests|
  {
    if requests != [] {
      var n := |requests| - 1;
      var front, cls, was, now := requests[..n], requests[n], states[n], states[n + 1];
      assert IsRunOfLoads(schema, front, states[..n + 1]);
      LoadsReachExactly(schema, front, states[..n + 1]);
      LoadKeepsClosed(schema, cls, was, now);
      forall c ensures c in now <==> IsRequested(schema, requests, c) {
        ClosedCanBeAvoided(schema, cls, c, was.Keys);
        OneMoreRequest(schema, requests, c);
      }
      LoadKeepsRight(schema, cls, was, now);
      forall c, names | c in now && IsAttributeList(schema, c, names) ensures names == now[c] {
        AttributeListIsUnique(schema, c, names, now[c]);
      }
    }
  }

  lemma OneMoreRequest(schema: Schema, requests: seq<string>, cls: string)
    requires requests != []
    ensures IsRequested(schema, requests, cls) <==>
            IsRequested(schema, requests[..|requests| - 1], cls) || Reaches(schema, requests[|requests| - 1], cls, {})
  {
    var front := requests[..|requests| - 1];
    assert requests == front + [requests[|requests| - 1]];
    if IsRequested(schema, front, cls) {
      var i :| 0 <= i < |front| && Reaches(schema, front[i], cls, {});
      assert requests[i] == front[i];
    }
    if IsRequested(schema, requests, cls) {
      var i :| 0 <= i < |requests| && Reaches(schema, requests[i], cls, {});
      assert i < |front| ==> front[i] == requests[i];
    }
  }

  lemma LoadKeepsRight(schema: Schema, cls: string, was: map<string, seq<string>>, now: map<string, seq<string>>)
    requires IsLoaded(schema, cls, was, now)
    requires forall c :: c in was ==> c in schema.classes && IsAttributeList(schema, c, was[c])
    ensures forall c :: c in now ==> c in schema.classes && IsAttributeList(schema, c, now[c])
  {
    if cls !in schema.classes {
      assert forall c :: !Reaches(schema, cls, c, was.Keys);
    }
  }

  // ---------------------------------------------------------------------------
  // Loading again, when some classes are loaded already.

  /** The class has an entry and is loaded, with its right list. */
  ghost predicate HasRightList(schema: Schema, cls: string, loaded: map<string, seq<string>>) {
    cls in schema.classes && cls in loaded && IsAttributeList(schema, cls, loaded[cls])
  }

  /** A load leaves every reachable class with its right list exactly when each of them, beside the start class, had
      it before, or was not loaded and is reachable through classes that were not. */
  lemma ReloadExactly(schema: Schema, cls: string, was: map<string, seq<string>>, now: map<string, seq<string>>)
    requires cls in schema.classes && IsLoaded(schema, cls, was, now)
    ensures (forall c :: Reaches(schema, cls, c, {}) ==> HasRightList(schema, c, now)) <==>
            (forall c :: Reaches(schema, cls, c, {}) && c != cls ==>
                           HasRightList(schema, c, was) || (c !in was && Reaches(schema, cls, c, was.Keys)))
  {
    ReachesItself(schema, cls, was.Keys);
    forall c | Reaches(schema, cls, c, {}) && c != cls
      ensures HasRightList(schema, c, now) <==>
              HasRightList(schema, c, was) || (c !in was && Reaches(schema, cls, c, was.Keys))
    {
      ReachedHasEntry(schema, cls, c);
    }
  }

  lemma ReachedHasEntry(schema: Schema, start: string, cls: string)
    requires Reaches(schema, start, cls, {})
    ensures cls in schema.classes
  {
  }

  /** So a class that is reachable only through a loaded one is missed: here d leads to a and a to b, d and a are
      loaded, and loading d again leaves b out. */
  lemma ReloadMayMiss(schema: Schema, was: map<string, seq<string>>, now: map<string, seq<string>>)
    requires schema.classes.Keys == {"d", "a", "b"} && was.Keys == {"d", "a"}
    requires schema.inferiors == map["d" := ["a"], "a" := ["b"]]
    requires IsLoaded(schema, "d", was, now)
    ensures Reaches(schema, "d", "b", {}) && "b" !in now
  {
    var chain := ["d", "a", "b"];
    assert PossibleInferiors(schema, "d") == ["a"] && PossibleInferiors(schema, "a") == ["b"];
    assert IsChain(schema, chain, {}) && chain[0] == "d" && chain[|chain| - 1] == "b";
    if "b" in now {
      var other :| IsChain(schema, other, was.Keys) && other[0] == "d" && other[|other| - 1] == "b";
      SecondOfChain(schema, other, was.Keys);
    }
  }

  lemma SecondOfChain(schema: Schema, chain: seq<string>, avoid: set<string>)
    requires IsChain(schema, chain, avoid) && |chain| > 1
    ensures chain[1] in PossibleInferiors(schema, chain[0]) && chain[1] !in avoid
  {
  }

  /** And a reachable class that was loaded from another schema keeps its old list. */
  lemma ReloadKeepsOldList(
      schema: Schema, cls: string, c: string, was: map<string, seq<string>>, now: map<string, seq<string>>)
    requires cls in schema.classes && IsLoaded(schema, cls, was, now) && Reaches(schema, cls, c, {})
    requires c in was && c != cls
    ensures now[c] == was[c] && (HasRightList(schema, c, now) <==> HasRightList(schema, c, was))
  {
  }
}
