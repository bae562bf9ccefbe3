/** What edits conserve, one at a time and over whole runs. */
module RightsRuns {
  import opened Primitives
  import opened Aces
  import opened AclOrder
  import opened RightsEditor
  import opened RightsProofs

  /** The ACE is out of reach for edits of the scope on the given sides. */
  ghost predicate IsOutside(ace: Ace, scope: Scope, allow: bool, deny: bool) {
    !(InScope(ace, scope) && ((allow && IsAccessAllowed(ace)) || (deny && IsAccessDenied(ace))))
  }

  ghost predicate IsOutsideSide(ace: Ace, scope: Scope, side: bool) {
    IsOutside(ace, scope, side, !side)
  }

  ghost predicate SomeOutside(d: Dacl, scope: Scope, allow: bool, deny: bool) {
    d.Some? && exists x :: x in d.value && IsOutside(x, scope, allow, deny)
  }

  /** The operation neither lost nor duplicated the ACE, and did not end on NULL while the ACE was there. */
  ghost predicate Conserves(before: Dacl, after: Dacl, ace: Ace) {
    && (after.Some? ==> before.Some? && multiset(after.value)[ace] == multiset(before.value)[ace])
    && (before.Some? && ace in before.value ==> after.Some?)
  }

  lemma {:induction false} RemoveAccessRightsCount(aces: seq<Ace>, t: Sid, right: Right, side: bool, x: Ace)
    requires !StrictMatch(x, t, right, side)
    ensures multiset(RemoveAccessRights(aces, t, right, side))[x] == multiset(aces)[x]
  {
    if aces != [] {
      var head := RemoveHead(aces, t, right, side);
      RemoveAccessRightsCount(aces[1..], t, right, side, x);
      HeadCount(aces, head, RemoveAccessRights(aces[1..], t, right, side), x);
    }
  }

  lemma HeadCount(aces: seq<Ace>, head: seq<Ace>, rest: seq<Ace>, x: Ace)
    requires aces != [] && (head == [aces[0]] || (x != aces[0] && x !in head))
    requires multiset(rest)[x] == multiset(aces[1..])[x]
    ensures multiset(head + rest)[x] == multiset(aces)[x]
  {
    assert aces == [aces[0]] + aces[1..];
    assert x !in head ==> multiset(head)[x] == 0;
  }

  /** What a removal leaves of the first ACE: itself, or at most one ACE that still matches. */
  lemma RemoveHead(aces: seq<Ace>, t: Sid, right: Right, side: bool) returns (head: seq<Ace>)
    requires aces != []
    ensures RemoveAccessRights(aces, t, right, side) == head + RemoveAccessRights(aces[1..], t, right, side)
    ensures head == [aces[0]] ||
            (StrictMatch(aces[0], t, right, side) && forall e :: e in head ==> StrictMatch(e, t, right, side))
  {
    var ace, mask := aces[0], MapAccessMask(right.accessMask);
    var edited := ace.(accessMask := UnsetMask(ace.accessMask, mask));
    if !StrictMatch(ace, t, right, side) || !BitmaskIsSet(ace.accessMask, mask) {
      head := [ace];
    } else {
      MatchIgnoresMask(ace, edited.accessMask, t, right, side);
      head := if edited.accessMask == {} then [] else [edited];
    }
  }

  lemma {:induction false} AddAccessRightsCount(aces: seq<Ace>, t: Sid, right: Right, side: bool, x: Ace)
    requires IsEditable(right) && !StrictMatch(x, t, right, side)
    ensures multiset(AddAccessRights(aces, t, right, side))[x] == multiset(aces)[x]
  {
    var mask := MapAccessMask(right.accessMask);
    if aces == [] {
      MadeAceMatches(t, right, mask, side);
      StrictMatchMeaning(MakeAce(t, right, mask, side), t, right, side);
    } else if StrictMatch(aces[0], t, right, side) {
      var grown := aces[0].(accessMask := aces[0].accessMask + mask);
      MatchIgnoresMask(aces[0], grown.accessMask, t, right, side);
      HeadCount(aces, [grown], aces[1..], x);
    } else {
      AddAccessRightsCount(aces[1..], t, right, side, x);
      HeadCount(aces, [aces[0]], AddAccessRights(aces[1..], t, right, side), x);
    }
  }

  /** An ACE out of reach matches no right of the scope. */
  lemma OutsideIsNotMatched(x: Ace, t: Sid, right: Right, side: bool)
    requires IsEditable(right) && IsOutsideSide(x, ScopeOf(t, right), side)
    ensures !StrictMatch(x, t, right, side)
  {
    StrictMatchMeaning(x, t, right, side);
  }

  lemma RemoveBaseConserves(d: Dacl, t: Sid, right: Right, side: bool, x: Ace)
    requires IsEditable(right) && IsOutsideSide(x, ScopeOf(t, right), side)
    ensures Conserves(d, RemoveRightBase(d, t, right, side), x)
  {
    if d.Some? {
      OutsideIsNotMatched(x, t, right, side);
      RemoveAccessRightsCount(d.value, t, right, side, x);
      assert x in d.value <==> x in multiset(d.value);
      assert x in RemoveAccessRights(d.value, t, right, side)
          <==> x in multiset(RemoveAccessRights(d.value, t, right, side));
    }
  }

  lemma AddBaseConserves(d: Dacl, t: Sid, right: Right, side: bool, x: Ace)
    requires IsEditable(right) && IsOutsideSide(x, ScopeOf(t, right), side)
    ensures Conserves(d, AddRightBase(d, t, right, side), x)
  {
    if d.Some? {
      OutsideIsNotMatched(x, t, right, side);
      AddAccessRightsCount(d.value, t, right, side, x);
    }
  }

  lemma {:induction false} LoopsConserve(d: Dacl, t: Sid, rights: seq<Right>, scope: Scope, side: bool, x: Ace)
    requires Uniform(rights, t, scope) && IsOutsideSide(x, scope, side)
    ensures Conserves(d, RemoveAll(d, t, rights, side), x)
    ensures Conserves(d, AddAll(d, t, rights, side), x)
    decreases |rights|
  {
    if rights != [] {
      var first, rest := rights[0], rights[1..];
      assert first in rights && forall r :: r in rest ==> r in rights;
      RemoveBaseConserves(d, t, first, side, x);
      AddBaseConserves(d, t, first, side, x);
      LoopsConserve(RemoveRightBase(d, t, first, side), t, rest, scope, side, x);
      LoopsConserve(AddRightBase(d, t, first, side), t, rest, scope, side, x);
    }
  }

  lemma {:induction false} BreakUpAllConserves(
      d: Dacl, t: Sid, superiors: seq<Right>, schemaRights: seq<SchemaRight>, scope: Scope, side: bool, x: Ace)
    requires Uniform(superiors, t, scope) && IsOutsideSide(x, scope, side)
    ensures Conserves(d, BreakUpAll(d, t, superiors, schemaRights, side), x)
    decreases |superiors|
  {
    if superiors != [] {
      var first, rest := superiors[0], superiors[1..];
      assert first in superiors && forall s :: s in rest ==> s in superiors;
      var removed := RemoveRightBase(d, t, first, side);
      RemoveBaseConserves(d, t, first, side, x);
      SubordinatesUniform(first, schemaRights, t);
      LoopsConserve(removed, t, Subordinates(first, schemaRights), scope, side, x);
      BreakUpAllConserves(BreakUp(d, t, first, schemaRights, side), t, rest, schemaRights, scope, side, x);
    }
  }

  /**
   A complete remove conserves every ACE that is not of the edited type in the edited
   scope, in particular all ACEs of the opposite type.
   */
  lemma RemoveRightConserves(d: Dacl, t: Sid, right: Right, schemaRights: seq<SchemaRight>, allow: bool, x: Ace)
    requires IsEditable(right) && IsOutsideSide(x, ScopeOf(t, right), allow)
    ensures Conserves(d, RemoveRight(d, t, right, schemaRights, allow), x)
  {
    var scope := ScopeOf(t, right);
    var broken := BreakUpAll(d, t, Superiors(right), schemaRights, allow);
    var removed := RemoveRightBase(broken, t, right, allow);
    SuperiorsUniform(right, t);
    SubordinatesUniform(right, schemaRights, t);
    BreakUpAllConserves(d, t, Superiors(right), schemaRights, scope, allow, x);
    RemoveBaseConserves(broken, t, right, allow, x);
    LoopsConserve(removed, t, Subordinates(right, schemaRights), scope, allow, x);
  }

  lemma AddRightConserves(d: Dacl, t: Sid, right: Right, schemaRights: seq<SchemaRight>, allow: bool, x: Ace)
    requires IsEditable(right) && IsOutside(x, ScopeOf(t, right), true, true)
    ensures Conserves(d, AddRight(d, t, right, schemaRights, allow), x)
  {
    var scope, subs := ScopeOf(t, right), Subordinates(right, schemaRights);
    var broken := BreakUpAll(d, t, Superiors(right), schemaRights, !allow);
    var cleared := RemoveAll(broken, t, subs, allow);
    var opposed := RemoveRightBase(cleared, t, right, !allow);
    SuperiorsUniform(right, t);
    SubordinatesUniform(right, schemaRights, t);
    BreakUpAllConserves(d, t, Superiors(right), schemaRights, scope, !allow, x);
    LoopsConserve(broken, t, subs, scope, allow, x);
    RemoveBaseConserves(cleared, t, right, !allow, x);
    LoopsConserve(opposed, t, subs, scope, !allow, x);
    AddBaseConserves(RemoveAll(opposed, t, subs, !allow), t, right, allow, x);
  }

  // ---------------------------------------------------------------------------
  // Runs: any sequence of complete edits in one scope, each followed by a sort.

  datatype Edit = Add(right: Right, allow: bool) | Remove(right: Right, allow: bool)

  function Apply(aces: seq<Ace>, t: Sid, edit: Edit, schemaRights: seq<SchemaRight>): Dacl {
    match edit
    case Add(right, allow) => AddRight(Some(aces), t, right, schemaRights, allow)
    case Remove(right, allow) => RemoveRight(Some(aces), t, right, schemaRights, allow)
  }

  ghost predicate IsStep(before: seq<Ace>, t: Sid, edit: Edit, schemaRights: seq<SchemaRight>, after: seq<Ace>) {
    var edited := Apply(before, t, edit, schemaRights);
    edited.Some? && IsSorting(edited.value, after)
  }

  ghost predicate IsRun(states: seq<seq<Ace>>, t: Sid, edits: seq<Edit>, schemaRights: seq<SchemaRight>) {
    |states| == |edits| + 1
    && forall i :: 0 <= i < |edits| ==> IsStep(states[i], t, edits[i], schemaRights, states[i + 1])
  }

  ghost predicate InOneScope(edits: seq<Edit>, t: Sid, scope: Scope) {
    forall e :: e in edits ==> IsEditable(e.right) && ScopeOf(t, e.right) == scope
  }

  lemma ApplyConserves(aces: seq<Ace>, t: Sid, edit: Edit, schemaRights: seq<SchemaRight>, x: Ace)
    requires IsEditable(edit.right) && IsOutside(x, ScopeOf(t, edit.right), true, true)
    ensures Conserves(Some(aces), Apply(aces, t, edit, schemaRights), x)
  {
    match edit
    case Add(right, allow) => AddRightConserves(Some(aces), t, right, schemaRights, allow, x);
    case Remove(right, allow) => RemoveRightConserves(Some(aces), t, right, schemaRights, allow, x);
  }

  /** Every ACE that differs in trustee, flags or inherited type keeps its multiplicity over the whole run. */
  lemma {:induction false} RunConserves(
      states: seq<seq<Ace>>, t: Sid, edits: seq<Edit>, schemaRights: seq<SchemaRight>, scope: Scope, x: Ace)
    requires IsRun(states, t, edits, schemaRights) && InOneScope(edits, t, scope) && IsOutside(x, scope, true, true)
    ensures forall i :: 0 <= i < |states| ==> multiset(states[i])[x] == multiset(states[0])[x]
    decreases |edits|
  {
    if edits != [] {
      var n := |edits| - 1;
      assert forall e :: e in edits[..n] ==> e in edits;
      RunConserves(states[..n + 1], t, edits[..n], schemaRights, scope, x);
      assert IsStep(states[n], t, edits[n], schemaRights, states[n + 1]);
      ApplyConserves(states[n], t, edits[n], schemaRights, x);
      assert forall i :: 0 <= i <= n ==> states[..n + 1][i] == states[i];
    }
  }

  /** With one ACE outside the edited scope, no edit of any run meets a NULL DACL, not even half-way. */
  lemma RunNeverMeetsNull(
      states: seq<seq<Ace>>, t: Sid, edits: seq<Edit>, schemaRights: seq<SchemaRight>, scope: Scope, x: Ace, next: Edit)
    requires IsRun(states, t, edits, schemaRights) && InOneScope(edits + [next], t, scope)
    requires IsOutside(x, scope, true, true) && x in states[0]
    ensures Apply(states[|edits|], t, next, schemaRights).Some?
  {
    assert forall e :: e in edits ==> e in edits + [next];
    assert next in edits + [next];
    RunConserves(states, t, edits, schemaRights, scope, x);
    assert x in multiset(states[0]);
    ApplyConserves(states[|edits|], t, next, schemaRights, x);
  }

  /** What is shown as inherited never changes, for any trustee and any right. */
  lemma RunKeepsInheritedState(
      states: seq<seq<Ace>>, t: Sid, edits: seq<Edit>, schemaRights: seq<SchemaRight>, scope: Scope,
      i: nat, trustee: Sid, q: Right, allow: bool)
    requires IsRun(states, t, edits, schemaRights) && InOneScope(edits, t, scope) && INHERITED_BIT !in scope.flags
    requires i < |states|
    ensures RightState(states[i], trustee, q, true, allow) <==> RightState(states[0], trustee, q, true, allow)
  {
    forall x: Ace | IsInherited(x) ensures multiset(states[i])[x] == multiset(states[0])[x] {
      RunConserves(states, t, edits, schemaRights, scope, x);
    }
    StateTransfers(states[i], states[0], trustee, q, true, allow);
    StateTransfers(states[0], states[i], trustee, q, true, allow);
  }

  /** The state of a right depends only on the ACEs that match it. */
  lemma StateTransfers(a: seq<Ace>, b: seq<Ace>, trustee: Sid, q: Right, inherited: bool, allow: bool)
    requires forall x: Ace :: IsInherited(x) == inherited && AceMatch(x, trustee, q, allow) ==>
            multiset(a)[x] == multiset(b)[x]
    ensures RightState(a, trustee, q, inherited, allow) ==> RightState(b, trustee, q, inherited, allow)
  {
    if i :| 0 <= i < |a| && IsInherited(a[i]) == inherited && AceMatch(a[i], trustee, q, allow) {
      assert a[i] in multiset(a);
      assert a[i] in multiset(b);
      assert a[i] in b;
      var j :| 0 <= j < |b| && b[j] == a[i];
    }
  }

  /** Sorting changes nothing that is shown. */
  lemma SortingKeepsState(before: seq<Ace>, after: seq<Ace>, trustee: Sid, q: Right, inherited: bool, allow: bool)
    requires multiset(after) == multiset(before)
    ensures RightState(after, trustee, q, inherited, allow) <==> RightState(before, trustee, q, inherited, allow)
  {
    StateTransfers(before, after, trustee, q, inherited, allow);
    StateTransfers(after, before, trustee, q, inherited, allow);
  }
}
