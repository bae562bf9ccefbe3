/**
 Exactly when an edit meets a NULL DACL: when one of its steps leaves no ACE. The
 conditions are about the DACL before the edit and can be checked by a caller.
 */
module NullDacl {
  import opened Primitives
  import opened Aces
  import opened RightsEditor
  import opened Columns
  import opened RightsProofs
  import opened RightsTheorems
  import opened Removals

  // ---------------------------------------------------------------------------
  // A witness: bits of one column that the other steps of an edit leave alone.

  /** The ACE with the witness is not exactly what the removal takes, so the removal does not end on NULL. */
  lemma BaseKeepsWitness(
      d: Dacl, t: Sid, right: Right, side: bool, scope: Scope, witnessSide: bool, key: OptionalGuid, bits: Mask)
    requires d.Some? && IsValid(right) && ScopeOf(t, right) == scope && bits != {}
    requires ColumnHas(d, scope, witnessSide, key, bits)
    requires side != witnessSide || right.objectType != key || Disjoint(MapAccessMask(right.accessMask), bits)
    ensures RemoveRightBase(d, t, right, side).Some?
    ensures ColumnHas(RemoveRightBase(d, t, right, side), scope, witnessSide, key, bits)
  {
    HasMeaning(d.value, scope, witnessSide, key, bits);
    var i :| 0 <= i < |d.value| && Keyed(d.value[i], scope, witnessSide, key) &&
        BitmaskIsSet(d.value[i].accessMask, bits);
    StrictMatchIsKeyed(d.value[i], t, right, side, witnessSide, key);
    assert Disjoint(MapAccessMask(right.accessMask), bits) ==> d.value[i].accessMask * bits == bits;
    assert d.value[i] in d.value && !IsExact(d.value[i], t, right, side);
    BaseNullExactly(d.value, t, right, side);
    RemoveBaseHas(d, t, right, side, witnessSide, key, bits);
  }

  lemma {:induction false} RemoveAllKeepsWitness(
      d: Dacl, t: Sid, rights: seq<Right>, side: bool, scope: Scope, witnessSide: bool, key: OptionalGuid, bits: Mask)
    requires d.Some? && Uniform(rights, t, scope) && bits != {} && ColumnHas(d, scope, witnessSide, key, bits)
    requires side != witnessSide || ListSpares(rights, key, bits)
    ensures RemoveAll(d, t, rights, side).Some?
    ensures ColumnHas(RemoveAll(d, t, rights, side), scope, witnessSide, key, bits)
    decreases |rights|
  {
    if rights != [] {
      assert rights[0] in rights && forall r :: r in rights[1..] ==> r in rights;
      BaseKeepsWitness(d, t, rights[0], side, scope, witnessSide, key, bits);
      RemoveAllKeepsWitness(RemoveRightBase(d, t, rights[0], side), t, rights[1..], side, scope, witnessSide, key,
          bits);
    }
  }

  /** Removing a right and its subordinates ends on NULL neither at once nor at the end, while there is a witness. */
  lemma ClearKeepsWitness(d: Dacl, t: Sid, right: Right, schemaRights: seq<SchemaRight>, side: bool, bits: Mask)
    requires d.Some? && IsValid(right) && bits != {} && ColumnHas(d, ScopeOf(t, right), side, [], bits)
    requires right.objectType != [] || Disjoint(MapAccessMask(right.accessMask), bits)
    ensures Clear(d, t, right, schemaRights, side).Some?
  {
    var subs, scope := Subordinates(right, schemaRights), ScopeOf(t, right);
    SubordinatesUniform(right, schemaRights, t);
    BaseKeepsWitness(d, t, right, side, scope, side, [], bits);
    SubordinatesSpareWitness(right, schemaRights, bits);
    RemoveAllKeepsWitness(RemoveRightBase(d, t, right, side), t, subs, side, scope, side, [], bits);
  }

  lemma SubordinatesSpareWitness(right: Right, schemaRights: seq<SchemaRight>, bits: Mask)
    requires right.objectType != [] || Disjoint(MapAccessMask(right.accessMask), bits)
    ensures ListSpares(Subordinates(right, schemaRights), [], bits)
  {
    forall s | s in Subordinates(right, schemaRights) ensures Disjoint(MapAccessMask(s.accessMask), bits) {
      SubordinateMaskWithin(right, schemaRights, s);
      assert forall b :: b in MapAccessMask(s.accessMask) && b in bits ==> b in MapAccessMask(right.accessMask) * bits;
    }
  }

  /** Superiors over all objects that have no bit of the witness. */
  ghost predicate AllSpare(superiors: seq<Right>, t: Sid, scope: Scope, bits: Mask) {
    && Uniform(superiors, t, scope)
    && forall s :: s in superiors ==> s.objectType == [] && Disjoint(MapAccessMask(s.accessMask), bits)
  }

  lemma {:induction false} BreakUpAllKeepsWitness(
      d: Dacl, t: Sid, superiors: seq<Right>, schemaRights: seq<SchemaRight>, scope: Scope, side: bool, bits: Mask)
    requires d.Some? && AllSpare(superiors, t, scope, bits) && bits != {} && ColumnHas(d, scope, side, [], bits)
    ensures BreakUpAll(d, t, superiors, schemaRights, side).Some?
    ensures ColumnHas(BreakUpAll(d, t, superiors, schemaRights, side), scope, side, [], bits)
    decreases |superiors|
  {
    if superiors != [] {
      var s, subs := superiors[0], Subordinates(superiors[0], schemaRights);
      assert s in superiors && forall r :: r in superiors[1..] ==> r in superiors;
      BaseKeepsWitness(d, t, s, side, scope, side, [], bits);
      SubordinatesUniform(s, schemaRights, t);
      AddAllHas(RemoveRightBase(d, t, s, side), t, subs, side, scope, side, [], bits);
      BreakUpAllKeepsWitness(BreakUp(d, t, s, schemaRights, side), t, superiors[1..], schemaRights, scope, side, bits);
    }
  }

  // ---------------------------------------------------------------------------
  // The first superior that is set.

  ghost function FirstSet(aces: seq<Ace>, t: Sid, superiors: seq<Right>, side: bool): Option<Right> {
    if superiors == [] then None
    else if Reads(aces, t, superiors[0], side) then Some(superiors[0])
    else FirstSet(aces, t, superiors[1..], side)
  }

  /** Superiors that are not set are skipped, and the rest of the loop follows the first one that is. */
  lemma {:induction false} LoopFromFirstSet(
      aces: seq<Ace>, t: Sid, superiors: seq<Right>, schemaRights: seq<SchemaRight>, side: bool)
          returns (later: seq<Right>)
    ensures var first := FirstSet(aces, t, superiors, side);
            if first.None? then BreakUpAll(Some(aces), t, superiors, schemaRights, side) == Some(aces)
            else
              && Reads(aces, t, first.value, side)
              && |later| < |superiors| && superiors[|superiors| - |later| - 1] == first.value
              && later == superiors[|superiors| - |later|..]
              && BreakUpAll(Some(aces), t, superiors, schemaRights, side)
                 == BreakUpAll(BreakUp(Some(aces), t, first.value, schemaRights, side), t, later, schemaRights, side)
    decreases |superiors|
  {
    later := [];
    if superiors != [] {
      if Reads(aces, t, superiors[0], side) {
        later := superiors[1..];
      } else {
        later := LoopFromFirstSet(aces, t, superiors[1..], schemaRights, side);
      }
    }
  }

  /** Breaking up a set superior fails exactly on a DACL of ACEs that grant just that superior. */
  lemma BreakUpNullExactly(aces: seq<Ace>, t: Sid, s: Right, schemaRights: seq<SchemaRight>, side: bool)
    requires IsValid(s) && Reads(aces, t, s, side)
    ensures BreakUp(Some(aces), t, s, schemaRights, side).None? <==> AreExact(aces, t, s, side)
  {
    var subs := Subordinates(s, schemaRights);
    BaseNullExactly(aces, t, s, side);
    NullStaysNull(t, subs, side);
    var removed := RemoveRightBase(Some(aces), t, s, side);
    SubordinatesUniform(s, schemaRights, t);
    if removed.Some? {
      AddAllHas(removed, t, subs, side, ScopeOf(t, s), side, [], LIST);
    }
  }

  /** A bit that stays when a generic superior has been broken up: what its subordinates bring and later steps spare. */
  ghost function Witness(superior: Mask): Mask {
    if superior == GENERIC_ALL then STD_DELETE else if superior == GENERIC_READ then LIST else SELF_WRITE
  }

  lemma BreakUpBringsWitness(aces: seq<Ace>, t: Sid, s: Right, schemaRights: seq<SchemaRight>, side: bool)
    requires IsValid(s) && s.objectType == [] && Reads(aces, t, s, side)
    requires s.accessMask == GENERIC_ALL || s.accessMask == GENERIC_READ || s.accessMask == GENERIC_WRITE
    requires BreakUp(Some(aces), t, s, schemaRights, side).Some?
    ensures ColumnHas(BreakUp(Some(aces), t, s, schemaRights, side), ScopeOf(t, s), side, [], Witness(s.accessMask))
  {
    var i := if s.accessMask == GENERIC_ALL then 6 else if s.accessMask == GENERIC_READ then 3 else 11;
    var c := Right(COMMON_RIGHTS[i], [], [], {});
    assert COMMON_RIGHTS[i] == Witness(s.accessMask);
    CommonIsClassRight(schemaRights, i);
    SubordinateMember(s, schemaRights, c);
    assert Placed(c, s) in Subordinates(s, schemaRights);
    assert MapAccessMask(Witness(s.accessMask)) == Witness(s.accessMask);
    BreakUpHas(Some(aces), t, s, schemaRights, side, side, [], Witness(s.accessMask));
  }

  lemma GenericSuperior(right: Right, i: nat)
    requires i < |Superiors(right)| && Superiors(right)[i].accessMask != right.accessMask
    ensures var m := Superiors(right)[i].accessMask;
            m == GENERIC_ALL || (i == 1 && right.objectType != [] && (m == GENERIC_READ || m == GENERIC_WRITE))
    ensures right.objectType != [] || Disjoint(MapAccessMask(right.accessMask), Witness(Superiors(right)[i].accessMask))
  {
  }

  /** The superiors that come after a generic one spare its witness. */
  lemma LaterSparesWitness(right: Right, i: nat, j: nat)
    requires i < j < |Superiors(right)| && Superiors(right)[i].accessMask != right.accessMask
    ensures Disjoint(MapAccessMask(Superiors(right)[j].accessMask), Witness(Superiors(right)[i].accessMask))
  {
    var m := Superiors(right)[j].accessMask;
    GenericSuperior(right, i);
    assert m == GENERIC_READ || m == GENERIC_WRITE || (m == right.accessMask && IsObjectMask(m));
  }

  // ---------------------------------------------------------------------------
  // The end of a complete edit: the right and its subordinates are removed.

  /** The ACE grants exactly the right, or nothing but parts of its subordinates. */
  ghost predicate IsSpent(ace: Ace, t: Sid, right: Right, subordinates: seq<Right>, side: bool) {
    IsExact(ace, t, right, side) || IsWithin(ace, ScopeOf(t, right), subordinates, side)
  }

  lemma ClearNullExactly(aces: seq<Ace>, t: Sid, right: Right, schemaRights: seq<SchemaRight>, side: bool)
    requires IsValid(right)
    ensures Clear(Some(aces), t, right, schemaRights, side).None? <==>
            forall a :: a in aces ==> IsSpent(a, t, right, Subordinates(right, schemaRights), side)
  {
    var subs := Subordinates(right, schemaRights);
    var steps := [Step(right, side)] + StepsOf(subs, side);
    assert steps[1..] == StepsOf(subs, side) == StepsOf(subs, side) + [];
    StepsOfRemoveAll(RemoveRightBase(Some(aces), t, right, side), t, subs, side, []);
    StepsNullExactly(aces, t, steps);
    forall a ensures IsConsumed(a, t, steps) <==> IsSpent(a, t, right, subs, side) {
      ClearConsumesExactly(a, t, right, schemaRights, side);
    }
  }

  // ---------------------------------------------------------------------------
  // Removing an object right out of the same right over all objects.

  /** The class has the right over another object type. */
  ghost predicate HasRelative(schemaRights: seq<SchemaRight>, right: Right) {
    exists c :: c in schemaRights && c.accessMask == right.accessMask && c.objectType != [] &&
        c.objectType != right.objectType
  }

  ghost predicate HasItself(schemaRights: seq<SchemaRight>, right: Right) {
    exists c :: c in schemaRights && c.accessMask == right.accessMask && c.objectType == right.objectType
  }

  ghost function OverAll(right: Right): Right {
    right.(objectType := [])
  }

  /** The ACEs grant exactly the right, over all objects or over its object type. If the class has the right, the first
      of the latter may be empty as well: it gets the right before it loses it again. */
  ghost predicate GrantOnly(aces: seq<Ace>, t: Sid, right: Right, side: bool, reused: bool) {
    if aces == [] then true
    else if StrictMatch(aces[0], t, right, side) then
      && (IsExact(aces[0], t, right, side) || (reused && aces[0].accessMask == {}))
      && GrantOnly(aces[1..], t, right, side, false)
    else
      IsExact(aces[0], t, OverAll(right), side) && GrantOnly(aces[1..], t, right, side, reused)
  }

  lemma OverAllDiffers(ace: Ace, t: Sid, right: Right, side: bool)
    requires right.objectType != []
    ensures !(StrictMatch(ace, t, right, side) && StrictMatch(ace, t, OverAll(right), side))
  {
  }

  /** What is left of the first ACE is exactly the right only where the ACE was. */
  lemma LeftOfFirst(aces: seq<Ace>, t: Sid, right: Right, side: bool)
    requires aces != [] && right.objectType != []
    ensures var ace, all := aces[0], OverAll(right);
            var left, rest := RemoveAccessRights(aces, t, all, side), RemoveAccessRights(aces[1..], t, all, side);
            if IsExact(ace, t, all, side) then left == rest
            else if StrictMatch(ace, t, all, side) then
              left != [] && StrictMatch(left[0], t, all, side) && !StrictMatch(left[0], t, right, side) &&
                  left == [left[0]] + rest
            else left == [ace] + rest
  {
    var ace, step := aces[0], Step(OverAll(right), side);
    var left := Survivor(ace, t, step);
    SurvivorNoneExactly(ace, t, OverAll(right), side);
    if left.Some? {
      MatchIgnoresMask(ace, left.value.accessMask, t, step.right, step.side);
      OverAllDiffers(left.value, t, right, side);
    }
  }

  lemma ExactCons(ace: Ace, rest: seq<Ace>, t: Sid, right: Right, side: bool)
    ensures AreExact([ace] + rest, t, right, side) <==> IsExact(ace, t, right, side) && AreExact(rest, t, right, side)
  {
    assert ace in [ace] + rest && forall a :: a in rest ==> a in [ace] + rest;
  }

  lemma {:induction false} LeftGrantOnly(aces: seq<Ace>, t: Sid, right: Right, side: bool)
    requires right.objectType != []
    ensures AreExact(RemoveAccessRights(aces, t, OverAll(right), side), t, right, side) <==>
            GrantOnly(aces, t, right, side, false)
  {
    if aces != [] {
      var left, rest := RemoveAccessRights(aces, t, OverAll(right), side),
          RemoveAccessRights(aces[1..], t, OverAll(right), side);
      LeftGrantOnly(aces[1..], t, right, side);
      LeftOfFirst(aces, t, right, side);
      OverAllDiffers(aces[0], t, right, side);
      if left != rest {
        ExactCons(left[0], rest, t, right, side);
      }
    }
  }

  /** The same after the right has been granted again: the first ACE with its object type takes it up. */
  lemma {:induction false} GrownGrantOnly(aces: seq<Ace>, t: Sid, right: Right, side: bool)
    requires IsValid(right) && right.objectType != [] && IsObjectMask(right.accessMask)
    ensures var left := RemoveAccessRights(aces, t, OverAll(right), side);
            AreExact(AddAccessRights(left, t, right, side), t, right, side) <==> GrantOnly(aces, t, right, side, true)
  {
    var left := RemoveAccessRights(aces, t, OverAll(right), side);
    if aces == [] {
      MadeAceMatches(t, right, MapAccessMask(right.accessMask), side);
      StrictMatchMeaning(MakeAce(t, right, MapAccessMask(right.accessMask), side), t, right, side);
    } else {
      var ace, rest := aces[0], RemoveAccessRights(aces[1..], t, OverAll(right), side);
      GrownGrantOnly(aces[1..], t, right, side);
      LeftGrantOnly(aces[1..], t, right, side);
      LeftOfFirst(aces, t, right, side);
      OverAllDiffers(ace, t, right, side);
      if left != rest {
        AddToFirst(left[0], rest, t, right, side);
      }
    }
  }

  lemma AddToFirst(ace: Ace, rest: seq<Ace>, t: Sid, right: Right, side: bool)
    requires IsObjectMask(right.accessMask)
    ensures AreExact(AddAccessRights([ace] + rest, t, right, side), t, right, side) <==>
            if StrictMatch(ace, t, right, side)
            then (ace.accessMask == {} || IsExact(ace, t, right, side)) && AreExact(rest, t, right, side)
            else false
  {
    var mask := MapAccessMask(right.accessMask);
    assert ([ace] + rest)[1..] == rest;
    if StrictMatch(ace, t, right, side) {
      var grown := ace.(accessMask := ace.accessMask + mask);
      MatchIgnoresMask(ace, grown.accessMask, t, right, side);
      ExactCons(grown, rest, t, right, side);
      SingleSum(ace.accessMask, mask);
    } else {
      ExactCons(ace, AddAccessRights(rest, t, right, side), t, right, side);
    }
  }

  lemma SingleSum(k: Mask, mask: Mask)
    requires IsObjectMask(mask)
    ensures k + mask == mask <==> k == {} || k == mask
  {
    var b :| mask == {b};
    assert k + mask == mask ==> k <= mask;
  }

  lemma SetTwice(k: Mask, mask: Mask)
    ensures (k + mask) + mask == k + mask && mask + mask == mask
  {
  }

  lemma {:induction false} AddTwice(aces: seq<Ace>, t: Sid, right: Right, side: bool)
    requires IsEditable(right)
    ensures var once := AddAccessRights(aces, t, right, side);
            AddAccessRights(once, t, right, side) == once
  {
    var mask := MapAccessMask(right.accessMask);
    if aces == [] {
      var made := MakeAce(t, right, mask, side);
      MadeAceMatches(t, right, mask, side);
      StrictMatchMeaning(made, t, right, side);
      SetTwice(mask, mask);
    } else if StrictMatch(aces[0], t, right, side) {
      var grown := aces[0].(accessMask := aces[0].accessMask + mask);
      MatchIgnoresMask(aces[0], grown.accessMask, t, right, side);
      SetTwice(aces[0].accessMask, mask);
    } else {
      AddTwice(aces[1..], t, right, side);
    }
  }

  lemma {:induction false} AddAllSame(d: Dacl, t: Sid, rights: seq<Right>, right: Right, side: bool)
    requires d.Some? && IsEditable(right) && rights != [] && forall r :: r in rights ==> r == right
    ensures AddAll(d, t, rights, side) == AddRightBase(d, t, right, side)
    decreases |rights|
  {
    var once := AddRightBase(d, t, right, side);
    assert rights[0] in rights && forall r :: r in rights[1..] ==> r in rights;
    assert AddAll(d, t, rights, side) == AddAll(once, t, rights[1..], side);
    if |rights| > 1 {
      AddAllSame(once, t, rights[1..], right, side);
      AddTwice(d.value, t, right, side);
    }
  }

  /** The subordinates of the right over all objects are the right itself and its relatives in the class. */
  lemma OverAllSubordinates(right: Right, schemaRights: seq<SchemaRight>)
    requires right.objectType != [] && IsObjectMask(right.accessMask)
    ensures var subs := Subordinates(OverAll(right), schemaRights);
            (HasItself(schemaRights, right) <==> right in subs) &&
            (HasRelative(schemaRights, right) <==> exists s :: s in subs && s != right) &&
            (!HasItself(schemaRights, right) && !HasRelative(schemaRights, right) ==> subs == [])
  {
    var all := OverAll(right);
    var subs := Subordinates(all, schemaRights);
    forall c | c in schemaRights && c.accessMask == right.accessMask && c.objectType != []
        ensures Placed(c, all) in subs {
      assert c in ClassRights(schemaRights);
      SubordinateMember(all, schemaRights, c);
    }
    forall s | s in subs
      ensures exists c :: c in schemaRights && c.accessMask == right.accessMask && c.objectType != [] &&
                          s == Placed(c, all)
    {
      var c := SubordinateOrigin(all, schemaRights, s);
      TypedIsFromSchema(schemaRights, c);
    }
    if HasItself(schemaRights, right) {
      var c :| c in schemaRights && c.accessMask == right.accessMask && c.objectType == right.objectType;
      assert Placed(c, all) == right;
    }
    if HasRelative(schemaRights, right) {
      var c :| c in schemaRights && c.accessMask == right.accessMask && c.objectType != [] &&
          c.objectType != right.objectType;
      assert Placed(c, all) != right;
    }
    assert subs != [] ==> subs[0] in subs;
  }

  lemma TypedIsFromSchema(schemaRights: seq<SchemaRight>, c: Right)
    requires c in ClassRights(schemaRights) && c.objectType != []
    ensures c in schemaRights
  {
  }

  /** When the same right over all objects is the superior that is broken up. */
  ghost predicate OwnMeetsNull(aces: seq<Ace>, t: Sid, right: Right, schemaRights: seq<SchemaRight>, side: bool) {
    || AreExact(aces, t, OverAll(right), side)
    || (!HasRelative(schemaRights, right) && GrantOnly(aces, t, right, side, HasItself(schemaRights, right)))
  }

  lemma OwnNullExactly(aces: seq<Ace>, t: Sid, right: Right, schemaRights: seq<SchemaRight>, side: bool)
    requires IsValid(right) && right.objectType != [] && IsObjectMask(right.accessMask) &&
            Reads(aces, t, OverAll(right), side)
    ensures RemoveRightBase(BreakUp(Some(aces), t, OverAll(right), schemaRights, side), t, right, side).None? <==>
            OwnMeetsNull(aces, t, right, schemaRights, side)
  {
    var all := OverAll(right);
    var subs := Subordinates(all, schemaRights);
    var left := RemoveAccessRights(aces, t, all, side);
    BaseNullExactly(aces, t, all, side);
    NullStaysNull(t, subs, side);
    OverAllSubordinates(right, schemaRights);
    if left != [] {
      if HasRelative(schemaRights, right) {
        var s :| s in subs && s != right;
        RelativeStays(Some(left), t, right, schemaRights, side, s);
      } else if HasItself(schemaRights, right) {
        AddAllSame(Some(left), t, subs, right, side);
        BaseNullExactly(AddAccessRights(left, t, right, side), t, right, side);
        GrownGrantOnly(aces, t, right, side);
      } else {
        BaseNullExactly(left, t, right, side);
        LeftGrantOnly(aces, t, right, side);
      }
    }
  }

  lemma RelativeStays(d: Dacl, t: Sid, right: Right, schemaRights: seq<SchemaRight>, side: bool, s: Right)
    requires d.Some? && IsValid(right) && right.objectType != [] && IsObjectMask(right.accessMask)
    requires s in Subordinates(OverAll(right), schemaRights) && s != right
    ensures RemoveRightBase(AddAll(d, t, Subordinates(OverAll(right), schemaRights), side), t, right, side).Some?
  {
    var subs, bits := Subordinates(OverAll(right), schemaRights), MapAccessMask(s.accessMask);
    var c := SubordinateOrigin(OverAll(right), schemaRights, s);
    SubordinatesUniform(OverAll(right), schemaRights, t);
    assert Listed(subs, s.objectType, bits);
    AddAllHas(d, t, subs, side, ScopeOf(t, right), side, s.objectType, bits);
    BaseKeepsWitness(AddAll(d, t, subs, side), t, right, side, ScopeOf(t, right), side, s.objectType, bits);
  }

  // ---------------------------------------------------------------------------
  // Main results.

  /** What a removal meets NULL on, by the first superior that is set. */
  ghost predicate RemoveMeetsNull(aces: seq<Ace>, t: Sid, right: Right, schemaRights: seq<SchemaRight>, side: bool) {
    var first := FirstSet(aces, t, Superiors(right), side);
    if first.None? then forall a :: a in aces ==> IsSpent(a, t, right, Subordinates(right, schemaRights), side)
    else if first.value.accessMask != right.accessMask then AreExact(aces, t, first.value, side)
    else OwnMeetsNull(aces, t, right, schemaRights, side)
  }

  /** A complete remove meets a NULL DACL, at some step, exactly under that condition. */
  lemma RemoveMeetsNullExactly(aces: seq<Ace>, t: Sid, right: Right, schemaRights: seq<SchemaRight>, side: bool)
    requires IsValid(right)
    ensures RemoveRight(Some(aces), t, right, schemaRights, side).None? <==>
            RemoveMeetsNull(aces, t, right, schemaRights, side)
  {
    var first := FirstSet(aces, t, Superiors(right), side);
    var later := LoopFromFirstSet(aces, t, Superiors(right), schemaRights, side);
    if first.None? {
      ClearNullExactly(aces, t, right, schemaRights, side);
    } else if first.value.accessMask != right.accessMask {
      GenericFirst(aces, t, right, first.value, later, schemaRights, side);
    } else {
      LastIsOwn(right, |Superiors(right)| - |later| - 1);
      assert later == [];
      OwnNullExactly(aces, t, right, schemaRights, side);
    }
  }

  lemma LastIsOwn(right: Right, i: nat)
    requires i < |Superiors(right)| && Superiors(right)[i].accessMask == right.accessMask
    ensures i == |Superiors(right)| - 1 && Superiors(right)[i] == OverAll(right)
    ensures right.objectType != [] && IsObjectMask(right.accessMask)
  {
  }

  lemma GenericFirst(
      aces: seq<Ace>, t: Sid, right: Right, s: Right, later: seq<Right>, schemaRights: seq<SchemaRight>, side: bool)
    requires IsValid(right) && |later| < |Superiors(right)| && later == Superiors(right)[|Superiors(right)| - |later|..]
    requires Superiors(right)[|Superiors(right)| - |later| - 1] == s && s.accessMask != right.accessMask
    requires Reads(aces, t, s, side)
    ensures var broken := BreakUpAll(BreakUp(Some(aces), t, s, schemaRights, side), t, later, schemaRights, side);
            Clear(broken, t, right, schemaRights, side).None? <==> AreExact(aces, t, s, side)
  {
    var i, once := |Superiors(right)| - |later| - 1, BreakUp(Some(aces), t, s, schemaRights, side);
    SuperiorsUniform(right, t);
    assert s in Superiors(right);
    GenericSuperior(right, i);
    BreakUpNullExactly(aces, t, s, schemaRights, side);
    if once.None? {
      BreakUpAllSome(once, t, later, schemaRights, side);
      NullStaysNull(t, Subordinates(right, schemaRights), side);
    } else {
      BreakUpBringsWitness(aces, t, s, schemaRights, side);
      LaterSpare(right, t, i, later);
      BreakUpAllKeepsWitness(once, t, later, schemaRights, ScopeOf(t, right), side, Witness(s.accessMask));
      ClearKeepsWitness(BreakUpAll(once, t, later, schemaRights, side), t, right, schemaRights, side,
          Witness(s.accessMask));
    }
  }

  lemma LaterSpare(right: Right, t: Sid, i: nat, later: seq<Right>)
    requires IsValid(right) && i < |Superiors(right)| && later == Superiors(right)[i + 1..]
    requires Superiors(right)[i].accessMask != right.accessMask
    ensures AllSpare(later, t, ScopeOf(t, right), Witness(Superiors(right)[i].accessMask))
  {
    SuperiorsUniform(right, t);
    forall r | r in later
      ensures r in Superiors(right) && Disjoint(MapAccessMask(r.accessMask), Witness(Superiors(right)[i].accessMask))
    {
      var j :| 0 <= j < |later| && later[j] == r;
      LaterSparesWitness(right, i, i + 1 + j);
    }
  }

  /** What an addition meets NULL on: for an object right what removing it from the opposite side does; else both
      sides count. */
  ghost predicate AddMeetsNull(aces: seq<Ace>, t: Sid, right: Right, schemaRights: seq<SchemaRight>, side: bool) {
    var subs, first := Subordinates(right, schemaRights), FirstSet(aces, t, Superiors(right), !side);
    if right.objectType != [] then RemoveMeetsNull(aces, t, right, schemaRights, !side)
    else if first.Some? then AreExact(aces, t, first.value, !side)
    else
      forall a :: a in aces ==> IsSpent(a, t, right, subs, !side) || IsWithin(a, ScopeOf(t, right), subs, side)
  }

  lemma AddMeetsNullExactly(aces: seq<Ace>, t: Sid, right: Right, schemaRights: seq<SchemaRight>, side: bool)
    requires IsValid(right)
    ensures AddRight(Some(aces), t, right, schemaRights, side).None?
            <==> AddMeetsNull(aces, t, right, schemaRights, side)
  {
    var first := FirstSet(aces, t, Superiors(right), !side);
    if right.objectType != [] {
      ObjectAddIsRemoveThenAdd(Some(aces), t, right, schemaRights, side);
      RemoveMeetsNullExactly(aces, t, right, schemaRights, !side);
    } else {
      var later := LoopFromFirstSet(aces, t, Superiors(right), schemaRights, !side);
      if first.None? {
        BothSidesNullExactly(aces, t, right, schemaRights, side);
      } else {
        OnlyFullControl(right);
        assert first.value == Superiors(right)[0] && later == [];
        FullControlFirst(aces, t, right, first.value, schemaRights, side);
      }
    }
  }

  lemma OnlyFullControl(right: Right)
    requires right.objectType == [] && Superiors(right) != []
    ensures |Superiors(right)| == 1 && Superiors(right)[0] == right.(accessMask := GENERIC_ALL)
    ensures right.accessMask == GENERIC_READ || right.accessMask == GENERIC_WRITE
  {
  }

  /** The removals of an addition: the subordinates on its side, then the right and its subordinates on the other. */
  ghost function BothSidesCleared(d: Dacl, t: Sid, right: Right, schemaRights: seq<SchemaRight>, side: bool): Dacl {
    Clear(RemoveAll(d, t, Subordinates(right, schemaRights), side), t, right, schemaRights, !side)
  }

  lemma BothSidesNullExactly(aces: seq<Ace>, t: Sid, right: Right, schemaRights: seq<SchemaRight>, side: bool)
    requires IsValid(right)
    ensures var subs := Subordinates(right, schemaRights);
            BothSidesCleared(Some(aces), t, right, schemaRights, side).None? <==>
            forall a :: a in aces ==> IsSpent(a, t, right, subs, !side) || IsWithin(a, ScopeOf(t, right), subs, side)
  {
    var subs := Subordinates(right, schemaRights);
    var own, opposite := StepsOf(subs, side), [Step(right, !side)] + StepsOf(subs, !side);
    assert opposite[1..] == StepsOf(subs, !side) == StepsOf(subs, !side) + [];
    var d := RemoveAll(Some(aces), t, subs, side);
    StepsOfRemoveAll(Some(aces), t, subs, side, opposite);
    StepsOfRemoveAll(RemoveRightBase(d, t, right, !side), t, subs, !side, []);
    StepsNullExactly(aces, t, own + opposite);
    forall a
      ensures IsConsumed(a, t, own + opposite) <==>
              IsSpent(a, t, right, subs, !side) || IsWithin(a, ScopeOf(t, right), subs, side)
    {
      BothSidesConsume(a, t, right, schemaRights, side, own, opposite);
    }
  }

  lemma BothSidesConsume(
      a: Ace, t: Sid, right: Right, schemaRights: seq<SchemaRight>, side: bool, own: seq<Step>, opposite: seq<Step>)
    requires IsValid(right) && own == StepsOf(Subordinates(right, schemaRights), side)
    requires opposite == [Step(right, !side)] + StepsOf(Subordinates(right, schemaRights), !side)
    ensures var subs := Subordinates(right, schemaRights);
            IsConsumed(a, t, own + opposite) <==>
            IsSpent(a, t, right, subs, !side) || IsWithin(a, ScopeOf(t, right), subs, side)
  {
    ClearConsumesExactly(a, t, right, schemaRights, !side);
    SubordinatesConsumeExactly(a, t, right, schemaRights, side);
    if OnSide(a, !side) {
      forall s | s in own ensures !Matches(a, t, s) {
        MatchesOneSide(a, t, s);
      }
      UnmatchedStepsSkip(a, t, own, opposite);
    } else {
      forall s | s in opposite ensures !Matches(a, t, s) {
        MatchesOneSide(a, t, s);
      }
      UnmatchedStepsEnd(a, t, own, opposite);
      MatchesOneSide(a, t, Step(right, !side));
    }
  }

  lemma MatchesOneSide(a: Ace, t: Sid, step: Step)
    ensures Matches(a, t, step) ==> OnSide(a, step.side) && !OnSide(a, !step.side)
  {
  }

  lemma FullControlFirst(aces: seq<Ace>, t: Sid, right: Right, s: Right, schemaRights: seq<SchemaRight>, side: bool)
    requires IsValid(right) && right.objectType == [] && s == right.(accessMask := GENERIC_ALL)
    requires right.accessMask == GENERIC_READ || right.accessMask == GENERIC_WRITE
    requires Reads(aces, t, s, !side)
    ensures BothSidesCleared(BreakUp(Some(aces), t, s, schemaRights, !side), t, right, schemaRights, side).None? <==>
            AreExact(aces, t, s, !side)
  {
    var subs, scope := Subordinates(right, schemaRights), ScopeOf(t, right);
    var once := BreakUp(Some(aces), t, s, schemaRights, !side);
    BreakUpNullExactly(aces, t, s, schemaRights, !side);
    if once.None? {
      NullStaysNull(t, subs, side);
      NullStaysNull(t, subs, !side);
    } else {
      BreakUpBringsWitness(aces, t, s, schemaRights, !side);
      SubordinatesUniform(right, schemaRights, t);
      RemoveAllKeepsWitness(once, t, subs, side, scope, !side, [], STD_DELETE);
      ClearKeepsWitness(RemoveAll(once, t, subs, side), t, right, schemaRights, !side, STD_DELETE);
    }
  }
}
