/** What a series of removals leaves of one ACE, and exactly when it leaves nothing of any. */
module Removals {
  import opened Primitives
  import opened Aces
  import opened RightsEditor
  import opened RightsProofs
  import opened RightsTheorems

  // ---------------------------------------------------------------------------
  // One ACE under a series of removals.

  datatype Step = Step(right: Right, side: bool)

  function RemoveSteps(d: Dacl, t: Sid, steps: seq<Step>): Dacl
    decreases |steps|
  {
    if steps == [] then d
    else RemoveSteps(RemoveRightBase(d, t, steps[0].right, steps[0].side), t, steps[1..])
  }

  function StepsOf(rights: seq<Right>, side: bool): (steps: seq<Step>)
    ensures |steps| == |rights| && forall i :: 0 <= i < |rights| ==> steps[i] == Step(rights[i], side)
  {
    seq(|rights|, i requires 0 <= i < |rights| => Step(rights[i], side))
  }

  predicate Matches(ace: Ace, t: Sid, step: Step) {
    StrictMatch(ace, t, step.right, step.side)
  }

  /** What a removal leaves of an ACE. */
  function Survivor(ace: Ace, t: Sid, step: Step): Option<Ace> {
    var mask := MapAccessMask(step.right.accessMask);
    if !Matches(ace, t, step) || !BitmaskIsSet(ace.accessMask, mask) then Some(ace)
    else
      var edited := UnsetMask(ace.accessMask, mask);
      if edited == {} then None else Some(ace.(accessMask := edited))
  }

  ghost predicate IsConsumed(ace: Ace, t: Sid, steps: seq<Step>)
    decreases |steps|
  {
    && steps != []
    && (Survivor(ace, t, steps[0]).None? || IsConsumed(Survivor(ace, t, steps[0]).value, t, steps[1..]))
  }

  lemma {:induction false} SurvivorsRemain(aces: seq<Ace>, t: Sid, step: Step, x: Ace)
    ensures x in RemoveAccessRights(aces, t, step.right, step.side) <==>
            exists a :: a in aces && Survivor(a, t, step) == Some(x)
  {
    if aces != [] {
      var ace, rest := aces[0], aces[1..];
      SurvivorsRemain(rest, t, step, x);
      assert aces == [ace] + rest;
      assert RemoveAccessRights(aces, t, step.right, step.side) ==
             (if Survivor(ace, t, step).None? then [] else [Survivor(ace, t, step).value])
             + RemoveAccessRights(rest, t, step.right, step.side);
    }
  }

  lemma NoStepsFromNull(t: Sid, steps: seq<Step>)
    ensures RemoveSteps(None, t, steps) == None
    decreases |steps|
  {
    if steps != [] {
      NoStepsFromNull(t, steps[1..]);
    }
  }

  /** A series of removals ends on NULL exactly when it consumes every ACE. */
  lemma {:induction false} StepsNullExactly(aces: seq<Ace>, t: Sid, steps: seq<Step>)
    requires steps != []
    ensures RemoveSteps(Some(aces), t, steps).None? <==> forall a :: a in aces ==> IsConsumed(a, t, steps)
    decreases |steps|
  {
    var step, rest := steps[0], steps[1..];
    var left := RemoveAccessRights(aces, t, step.right, step.side);
    forall x ensures x in left <==> exists a :: a in aces && Survivor(a, t, step) == Some(x) {
      SurvivorsRemain(aces, t, step, x);
    }
    if left == [] {
      NoStepsFromNull(t, rest);
      assert forall a :: a in aces ==> Survivor(a, t, step).Some? ==> Survivor(a, t, step).value in left;
    } else {
      assert left[0] in left;
      if rest != [] {
        StepsNullExactly(left, t, rest);
      }
      assert forall a :: a in aces && Survivor(a, t, step).Some? ==> Survivor(a, t, step).value in left;
    }
  }

  lemma {:induction false} StepsOfRemoveAll(d: Dacl, t: Sid, rights: seq<Right>, side: bool, more: seq<Step>)
    ensures RemoveSteps(d, t, StepsOf(rights, side) + more) == RemoveSteps(RemoveAll(d, t, rights, side), t, more)
    decreases |rights|
  {
    var steps := StepsOf(rights, side);
    if rights == [] {
      assert steps + more == more;
    } else {
      assert steps[1..] == StepsOf(rights[1..], side) && (steps + more)[1..] == steps[1..] + more;
      StepsOfRemoveAll(RemoveRightBase(d, t, rights[0], side), t, rights[1..], side, more);
    }
  }

  lemma ForeignBitStays(ace: Ace, t: Sid, step: Step, b: Bit)
    requires b in ace.accessMask && (Matches(ace, t, step) ==> b !in MapAccessMask(step.right.accessMask))
    ensures Survivor(ace, t, step).Some? && b in Survivor(ace, t, step).value.accessMask
  {
    assert b in UnsetMask(ace.accessMask, MapAccessMask(step.right.accessMask)) || Survivor(ace, t, step) == Some(ace);
  }

  /** Removals that match an ACE leave the bits that they do not name. */
  lemma {:induction false} ForeignBitSaves(ace: Ace, t: Sid, steps: seq<Step>, b: Bit)
    requires b in ace.accessMask
    requires forall s :: s in steps && Matches(ace, t, s) ==> b !in MapAccessMask(s.right.accessMask)
    ensures !IsConsumed(ace, t, steps)
    decreases |steps|
  {
    if steps != [] {
      var left := Survivor(ace, t, steps[0]);
      assert steps[0] in steps;
      ForeignBitStays(ace, t, steps[0], b);
      forall s | s in steps[1..] ensures Matches(left.value, t, s) ==> b !in MapAccessMask(s.right.accessMask) {
        MatchIgnoresMask(ace, left.value.accessMask, t, s.right, s.side);
      }
      ForeignBitSaves(left.value, t, steps[1..], b);
    }
  }

  lemma {:induction false} EmptyMaskSaves(ace: Ace, t: Sid, steps: seq<Step>)
    requires ace.accessMask == {} && forall s :: s in steps ==> s.right.accessMask != {}
    ensures !IsConsumed(ace, t, steps)
    decreases |steps|
  {
    if steps != [] {
      assert steps[0].right.accessMask != {};
      NothingContained(steps[0].right.accessMask);
      EmptyMaskSaves(ace, t, steps[1..]);
    }
  }

  lemma NothingContained(mask: Mask)
    requires mask != {}
    ensures !BitmaskIsSet({}, MapAccessMask(mask))
  {
    assert 4 in GENERIC_READ_FIXED;
  }

  ghost predicate HasSingle(ace: Ace, t: Sid, steps: seq<Step>, b: Bit) {
    exists s :: s in steps && Matches(ace, t, s) && MapAccessMask(s.right.accessMask) == {b}
  }

  /** Removals of each single bit of an ACE, in any order and among others, consume it. */
  lemma {:induction false} SinglesConsume(ace: Ace, t: Sid, steps: seq<Step>)
    requires ace.accessMask != {} && forall b :: b in ace.accessMask ==> HasSingle(ace, t, steps, b)
    ensures IsConsumed(ace, t, steps)
    decreases |steps|
  {
    var bit :| bit in ace.accessMask;
    assert HasSingle(ace, t, steps, bit);
    var left := Survivor(ace, t, steps[0]);
    if left.Some? {
      var next := left.value;
      forall b | b in next.accessMask ensures HasSingle(next, t, steps[1..], b) {
        SingleRemains(ace, next, t, steps, b);
      }
      SinglesConsume(next, t, steps[1..]);
    }
  }

  lemma SingleRemains(ace: Ace, next: Ace, t: Sid, steps: seq<Step>, b: Bit)
    requires steps != [] && Survivor(ace, t, steps[0]) == Some(next)
    requires b in next.accessMask && HasSingle(ace, t, steps, b)
    ensures HasSingle(next, t, steps[1..], b)
  {
    var s :| s in steps && Matches(ace, t, s) && MapAccessMask(s.right.accessMask) == {b};
    MatchIgnoresMask(ace, next.accessMask, t, s.right, s.side);
    if s == steps[0] {
      SingleGoes(ace.accessMask, b);
    }
    assert s in steps[1..];
  }

  lemma SingleGoes(k: Mask, b: Bit)
    ensures b !in UnsetMask(k, {b})
  {
    assert 2 in GENERIC_READ_FIXED && 4 in GENERIC_READ_FIXED && 3 in GENERIC_WRITE && 5 in GENERIC_WRITE;
  }

  lemma {:induction false} UnmatchedStepsSkip(ace: Ace, t: Sid, first: seq<Step>, second: seq<Step>)
    requires forall s :: s in first ==> !Matches(ace, t, s)
    ensures IsConsumed(ace, t, first + second) <==> IsConsumed(ace, t, second)
    decreases |first|
  {
    if first == [] {
      assert first + second == second;
    } else {
      assert first[0] in first && (first + second)[1..] == first[1..] + second;
      UnmatchedStepsSkip(ace, t, first[1..], second);
    }
  }

  lemma {:induction false} UnmatchedStepsEnd(ace: Ace, t: Sid, first: seq<Step>, second: seq<Step>)
    requires forall s :: s in second ==> !Matches(ace, t, s)
    ensures IsConsumed(ace, t, first + second) <==> IsConsumed(ace, t, first)
    decreases |first|
  {
    if first == [] {
      assert first + second == second;
      UnmatchedStepsSkip(ace, t, second, []);
      assert second + [] == second;
    } else {
      assert (first + second)[1..] == first[1..] + second;
      var left := Survivor(ace, t, first[0]);
      if left.Some? {
        forall s | s in second ensures !Matches(left.value, t, s) {
          MatchIgnoresMask(ace, left.value.accessMask, t, s.right, s.side);
        }
        UnmatchedStepsEnd(left.value, t, first[1..], second);
      }
    }
  }

  // ---------------------------------------------------------------------------
  // One ACE under the removal of a right and its subordinates.

  /** The ACE matches the right and grants its mask and nothing else. */
  ghost predicate IsExact(ace: Ace, t: Sid, right: Right, side: bool) {
    StrictMatch(ace, t, right, side) && ace.accessMask == MapAccessMask(right.accessMask)
  }

  ghost predicate AreExact(aces: seq<Ace>, t: Sid, right: Right, side: bool) {
    forall a :: a in aces ==> IsExact(a, t, right, side)
  }

  /** The ACE grants something, and only bits of rights in the list that are over its object type. */
  ghost predicate IsWithin(ace: Ace, scope: Scope, rights: seq<Right>, side: bool) {
    && InScope(ace, scope) && OnSide(ace, side) && ace.accessMask != {}
    && forall b :: b in ace.accessMask ==> IsCovered(b, ObjectKey(ace), rights)
  }

  ghost predicate IsCovered(b: Bit, key: OptionalGuid, rights: seq<Right>) {
    exists s :: s in rights && s.objectType == key && b in MapAccessMask(s.accessMask)
  }

  lemma UnsetLeavesNothingExactly(k: Mask, mask: Mask)
    requires BitmaskIsSet(k, mask)
    ensures UnsetMask(k, mask) == {} <==> k == mask
  {
    if mask == GENERIC_READ_FIXED || mask == GENERIC_WRITE {
      assert 5 in GENERIC_WRITE && 5 !in GENERIC_READ_FIXED && 4 in GENERIC_READ_FIXED && 4 !in GENERIC_WRITE;
    }
    assert forall b :: b in k ==> b in mask || b in k - mask;
  }

  lemma SurvivorNoneExactly(ace: Ace, t: Sid, right: Right, side: bool)
    ensures Survivor(ace, t, Step(right, side)).None? <==> IsExact(ace, t, right, side)
  {
    if BitmaskIsSet(ace.accessMask, MapAccessMask(right.accessMask)) {
      assert Matches(ace, t, Step(right, side)) == StrictMatch(ace, t, right, side);
      UnsetLeavesNothingExactly(ace.accessMask, MapAccessMask(right.accessMask));
    }
  }

  /** One base removal ends on NULL exactly when every ACE grants exactly the right. */
  lemma BaseNullExactly(aces: seq<Ace>, t: Sid, right: Right, side: bool)
    ensures RemoveRightBase(Some(aces), t, right, side).None? <==> AreExact(aces, t, right, side)
  {
    var steps := [Step(right, side)];
    StepsNullExactly(aces, t, steps);
    assert RemoveSteps(Some(aces), t, steps) == RemoveRightBase(Some(aces), t, right, side);
    forall a ensures IsConsumed(a, t, steps) <==> IsExact(a, t, right, side) {
      SurvivorNoneExactly(a, t, right, side);
      assert steps[1..] == [];
    }
  }

  /** Every bit of a subordinate is also the mask of a subordinate of its own, over the same object type. */
  lemma SubordinateBits(right: Right, schemaRights: seq<SchemaRight>, s: Right, b: Bit) returns (single: Right)
    requires IsEditable(right) && s in Subordinates(right, schemaRights) && b in MapAccessMask(s.accessMask)
    ensures single in Subordinates(right, schemaRights)
    ensures single.objectType == s.objectType && MapAccessMask(single.accessMask) == {b}
  {
    var c := SubordinateOrigin(right, schemaRights, s);
    ClassRightShape(schemaRights, c);
    single := s;
    if s.accessMask == GENERIC_READ || s.accessMask == GENERIC_WRITE {
      var i := GenericBitIndex(s.accessMask, b);
      CommonIsClassRight(schemaRights, i);
      SubordinateMember(right, schemaRights, Right(COMMON_RIGHTS[i], [], [], {}));
      single := Right({b}, [], right.inheritedType, right.flags);
    } else {
      SingleMask(right.accessMask, c, b);
    }
  }

  lemma GenericBitIndex(mask: Mask, b: Bit) returns (i: nat)
    requires (mask == GENERIC_READ || mask == GENERIC_WRITE) && b in MapAccessMask(mask)
    ensures i < |COMMON_RIGHTS| && COMMON_RIGHTS[i] == {b}
  {
    i := if b == 2 then 3 else if b == 4 then 4 else if b == 5 then 5 else if b == 17 then 8 else 11;
  }

  lemma SingleMask(mask: Mask, c: Right, b: Bit)
    requires IsSubordinateMatch(mask, c) && (IsObjectMask(c.accessMask) || c.accessMask in COMMON_RIGHTS)
    requires c.accessMask != GENERIC_READ && c.accessMask != GENERIC_WRITE && b in MapAccessMask(c.accessMask)
    ensures MapAccessMask(c.accessMask) == {b}
  {
    if c.accessMask in COMMON_RIGHTS {
      var i :| 0 <= i < |COMMON_RIGHTS| && COMMON_RIGHTS[i] == c.accessMask;
    }
  }

  /** Removing subordinates consumes exactly the ACEs within them. */
  lemma SubordinatesConsumeExactly(ace: Ace, t: Sid, right: Right, schemaRights: seq<SchemaRight>, side: bool)
    requires IsEditable(right)
    ensures var subs := Subordinates(right, schemaRights);
            IsConsumed(ace, t, StepsOf(subs, side)) <==> IsWithin(ace, ScopeOf(t, right), subs, side)
  {
    var subs, scope := Subordinates(right, schemaRights), ScopeOf(t, right);
    var steps := StepsOf(subs, side);
    SubordinatesUniform(right, schemaRights, t);
    forall i | 0 <= i < |subs|
      ensures Matches(ace, t, steps[i])
              <==> InScope(ace, scope) && OnSide(ace, side) && ObjectKey(ace) == subs[i].objectType
    {
      assert subs[i] in subs;
      StrictMatchMeaning(ace, t, subs[i], side);
    }
    if IsWithin(ace, scope, subs, side) {
      forall b | b in ace.accessMask ensures HasSingle(ace, t, steps, b) {
        var s :| s in subs && s.objectType == ObjectKey(ace) && b in MapAccessMask(s.accessMask);
        var single := SubordinateBits(right, schemaRights, s, b);
        var i :| 0 <= i < |subs| && subs[i] == single;
        assert steps[i] in steps;
      }
      SinglesConsume(ace, t, steps);
    } else if ace.accessMask == {} {
      assert forall s :: s in steps ==> s.right in subs;
      EmptyMaskSaves(ace, t, steps);
    } else {
      var b :| b in ace.accessMask && !(InScope(ace, scope) && OnSide(ace, side) && IsCovered(b, ObjectKey(ace), subs));
      forall s | s in steps && Matches(ace, t, s) ensures b !in MapAccessMask(s.right.accessMask) {
        var i :| 0 <= i < |subs| && steps[i] == s;
        assert subs[i] in subs;
      }
      ForeignBitSaves(ace, t, steps, b);
    }
  }

  /** What a removal of the right takes from an ACE in any case, the bit apart that generic read and write share. */
  ghost function OwnBits(mask: Mask): Mask {
    var m := MapAccessMask(mask);
    if m == GENERIC_READ_FIXED || m == GENERIC_WRITE then m - READ_CONTROL else m
  }

  lemma SubordinateWithinOwnBits(right: Right, schemaRights: seq<SchemaRight>, s: Right, b: Bit)
    requires s in Subordinates(right, schemaRights) && s.objectType == [] && b in MapAccessMask(s.accessMask)
    ensures b in OwnBits(right.accessMask)
  {
    var c := SubordinateOrigin(right, schemaRights, s);
    SubordinateMaskWithin(right, schemaRights, s);
  }

  lemma OwnBitsGo(k: Mask, mask: Mask, b: Bit)
    requires b in OwnBits(mask)
    ensures b !in UnsetMask(k, MapAccessMask(mask))
  {
    assert b in MaskToUnset(k, MapAccessMask(mask));
  }

  /** An ACE that grants more than the right is not within its subordinates, before or after losing the right. */
  lemma OverfullIsNotWithin(ace: Ace, left: Mask, t: Sid, right: Right, schemaRights: seq<SchemaRight>, side: bool)
    requires IsValid(right) && StrictMatch(ace, t, right, side)
    requires MapAccessMask(right.accessMask) < ace.accessMask
    requires left == UnsetMask(ace.accessMask, MapAccessMask(right.accessMask))
    ensures var subs, scope := Subordinates(right, schemaRights), ScopeOf(t, right);
            !IsWithin(ace, scope, subs, side) && !IsWithin(ace.(accessMask := left), scope, subs, side)
  {
    var subs, scope := Subordinates(right, schemaRights), ScopeOf(t, right);
    var edited := ace.(accessMask := left);
    StrictMatchMeaning(ace, t, right, side);
    assert ObjectKey(edited) == ObjectKey(ace) == right.objectType;
    forall b | IsCovered(b, ObjectKey(ace), subs) ensures right.objectType == [] && b in OwnBits(right.accessMask) {
      var s :| s in subs && s.objectType == ObjectKey(ace) && b in MapAccessMask(s.accessMask);
      SubordinateWithinOwnBits(right, schemaRights, s, b);
    }
    var more :| more in ace.accessMask && more !in OwnBits(right.accessMask);
    assert !IsCovered(more, ObjectKey(ace), subs);
    if left != {} {
      var b :| b in left;
      if b in OwnBits(right.accessMask) {
        OwnBitsGo(ace.accessMask, right.accessMask, b);
      }
      assert !IsCovered(b, ObjectKey(edited), subs);
    }
  }

  /** Removing a right and its subordinates consumes exactly the ACEs that grant the right or part of those. */
  lemma ClearConsumesExactly(ace: Ace, t: Sid, right: Right, schemaRights: seq<SchemaRight>, side: bool)
    requires IsValid(right)
    ensures var subs := Subordinates(right, schemaRights);
            IsConsumed(ace, t, [Step(right, side)] + StepsOf(subs, side)) <==>
            IsExact(ace, t, right, side) || IsWithin(ace, ScopeOf(t, right), subs, side)
  {
    var subs := Subordinates(right, schemaRights);
    var steps := [Step(right, side)] + StepsOf(subs, side);
    assert steps[1..] == StepsOf(subs, side);
    var left := Survivor(ace, t, steps[0]);
    SurvivorNoneExactly(ace, t, right, side);
    if left.Some? {
      SubordinatesConsumeExactly(left.value, t, right, schemaRights, side);
      if left.value != ace {
        OverfullIsNotWithin(ace, left.value.accessMask, t, right, schemaRights, side);
      }
    }
  }
}
