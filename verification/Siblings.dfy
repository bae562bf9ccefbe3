/**
 Breaking up a superior right must not change what is shown for the other rights of
 the class. READ_CONTROL is the one exception, and generic read and write spare each other.
 */
module Siblings {
  import opened Primitives
  import opened Aces
  import opened RightsEditor
  import opened Columns
  import opened RightsProofs
  import opened RightsTheorems

  /** Breaking up the superior cannot change the state shown for q. */
  ghost predicate IsNeutral(superior: Right, q: Right, schemaRights: seq<SchemaRight>) {
    || q in Subordinates(superior, schemaRights)
    || (superior.accessMask != GENERIC_ALL && Spares(MapAccessMask(superior.accessMask), MapAccessMask(q.accessMask)))
  }

  lemma SubordinatesSpare(superior: Right, schemaRights: seq<SchemaRight>, key: OptionalGuid, bits: Mask)
    requires superior.accessMask != GENERIC_ALL && Spares(MapAccessMask(superior.accessMask), bits)
    ensures ListSpares(Subordinates(superior, schemaRights), key, bits)
  {
    forall s | s in Subordinates(superior, schemaRights) ensures Disjoint(MapAccessMask(s.accessMask), bits) {
      var c := SubordinateOrigin(superior, schemaRights, s);
      SubordinateMaskWithin(superior, schemaRights, s);
      forall b | b in MapAccessMask(s.accessMask) && Disjoint(MapAccessMask(superior.accessMask), bits)
          ensures b !in bits {
        assert b in bits ==> b in MapAccessMask(superior.accessMask) * bits;
      }
    }
  }

  lemma BreakUpKeeps(d: Dacl, t: Sid, superior: Right, schemaRights: seq<SchemaRight>, side: bool, q: Right)
    requires IsValid(superior) && superior.objectType == [] && IsValid(q) && ScopeOf(t, q) == ScopeOf(t, superior)
    requires IsNeutral(superior, q, schemaRights) && BreakUp(d, t, superior, schemaRights, side).Some?
    ensures d.Some?
    ensures Reads(BreakUp(d, t, superior, schemaRights, side).value, t, q, side) <==> Reads(d.value, t, q, side)
  {
    var subs, bits := Subordinates(superior, schemaRights), MapAccessMask(q.accessMask);
    var after := BreakUp(d, t, superior, schemaRights, side);
    BreakUpHas(d, t, superior, schemaRights, side, side, [], bits);
    BreakUpHas(d, t, superior, schemaRights, side, side, q.objectType, bits);
    ReadsColumns(after.value, t, q, side);
    ReadsColumns(d.value, t, q, side);
    if q in subs {
      assert Listed(subs, q.objectType, bits);
      SubordinateMaskWithin(superior, schemaRights, q);
      ReadsColumns(d.value, t, superior, side);
      HasMore(Masks(d.value, ScopeOf(t, q), side, []), MapAccessMask(superior.accessMask), bits);
    } else {
      SubordinatesSpare(superior, schemaRights, [], bits);
      SubordinatesSpare(superior, schemaRights, q.objectType, bits);
    }
  }

  lemma {:induction false} BreakUpAllKeeps(
      d: Dacl, t: Sid, superiors: seq<Right>, schemaRights: seq<SchemaRight>, side: bool, q: Right)
    requires IsValid(q) && Uniform(superiors, t, ScopeOf(t, q))
    requires forall s :: s in superiors ==> s.objectType == [] && IsNeutral(s, q, schemaRights)
    requires BreakUpAll(d, t, superiors, schemaRights, side).Some?
    ensures d.Some?
    ensures Reads(BreakUpAll(d, t, superiors, schemaRights, side).value, t, q, side) <==> Reads(d.value, t, q, side)
    decreases |superiors|
  {
    if superiors != [] {
      var next := BreakUp(d, t, superiors[0], schemaRights, side);
      assert forall s :: s in superiors[1..] ==> s in superiors;
      BreakUpAllKeeps(next, t, superiors[1..], schemaRights, side, q);
      BreakUpKeeps(d, t, superiors[0], schemaRights, side, q);
    }
  }

  // ---------------------------------------------------------------------------
  // Which class rights are neutral.

  /** One of the five masks, or one of the masks without object type: what a class right can carry. */
  lemma MaskIsNeutral(superior: Mask, mask: Mask)
    requires superior == GENERIC_READ || superior == GENERIC_WRITE || IsObjectMask(superior)
    requires mask in COMMON_RIGHTS && mask != GENERIC_ALL && mask != superior
    requires superior == GENERIC_READ || superior == GENERIC_WRITE ==> mask != READ_CONTROL
    requires superior == READ_PROP ==> mask != GENERIC_READ
    requires superior == WRITE_PROP ==> mask != GENERIC_WRITE
    ensures || IsSubordinateMatch(superior, Right(mask, [], [], {}))
            || Spares(MapAccessMask(superior), MapAccessMask(mask))
  {
    var i :| 0 <= i < |COMMON_RIGHTS| && COMMON_RIGHTS[i] == mask;
    if i >= 3 {
      var b :| mask == {b};
      assert MapAccessMask(superior) * mask == if b in MapAccessMask(superior) then {b} else {};
    }
  }

  lemma ObjectMasksAreCommon(mask: Mask)
    requires IsObjectMask(mask)
    ensures mask in COMMON_RIGHTS && mask != GENERIC_ALL && MapAccessMask(mask) == mask
  {
    var i := ObjectMaskIndex(mask);
    assert COMMON_RIGHTS[i] in COMMON_RIGHTS;
  }

  /** A class right, in the scope of the target, that removing the target must not touch. */
  ghost predicate IsSibling(target: Right, schemaRights: seq<SchemaRight>, c: Right) {
    var q := Placed(c, target);
    c in ClassRights(schemaRights) && q != target && q !in Superiors(target)
  }

  ghost predicate IsReadControl(c: Right) {
    c.accessMask == READ_CONTROL && c.objectType == []
  }

  /** READ_CONTROL is shared by generic read and generic write, the superiors of reading and writing properties. */
  ghost predicate IsSharedBit(target: Right, c: Right) {
    IsReadControl(c) && (target.accessMask == READ_PROP || target.accessMask == WRITE_PROP)
  }

  lemma SiblingIsNeutral(target: Right, schemaRights: seq<SchemaRight>, c: Right, superior: Right)
    requires IsValid(target) && target.objectType != [] && IsObjectMask(target.accessMask)
    requires IsSibling(target, schemaRights, c) && superior in Superiors(target)
    requires IsReadControl(c) ==> superior.accessMask != GENERIC_READ && superior.accessMask != GENERIC_WRITE
    ensures IsNeutral(superior, Placed(c, target), schemaRights)
  {
    var q := Placed(c, target);
    ClassRightShape(schemaRights, c);
    if c.objectType != [] || IsObjectMask(c.accessMask) { ObjectMasksAreCommon(c.accessMask); }
    if superior.accessMask == GENERIC_ALL || IsSubordinateMatch(superior.accessMask, c) {
      SubordinateMember(superior, schemaRights, c);
      assert q == Placed(c, superior);
    } else if c.accessMask != superior.accessMask {
      MaskIsNeutral(superior.accessMask, c.accessMask);
    }
  }

  /** The last step: unsetting the target itself touches no other class right. */
  lemma TargetRemovalKeeps(d: Dacl, t: Sid, target: Right, schemaRights: seq<SchemaRight>, side: bool, c: Right)
    requires IsValid(target) && target.objectType != [] && IsObjectMask(target.accessMask)
    requires c in ClassRights(schemaRights) && Placed(c, target) != target
    requires RemoveRightBase(d, t, target, side).Some?
    ensures d.Some?
    ensures Reads(RemoveRightBase(d, t, target, side).value, t, Placed(c, target), side)
            <==> Reads(d.value, t, Placed(c, target), side)
  {
    var q := Placed(c, target);
    var bits := MapAccessMask(q.accessMask);
    ClassRightIsValid(schemaRights, c);
    RemoveBaseHas(d, t, target, side, side, [], bits);
    RemoveBaseHas(d, t, target, side, side, q.objectType, bits);
    ReadsColumns(d.value, t, q, side);
    ReadsColumns(RemoveRightBase(d, t, target, side).value, t, q, side);
    if c.objectType == target.objectType {
      ClassRightShape(schemaRights, c);
      ObjectMasksAreCommon(c.accessMask);
      ObjectMasksAreCommon(target.accessMask);
      assert Disjoint(target.accessMask, c.accessMask);
    }
  }

  /**
   Removing an object right, with any of its superiors set, leaves the state of every other
   class right on that side as it was, save the superiors and READ_CONTROL.
   */
  lemma RemoveObjectRightKeepsSiblings(
      d: Dacl, t: Sid, target: Right, schemaRights: seq<SchemaRight>, allow: bool, c: Right)
    requires IsValid(target) && target.objectType != [] && IsObjectMask(target.accessMask)
    requires IsSibling(target, schemaRights, c) && !IsSharedBit(target, c)
    requires RemoveRight(d, t, target, schemaRights, allow).Some?
    ensures d.Some?
    ensures Reads(RemoveRight(d, t, target, schemaRights, allow).value, t, Placed(c, target), allow)
            <==> Reads(d.value, t, Placed(c, target), allow)
  {
    var broken := BreakUpAll(d, t, Superiors(target), schemaRights, allow);
    TargetRemovalKeeps(broken, t, target, schemaRights, allow, c);
    SuperiorsUniform(target, t);
    ClassRightIsValid(schemaRights, c);
    forall s | s in Superiors(target) ensures IsNeutral(s, Placed(c, target), schemaRights) {
      SiblingIsNeutral(target, schemaRights, c, s);
    }
    BreakUpAllKeeps(d, t, Superiors(target), schemaRights, allow, Placed(c, target));
  }

  /** Nothing changes on the side that is not edited. */
  lemma {:induction false} BreakUpAllOtherSide(
      d: Dacl, t: Sid, superiors: seq<Right>, schemaRights: seq<SchemaRight>, side: bool, q: Right)
    requires IsValid(q) && Uniform(superiors, t, ScopeOf(t, q))
    requires forall s :: s in superiors ==> s.objectType == []
    requires BreakUpAll(d, t, superiors, schemaRights, side).Some?
    ensures d.Some?
    ensures Reads(BreakUpAll(d, t, superiors, schemaRights, side).value, t, q, !side) <==> Reads(d.value, t, q, !side)
    decreases |superiors|
  {
    if superiors != [] {
      var next := BreakUp(d, t, superiors[0], schemaRights, side);
      assert forall s :: s in superiors[1..] ==> s in superiors;
      BreakUpAllOtherSide(next, t, superiors[1..], schemaRights, side, q);
      var bits := MapAccessMask(q.accessMask);
      BreakUpHas(d, t, superiors[0], schemaRights, side, !side, [], bits);
      BreakUpHas(d, t, superiors[0], schemaRights, side, !side, q.objectType, bits);
      ReadsColumns(d.value, t, q, !side);
      ReadsColumns(next.value, t, q, !side);
    }
  }

  lemma RemoveObjectRightOtherSide(
      d: Dacl, t: Sid, target: Right, schemaRights: seq<SchemaRight>, allow: bool, q: Right)
    requires IsValid(target) && target.objectType != [] && IsValid(q) && ScopeOf(t, q) == ScopeOf(t, target)
    requires RemoveRight(d, t, target, schemaRights, allow).Some?
    ensures d.Some?
    ensures Reads(RemoveRight(d, t, target, schemaRights, allow).value, t, q, !allow) <==> Reads(d.value, t, q, !allow)
  {
    var broken := BreakUpAll(d, t, Superiors(target), schemaRights, allow);
    var after := RemoveRightBase(broken, t, target, allow);
    var bits := MapAccessMask(q.accessMask);
    RemoveBaseHas(broken, t, target, allow, !allow, [], bits);
    RemoveBaseHas(broken, t, target, allow, !allow, q.objectType, bits);
    ReadsColumns(broken.value, t, q, !allow);
    ReadsColumns(after.value, t, q, !allow);
    SuperiorsUniform(target, t);
    BreakUpAllOtherSide(d, t, Superiors(target), schemaRights, allow, q);
  }

  /**
   Adding an object right keeps the state of every sibling on the chosen side, and on the
   opposite side, where its superiors are broken up, keeps it with the same one exception.
   */
  lemma AddObjectRightKeepsSiblings(
      d: Dacl, t: Sid, target: Right, schemaRights: seq<SchemaRight>, allow: bool, c: Right)
    requires IsValid(target) && target.objectType != [] && IsObjectMask(target.accessMask)
    requires c in ClassRights(schemaRights) && Placed(c, target) != target
    requires AddRight(d, t, target, schemaRights, allow).Some?
    ensures d.Some?
    ensures Reads(AddRight(d, t, target, schemaRights, allow).value, t, Placed(c, target), allow)
            <==> Reads(d.value, t, Placed(c, target), allow)
    ensures IsSibling(target, schemaRights, c) && !IsSharedBit(target, c) ==>
            (Reads(AddRight(d, t, target, schemaRights, allow).value, t, Placed(c, target), !allow)
            <==> Reads(d.value, t, Placed(c, target), !allow))
  {
    var q := Placed(c, target);
    var removed := RemoveRight(d, t, target, schemaRights, !allow);
    ObjectAddIsRemoveThenAdd(d, t, target, schemaRights, allow);
    ClassRightIsValid(schemaRights, c);
    RemoveObjectRightOtherSide(d, t, target, schemaRights, !allow, q);
    AddRightBaseReads(removed, t, target, allow, q);
    if c.objectType == target.objectType {
      ClassRightShape(schemaRights, c);
      ObjectMasksAreCommon(c.accessMask);
      ObjectMasksAreCommon(target.accessMask);
      assert Disjoint(c.accessMask, target.accessMask);
    }
    if IsSibling(target, schemaRights, c) && !IsSharedBit(target, c) {
      RemoveObjectRightKeepsSiblings(d, t, target, schemaRights, !allow, c);
    }
  }

  // ---------------------------------------------------------------------------
  // Exactly when READ_CONTROL is lost.

  ghost predicate IsReading(target: Right) {
    target.accessMask == READ_PROP || target.accessMask == GENERIC_READ
  }

  ghost predicate IsWriting(target: Right) {
    target.accessMask == WRITE_PROP || target.accessMask == GENERIC_WRITE
  }

  /** The generic right that removing the target breaks up, or is, and the one it shares READ_CONTROL with. */
  ghost function BrokenGeneric(target: Right): Mask {
    if IsReading(target) then GENERIC_READ_FIXED else GENERIC_WRITE
  }

  ghost function PartnerGeneric(target: Right): Mask {
    if IsReading(target) then GENERIC_WRITE else GENERIC_READ_FIXED
  }

  /** The mask grants READ_CONTROL, and not only as part of the generic right that is broken up. */
  ghost predicate KeepsReadControl(mask: Mask, target: Right) {
    && BitmaskIsSet(mask, READ_CONTROL)
    && (BitmaskIsSet(mask, BrokenGeneric(target)) ==> BitmaskIsSet(mask, PartnerGeneric(target)))
  }

  ghost predicate SomeKeeps(masks: seq<Mask>, target: Right) {
    exists k :: k in masks && KeepsReadControl(k, target)
  }

  lemma GenericRemovalReadControl(masks: seq<Mask>, target: Right)
    requires IsReading(target) || IsWriting(target)
    ensures Has(RemoveMask(masks, BrokenGeneric(target)), READ_CONTROL) <==> SomeKeeps(masks, target)
  {
    RemoveMaskHas(masks, BrokenGeneric(target), READ_CONTROL);
    forall k | k in masks
      ensures BitmaskIsSet(Edited(k, BrokenGeneric(target)), READ_CONTROL) <==> KeepsReadControl(k, target)
    {
      assert 17 in READ_CONTROL && 17 in BrokenGeneric(target);
    }
  }

  /** Breaking up the generic right keeps READ_CONTROL exactly when some mask keeps it. */
  lemma BreakUpGenericReadControl(
      d: Dacl, t: Sid, superior: Right, target: Right, schemaRights: seq<SchemaRight>, side: bool)
    requires IsValid(superior) && superior.objectType == [] &&
            MapAccessMask(superior.accessMask) == BrokenGeneric(target)
    requires superior.accessMask == GENERIC_READ || superior.accessMask == GENERIC_WRITE
    requires IsReading(target) || IsWriting(target)
    requires BreakUp(d, t, superior, schemaRights, side).Some?
    ensures d.Some?
    ensures ColumnHas(BreakUp(d, t, superior, schemaRights, side), ScopeOf(t, superior), side, [], READ_CONTROL)
            <==> SomeKeeps(Masks(d.value, ScopeOf(t, superior), side, []), target)
  {
    var scope := ScopeOf(t, superior);
    var before := Masks(d.value, scope, side, []);
    ReadsColumns(d.value, t, superior, side);
    if Reads(d.value, t, superior, side) {
      var removed, subs := RemoveRightBase(d, t, superior, side), Subordinates(superior, schemaRights);
      NullStaysNull(t, subs, side);
      SubordinatesUniform(superior, schemaRights, t);
      RemoveColumn(d.value, t, superior, side, side, []);
      GenericRemovalReadControl(before, target);
      AddAllHas(removed, t, subs, side, scope, side, [], READ_CONTROL);
      forall s | s in subs ensures Disjoint(MapAccessMask(s.accessMask), READ_CONTROL) {
        var c := SubordinateOrigin(superior, schemaRights, s);
      }
    } else {
      assert forall k :: k in before ==> !BitmaskIsSet(k, BrokenGeneric(target));
    }
  }

  /** Breaking up full control keeps the condition too: the ACE that gets the subordinates has both generic rights. */
  lemma BreakUpAllRightsKeeps(
      d: Dacl, t: Sid, superior: Right, target: Right, schemaRights: seq<SchemaRight>, side: bool)
    requires IsValid(superior) && superior.objectType == [] && superior.accessMask == GENERIC_ALL
    requires IsReading(target) || IsWriting(target)
    requires BreakUp(d, t, superior, schemaRights, side).Some?
    ensures d.Some?
    ensures SomeKeeps(Masks(BreakUp(d, t, superior, schemaRights, side).value, ScopeOf(t, superior), side, []), target)
            <==> SomeKeeps(Masks(d.value, ScopeOf(t, superior), side, []), target)
  {
    var scope, partner := ScopeOf(t, superior), PartnerGeneric(target);
    var i := if IsReading(target) then 2 else 1;
    var common := Right(COMMON_RIGHTS[i], [], [], {});
    var after := BreakUp(d, t, superior, schemaRights, side);
    CommonIsClassRight(schemaRights, i);
    SubordinateMember(superior, schemaRights, common);
    assert MapAccessMask(Placed(common, superior).accessMask) == partner;
    BreakUpHas(d, t, superior, schemaRights, side, side, [], partner);
    if Reads(d.value, t, superior, side) {
      assert Listed(Subordinates(superior, schemaRights), [], partner);
      PartnerKeeps(Masks(after.value, scope, side, []), partner, target);
      ReadsColumns(d.value, t, superior, side);
      PartnerInAll(target);
      PartnerKeeps(Masks(d.value, scope, side, []), GENERIC_ALL, target);
    }
  }

  lemma PartnerInAll(target: Right)
    ensures PartnerGeneric(target) <= GENERIC_ALL
  {
  }

  lemma PartnerKeeps(masks: seq<Mask>, bits: Mask, target: Right)
    requires Has(masks, bits) && PartnerGeneric(target) <= bits
    ensures SomeKeeps(masks, target)
  {
    var k :| k in masks && BitmaskIsSet(k, bits);
    assert 17 in PartnerGeneric(target);
    assert KeepsReadControl(k, target);
  }

  /**
   After removing a property right, READ_CONTROL is still set exactly when some ACE without
   object type granted it otherwise than as part of a lone generic right.
   */
  lemma ReadControlExactly(d: Dacl, t: Sid, target: Right, schemaRights: seq<SchemaRight>, allow: bool)
    requires IsValid(target) && target.objectType != []
    requires target.accessMask == READ_PROP || target.accessMask == WRITE_PROP
    requires RemoveRight(d, t, target, schemaRights, allow).Some?
    ensures d.Some?
    ensures var readControl := Right(READ_CONTROL, [], target.inheritedType, target.flags);
            Reads(RemoveRight(d, t, target, schemaRights, allow).value, t, readControl, allow)
            <==> exists i :: 0 <= i < |d.value| && StrictMatch(d.value[i], t, readControl, allow)
                             && KeepsReadControl(d.value[i].accessMask, target)
  {
    var scope := ScopeOf(t, target);
    var readControl := Right(READ_CONTROL, [], target.inheritedType, target.flags);
    var sups := Superiors(target);
    var d1 := BreakUp(d, t, sups[0], schemaRights, allow);
    var d2 := BreakUp(d1, t, sups[1], schemaRights, allow);
    var d3 := BreakUp(d2, t, sups[2], schemaRights, allow);
    assert BreakUpAll(d, t, sups, schemaRights, allow) == d3 by {
      assert sups[1..] == [sups[1], sups[2]] && sups[1..][1..] == [sups[2]];
      assert BreakUpAll(d2, t, [sups[2]], schemaRights, allow) == d3;
      assert BreakUpAll(d1, t, [sups[1], sups[2]], schemaRights, allow) == d3;
    }
    var after := RemoveRightBase(d3, t, target, allow);
    RemoveBaseHas(d3, t, target, allow, allow, [], READ_CONTROL);
    ReadsColumns(after.value, t, readControl, allow);
    BreakUpHas(d2, t, sups[2], schemaRights, allow, allow, [], READ_CONTROL);
    SubordinatesSpare(sups[2], schemaRights, [], READ_CONTROL);
    BreakUpGenericReadControl(d1, t, sups[1], target, schemaRights, allow);
    BreakUpAllRightsKeeps(d, t, sups[0], target, schemaRights, allow);
    SomeKeepsMeaning(d.value, t, readControl, target, allow);
  }

  lemma {:induction false} SomeKeepsMeaning(aces: seq<Ace>, t: Sid, readControl: Right, target: Right, allow: bool)
    requires IsEditable(readControl) && readControl.objectType == []
    ensures SomeKeeps(Masks(aces, ScopeOf(t, readControl), allow, []), target)
            <==> exists i :: 0 <= i < |aces| && StrictMatch(aces[i], t, readControl, allow) &&
                             KeepsReadControl(aces[i].accessMask, target)
  {
    if aces != [] {
      var scope := ScopeOf(t, readControl);
      var rest := aces[1..];
      SomeKeepsMeaning(rest, t, readControl, target, allow);
      StrictMatchIsKeyed(aces[0], t, readControl, allow, allow, []);
      assert aces == [aces[0]] + rest;
      assert forall i :: 0 < i < |aces| ==> aces[i] == rest[i - 1];
    }
  }
}
