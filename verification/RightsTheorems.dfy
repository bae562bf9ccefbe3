/** What the permission check list shows after a complete add or remove. */
module RightsTheorems {
  import opened Primitives
  import opened Aces
  import opened RightsEditor
  import opened Columns
  import opened RightsProofs

  /** Rights whose superiors the editor knows: all rights without object type, and the five kinds of object rights. */
  ghost predicate IsListed(right: Right) {
    IsValid(right) && (right.objectType == [] || IsObjectMask(right.accessMask))
  }

  // ---------------------------------------------------------------------------
  // Breaking up one superior.

  lemma BreakUpHas(
      d: Dacl, t: Sid, superior: Right, schemaRights: seq<SchemaRight>, allow: bool,
      side: bool, key: OptionalGuid, bits: Mask)
    requires IsValid(superior) && superior.objectType == [] && bits != {}
    requires BreakUp(d, t, superior, schemaRights, allow).Some?
    ensures d.Some?
    ensures var scope, subs := ScopeOf(t, superior), Subordinates(superior, schemaRights);
            var mask, after := MapAccessMask(superior.accessMask), BreakUp(d, t, superior, schemaRights, allow);
            if side != allow || !Reads(d.value, t, superior, allow) then
              Masks(after.value, scope, side, key) == Masks(d.value, scope, side, key)
            else
              && (Listed(subs, key, bits) ==> ColumnHas(after, scope, side, key, bits))
              && ((key != [] || Spares(mask, bits)) && ColumnHas(d, scope, side, key, bits) ==>
                  ColumnHas(after, scope, side, key, bits))
              && (ListSpares(subs, key, bits) && ColumnHas(after, scope, side, key, bits) ==>
                  ColumnHas(d, scope, side, key, bits))
              && (ListSpares(subs, key, bits) && key == [] && bits == mask ==>
                  !ColumnHas(after, scope, side, key, bits))
  {
    if Reads(d.value, t, superior, allow) {
      var removed := RemoveRightBase(d, t, superior, allow);
      var subs := Subordinates(superior, schemaRights);
      SubordinatesUniform(superior, schemaRights, t);
      NullStaysNull(t, subs, allow);
      RemoveBaseHas(d, t, superior, allow, side, key, bits);
      AddAllHas(removed, t, subs, allow, ScopeOf(t, superior), side, key, bits);
    }
  }

  lemma {:induction false} BreakUpAllSnoc(
      d: Dacl, t: Sid, superiors: seq<Right>, last: Right, schemaRights: seq<SchemaRight>, allow: bool)
    ensures BreakUpAll(d, t, superiors + [last], schemaRights, allow)
            == BreakUp(BreakUpAll(d, t, superiors, schemaRights, allow), t, last, schemaRights, allow)
    decreases |superiors|
  {
    if superiors == [] {
      assert superiors + [last] == [last];
    } else {
      assert (superiors + [last])[1..] == superiors[1..] + [last];
      BreakUpAllSnoc(BreakUp(d, t, superiors[0], schemaRights, allow), t, superiors[1..], last, schemaRights, allow);
    }
  }

  /** The last superior of an object right is the same right over all objects. */
  lemma LastSuperior(right: Right) returns (first: seq<Right>)
    requires right.objectType != [] && IsObjectMask(right.accessMask)
    ensures Superiors(right) == first + [right.(objectType := [])]
  {
    var n := |Superiors(right)|;
    first := Superiors(right)[..n - 1];
  }

  /** Once its superiors are broken up, an object right is no longer granted by an ACE without object type. */
  lemma BrokenUp(d: Dacl, t: Sid, right: Right, schemaRights: seq<SchemaRight>, allow: bool)
    requires IsValid(right) && right.objectType != [] && IsObjectMask(right.accessMask)
    requires BreakUpAll(d, t, Superiors(right), schemaRights, allow).Some?
    ensures !ColumnHas(BreakUpAll(d, t, Superiors(right), schemaRights, allow), ScopeOf(t, right), allow, [],
            right.accessMask)
  {
    var first := LastSuperior(right);
    var last := right.(objectType := []);
    BreakUpAllSnoc(d, t, first, last, schemaRights, allow);
    var before := BreakUpAll(d, t, first, schemaRights, allow);
    BreakUpHas(before, t, last, schemaRights, allow, allow, [], right.accessMask);
    ReadsColumns(before.value, t, last, allow);
    forall s | s in Subordinates(last, schemaRights) ensures s.objectType != [] {
      var c := SubordinateOrigin(last, schemaRights, s);
    }
  }

  lemma {:induction false} BreakUpAllSome(
      d: Dacl, t: Sid, superiors: seq<Right>, schemaRights: seq<SchemaRight>, allow: bool)
    requires d.None?
    ensures BreakUpAll(d, t, superiors, schemaRights, allow).None?
    decreases |superiors|
  {
    if superiors != [] {
      BreakUpAllSome(d, t, superiors[1..], schemaRights, allow);
    }
  }

  // ---------------------------------------------------------------------------
  // Clearing a right and its subordinates on one side: the tail of both operations.

  ghost function Clear(d: Dacl, t: Sid, right: Right, schemaRights: seq<SchemaRight>, side: bool): Dacl {
    RemoveAll(RemoveRightBase(d, t, right, side), t, Subordinates(right, schemaRights), side)
  }

  lemma ClearColumn(
      d: Dacl, t: Sid, right: Right, schemaRights: seq<SchemaRight>, side: bool, key: OptionalGuid, bits: Mask)
    requires IsValid(right) && bits != {} && Clear(d, t, right, schemaRights, side).Some?
    ensures d.Some?
    ensures var scope, after := ScopeOf(t, right), Clear(d, t, right, schemaRights, side);
            && (ColumnHas(after, scope, side, key, bits) ==> ColumnHas(d, scope, side, key, bits))
            && (key == right.objectType && bits == MapAccessMask(right.accessMask) ==>
                !ColumnHas(after, scope, side, key, bits))
            && (Listed(Subordinates(right, schemaRights), key, bits) ==> !ColumnHas(after, scope, side, key, bits))
  {
    var subs := Subordinates(right, schemaRights);
    SubordinatesUniform(right, schemaRights, t);
    NullStaysNull(t, subs, side);
    RemoveAllHas(RemoveRightBase(d, t, right, side), t, subs, side, ScopeOf(t, right), side, key, bits);
    RemoveBaseHas(d, t, right, side, side, key, bits);
  }

  /** A subordinate over one object type is, as a mask over all objects, the right itself or a subordinate too. */
  lemma SubordinateOverAll(right: Right, schemaRights: seq<SchemaRight>, s: Right)
    requires IsValid(right) && s in Subordinates(right, schemaRights) && s.objectType != []
    ensures IsObjectMask(s.accessMask)
    ensures s.accessMask == MapAccessMask(right.accessMask) || s.(objectType := []) in Subordinates(right, schemaRights)
  {
    var c := SubordinateOrigin(right, schemaRights, s);
    ClassRightShape(schemaRights, c);
    var i := ObjectMaskIndex(c.accessMask);
    CommonIsClassRight(schemaRights, i);
    if s.accessMask != right.accessMask {
      SubordinateMember(right, schemaRights, Right(c.accessMask, [], [], {}));
    }
  }

  lemma ObjectMaskIndex(mask: Mask) returns (i: nat)
    requires IsObjectMask(mask)
    ensures i < |COMMON_RIGHTS| && COMMON_RIGHTS[i] == mask
  {
    i := if mask == READ_PROP then 4 else if mask == WRITE_PROP then 5
         else if mask == CONTROL_ACCESS then 12 else if mask == CREATE_CHILD then 13 else 14;
  }

  lemma ClearUnsets(d: Dacl, t: Sid, right: Right, schemaRights: seq<SchemaRight>, side: bool, q: Right)
    requires IsListed(right) && Clear(d, t, right, schemaRights, side).Some?
    requires right.objectType != [] ==> d.Some? ==> !ColumnHas(d, ScopeOf(t, right), side, [], right.accessMask)
    requires q == right || q in Subordinates(right, schemaRights)
    ensures !Reads(Clear(d, t, right, schemaRights, side).value, t, q, side)
  {
    var after := Clear(d, t, right, schemaRights, side);
    var bits := MapAccessMask(q.accessMask);
    SubordinatesUniform(right, schemaRights, t);
    ClearColumn(d, t, right, schemaRights, side, q.objectType, bits);
    ClearColumn(d, t, right, schemaRights, side, [], bits);
    if q != right && q.objectType != [] {
      SubordinateOverAll(right, schemaRights, q);
      if q.accessMask != MapAccessMask(right.accessMask) {
        assert Listed(Subordinates(right, schemaRights), [], bits) by {
          assert q.(objectType := []) in Subordinates(right, schemaRights);
        }
      }
    }
    ReadsColumns(after.value, t, q, side);
  }

  // ---------------------------------------------------------------------------
  // Main results on the removed right and on the added right.

  /** After a complete remove neither the right nor any subordinate is set on that side, whatever the DACL was. */
  lemma RemoveRightUnsets(d: Dacl, t: Sid, right: Right, schemaRights: seq<SchemaRight>, allow: bool, q: Right)
    requires IsListed(right) && RemoveRight(d, t, right, schemaRights, allow).Some?
    requires q == right || q in Subordinates(right, schemaRights)
    ensures !Reads(RemoveRight(d, t, right, schemaRights, allow).value, t, q, allow)
  {
    var broken := BreakUpAll(d, t, Superiors(right), schemaRights, allow);
    if right.objectType != [] && broken.Some? {
      BrokenUp(d, t, right, schemaRights, allow);
    }
    ClearUnsets(broken, t, right, schemaRights, allow, q);
  }

  /** ... and no superior is set either. */
  lemma RemoveRightUnsetsSuperiors(d: Dacl, t: Sid, right: Right, schemaRights: seq<SchemaRight>, allow: bool, q: Right)
    requires IsListed(right) && RemoveRight(d, t, right, schemaRights, allow).Some?
    requires q in Superiors(right)
    ensures !Reads(RemoveRight(d, t, right, schemaRights, allow).value, t, q, allow)
  {
    var after := RemoveRight(d, t, right, schemaRights, allow).value;
    var bits := MapAccessMask(right.accessMask);
    RemoveRightUnsets(d, t, right, schemaRights, allow, right);
    ReadsColumns(after, t, right, allow);
    ReadsColumns(after, t, q, allow);
    assert MapAccessMask(q.accessMask) >= bits;
    HasMore(Masks(after, ScopeOf(t, right), allow, []), MapAccessMask(q.accessMask), bits);
  }

  lemma HasMore(masks: seq<Mask>, more: Mask, bits: Mask)
    requires bits <= more
    ensures Has(masks, more) ==> Has(masks, bits)
  {
    if k :| k in masks && BitmaskIsSet(k, more) {
      assert BitmaskIsSet(k, bits);
    }
  }

  lemma SubordinateMaskWithin(right: Right, schemaRights: seq<SchemaRight>, s: Right)
    requires s in Subordinates(right, schemaRights)
    ensures MapAccessMask(s.accessMask) <= MapAccessMask(right.accessMask)
  {
    var c := SubordinateOrigin(right, schemaRights, s);
    if right.accessMask == GENERIC_ALL {
      ClassRightShape(schemaRights, c);
      if !IsObjectMask(c.accessMask) { CommonMaskShape(c.accessMask); }
    }
  }

  /**
   After a complete add the right and all its subordinates are set on the chosen side and
   not set on the opposite side, whatever the DACL was.
   */
  lemma AddRightSets(d: Dacl, t: Sid, right: Right, schemaRights: seq<SchemaRight>, allow: bool, q: Right)
    requires IsListed(right) && AddRight(d, t, right, schemaRights, allow).Some?
    requires q == right || q in Subordinates(right, schemaRights)
    ensures Reads(AddRight(d, t, right, schemaRights, allow).value, t, q, allow)
    ensures !Reads(AddRight(d, t, right, schemaRights, allow).value, t, q, !allow)
  {
    var scope, subs := ScopeOf(t, right), Subordinates(right, schemaRights);
    var broken := BreakUpAll(d, t, Superiors(right), schemaRights, !allow);
    var cleared := RemoveAll(broken, t, subs, allow);
    var opposed := Clear(cleared, t, right, schemaRights, !allow);
    var after := AddRight(d, t, right, schemaRights, allow);
    var bits := MapAccessMask(q.accessMask);
    SubordinatesUniform(right, schemaRights, t);
    assert right.objectType != [] && cleared.Some? ==> !ColumnHas(cleared, scope, !allow, [], right.accessMask) by {
      if right.objectType != [] && cleared.Some? {
        BrokenUp(d, t, right, schemaRights, !allow);
      }
    }
    ClearUnsets(cleared, t, right, schemaRights, !allow, q);
    AddRightBaseReads(opposed, t, right, allow, q);
    if q != right {
      SubordinateMaskWithin(right, schemaRights, q);
    }
  }

  ghost predicate Grants(right: Right, q: Right) {
    && MapAccessMask(q.accessMask) <= MapAccessMask(right.accessMask)
    && (right.objectType == [] || right.objectType == q.objectType)
  }

  ghost predicate IsUnrelated(right: Right, q: Right) {
    || Disjoint(MapAccessMask(q.accessMask), MapAccessMask(right.accessMask))
    || (right.objectType != [] && right.objectType != q.objectType)
  }

  /** A base addition sets what its mask contains and leaves the opposite side alone. */
  lemma AddRightBaseReads(d: Dacl, t: Sid, right: Right, allow: bool, q: Right)
    requires d.Some? && IsValid(right) && IsValid(q) && ScopeOf(t, q) == ScopeOf(t, right)
    ensures var after := AddRightBase(d, t, right, allow).value;
            && (Reads(after, t, q, !allow) <==> Reads(d.value, t, q, !allow))
            && (Grants(right, q) ==> Reads(after, t, q, allow))
            && (IsUnrelated(right, q) ==> (Reads(after, t, q, allow) <==> Reads(d.value, t, q, allow)))
  {
    var after := AddRightBase(d, t, right, allow);
    var bits := MapAccessMask(q.accessMask);
    AddBaseHas(d, t, right, allow, !allow, [], bits);
    AddBaseHas(d, t, right, allow, !allow, q.objectType, bits);
    AddBaseHas(d, t, right, allow, allow, [], bits);
    AddBaseHas(d, t, right, allow, allow, q.objectType, bits);
    ReadsColumns(d.value, t, q, allow);
    ReadsColumns(d.value, t, q, !allow);
    ReadsColumns(after.value, t, q, allow);
    ReadsColumns(after.value, t, q, !allow);
    assert bits * MapAccessMask(right.accessMask) == MapAccessMask(right.accessMask) * bits;
  }

  // ---------------------------------------------------------------------------
  // Object rights outside the five known kinds: exactly when the results above fail.

  /**
   An object right of another kind has no superiors, so it is still shown as set on the
   side it was removed from exactly when an ACE without object type grants its mask there.
   */
  lemma RemoveUnlistedRightExactly(d: Dacl, t: Sid, right: Right, schemaRights: seq<SchemaRight>, allow: bool)
    requires IsValid(right) && right.objectType != [] && !IsObjectMask(right.accessMask)
    requires RemoveRight(d, t, right, schemaRights, allow).Some?
    ensures d.Some?
    ensures Reads(RemoveRight(d, t, right, schemaRights, allow).value, t, right, allow)
            <==> Reads(d.value, t, right.(objectType := []), allow)
  {
    var scope, bits := ScopeOf(t, right), MapAccessMask(right.accessMask);
    RemoveBaseHas(d, t, right, allow, allow, [], bits);
    RemoveBaseHas(d, t, right, allow, allow, right.objectType, bits);
    ReadsColumns(RemoveRight(d, t, right, schemaRights, allow).value, t, right, allow);
    ReadsColumns(d.value, t, right.(objectType := []), allow);
  }

  lemma AddUnlistedRightExactly(d: Dacl, t: Sid, right: Right, schemaRights: seq<SchemaRight>, allow: bool)
    requires IsValid(right) && right.objectType != [] && !IsObjectMask(right.accessMask)
    requires AddRight(d, t, right, schemaRights, allow).Some?
    ensures d.Some?
    ensures Reads(AddRight(d, t, right, schemaRights, allow).value, t, right, !allow)
            <==> Reads(d.value, t, right.(objectType := []), !allow)
  {
    ObjectAddIsRemoveThenAdd(d, t, right, schemaRights, allow);
    RemoveUnlistedRightExactly(d, t, right, schemaRights, !allow);
    AddRightBaseReads(RemoveRight(d, t, right, schemaRights, !allow), t, right, allow, right);
  }

  /** Adding an object right is removing it from the opposite side and adding it to one ACE. */
  lemma ObjectAddIsRemoveThenAdd(d: Dacl, t: Sid, right: Right, schemaRights: seq<SchemaRight>, allow: bool)
    requires right.objectType != []
    ensures AddRight(d, t, right, schemaRights, allow)
            == AddRightBase(RemoveRight(d, t, right, schemaRights, !allow), t, right, allow)
  {
  }

  // ---------------------------------------------------------------------------
  // The two lists are about the same relation.

  /**
   For the rights that have superiors at all, object rights and the two generic rights,
   a right of the class is a superior exactly when it has them as a subordinate.
   */
  lemma SuperiorsAreDual(schemaRights: seq<SchemaRight>, c: Right, base: Right, m: Mask)
    requires c in ClassRights(schemaRights) && m in COMMON_RIGHTS
    requires c.objectType != [] || c.accessMask == GENERIC_READ || c.accessMask == GENERIC_WRITE
    ensures var s := Right(m, [], base.inheritedType, base.flags);
            s in Superiors(Placed(c, base)) <==> Placed(c, base) in Subordinates(s, schemaRights)
  {
    var q, s := Placed(c, base), Right(m, [], base.inheritedType, base.flags);
    ClassRightShape(schemaRights, c);
    if q in Subordinates(s, schemaRights) {
      var origin := SubordinateOrigin(s, schemaRights, q);
      MatchMeansSuperior(m, c);
    }
    if s in Superiors(q) {
      MatchMeansSuperior(m, c);
      SubordinateMember(s, schemaRights, c);
    }
  }

  /** The subordinate test, read off the list of superiors. */
  lemma MatchMeansSuperior(m: Mask, c: Right)
    requires m in COMMON_RIGHTS
    requires (c.objectType != [] && IsObjectMask(c.accessMask)) ||
             (c.objectType == [] && (c.accessMask == GENERIC_READ || c.accessMask == GENERIC_WRITE))
    ensures IsSubordinateMatch(m, c) <==> Right(m, [], c.inheritedType, c.flags) in Superiors(c)
  {
  }
}
