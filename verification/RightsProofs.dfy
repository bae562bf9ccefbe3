/** How the loops of the rights editor change columns, and which rights its lists contain. */
module RightsProofs {
  import opened Primitives
  import opened Aces
  import opened RightsEditor
  import opened Columns

  ghost predicate IsValid(right: Right) {
    IsEditable(right) && right.accessMask != {}
  }

  /** All rights belong to one scope, as the superiors and subordinates of a right do. */
  ghost predicate Uniform(rights: seq<Right>, t: Sid, scope: Scope) {
    forall r :: r in rights ==> IsValid(r) && ScopeOf(t, r) == scope
  }

  ghost predicate Disjoint(a: Mask, b: Mask) {
    a * b == {}
  }

  /** Unsetting a right cannot take bits away from another one: no shared bits, or the generic read and write pair. */
  ghost predicate Spares(removed: Mask, bits: Mask) {
    || Disjoint(removed, bits)
    || (removed == GENERIC_READ_FIXED && bits == GENERIC_WRITE)
    || (removed == GENERIC_WRITE && bits == GENERIC_READ_FIXED)
  }

  ghost predicate ColumnHas(dacl: Dacl, scope: Scope, allow: bool, key: OptionalGuid, bits: Mask)
    requires dacl.Some?
  {
    Has(Masks(dacl.value, scope, allow, key), bits)
  }

  lemma ReadsColumns(aces: seq<Ace>, t: Sid, right: Right, allow: bool)
    requires IsEditable(right)
    ensures var scope, bits := ScopeOf(t, right), MapAccessMask(right.accessMask);
            Reads(aces, t, right, allow)
            <==> ColumnHas(Some(aces), scope, allow, [], bits) ||
                 ColumnHas(Some(aces), scope, allow, right.objectType, bits)
  {
    ReadsMeaning(aces, t, right, allow);
  }

  // ---------------------------------------------------------------------------
  // Single bit facts.

  lemma EditedShrinks(k: Mask, mask: Mask, bits: Mask)
    ensures BitmaskIsSet(Edited(k, mask), bits) ==> BitmaskIsSet(k, bits)
  {
  }

  lemma EditedLoses(k: Mask, mask: Mask)
    requires mask != {}
    ensures !BitmaskIsSet(Edited(k, mask), mask)
  {
    if BitmaskIsSet(k, mask) {
      if mask == GENERIC_READ_FIXED || mask == GENERIC_WRITE {
        assert 4 in GENERIC_READ_FIXED && 4 !in READ_CONTROL;
        assert 5 in GENERIC_WRITE && 5 !in READ_CONTROL;
      } else {
        var b :| b in mask;
        assert b !in UnsetMask(k, mask);
      }
    }
  }

  lemma EditedSpares(k: Mask, mask: Mask, bits: Mask)
    requires Spares(mask, bits) && BitmaskIsSet(k, bits)
    ensures BitmaskIsSet(Edited(k, mask), bits)
  {
    if Disjoint(mask, bits) {
      forall b | b in bits ensures b in Edited(k, mask) {
        assert b in mask ==> b in mask * bits;
      }
    }
  }

  // ---------------------------------------------------------------------------
  // One removal, one addition.

  lemma RemoveBaseHas(d: Dacl, t: Sid, right: Right, allow: bool, side: bool, key: OptionalGuid, bits: Mask)
    requires IsValid(right) && bits != {} && RemoveRightBase(d, t, right, allow).Some?
    ensures d.Some?
    ensures var scope, mask, after := ScopeOf(t, right), MapAccessMask(right.accessMask),
            RemoveRightBase(d, t, right, allow);
            if side == allow && key == right.objectType then
              && (ColumnHas(after, scope, side, key, bits) ==> ColumnHas(d, scope, side, key, bits))
              && (bits == mask ==> !ColumnHas(after, scope, side, key, bits))
              && (Spares(mask, bits) && ColumnHas(d, scope, side, key, bits) ==>
                  ColumnHas(after, scope, side, key, bits))
            else
              Masks(after.value, scope, side, key) == Masks(d.value, scope, side, key)
  {
    var scope, mask := ScopeOf(t, right), MapAccessMask(right.accessMask);
    RemoveColumn(d.value, t, right, allow, side, key);
    var before := Masks(d.value, scope, side, key);
    RemoveMaskHas(before, mask, bits);
    forall k | k in before
      ensures BitmaskIsSet(Edited(k, mask), bits) ==> BitmaskIsSet(k, bits)
      ensures bits == mask ==> !BitmaskIsSet(Edited(k, mask), bits)
      ensures Spares(mask, bits) && BitmaskIsSet(k, bits) ==> BitmaskIsSet(Edited(k, mask), bits)
    {
      EditedShrinks(k, mask, bits);
      if bits == mask { EditedLoses(k, mask); }
      if Spares(mask, bits) && BitmaskIsSet(k, bits) { EditedSpares(k, mask, bits); }
    }
  }

  lemma AddBaseHas(d: Dacl, t: Sid, right: Right, allow: bool, side: bool, key: OptionalGuid, bits: Mask)
    requires IsValid(right) && bits != {} && d.Some?
    ensures var scope, mask, after := ScopeOf(t, right), MapAccessMask(right.accessMask),
            AddRightBase(d, t, right, allow);
            if side == allow && key == right.objectType then
              && (ColumnHas(d, scope, side, key, bits) ==> ColumnHas(after, scope, side, key, bits))
              && (bits <= mask ==> ColumnHas(after, scope, side, key, bits))
              && (Disjoint(mask, bits) && ColumnHas(after, scope, side, key, bits) ==>
                  ColumnHas(d, scope, side, key, bits))
            else
              Masks(after.value, scope, side, key) == Masks(d.value, scope, side, key)
  {
    var scope, mask := ScopeOf(t, right), MapAccessMask(right.accessMask);
    AddColumn(d.value, t, right, allow, side, key);
    var before := Masks(d.value, scope, side, key);
    AddMaskHas(before, mask, bits);
    if k :| k in AddMask(before, mask) && BitmaskIsSet(k, mask) && bits <= mask {
      assert BitmaskIsSet(k, bits);
    }
  }

  // ---------------------------------------------------------------------------
  // The loops.

  lemma NullStaysNull(t: Sid, rights: seq<Right>, allow: bool)
    ensures RemoveAll(None, t, rights, allow) == None
    ensures AddAll(None, t, rights, allow) == None
  {
  }

  ghost predicate Listed(rights: seq<Right>, key: OptionalGuid, bits: Mask) {
    exists r :: r in rights && r.objectType == key && MapAccessMask(r.accessMask) == bits
  }

  ghost predicate ListSpares(rights: seq<Right>, key: OptionalGuid, bits: Mask) {
    forall r :: r in rights && r.objectType == key ==> Disjoint(MapAccessMask(r.accessMask), bits)
  }

  lemma {:induction false} RemoveAllHas(
      d: Dacl, t: Sid, rights: seq<Right>, allow: bool, scope: Scope, side: bool, key: OptionalGuid, bits: Mask)
    requires RemoveAll(d, t, rights, allow).Some? && Uniform(rights, t, scope) && bits != {}
    ensures d.Some?
    ensures var after := RemoveAll(d, t, rights, allow);
            if side == allow then
              && (ColumnHas(after, scope, side, key, bits) ==> ColumnHas(d, scope, side, key, bits))
              && (Listed(rights, key, bits) ==> !ColumnHas(after, scope, side, key, bits))
              && (ListSpares(rights, key, bits) && ColumnHas(d, scope, side, key, bits) ==>
                  ColumnHas(after, scope, side, key, bits))
            else
              Masks(after.value, scope, side, key) == Masks(d.value, scope, side, key)
    decreases |rights|
  {
    if rights != [] {
      var first, rest := rights[0], rights[1..];
      assert rights == [first] + rest;
      RemoveAllHas(RemoveRightBase(d, t, first, allow), t, rest, allow, scope, side, key, bits);
      RemoveBaseHas(d, t, first, allow, side, key, bits);
      assert Listed(rights, key, bits) ==>
          (first.objectType == key && MapAccessMask(first.accessMask) == bits) || Listed(rest, key, bits);
    }
  }

  lemma {:induction false} AddAllHas(
      d: Dacl, t: Sid, rights: seq<Right>, allow: bool, scope: Scope, side: bool, key: OptionalGuid, bits: Mask)
    requires d.Some? && Uniform(rights, t, scope) && bits != {}
    ensures AddAll(d, t, rights, allow).Some?
    ensures var after := AddAll(d, t, rights, allow);
            if side == allow then
              && (ColumnHas(d, scope, side, key, bits) ==> ColumnHas(after, scope, side, key, bits))
              && (Listed(rights, key, bits) ==> ColumnHas(after, scope, side, key, bits))
              && (ListSpares(rights, key, bits) && ColumnHas(after, scope, side, key, bits) ==>
                  ColumnHas(d, scope, side, key, bits))
            else
              Masks(after.value, scope, side, key) == Masks(d.value, scope, side, key)
    decreases |rights|
  {
    if rights != [] {
      var first, rest := rights[0], rights[1..];
      assert rights == [first] + rest;
      AddAllHas(AddRightBase(d, t, first, allow), t, rest, allow, scope, side, key, bits);
      AddBaseHas(d, t, first, allow, side, key, bits);
      assert Listed(rights, key, bits) ==>
          (first.objectType == key && MapAccessMask(first.accessMask) == bits) || Listed(rest, key, bits);
    }
  }

  // ---------------------------------------------------------------------------
  // Which rights the lists contain.

  /** A class right moved to the scope of another right. */
  ghost function Placed(classRight: Right, right: Right): Right {
    Right(classRight.accessMask, classRight.objectType, right.inheritedType, right.flags)
  }

  lemma {:induction false} SubordinatesAmongMembers(right: Right, classRights: seq<Right>, s: Right)
    ensures s in SubordinatesAmong(right, classRights)
            <==> exists c :: c in classRights && IsSubordinateMatch(right.accessMask, c) && s == Placed(c, right)
  {
    if classRights != [] {
      SubordinatesAmongMembers(right, classRights[1..], s);
      assert classRights == [classRights[0]] + classRights[1..];
    }
  }

  lemma ClassRightShape(schemaRights: seq<SchemaRight>, c: Right)
    requires c in ClassRights(schemaRights)
    ensures IsObjectMask(c.accessMask) || (c.objectType == [] && c.accessMask in COMMON_RIGHTS)
  {
    var common := CommonRights();
    if c in common {
      var i :| 0 <= i < |common| && common[i] == c;
      assert c.accessMask == COMMON_RIGHTS[i];
    } else {
      assert c in schemaRights;
      assert COMMON_RIGHTS[0] == GENERIC_ALL;
    }
  }

  lemma CommonIsClassRight(schemaRights: seq<SchemaRight>, i: nat)
    requires i < |COMMON_RIGHTS|
    ensures Right(COMMON_RIGHTS[i], [], [], {}) in ClassRights(schemaRights)
  {
    assert ClassRights(schemaRights)[i] == Right(COMMON_RIGHTS[i], [], [], {});
  }

  lemma CommonMaskShape(mask: Mask)
    requires mask in COMMON_RIGHTS
    ensures mask != {} && mask <= GENERIC_ALL && MapAccessMask(mask) != {} && MapAccessMask(mask) <= GENERIC_ALL
  {
  }

  lemma ClassRightIsValid(schemaRights: seq<SchemaRight>, c: Right)
    requires c in ClassRights(schemaRights)
    ensures c.accessMask != {}
  {
    ClassRightShape(schemaRights, c);
    if !IsObjectMask(c.accessMask) { CommonMaskShape(c.accessMask); }
  }

  lemma SubordinatesUniform(right: Right, schemaRights: seq<SchemaRight>, t: Sid)
    requires IsEditable(right)
    ensures Uniform(Subordinates(right, schemaRights), t, ScopeOf(t, right))
  {
    forall s | s in Subordinates(right, schemaRights)
      ensures IsValid(s) && ScopeOf(t, s) == ScopeOf(t, right)
    {
      var c := SubordinateOrigin(right, schemaRights, s);
      ClassRightIsValid(schemaRights, c);
    }
  }

  lemma SubordinateOrigin(right: Right, schemaRights: seq<SchemaRight>, s: Right) returns (c: Right)
    requires s in Subordinates(right, schemaRights)
    ensures c in ClassRights(schemaRights) && IsSubordinateMatch(right.accessMask, c) && s == Placed(c, right)
  {
    SubordinatesAmongMembers(right, ClassRights(schemaRights), s);
    c :| c in ClassRights(schemaRights) && IsSubordinateMatch(right.accessMask, c) && s == Placed(c, right);
  }

  lemma SubordinateMember(right: Right, schemaRights: seq<SchemaRight>, c: Right)
    requires right.objectType == [] && c in ClassRights(schemaRights) && IsSubordinateMatch(right.accessMask, c)
    ensures Placed(c, right) in Subordinates(right, schemaRights)
  {
    SubordinatesAmongMembers(right, ClassRights(schemaRights), Placed(c, right));
  }

  lemma SuperiorsUniform(right: Right, t: Sid)
    requires IsEditable(right)
    ensures Uniform(Superiors(right), t, ScopeOf(t, right))
    ensures forall s :: s in Superiors(right) ==> s.objectType == []
  {
  }
}
