/** Edits of rights over all objects, generic read and write first of all: what is shown for the other class rights. */
module PlainRights {
  import opened Primitives
  import opened Aces
  import opened RightsEditor
  import opened Columns
  import opened RightsProofs
  import opened RightsTheorems
  import opened Siblings

  /** Before the right itself is touched, only full control is broken up, of which every other class right is a part. */
  lemma PlainBreakUpKeeps(d: Dacl, t: Sid, target: Right, schemaRights: seq<SchemaRight>, side: bool, c: Right)
    requires IsEditable(target) && target.objectType == []
    requires c in ClassRights(schemaRights) && c.accessMask != GENERIC_ALL
    requires BreakUpAll(d, t, Superiors(target), schemaRights, side).Some?
    ensures d.Some?
    ensures Reads(BreakUpAll(d, t, Superiors(target), schemaRights, side).value, t, Placed(c, target), side)
            <==> Reads(d.value, t, Placed(c, target), side)
  {
    var q, all := Placed(c, target), target.(accessMask := GENERIC_ALL);
    ClassRightIsValid(schemaRights, c);
    if Superiors(target) != [] {
      assert Superiors(target) == [all];
      assert BreakUpAll(d, t, [all], schemaRights, side) == BreakUp(d, t, all, schemaRights, side);
      SubordinateMember(all, schemaRights, c);
      assert Placed(c, all) == q;
      BreakUpKeeps(d, t, all, schemaRights, side, q);
    }
  }

  /** Unsetting a right over all objects and its subordinates touches no right that it spares. */
  lemma PlainClearKeeps(d: Dacl, t: Sid, target: Right, schemaRights: seq<SchemaRight>, side: bool, q: Right)
    requires IsValid(target) && target.accessMask != GENERIC_ALL && IsValid(q) && ScopeOf(t, q) == ScopeOf(t, target)
    requires Spares(MapAccessMask(target.accessMask), MapAccessMask(q.accessMask))
    requires Clear(d, t, target, schemaRights, side).Some?
    ensures d.Some?
    ensures Reads(Clear(d, t, target, schemaRights, side).value, t, q, side) <==> Reads(d.value, t, q, side)
  {
    ClearKeeps(d, t, target, schemaRights, side, [], MapAccessMask(q.accessMask));
    ClearKeeps(d, t, target, schemaRights, side, q.objectType, MapAccessMask(q.accessMask));
    ReadsColumns(Clear(d, t, target, schemaRights, side).value, t, q, side);
    ReadsColumns(d.value, t, q, side);
  }

  /**
   Removing a right over all objects, even out of full control, keeps every class right that
   shares no bit with it, and of generic read and generic write either one although the
   other shares READ_CONTROL with it.
   */
  lemma RemovePlainRightKeepsOthers(
      d: Dacl, t: Sid, target: Right, schemaRights: seq<SchemaRight>, allow: bool, c: Right)
    requires IsValid(target) && target.objectType == [] && target.accessMask != GENERIC_ALL
    requires c in ClassRights(schemaRights) && c.accessMask != GENERIC_ALL
    requires Spares(MapAccessMask(target.accessMask), MapAccessMask(c.accessMask))
    requires RemoveRight(d, t, target, schemaRights, allow).Some?
    ensures d.Some?
    ensures Reads(RemoveRight(d, t, target, schemaRights, allow).value, t, Placed(c, target), allow)
            <==> Reads(d.value, t, Placed(c, target), allow)
  {
    var broken := BreakUpAll(d, t, Superiors(target), schemaRights, allow);
    ClassRightIsValid(schemaRights, c);
    PlainClearKeeps(broken, t, target, schemaRights, allow, Placed(c, target));
    PlainBreakUpKeeps(d, t, target, schemaRights, allow, c);
  }

  // ---------------------------------------------------------------------------
  // Adding a right over all objects.

  /** The removals of a complete add, before the right is added. */
  ghost function ClearedForAdd(d: Dacl, t: Sid, target: Right, schemaRights: seq<SchemaRight>, allow: bool): Dacl {
    var broken := BreakUpAll(d, t, Superiors(target), schemaRights, !allow);
    Clear(RemoveAll(broken, t, Subordinates(target, schemaRights), allow), t, target, schemaRights, !allow)
  }

  lemma AddIsClearThenBase(d: Dacl, t: Sid, target: Right, schemaRights: seq<SchemaRight>, allow: bool)
    ensures AddRight(d, t, target, schemaRights, allow)
            == AddRightBase(ClearedForAdd(d, t, target, schemaRights, allow), t, target, allow)
  {
  }

  /** On the opposite side, where full control may be broken up, every class right that the target spares stays as it
      was. */
  lemma AddPlainRightKeepsOpposite(
      d: Dacl, t: Sid, target: Right, schemaRights: seq<SchemaRight>, allow: bool, c: Right)
    requires IsValid(target) && target.objectType == [] && target.accessMask != GENERIC_ALL
    requires c in ClassRights(schemaRights) && c.accessMask != GENERIC_ALL
    requires Spares(MapAccessMask(target.accessMask), MapAccessMask(c.accessMask))
    requires AddRight(d, t, target, schemaRights, allow).Some?
    ensures d.Some?
    ensures Reads(AddRight(d, t, target, schemaRights, allow).value, t, Placed(c, target), !allow)
            <==> Reads(d.value, t, Placed(c, target), !allow)
  {
    var q, subs := Placed(c, target), Subordinates(target, schemaRights);
    var broken := BreakUpAll(d, t, Superiors(target), schemaRights, !allow);
    var own := RemoveAll(broken, t, subs, allow);
    ClassRightIsValid(schemaRights, c);
    AddIsClearThenBase(d, t, target, schemaRights, allow);
    AddRightBaseReads(ClearedForAdd(d, t, target, schemaRights, allow), t, target, allow, q);
    PlainClearKeeps(own, t, target, schemaRights, !allow, q);
    RemoveAllOtherSide(broken, t, target, schemaRights, allow, q);
    PlainBreakUpKeeps(d, t, target, schemaRights, !allow, c);
  }

  lemma RemoveAllOtherSide(d: Dacl, t: Sid, target: Right, schemaRights: seq<SchemaRight>, side: bool, q: Right)
    requires IsEditable(target) && IsValid(q) && ScopeOf(t, q) == ScopeOf(t, target)
    requires RemoveAll(d, t, Subordinates(target, schemaRights), side).Some?
    ensures d.Some?
    ensures Reads(RemoveAll(d, t, Subordinates(target, schemaRights), side).value, t, q, !side)
            <==> Reads(d.value, t, q, !side)
  {
    var subs, scope, bits := Subordinates(target, schemaRights), ScopeOf(t, target), MapAccessMask(q.accessMask);
    SubordinatesUniform(target, schemaRights, t);
    RemoveAllHas(d, t, subs, side, scope, !side, [], bits);
    RemoveAllHas(d, t, subs, side, scope, !side, q.objectType, bits);
    ReadsColumns(RemoveAll(d, t, subs, side).value, t, q, !side);
    ReadsColumns(d.value, t, q, !side);
  }

  /** Until the right is added, its own side has lost the subordinates and nothing else. */
  lemma ClearedOwnSide(
      d: Dacl, t: Sid, target: Right, schemaRights: seq<SchemaRight>, allow: bool, key: OptionalGuid)
    requires IsValid(target) && target.objectType == [] && ClearedForAdd(d, t, target, schemaRights, allow).Some?
    ensures var subs, scope := Subordinates(target, schemaRights), ScopeOf(t, target);
            var broken := BreakUpAll(d, t, Superiors(target), schemaRights, !allow);
            d.Some? && broken.Some? && RemoveAll(broken, t, subs, allow).Some?
            && Masks(broken.value, scope, allow, key) == Masks(d.value, scope, allow, key)
            && Masks(ClearedForAdd(d, t, target, schemaRights, allow).value, scope, allow, key)
               == Masks(RemoveAll(broken, t, subs, allow).value, scope, allow, key)
  {
    var subs, scope, all := Subordinates(target, schemaRights), ScopeOf(t, target), target.(accessMask := GENERIC_ALL);
    var broken := BreakUpAll(d, t, Superiors(target), schemaRights, !allow);
    var own := RemoveAll(broken, t, subs, allow);
    SubordinatesUniform(target, schemaRights, t);
    RemoveAllHas(RemoveRightBase(own, t, target, !allow), t, subs, !allow, scope, allow, key, LIST);
    RemoveBaseHas(own, t, target, !allow, allow, key, LIST);
    RemoveAllHas(broken, t, subs, allow, scope, !allow, key, LIST);
    if Superiors(target) != [] {
      assert Superiors(target) == [all];
      assert BreakUpAll(d, t, [all], schemaRights, !allow) == BreakUp(d, t, all, schemaRights, !allow);
      BreakUpHas(d, t, all, schemaRights, !allow, allow, key, LIST);
    }
  }

  /** On the chosen side, every class right that shares no bit with the target stays as it was. */
  lemma AddPlainRightKeepsChosen(d: Dacl, t: Sid, target: Right, schemaRights: seq<SchemaRight>, allow: bool, c: Right)
    requires IsValid(target) && target.objectType == [] && c in ClassRights(schemaRights)
    requires Disjoint(MapAccessMask(target.accessMask), MapAccessMask(c.accessMask))
    requires AddRight(d, t, target, schemaRights, allow).Some?
    ensures d.Some?
    ensures Reads(AddRight(d, t, target, schemaRights, allow).value, t, Placed(c, target), allow)
            <==> Reads(d.value, t, Placed(c, target), allow)
  {
    var q, cleared := Placed(c, target), ClearedForAdd(d, t, target, schemaRights, allow);
    ClassRightIsValid(schemaRights, c);
    AddIsClearThenBase(d, t, target, schemaRights, allow);
    AddRightBaseReads(cleared, t, target, allow, q);
    ClearedKeepsDisjoint(d, t, target, schemaRights, allow, [], MapAccessMask(q.accessMask));
    ClearedKeepsDisjoint(d, t, target, schemaRights, allow, q.objectType, MapAccessMask(q.accessMask));
    ReadsColumns(cleared.value, t, q, allow);
    ReadsColumns(d.value, t, q, allow);
  }

  lemma ClearedKeepsDisjoint(
      d: Dacl, t: Sid, target: Right, schemaRights: seq<SchemaRight>, allow: bool, key: OptionalGuid, bits: Mask)
    requires IsValid(target) && target.objectType == [] && ClearedForAdd(d, t, target, schemaRights, allow).Some?
    requires bits != {} && Disjoint(MapAccessMask(target.accessMask), bits)
    ensures d.Some?
    ensures ColumnHas(ClearedForAdd(d, t, target, schemaRights, allow), ScopeOf(t, target), allow, key, bits)
            <==> ColumnHas(d, ScopeOf(t, target), allow, key, bits)
  {
    var subs := Subordinates(target, schemaRights);
    ClearedOwnSide(d, t, target, schemaRights, allow, key);
    SubordinatesUniform(target, schemaRights, t);
    forall s | s in subs ensures Disjoint(MapAccessMask(s.accessMask), bits) {
      SubordinateMaskWithin(target, schemaRights, s);
      assert forall b :: b in MapAccessMask(s.accessMask) && b in bits ==> b in MapAccessMask(target.accessMask) * bits;
    }
    RemoveAllHas(BreakUpAll(d, t, Superiors(target), schemaRights, !allow), t, subs, allow, ScopeOf(t, target), allow,
        key, bits);
  }

  // ---------------------------------------------------------------------------
  // The generic partner on the chosen side: exactly when adding one generic right completes the other.

  /** What is left of a column when single bits have been removed from it. */
  ghost function Kept(masks: seq<Mask>, bits: Mask): seq<Mask> {
    if masks == [] then []
    else if masks[0] != {} && masks[0] <= bits then Kept(masks[1..], bits)
    else [masks[0] - bits] + Kept(masks[1..], bits)
  }

  lemma {:induction false} KeptNothing(masks: seq<Mask>)
    ensures Kept(masks, {}) == masks
  {
    if masks != [] {
      KeptNothing(masks[1..]);
      assert masks[0] - {} == masks[0] && masks == [masks[0]] + masks[1..];
    }
  }

  lemma {:induction false} KeptTwice(masks: seq<Mask>, a: Mask, b: Mask)
    ensures Kept(Kept(masks, a), b) == Kept(masks, a + b)
  {
    if masks != [] {
      var k, rest := masks[0], Kept(masks[1..], a);
      KeptTwice(masks[1..], a, b);
      assert ([k - a] + rest)[1..] == rest;
      assert (k - a) - b == k - (a + b);
      assert k - a <= b <==> k <= a + b;
      assert forall x :: x in k ==> x in a || x in k - a;
    }
  }

  lemma {:induction false} RemoveBitIsKept(masks: seq<Mask>, b: Bit)
    ensures RemoveMask(masks, {b}) == Kept(masks, {b})
  {
    if masks != [] {
      var k := masks[0];
      RemoveBitIsKept(masks[1..], b);
      SingleUnset(k, b);
      assert b !in k ==> k - {b} == k;
      assert k != {} && k <= {b} ==> k == {b};
    }
  }

  lemma SingleUnset(k: Mask, b: Bit)
    ensures UnsetMask(k, {b}) == k - {b}
  {
    assert 2 in GENERIC_READ_FIXED && 4 in GENERIC_READ_FIXED && 3 in GENERIC_WRITE && 5 in GENERIC_WRITE;
  }

  /** The rights over all objects in the list, as bits. */
  ghost function BitsOf(rights: seq<Right>): Mask {
    if rights == [] then {}
    else (if rights[0].objectType == [] then MapAccessMask(rights[0].accessMask) else {}) + BitsOf(rights[1..])
  }

  ghost predicate IsSingle(mask: Mask) {
    exists b: Bit :: mask == {b}
  }

  lemma {:induction false} RemoveAllIsKept(d: Dacl, t: Sid, rights: seq<Right>, side: bool, scope: Scope)
    requires Uniform(rights, t, scope) && forall r :: r in rights ==> IsSingle(MapAccessMask(r.accessMask))
    requires RemoveAll(d, t, rights, side).Some?
    ensures d.Some?
    ensures Masks(RemoveAll(d, t, rights, side).value, scope, side, []) ==
            Kept(Masks(d.value, scope, side, []), BitsOf(rights))
    decreases |rights|
  {
    if rights == [] {
      KeptNothing(Masks(d.value, scope, side, []));
    } else {
      var first, rest := rights[0], rights[1..];
      var next := RemoveRightBase(d, t, first, side);
      assert first in rights && forall r :: r in rest ==> r in rights;
      RemoveAllIsKept(next, t, rest, side, scope);
      RemoveColumn(d.value, t, first, side, side, []);
      if first.objectType == [] {
        var b: Bit :| MapAccessMask(first.accessMask) == {b};
        RemoveBitIsKept(Masks(d.value, scope, side, []), b);
        KeptTwice(Masks(d.value, scope, side, []), {b}, BitsOf(rest));
      } else {
        assert {} + BitsOf(rest) == BitsOf(rest);
      }
    }
  }

  lemma {:induction false} BitsOfMeaning(rights: seq<Right>, b: Bit)
    ensures b in BitsOf(rights) <==> exists r :: r in rights && r.objectType == [] && b in MapAccessMask(r.accessMask)
  {
    if rights != [] {
      BitsOfMeaning(rights[1..], b);
      assert rights == [rights[0]] + rights[1..];
    }
  }

  ghost predicate IsGeneric(right: Right) {
    right.objectType == [] && (right.accessMask == GENERIC_READ || right.accessMask == GENERIC_WRITE)
  }

  /** The bits of a generic right that are rights of their own: all but the shared one. */
  ghost function PartBits(target: Right): Mask {
    MapAccessMask(target.accessMask) - READ_CONTROL
  }

  lemma GenericSubordinates(target: Right, schemaRights: seq<SchemaRight>)
    requires IsEditable(target) && IsGeneric(target)
    ensures forall s :: s in Subordinates(target, schemaRights) ==> IsSingle(MapAccessMask(s.accessMask))
    ensures BitsOf(Subordinates(target, schemaRights)) == PartBits(target)
  {
    var subs := Subordinates(target, schemaRights);
    forall s | s in subs
        ensures IsSingle(MapAccessMask(s.accessMask)) && MapAccessMask(s.accessMask) <= PartBits(target) {
      var c := SubordinateOrigin(target, schemaRights, s);
      PartMask(target, c.accessMask);
    }
    forall b: Bit ensures b in BitsOf(subs) <==> b in PartBits(target) {
      BitsOfMeaning(subs, b);
      if b in PartBits(target) {
        PartIsSubordinate(target, schemaRights, b);
      }
    }
  }

  lemma PartIsSubordinate(target: Right, schemaRights: seq<SchemaRight>, b: Bit)
    requires IsEditable(target) && IsGeneric(target) && b in PartBits(target)
    ensures exists s :: s in Subordinates(target, schemaRights) && s.objectType == [] &&
                        b in MapAccessMask(s.accessMask)
  {
    var i := if b == 2 then 3 else if b == 4 then 4 else if b == 5 then 5 else 11;
    var c := Right(COMMON_RIGHTS[i], [], [], {});
    assert COMMON_RIGHTS[i] == {b};
    CommonIsClassRight(schemaRights, i);
    SubordinateMember(target, schemaRights, c);
    assert b in MapAccessMask(Placed(c, target).accessMask);
  }

  lemma PartMask(target: Right, mask: Mask)
    requires IsGeneric(target) && IsSubordinateMatch(target.accessMask, Right(mask, [], [], {}))
    ensures IsSingle(MapAccessMask(mask)) && MapAccessMask(mask) <= PartBits(target)
  {
    assert IsSingle({2}) && IsSingle({3}) && IsSingle({4}) && IsSingle({5});
  }

  /** Of the ACEs over all objects, the first one that is not used up by removing the spent bits has the given bits. */
  ghost predicate FirstKeptHas(aces: seq<Ace>, scope: Scope, side: bool, spent: Mask, bits: Mask) {
    if aces == [] then false
    else if !Keyed(aces[0], scope, side, []) || (aces[0].accessMask != {} && aces[0].accessMask <= spent) then
      FirstKeptHas(aces[1..], scope, side, spent, bits)
    else
      bits <= aces[0].accessMask
  }

  lemma {:induction false} FirstKeptMeaning(aces: seq<Ace>, scope: Scope, side: bool, spent: Mask, bits: Mask)
    requires Disjoint(spent, bits)
    ensures var kept := Kept(Masks(aces, scope, side, []), spent);
            FirstKeptHas(aces, scope, side, spent, bits) <==> kept != [] && bits <= kept[0]
  {
    if aces != [] {
      FirstKeptMeaning(aces[1..], scope, side, spent, bits);
      var k := aces[0].accessMask;
      MasksCons(aces[0], aces[1..], scope, side, []);
      assert aces == [aces[0]] + aces[1..];
      assert forall b :: b in bits && b in spent ==> b in spent * bits;
      assert bits <= k - spent <==> bits <= k;
    }
  }

  lemma {:induction false} KeptHas(masks: seq<Mask>, spent: Mask, bits: Mask)
    requires Disjoint(spent, bits) && bits != {}
    ensures Has(Kept(masks, spent), bits) <==> Has(masks, bits)
  {
    if masks != [] {
      var k, rest := masks[0], Kept(masks[1..], spent);
      KeptHas(masks[1..], spent, bits);
      assert masks == [k] + masks[1..];
      HasCons(k, masks[1..], bits);
      HasCons(k - spent, rest, bits);
      assert forall b :: b in bits && b in spent ==> b in spent * bits;
    }
  }

  ghost function Partner(target: Right): Right {
    target.(accessMask := if target.accessMask == GENERIC_READ then GENERIC_WRITE else GENERIC_READ)
  }

  lemma PartnerMasks(target: Right, head: Mask)
    requires IsGeneric(target)
    ensures var m, p := MapAccessMask(target.accessMask), MapAccessMask(Partner(target).accessMask);
            && Disjoint(PartBits(target), p) && p != {} && !(p <= m)
            && (p <= head + m <==> PartBits(Partner(target)) <= head)
  {
    var m, p := MapAccessMask(target.accessMask), MapAccessMask(Partner(target).accessMask);
    assert 4 in GENERIC_READ_FIXED && 4 !in GENERIC_WRITE && 5 in GENERIC_WRITE && 5 !in GENERIC_READ_FIXED;
    assert forall b :: b in p ==> b in PartBits(Partner(target)) || b in m;
  }

  lemma AddedHas(masks: seq<Mask>, target: Right)
    requires IsGeneric(target)
    ensures var m, p := MapAccessMask(target.accessMask), MapAccessMask(Partner(target).accessMask);
            Has(AddMask(masks, m), p) <==> Has(masks, p) || (masks != [] && PartBits(Partner(target)) <= masks[0])
  {
    var m, p := MapAccessMask(target.accessMask), MapAccessMask(Partner(target).accessMask);
    if masks == [] {
      PartnerMasks(target, {});
      HasCons(m, [], p);
      assert AddMask(masks, m) == [m] + [];
    } else {
      PartnerMasks(target, masks[0]);
      HasCons(masks[0] + m, masks[1..], p);
      HasCons(masks[0], masks[1..], p);
      assert masks == [masks[0]] + masks[1..];
      assert p <= masks[0] ==> PartBits(Partner(target)) <= masks[0];
    }
  }

  /**
   After adding one generic right, the other is set on that side exactly when it was before,
   or the ACE that takes up the added one, the first one left over all objects, had all of
   the other but READ_CONTROL.
   */
  lemma AddGenericPartnerExactly(d: Dacl, t: Sid, target: Right, schemaRights: seq<SchemaRight>, allow: bool)
    requires IsEditable(target) && IsGeneric(target) && AddRight(d, t, target, schemaRights, allow).Some?
    ensures d.Some?
    ensures Reads(AddRight(d, t, target, schemaRights, allow).value, t, Partner(target), allow) <==>
            Reads(d.value, t, Partner(target), allow)
            || FirstKeptHas(d.value, ScopeOf(t, target), allow, PartBits(target), PartBits(Partner(target)))
  {
    var scope, cleared := ScopeOf(t, target), ClearedForAdd(d, t, target, schemaRights, allow);
    var p, own := MapAccessMask(Partner(target).accessMask), PartBits(target);
    var subs := Subordinates(target, schemaRights);
    AddIsClearThenBase(d, t, target, schemaRights, allow);
    ClearedOwnSide(d, t, target, schemaRights, allow, []);
    SubordinatesUniform(target, schemaRights, t);
    GenericSubordinates(target, schemaRights);
    RemoveAllIsKept(BreakUpAll(d, t, Superiors(target), schemaRights, !allow), t, subs, allow, scope);
    AddColumn(cleared.value, t, target, allow, allow, []);
    AddedHas(Masks(cleared.value, scope, allow, []), target);
    PartnerMasks(target, {});
    KeptHas(Masks(d.value, scope, allow, []), own, p);
    PartsAreDisjoint(target);
    FirstKeptMeaning(d.value, scope, allow, own, PartBits(Partner(target)));
    ReadsColumns(AddRight(d, t, target, schemaRights, allow).value, t, Partner(target), allow);
    ReadsColumns(d.value, t, Partner(target), allow);
  }

  lemma PartsAreDisjoint(target: Right)
    requires IsGeneric(target)
    ensures Disjoint(PartBits(target), PartBits(Partner(target)))
  {
  }

  lemma ClearKeeps(
      d: Dacl, t: Sid, target: Right, schemaRights: seq<SchemaRight>, side: bool, key: OptionalGuid, bits: Mask)
    requires IsValid(target) && target.accessMask != GENERIC_ALL && bits != {}
    requires Spares(MapAccessMask(target.accessMask), bits) && Clear(d, t, target, schemaRights, side).Some?
    ensures d.Some?
    ensures ColumnHas(Clear(d, t, target, schemaRights, side), ScopeOf(t, target), side, key, bits)
            <==> ColumnHas(d, ScopeOf(t, target), side, key, bits)
  {
    var subs := Subordinates(target, schemaRights);
    SubordinatesUniform(target, schemaRights, t);
    NullStaysNull(t, subs, side);
    SubordinatesSpare(target, schemaRights, key, bits);
    RemoveAllHas(RemoveRightBase(d, t, target, side), t, subs, side, ScopeOf(t, target), side, key, bits);
    RemoveBaseHas(d, t, target, side, side, key, bits);
  }

  // ---------------------------------------------------------------------------
  // READ_CONTROL, when a generic right is removed.

  lemma ClearReadControl(d: Dacl, t: Sid, target: Right, schemaRights: seq<SchemaRight>, side: bool)
    requires IsEditable(target) && IsGeneric(target) && Clear(d, t, target, schemaRights, side).Some?
    ensures d.Some?
    ensures ColumnHas(Clear(d, t, target, schemaRights, side), ScopeOf(t, target), side, [], READ_CONTROL)
            <==> SomeKeeps(Masks(d.value, ScopeOf(t, target), side, []), target)
  {
    var subs, scope := Subordinates(target, schemaRights), ScopeOf(t, target);
    SubordinatesUniform(target, schemaRights, t);
    NullStaysNull(t, subs, side);
    RemoveColumn(d.value, t, target, side, side, []);
    GenericRemovalReadControl(Masks(d.value, scope, side, []), target);
    forall s | s in subs ensures Disjoint(MapAccessMask(s.accessMask), READ_CONTROL) {
      var c := SubordinateOrigin(target, schemaRights, s);
    }
    RemoveAllHas(RemoveRightBase(d, t, target, side), t, subs, side, scope, side, [], READ_CONTROL);
  }

  lemma BrokenUpKeepsReadControl(d: Dacl, t: Sid, target: Right, schemaRights: seq<SchemaRight>, side: bool)
    requires IsEditable(target) && IsGeneric(target) && BreakUpAll(d, t, Superiors(target), schemaRights, side).Some?
    ensures d.Some?
    ensures SomeKeeps(Masks(BreakUpAll(d, t, Superiors(target), schemaRights, side).value, ScopeOf(t, target), side,
            []), target)
            <==> SomeKeeps(Masks(d.value, ScopeOf(t, target), side, []), target)
  {
    var all := target.(accessMask := GENERIC_ALL);
    assert Superiors(target) == [all];
    assert BreakUpAll(d, t, [all], schemaRights, side) == BreakUp(d, t, all, schemaRights, side);
    BreakUpAllRightsKeeps(d, t, all, target, schemaRights, side);
  }

  ghost function ReadControl(target: Right): Right {
    Right(READ_CONTROL, [], target.inheritedType, target.flags)
  }

  /** Some ACE without object type grants READ_CONTROL otherwise than as part of the target alone. */
  ghost predicate SomeKeepsReadControl(aces: seq<Ace>, t: Sid, target: Right, side: bool) {
    exists i :: 0 <= i < |aces| && StrictMatch(aces[i], t, ReadControl(target), side)
                && KeepsReadControl(aces[i].accessMask, target)
  }

  /** After removing a generic right, READ_CONTROL is still set exactly under the same condition as for a property
      right. */
  lemma RemoveGenericReadControlExactly(d: Dacl, t: Sid, target: Right, schemaRights: seq<SchemaRight>, allow: bool)
    requires IsEditable(target) && IsGeneric(target) && RemoveRight(d, t, target, schemaRights, allow).Some?
    ensures d.Some?
    ensures Reads(RemoveRight(d, t, target, schemaRights, allow).value, t, ReadControl(target), allow)
            <==> SomeKeepsReadControl(d.value, t, target, allow)
  {
    ClearReadControl(BreakUpAll(d, t, Superiors(target), schemaRights, allow), t, target, schemaRights, allow);
    BrokenUpKeepsReadControl(d, t, target, schemaRights, allow);
    SomeKeepsMeaning(d.value, t, ReadControl(target), target, allow);
    ReadsColumns(RemoveRight(d, t, target, schemaRights, allow).value, t, ReadControl(target), allow);
  }

  /** The same on the opposite side when a generic right is added. */
  lemma AddGenericReadControlExactly(d: Dacl, t: Sid, target: Right, schemaRights: seq<SchemaRight>, allow: bool)
    requires IsEditable(target) && IsGeneric(target) && AddRight(d, t, target, schemaRights, allow).Some?
    ensures d.Some?
    ensures Reads(AddRight(d, t, target, schemaRights, allow).value, t, ReadControl(target), !allow)
            <==> SomeKeepsReadControl(d.value, t, target, !allow)
  {
    var subs, scope := Subordinates(target, schemaRights), ScopeOf(t, target);
    var broken := BreakUpAll(d, t, Superiors(target), schemaRights, !allow);
    var own, cleared := RemoveAll(broken, t, subs, allow), ClearedForAdd(d, t, target, schemaRights, allow);
    AddIsClearThenBase(d, t, target, schemaRights, allow);
    AddRightBaseReads(cleared, t, target, allow, ReadControl(target));
    ReadsColumns(cleared.value, t, ReadControl(target), !allow);
    ClearReadControl(own, t, target, schemaRights, !allow);
    SubordinatesUniform(target, schemaRights, t);
    RemoveAllHas(broken, t, subs, allow, scope, !allow, [], READ_CONTROL);
    BrokenUpKeepsReadControl(d, t, target, schemaRights, !allow);
    SomeKeepsMeaning(d.value, t, ReadControl(target), target, !allow);
  }
}
