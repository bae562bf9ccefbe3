/** Two features built on the base edits: protection against deletion, and "user cannot change password". */
module Protection {
  import opened Primitives
  import opened Aces
  import opened Columns
  import opened RightsEditor
  import opened RightsProofs
  import opened RightsTheorems
  import opened RightsRuns
  import opened SecurityDescriptors
  import opened Removals
  import opened SddlMeaning

  const WORLD := Sid(1, 1, [0])
  const NT_SELF := Sid(1, 5, [10])

  /** Everyone, and the object itself. */
  lemma TrusteesByCode()
    ensures Means("WD", WORLD) && Means("PS", NT_SELF)
  {
    WorldByCode();
    Universal(0);
    SelfByCode();
    NtAuthority(5);
  }

  lemma WorldByCode()
    ensures UNIVERSAL[0] == ("WD", WORLD)
  {
  }

  lemma SelfByCode()
    ensures NT_AUTHORITY[5].0 == "PS" && Sid(1, 5, [NT_AUTHORITY[5].1]) == NT_SELF
  {
  }

  // ---------------------------------------------------------------------------
  // Protection against deletion: two denials for everyone.

  function PlainRight(mask: Mask): Right {
    Right(mask, [], [], {})
  }

  const PROTECT_DELETION: seq<Right> := [PlainRight(STD_DELETE), PlainRight(DELETE_TREE)]

  ghost predicate IsProtected(aces: seq<Ace>) {
    forall r :: r in PROTECT_DELETION ==> Reads(aces, WORLD, r, false)
  }

  function Protect(d: Dacl, enabled: bool): Dacl {
    if enabled then AddAll(d, WORLD, PROTECT_DELETION, false) else RemoveAll(d, WORLD, PROTECT_DELETION, false)
  }

  lemma ProtectionUniform()
    ensures Uniform(PROTECT_DELETION, WORLD, Scope(WORLD, {}, []))
  {
  }

  /** The query returns what was set, whatever the DACL was; it asks for both denials and both are handled. */
  lemma ProtectThenQuery(d: Dacl, enabled: bool)
    requires d.Some? && Protect(d, enabled).Some?
    ensures IsProtected(Protect(d, enabled).value) == enabled
  {
    var after, scope := Protect(d, enabled), Scope(WORLD, {}, []);
    ProtectionUniform();
    forall r | r in PROTECT_DELETION ensures Reads(after.value, WORLD, r, false) == enabled {
      assert Listed(PROTECT_DELETION, [], r.accessMask);
      if enabled {
        AddAllHas(d, WORLD, PROTECT_DELETION, false, scope, false, [], r.accessMask);
      } else {
        RemoveAllHas(d, WORLD, PROTECT_DELETION, false, scope, false, [], r.accessMask);
      }
      ReadsColumns(after.value, WORLD, r, false);
    }
    assert PlainRight(STD_DELETE) == PROTECT_DELETION[0];
  }

  /** Allow ACEs are untouched, and so is everything that is not a denial for everyone. */
  lemma ProtectConserves(d: Dacl, enabled: bool, x: Ace)
    requires IsOutside(x, Scope(WORLD, {}, []), false, true)
    ensures Conserves(d, Protect(d, enabled), x)
  {
    ProtectionUniform();
    LoopsConserve(d, WORLD, PROTECT_DELETION, Scope(WORLD, {}, []), false, x);
  }

  /** The ACE denies everyone one or both of the two protected operations and nothing else. */
  ghost predicate IsPureProtection(ace: Ace) {
    && StrictMatch(ace, WORLD, PlainRight(STD_DELETE), false)
    && ace.accessMask != {} && ace.accessMask <= STD_DELETE + DELETE_TREE
  }

  /** Unprotecting leaves a NULL DACL exactly when the DACL consists of such ACEs alone. */
  lemma UnprotectMeetsNullExactly(aces: seq<Ace>)
    ensures Protect(Some(aces), false).None? <==> forall ace :: ace in aces ==> IsPureProtection(ace)
  {
    var steps := StepsOf(PROTECT_DELETION, false);
    StepsOfRemoveAll(Some(aces), WORLD, PROTECT_DELETION, false, []);
    StepsNullExactly(aces, WORLD, steps);
    assert steps + [] == steps;
    forall ace ensures IsConsumed(ace, WORLD, steps) <==> IsPureProtection(ace) {
      ProtectionConsumesExactly(ace);
    }
  }

  lemma ProtectionConsumesExactly(ace: Ace)
    ensures IsConsumed(ace, WORLD, StepsOf(PROTECT_DELETION, false)) <==> IsPureProtection(ace)
  {
    var steps, right := StepsOf(PROTECT_DELETION, false), PlainRight(STD_DELETE);
    assert steps == [Step(right, false), Step(PlainRight(DELETE_TREE), false)];
    assert forall s :: s in steps ==> (Matches(ace, WORLD, s) <==> StrictMatch(ace, WORLD, right, false));
    if IsPureProtection(ace) {
      forall b | b in ace.accessMask ensures HasSingle(ace, WORLD, steps, b) {
        var s := if b == 16 then steps[0] else steps[1];
        assert s in steps && MapAccessMask(s.right.accessMask) == {b};
      }
      SinglesConsume(ace, WORLD, steps);
    } else if ace.accessMask == {} {
      EmptyMaskSaves(ace, WORLD, steps);
    } else {
      var b :| b in ace.accessMask && !(StrictMatch(ace, WORLD, right, false) && b in STD_DELETE + DELETE_TREE);
      ForeignBitSaves(ace, WORLD, steps, b);
    }
  }

  /** Rights of the same scope that share nothing with the two denials are shown as before. */
  lemma ProtectKeepsOtherDenials(d: Dacl, enabled: bool, q: Right)
    requires d.Some? && Protect(d, enabled).Some? && IsValid(q) && ScopeOf(WORLD, q) == Scope(WORLD, {}, [])
    requires Disjoint(STD_DELETE, MapAccessMask(q.accessMask)) && Disjoint(DELETE_TREE, MapAccessMask(q.accessMask))
    ensures Reads(Protect(d, enabled).value, WORLD, q, false) <==> Reads(d.value, WORLD, q, false)
  {
    var after, scope, bits := Protect(d, enabled), Scope(WORLD, {}, []), MapAccessMask(q.accessMask);
    ProtectionUniform();
    forall key | key == [] || key == q.objectType
      ensures ColumnHas(after, scope, false, key, bits) <==> ColumnHas(d, scope, false, key, bits)
    {
      assert ListSpares(PROTECT_DELETION, key, bits);
      if enabled {
        AddAllHas(d, WORLD, PROTECT_DELETION, false, scope, false, key, bits);
      } else {
        RemoveAllHas(d, WORLD, PROTECT_DELETION, false, scope, false, key, bits);
      }
    }
    ReadsColumns(after.value, WORLD, q, false);
    ReadsColumns(d.value, WORLD, q, false);
  }

  method GetProtected(sd: SecurityDescriptor) returns (denied: bool)
    requires sd.dacl != null
    ensures denied <==> IsProtected(sd.dacl.aces)
  {
    for i := 0 to |PROTECT_DELETION|
      invariant forall j :: 0 <= j < i ==> Reads(sd.dacl.aces, WORLD, PROTECT_DELETION[j], false)
    {
      var marks := sd.GetRightState(WORLD, PROTECT_DELETION[i]);
      if !marks.deny {
        assert PROTECT_DELETION[i] in PROTECT_DELETION;
        return false;
      }
    }
    return true;
  }

  /**
   Afterwards the query gives what was asked for and every ACE that is not a denial for
   everyone is still there. The one failure is unprotecting a DACL of such denials alone.
   */
  method SetProtected(sd: SecurityDescriptor, enabled: bool) returns (completed: bool)
    requires sd.dacl != null
    modifies sd, sd.dacl
    ensures completed ==> sd.dacl != null && IsProtected(sd.dacl.aces) == enabled
    ensures completed ==>
      if old(IsProtected(sd.dacl.aces)) == enabled then sd.State() == old(sd.State())
      else IsSortingOf(Protect(old(sd.State()), enabled), sd.dacl.aces)
    ensures completed ==> forall x :: IsOutside(x, Scope(WORLD, {}, []), false, true) ==>
      multiset(sd.dacl.aces)[x] == old(multiset(sd.dacl.aces)[x])
    ensures completed == !(
      && !enabled && old(IsProtected(sd.dacl.aces))
      && forall ace :: ace in old(sd.dacl.aces) ==> IsPureProtection(ace))
  {
    var isEnabled := GetProtected(sd);
    if isEnabled == enabled {
      return true;
    }
    ghost var before := sd.State();
    UnprotectMeetsNullExactly(before.value);
    ProtectionUniform();
    forall x | IsOutside(x, Scope(WORLD, {}, []), false, true) ensures Conserves(before, Protect(before, enabled), x) {
      ProtectConserves(before, enabled, x);
    }
    if enabled {
      sd.AddRights(WORLD, PROTECT_DELETION, false);
      AddRightsSome(before, PROTECT_DELETION);
    } else {
      sd.RemoveRights(WORLD, PROTECT_DELETION, false);
    }
    completed := sd.dacl != null;
    if completed {
      ghost var edited := sd.dacl.aces;
      ProtectThenQuery(before, enabled);
      sd.SortDacl();
      forall r | r in PROTECT_DELETION
        ensures Reads(sd.dacl.aces, WORLD, r, false) <==> Reads(edited, WORLD, r, false)
      {
        SortingKeepsState(edited, sd.dacl.aces, WORLD, r, false, false);
      }
    }
  }

  lemma AddRightsSome(d: Dacl, rights: seq<Right>)
    requires d.Some? && Uniform(rights, WORLD, Scope(WORLD, {}, []))
    ensures AddAll(d, WORLD, rights, false).Some?
  {
    AddAllHas(d, WORLD, rights, false, Scope(WORLD, {}, []), false, [], LIST);
  }

  // ---------------------------------------------------------------------------
  // User cannot change password: the extended right is denied to SELF and to everyone.

  function ChangePassword(rightGuid: OptionalGuid): Right {
    Right(CONTROL_ACCESS, rightGuid, [], {})
  }

  const PASSWORD_TRUSTEES: seq<Sid> := [NT_SELF, WORLD]

  ghost predicate IsPasswordChangeDenied(aces: seq<Ace>, rightGuid: OptionalGuid) {
    exists i :: 0 <= i < |PASSWORD_TRUSTEES| && Reads(aces, PASSWORD_TRUSTEES[i], ChangePassword(rightGuid), false)
  }

  /** All extended rights denied to one of the two trustees: the query sees such an ACE, the edit does not. */
  ghost predicate IsBlanketDenied(aces: seq<Ace>) {
    exists i :: 0 <= i < |PASSWORD_TRUSTEES| && Reads(aces, PASSWORD_TRUSTEES[i], ChangePassword([]), false)
  }

  function SwapRight(d: Dacl, t: Sid, right: Right, allow: bool): Dacl {
    AddRightBase(RemoveRightBase(d, t, right, !allow), t, right, allow)
  }

  function SetCannotChange(d: Dacl, rightGuid: OptionalGuid, enabled: bool): Dacl {
    SwapRight(SwapRight(d, NT_SELF, ChangePassword(rightGuid), !enabled), WORLD, ChangePassword(rightGuid), !enabled)
  }

  /** One trustee: the denial is shown afterwards if asked for, or if a blanket denial hides behind the right. */
  lemma SwapDenial(d: Dacl, t: Sid, rightGuid: OptionalGuid, enabled: bool)
    requires SwapRight(d, t, ChangePassword(rightGuid), !enabled).Some?
    ensures d.Some?
    ensures Reads(SwapRight(d, t, ChangePassword(rightGuid), !enabled).value, t, ChangePassword(rightGuid), false)
            <==> enabled || (rightGuid != [] && Reads(d.value, t, ChangePassword([]), false))
  {
    var right := ChangePassword(rightGuid);
    var removed := RemoveRightBase(d, t, right, enabled);
    AddRightBaseReads(removed, t, right, !enabled, right);
    RemoveBaseHas(d, t, right, enabled, false, [], CONTROL_ACCESS);
    RemoveBaseHas(d, t, right, enabled, false, rightGuid, CONTROL_ACCESS);
    ReadsColumns(removed.value, t, right, false);
    ReadsColumns(d.value, t, ChangePassword([]), false);
  }

  /** Edits for one trustee do not change what is shown for another. */
  lemma SwapKeepsOthers(d: Dacl, t: Sid, right: Right, allow: bool, other: Sid, q: Right)
    requires IsEditable(right) && other != t && SwapRight(d, t, right, allow).Some?
    ensures d.Some?
    ensures Reads(SwapRight(d, t, right, allow).value, other, q, false) <==> Reads(d.value, other, q, false)
  {
    var removed := RemoveRightBase(d, t, right, !allow);
    var after := SwapRight(d, t, right, allow);
    forall x: Ace | AceMatch(x, other, q, false) ensures multiset(after.value)[x] == multiset(d.value)[x] {
      RemoveBaseConserves(d, t, right, !allow, x);
      AddBaseConserves(removed, t, right, allow, x);
    }
    StateTransfers(d.value, after.value, other, q, false, false);
    StateTransfers(after.value, d.value, other, q, false, false);
  }

  /**
   The query returns what was set exactly unless the denial is being lifted while a
   blanket denial of all extended rights stands.
   */
  lemma CannotChangeThenQueryExactly(d: Dacl, rightGuid: OptionalGuid, enabled: bool)
    requires SetCannotChange(d, rightGuid, enabled).Some?
    ensures d.Some?
    ensures IsPasswordChangeDenied(SetCannotChange(d, rightGuid, enabled).value, rightGuid) == enabled
            <==> enabled || rightGuid == [] || !IsBlanketDenied(d.value)
  {
    var right := ChangePassword(rightGuid);
    var first := SwapRight(d, NT_SELF, right, !enabled);
    var after := SwapRight(first, WORLD, right, !enabled);
    SwapDenial(first, WORLD, rightGuid, enabled);
    SwapKeepsOthers(first, WORLD, right, !enabled, NT_SELF, right);
    SwapDenial(d, NT_SELF, rightGuid, enabled);
    SwapKeepsOthers(d, NT_SELF, right, !enabled, WORLD, ChangePassword([]));
    assert PASSWORD_TRUSTEES[0] == NT_SELF && PASSWORD_TRUSTEES[1] == WORLD;
    assert IsPasswordChangeDenied(after.value, rightGuid)
      <==> Reads(after.value, NT_SELF, right, false) || Reads(after.value, WORLD, right, false);
    assert IsBlanketDenied(d.value)
      <==> Reads(d.value, NT_SELF, ChangePassword([]), false) || Reads(d.value, WORLD, ChangePassword([]), false);
  }

  /** Setting or lifting the denial meets NULL exactly when every ACE gives the first trustee just the opposite of what
      is set: then nothing is left after the first removal, and later there is always an ACE of that trustee. */
  lemma CannotChangeMeetsNullExactly(aces: seq<Ace>, rightGuid: OptionalGuid, enabled: bool)
    ensures SetCannotChange(Some(aces), rightGuid, enabled).None? <==>
            AreExact(aces, NT_SELF, ChangePassword(rightGuid), enabled)
  {
    var right := ChangePassword(rightGuid);
    var removed := RemoveRightBase(Some(aces), NT_SELF, right, enabled);
    BaseNullExactly(aces, NT_SELF, right, enabled);
    if removed.Some? {
      var first, scope := AddRightBase(removed, NT_SELF, right, !enabled), ScopeOf(NT_SELF, right);
      AddBaseHas(removed, NT_SELF, right, !enabled, !enabled, rightGuid, CONTROL_ACCESS);
      HasMeaning(first.value, scope, !enabled, rightGuid, CONTROL_ACCESS);
      var i :| 0 <= i < |first.value| && Keyed(first.value[i], scope, !enabled, rightGuid)
               && BitmaskIsSet(first.value[i].accessMask, CONTROL_ACCESS);
      assert first.value[i] in first.value && !IsExact(first.value[i], WORLD, right, enabled);
      BaseNullExactly(first.value, WORLD, right, enabled);
    }
  }

  ghost predicate IsOutsideBoth(x: Ace) {
    IsOutside(x, Scope(NT_SELF, {}, []), true, true) && IsOutside(x, Scope(WORLD, {}, []), true, true)
  }

  /** Everything outside the two trustees' explicit, untyped scope is conserved. */
  lemma CannotChangeConserves(d: Dacl, rightGuid: OptionalGuid, enabled: bool, x: Ace)
    requires IsOutsideBoth(x)
    ensures Conserves(d, SetCannotChange(d, rightGuid, enabled), x)
  {
    var right := ChangePassword(rightGuid);
    var first := SwapRight(d, NT_SELF, right, !enabled);
    RemoveBaseConserves(d, NT_SELF, right, enabled, x);
    AddBaseConserves(RemoveRightBase(d, NT_SELF, right, enabled), NT_SELF, right, !enabled, x);
    RemoveBaseConserves(first, WORLD, right, enabled, x);
    AddBaseConserves(RemoveRightBase(first, WORLD, right, enabled), WORLD, right, !enabled, x);
  }

  method GetUserCannotChange(sd: SecurityDescriptor, rightGuid: OptionalGuid) returns (denied: bool)
    requires sd.dacl != null
    ensures denied <==> IsPasswordChangeDenied(sd.dacl.aces, rightGuid)
  {
    for i := 0 to |PASSWORD_TRUSTEES|
      invariant forall j :: 0 <= j < i ==> !Reads(sd.dacl.aces, PASSWORD_TRUSTEES[j], ChangePassword(rightGuid), false)
    {
      var marks := sd.GetRightState(PASSWORD_TRUSTEES[i], ChangePassword(rightGuid));
      if marks.deny {
        return true;
      }
    }
    return false;
  }

  method SetUserCannotChange(sd: SecurityDescriptor, rightGuid: OptionalGuid, enabled: bool) returns (completed: bool)
    requires sd.dacl != null
    modifies sd, sd.dacl
    ensures completed == !old(AreExact(sd.dacl.aces, NT_SELF, ChangePassword(rightGuid), enabled))
    ensures completed ==> sd.dacl != null
    ensures completed ==> IsSortingOf(SetCannotChange(old(sd.State()), rightGuid, enabled), sd.dacl.aces)
    ensures completed ==> forall x :: IsOutsideBoth(x) ==> multiset(sd.dacl.aces)[x] == old(multiset(sd.dacl.aces)[x])
    ensures completed ==> (IsPasswordChangeDenied(sd.dacl.aces, rightGuid) == enabled
      <==> enabled || rightGuid == [] || !IsBlanketDenied(old(sd.dacl.aces)))
  {
    ghost var before := sd.State();
    CannotChangeMeetsNullExactly(before.value, rightGuid, enabled);
    forall x | IsOutsideBoth(x) ensures Conserves(before, SetCannotChange(before, rightGuid, enabled), x) {
      CannotChangeConserves(before, rightGuid, enabled, x);
    }
    var right := ChangePassword(rightGuid);
    completed := SwapRightIn(sd, NT_SELF, right, !enabled);
    if !completed { return; }
    completed := SwapRightIn(sd, WORLD, right, !enabled);
    if !completed { return; }
    ghost var edited := sd.dacl.aces;
    CannotChangeThenQueryExactly(before, rightGuid, enabled);
    sd.SortDacl();
    DenialSurvivesSorting(edited, sd.dacl.aces, rightGuid);
  }

  method SwapRightIn(sd: SecurityDescriptor, t: Sid, right: Right, allow: bool) returns (completed: bool)
    requires sd.dacl != null
    modifies sd, sd.dacl
    ensures sd.State() == SwapRight(old(sd.State()), t, right, allow)
    ensures completed == sd.State().Some?
    ensures completed ==> sd.dacl == old(sd.dacl) || fresh(sd.dacl)
  {
    sd.RemoveRightBase(t, right, !allow);
    completed := sd.dacl != null;
    if completed {
      sd.AddRightBase(t, right, allow);
    }
  }

  lemma DenialSurvivesSorting(before: seq<Ace>, after: seq<Ace>, rightGuid: OptionalGuid)
    requires multiset(after) == multiset(before)
    ensures IsPasswordChangeDenied(after, rightGuid) == IsPasswordChangeDenied(before, rightGuid)
  {
    forall i | 0 <= i < |PASSWORD_TRUSTEES|
      ensures Reads(after, PASSWORD_TRUSTEES[i], ChangePassword(rightGuid), false)
        <==> Reads(before, PASSWORD_TRUSTEES[i], ChangePassword(rightGuid), false)
    {
      SortingKeepsState(before, after, PASSWORD_TRUSTEES[i], ChangePassword(rightGuid), false, false);
    }
  }
}
