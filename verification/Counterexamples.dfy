/** DACLs on the failing side of the exact conditions of the rights editor and of the features built on it. */
module Counterexamples {
  import opened Primitives
  import opened Aces
  import opened AclOrder
  import opened RightsEditor
  import opened RightsTheorems
  import opened RightsRuns
  import opened Siblings
  import opened PlainRights
  import opened Removals
  import opened NullDacl
  import opened Protection

  // ---------------------------------------------------------------------------
  // The order of a DACL.

  /** An allow ACE followed by an audit ACE is sorted, and fails the order check. */
  lemma SortedMayFailCheck(allowed: Ace, audit: Ace)
    requires allowed.aceType == ACCESS_ALLOWED && audit.aceType == SYSTEM_AUDIT && !IsInherited(allowed) &&
            !IsInherited(audit)
    ensures IsSorted([allowed, audit]) && !IsCanonical([allowed, audit])
  {
    var aces := [allowed, audit];
    assert CanonicalKey(aces[0]) > CanonicalKey(aces[1]);
  }

  // ---------------------------------------------------------------------------
  // The rights editor. The right is over one object type, its flags and inherited type are empty.

  function Over(guid: GuidBytes, mask: Mask): Right {
    Right(mask, guid, [], {})
  }

  /** One ACE that grants, or denies, a right over all objects and nothing else. */
  function Lone(t: Sid, mask: Mask, allow: bool): Ace {
    MakeAce(t, PlainRight(mask), MapAccessMask(mask), allow)
  }

  lemma LoneMatches(t: Sid, mask: Mask, allow: bool)
    ensures StrictMatch(Lone(t, mask, allow), t, PlainRight(mask), allow)
    ensures IsExact(Lone(t, mask, allow), t, PlainRight(mask), allow)
    ensures ObjectKey(Lone(t, mask, allow)) == [] && InScope(Lone(t, mask, allow), Scope(t, {}, []))
    ensures OnSide(Lone(t, mask, allow), allow) && !OnSide(Lone(t, mask, allow), !allow)
  {
    MadeAceMatches(t, PlainRight(mask), MapAccessMask(mask), allow);
    StrictMatchMeaning(Lone(t, mask, allow), t, PlainRight(mask), allow);
  }

  /** Removing the right to read one property from a lone generic read takes READ_CONTROL along. The other ACE, of any
      other trustee, only keeps the DACL from becoming NULL. */
  lemma ReadControlMayGetLost(t: Sid, other: Ace, guid: GuidBytes, schemaRights: seq<SchemaRight>)
    requires other.trustee != t
    ensures var aces, target := [Lone(t, GENERIC_READ, true), other], Over(guid, READ_PROP);
            var after := RemoveRight(Some(aces), t, target, schemaRights, true);
            after.Some? && Reads(aces, t, PlainRight(READ_CONTROL), true) &&
                !Reads(after.value, t, PlainRight(READ_CONTROL), true)
  {
    var lone, target, readControl := Lone(t, GENERIC_READ, true), Over(guid, READ_PROP), PlainRight(READ_CONTROL);
    var aces := [lone, other];
    LoneMatches(t, GENERIC_READ, true);
    assert aces[1] == other && other in aces;
    RemoveRightConserves(Some(aces), t, target, schemaRights, true, other);
    ReadControlExactly(Some(aces), t, target, schemaRights, true);
    LoneKeepsNothing(target);
    assert !StrictMatch(other, t, readControl, true);
    LooseMatchMeaning(lone, t, readControl, true);
    assert AceMatch(aces[0], t, readControl, true) && !IsInherited(aces[0]);
  }

  lemma LoneKeepsNothing(target: Right)
    requires target.accessMask == READ_PROP
    ensures !KeepsReadControl(GENERIC_READ_FIXED, target) && BitmaskIsSet(GENERIC_READ_FIXED, READ_CONTROL)
  {
    assert 5 in GENERIC_WRITE && 5 !in GENERIC_READ_FIXED;
  }

  /** An object right of a kind that has no superiors is still set after its removal. */
  lemma UnlistedMayStay(t: Sid, guid: GuidBytes, schemaRights: seq<SchemaRight>)
    ensures var aces, target := [Lone(t, SELF_WRITE, true)], Over(guid, SELF_WRITE);
            var after := RemoveRight(Some(aces), t, target, schemaRights, true);
            after.Some? && Reads(after.value, t, target, true)
  {
    var lone, target := Lone(t, SELF_WRITE, true), Over(guid, SELF_WRITE);
    UnlistedShape(target);
    LoneReads(t, SELF_WRITE, true, target);
    BaseNullExactly([lone], t, target, true);
    RemoveUnlistedRightExactly(Some([lone]), t, target, schemaRights, true);
  }

  /** And it is still denied after having been allowed. */
  lemma UnlistedMayStayDenied(t: Sid, guid: GuidBytes, schemaRights: seq<SchemaRight>)
    ensures var aces, target := [Lone(t, SELF_WRITE, false)], Over(guid, SELF_WRITE);
            var after := AddRight(Some(aces), t, target, schemaRights, true);
            after.Some? && Reads(after.value, t, target, false)
  {
    var lone, target := Lone(t, SELF_WRITE, false), Over(guid, SELF_WRITE);
    UnlistedShape(target);
    LoneReads(t, SELF_WRITE, false, target);
    BaseNullExactly([lone], t, target, false);
    ObjectAddIsRemoveThenAdd(Some([lone]), t, target, schemaRights, true);
    AddUnlistedRightExactly(Some([lone]), t, target, schemaRights, true);
  }

  lemma UnlistedShape(target: Right)
    requires target.accessMask == SELF_WRITE && target.objectType != []
    ensures !IsObjectMask(target.accessMask) && Superiors(target) == []
    ensures target.accessMask != {} && MapAccessMask(target.accessMask) == SELF_WRITE
  {
    assert 3 in SELF_WRITE && 3 !in READ_PROP && 3 !in WRITE_PROP && 3 !in CONTROL_ACCESS && 3 !in CREATE_CHILD &&
        3 !in DELETE_CHILD;
  }

  /** A lone ACE reads as its right, and is not exactly the same right over an object type. */
  lemma LoneReads(t: Sid, mask: Mask, allow: bool, target: Right)
    requires target.objectType != [] && target.inheritedType == [] && target.flags == {}
    ensures Reads([Lone(t, mask, allow)], t, PlainRight(mask), allow)
    ensures !AreExact([Lone(t, mask, allow)], t, target, allow)
  {
    var aces := [Lone(t, mask, allow)];
    LoneMatches(t, mask, allow);
    LooseMatchMeaning(aces[0], t, PlainRight(mask), allow);
    StrictMatchMeaning(aces[0], t, target, allow);
    assert AceMatch(aces[0], t, PlainRight(mask), allow) && !IsInherited(aces[0]);
    assert aces[0] in aces;
  }

  /** Adding generic read to an ACE with the two writing rights makes generic write complete. */
  lemma GenericReadMayCompleteWrite(t: Sid, schemaRights: seq<SchemaRight>)
    ensures var aces, target := [Lone(t, {3, 5}, true)], PlainRight(GENERIC_READ);
            var after := AddRight(Some(aces), t, target, schemaRights, true);
            after.Some? && !Reads(aces, t, PlainRight(GENERIC_WRITE), true) &&
                Reads(after.value, t, PlainRight(GENERIC_WRITE), true)
  {
    var lone, target := Lone(t, {3, 5}, true), PlainRight(GENERIC_READ);
    var aces, subs := [lone], Subordinates(target, schemaRights);
    LoneMatches(t, {3, 5}, true);
    TwoBits();
    assert !Reads(aces, t, target.(accessMask := GENERIC_ALL), false);
    assert Superiors(target) == [target.(accessMask := GENERIC_ALL)];
    GenericSubordinates(target, schemaRights);
    BitsOfMeaning(subs, 3);
    assert !IsCovered(3, [], subs);
    assert lone in aces && 3 in lone.accessMask;
    AddMeetsNullExactly(aces, t, target, schemaRights, true);
    AddGenericPartnerExactly(Some(aces), t, target, schemaRights, true);
    assert Partner(target) == PlainRight(GENERIC_WRITE);
  }

  lemma TwoBits()
    ensures MapAccessMask({3, 5}) == {3, 5} && !(GENERIC_WRITE <= {3, 5}) &&
            !({3, 5} <= PartBits(PlainRight(GENERIC_READ)))
    ensures PartBits(PlainRight(GENERIC_WRITE)) <= {3, 5} && 3 !in PartBits(PlainRight(GENERIC_READ))
    ensures MapAccessMask(GENERIC_WRITE) == GENERIC_WRITE
  {
    assert 17 in GENERIC_WRITE && 4 in GENERIC_READ && 4 !in GENERIC_WRITE;
  }

  /** Removing one property from a DACL of one full control ends on NULL, although a right is left to grant. */
  lemma LoneFullControlMeetsNull(t: Sid, guid: GuidBytes, schemaRights: seq<SchemaRight>)
    ensures RemoveRight(Some([Lone(t, GENERIC_ALL, true)]), t, Over(guid, READ_PROP), schemaRights, true).None?
  {
    var aces, target := [Lone(t, GENERIC_ALL, true)], Over(guid, READ_PROP);
    LoneMatches(t, GENERIC_ALL, true);
    LoneReads(t, GENERIC_ALL, true, target);
    assert Superiors(target)[0] == PlainRight(GENERIC_ALL);
    assert FirstSet(aces, t, Superiors(target), true) == Some(PlainRight(GENERIC_ALL));
    assert 0 in GENERIC_ALL && 0 !in READ_PROP;
    RemoveMeetsNullExactly(aces, t, target, schemaRights, true);
  }

  // ---------------------------------------------------------------------------
  // The two features built on the editor.

  /** Under a denial of all extended rights, lifting the password denial leaves the query as it was. */
  lemma PasswordDenialMayStay(rightGuid: GuidBytes)
    ensures var after := SetCannotChange(Some([Lone(NT_SELF, CONTROL_ACCESS, false)]), rightGuid, false);
            after.Some? && IsPasswordChangeDenied(after.value, rightGuid)
  {
    var aces := [Lone(NT_SELF, CONTROL_ACCESS, false)];
    LoneReads(NT_SELF, CONTROL_ACCESS, false, ChangePassword(rightGuid));
    OtherSideIsNotExact(aces, rightGuid);
    CannotChangeMeetsNullExactly(aces, rightGuid, false);
    assert PASSWORD_TRUSTEES[0] == NT_SELF && ChangePassword([]) == PlainRight(CONTROL_ACCESS);
    assert IsBlanketDenied(aces);
    CannotChangeThenQueryExactly(Some(aces), rightGuid, false);
  }

  lemma OtherSideIsNotExact(aces: seq<Ace>, rightGuid: GuidBytes)
    requires aces == [Lone(NT_SELF, CONTROL_ACCESS, false)]
    ensures !AreExact(aces, NT_SELF, ChangePassword(rightGuid), false)
  {
    LoneReads(NT_SELF, CONTROL_ACCESS, false, ChangePassword(rightGuid));
  }

  /** Lifting the protection of an object whose only ACE denies deletion leaves a NULL DACL. */
  lemma UnprotectMayMeetNull()
    ensures Protect(Some([Lone(WORLD, STD_DELETE, false)]), false).None?
  {
    LoneMatches(WORLD, STD_DELETE, false);
    assert 16 in STD_DELETE;
    UnprotectMeetsNullExactly([Lone(WORLD, STD_DELETE, false)]);
  }
}
