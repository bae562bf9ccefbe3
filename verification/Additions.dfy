/** What an addition writes: the mask joined to the first ACE that can take it, or else one new ACE at the end. */
module Additions {
  import opened Primitives
  import opened Aces
  import opened RightsEditor
  import opened RightsProofs
  import opened PlainRights
  import opened AclOrder

  /** An ACE that takes up the right: of its trustee, flags and inherited type, of its side and over its object type. */
  predicate TakesUp(ace: Ace, trustee: Sid, right: Right, allow: bool) {
    InScope(ace, ScopeOf(trustee, right)) && OnSide(ace, allow) && ObjectKey(ace) == right.objectType
  }

  predicate IsFirst(aces: seq<Ace>, i: int, trustee: Sid, right: Right, allow: bool) {
    && 0 <= i < |aces| && TakesUp(aces[i], trustee, right, allow)
    && forall j :: 0 <= j < i ==> !TakesUp(aces[j], trustee, right, allow)
  }

  /** The first ACE that takes up the right gains the mask; without one, the list gains one ACE, made of the right. */
  ghost predicate IsAddition(before: seq<Ace>, after: seq<Ace>, trustee: Sid, right: Right, allow: bool) {
    && (forall i :: IsFirst(before, i, trustee, right, allow) ==>
          after == before[i := before[i].(accessMask := before[i].accessMask + MapAccessMask(right.accessMask))])
    && ((forall i :: 0 <= i < |before| ==> !TakesUp(before[i], trustee, right, allow)) ==>
          |after| == |before| + 1 && after[..|before|] == before && IsAceOf(after[|before|], trustee, right, allow))
  }

  /** Reusing the first match, or else appending, is what the specification does by recursion. */
  lemma {:induction false} AddAtIndex(aces: seq<Ace>, trustee: Sid, right: Right, allow: bool, index: int)
    requires -1 <= index < |aces|
    requires index >= 0 ==> StrictMatch(aces[index], trustee, right, allow)
    requires forall j :: 0 <= j < (if index >= 0 then index else |aces|) ==>
            !StrictMatch(aces[j], trustee, right, allow)
    ensures var mask := MapAccessMask(right.accessMask);
            AddAccessRights(aces, trustee, right, allow)
            == if index >= 0 then aces[index := aces[index].(accessMask := aces[index].accessMask + mask)]
               else aces + [MakeAce(trustee, right, mask, allow)]
  {
    if aces != [] && index != 0 {
      var rest := aces[1..];
      assert forall j :: 0 <= j < |rest| ==> rest[j] == aces[j + 1];
      AddAtIndex(rest, trustee, right, allow, if index > 0 then index - 1 else -1);
      assert aces == [aces[0]] + rest;
    }
  }

  lemma MadeAceIsOfRight(trustee: Sid, right: Right, allow: bool)
    ensures IsAceOf(MakeAce(trustee, right, MapAccessMask(right.accessMask), allow), trustee, right, allow)
  {
  }

  lemma TakesUpMeaning(aces: seq<Ace>, trustee: Sid, right: Right, allow: bool)
    requires IsEditable(right)
    ensures forall i :: 0 <= i < |aces| ==>
            (StrictMatch(aces[i], trustee, right, allow) <==> TakesUp(aces[i], trustee, right, allow))
  {
    forall i | 0 <= i < |aces|
      ensures StrictMatch(aces[i], trustee, right, allow) <==> TakesUp(aces[i], trustee, right, allow)
    {
      StrictMatchMeaning(aces[i], trustee, right, allow);
    }
  }

  lemma AddAccessRightsWrites(aces: seq<Ace>, trustee: Sid, right: Right, allow: bool)
    requires IsEditable(right)
    ensures IsAddition(aces, AddAccessRights(aces, trustee, right, allow), trustee, right, allow)
  {
    TakesUpMeaning(aces, trustee, right, allow);
    forall i | IsFirst(aces, i, trustee, right, allow)
      ensures AddAccessRights(aces, trustee, right, allow)
              == aces[i := aces[i].(accessMask := aces[i].accessMask + MapAccessMask(right.accessMask))]
    {
      AddAtIndex(aces, trustee, right, allow, i);
    }
    if forall i :: 0 <= i < |aces| ==> !TakesUp(aces[i], trustee, right, allow) {
      AddAtIndex(aces, trustee, right, allow, -1);
      MadeAceIsOfRight(trustee, right, allow);
    }
  }

  /** Before the sort, a complete add ends in one addition to what its removals leave. */
  lemma AddRightWrites(d: Dacl, t: Sid, right: Right, schemaRights: seq<SchemaRight>, allow: bool)
    requires IsEditable(right) && AddRight(d, t, right, schemaRights, allow).Some?
    ensures ClearedForAdd(d, t, right, schemaRights, allow).Some?
    ensures IsAddition(ClearedForAdd(d, t, right, schemaRights, allow).value,
                       AddRight(d, t, right, schemaRights, allow).value, t, right, allow)
  {
    AddIsClearThenBase(d, t, right, schemaRights, allow);
    AddAccessRightsWrites(ClearedForAdd(d, t, right, schemaRights, allow).value, t, right, allow);
  }

  // ---------------------------------------------------------------------------
  // A right whose scope has no ACE yet.

  predicate NoneInScope(aces: seq<Ace>, scope: Scope) {
    forall i :: 0 <= i < |aces| ==> !InScope(aces[i], scope)
  }

  lemma {:induction false} RemoveOutOfScope(aces: seq<Ace>, t: Sid, right: Right, allow: bool)
    requires IsEditable(right) && NoneInScope(aces, ScopeOf(t, right))
    ensures RemoveAccessRights(aces, t, right, allow) == aces
  {
    if aces != [] {
      StrictMatchMeaning(aces[0], t, right, allow);
      RemoveOutOfScope(aces[1..], t, right, allow);
      assert aces == [aces[0]] + aces[1..];
    }
  }

  lemma {:induction false} RemoveAllOutOfScope(aces: seq<Ace>, t: Sid, rights: seq<Right>, allow: bool, scope: Scope)
    requires Uniform(rights, t, scope) && NoneInScope(aces, scope) && aces != []
    ensures RemoveAll(Some(aces), t, rights, allow) == Some(aces)
    decreases |rights|
  {
    if rights != [] {
      assert rights[0] in rights && IsEditable(rights[0]);
      RemoveOutOfScope(aces, t, rights[0], allow);
      RemoveAllOutOfScope(aces, t, rights[1..], allow, scope);
    }
  }

  lemma {:induction false} BreakUpOutOfScope(
      aces: seq<Ace>, t: Sid, superiors: seq<Right>, schemaRights: seq<SchemaRight>, allow: bool, scope: Scope)
    requires Uniform(superiors, t, scope) && NoneInScope(aces, scope)
    ensures BreakUpAll(Some(aces), t, superiors, schemaRights, allow) == Some(aces)
    decreases |superiors|
  {
    if superiors != [] {
      assert superiors[0] in superiors && IsEditable(superiors[0]);
      forall i | 0 <= i < |aces| ensures !(!IsInherited(aces[i]) && AceMatch(aces[i], t, superiors[0], allow)) {
        LooseMatchMeaning(aces[i], t, superiors[0], allow);
      }
      assert !Reads(aces, t, superiors[0], allow);
      BreakUpOutOfScope(aces, t, superiors[1..], schemaRights, allow, scope);
    }
  }

  /** When no ACE is in the scope of a right, a complete add appends the one ACE made of the right. */
  lemma FirstAddAppends(aces: seq<Ace>, t: Sid, right: Right, schemaRights: seq<SchemaRight>, allow: bool)
    requires IsEditable(right) && aces != [] && NoneInScope(aces, ScopeOf(t, right))
    ensures var after := AddRight(Some(aces), t, right, schemaRights, allow);
            && after.Some? && |after.value| == |aces| + 1 && after.value[..|aces|] == aces
            && IsAceOf(after.value[|aces|], t, right, allow)
  {
    var subs, scope := Subordinates(right, schemaRights), ScopeOf(t, right);
    SuperiorsUniform(right, t);
    SubordinatesUniform(right, schemaRights, t);
    BreakUpOutOfScope(aces, t, Superiors(right), schemaRights, !allow, scope);
    RemoveAllOutOfScope(aces, t, subs, allow, scope);
    RemoveAllOutOfScope(aces, t, subs, !allow, scope);
    RemoveOutOfScope(aces, t, right, !allow);
    AddAccessRightsWrites(aces, t, right, allow);
  }

  ghost predicate GainsOneAce(before: seq<Ace>, after: seq<Ace>, t: Sid, right: Right, allow: bool) {
    exists ace :: IsAceOf(ace, t, right, allow) && multiset(after) == multiset(before) + multiset{ace}
  }

  lemma FirstAddGains(
      aces: seq<Ace>, t: Sid, right: Right, schemaRights: seq<SchemaRight>, allow: bool, sorted: seq<Ace>)
    requires IsEditable(right) && aces != [] && NoneInScope(aces, ScopeOf(t, right))
    requires AddRight(Some(aces), t, right, schemaRights, allow).Some?
    requires IsSorting(AddRight(Some(aces), t, right, schemaRights, allow).value, sorted)
    ensures GainsOneAce(aces, sorted, t, right, allow)
  {
    FirstAddAppends(aces, t, right, schemaRights, allow);
    var after := AddRight(Some(aces), t, right, schemaRights, allow).value;
    var ace := after[|aces|];
    assert after == aces + [ace];
  }
}
