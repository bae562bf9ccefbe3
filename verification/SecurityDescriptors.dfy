/** The security descriptor as an object: its DACL is edited in place and may be NULL. */
module SecurityDescriptors {
  import opened Primitives
  import opened Aces
  import opened AclOrder
  import opened RightsEditor
  import opened RightsProofs
  import opened RightsTheorems
  import opened RightsRuns
  import opened NullDacl
  import opened Additions

  /** The four check marks shown for a right. */
  datatype RightMarks = RightMarks(inheritedAllow: bool, inheritedDeny: bool, allow: bool, deny: bool)

  /** What the marks tell of the ACEs. */
  predicate MarksMean(aces: seq<Ace>, trustee: Sid, right: Right, marks: RightMarks) {
    && (marks.inheritedAllow <==> exists i :: 0 <= i < |aces| && GrantsByInheritance(aces[i], trustee, right, true))
    && (marks.inheritedDeny <==> exists i :: 0 <= i < |aces| && GrantsByInheritance(aces[i], trustee, right, false))
    && (marks.allow <==> exists i :: 0 <= i < |aces| && GrantsExplicitly(aces[i], trustee, right, true))
    && (marks.deny <==> exists i :: 0 <= i < |aces| && GrantsExplicitly(aces[i], trustee, right, false))
  }

  ghost predicate IsSortingOf(d: Dacl, aces: seq<Ace>) {
    d.Some? && IsSorting(d.value, aces)
  }

  /** No ACE is in the scope yet, though there is some ACE. */
  ghost predicate IsFirstOfScope(d: Dacl, scope: Scope) {
    d.Some? && d.value != [] && NoneInScope(d.value, scope)
  }

  lemma RightStateMeaning(aces: seq<Ace>, trustee: Sid, right: Right, allow: bool)
    requires IsEditable(right)
    ensures RightState(aces, trustee, right, true, allow)
            <==> exists i :: 0 <= i < |aces| && GrantsByInheritance(aces[i], trustee, right, allow)
    ensures RightState(aces, trustee, right, false, allow)
            <==> exists i :: 0 <= i < |aces| && GrantsExplicitly(aces[i], trustee, right, allow)
  {
    forall i | 0 <= i < |aces|
      ensures IsInherited(aces[i]) && AceMatch(aces[i], trustee, right, allow)
              <==> GrantsByInheritance(aces[i], trustee, right, allow)
      ensures !IsInherited(aces[i]) && AceMatch(aces[i], trustee, right, allow)
              <==> GrantsExplicitly(aces[i], trustee, right, allow)
    {
      LooseMatchInherited(aces[i], trustee, right, allow);
      LooseMatchMeaning(aces[i], trustee, right, allow);
    }
  }

  class Acl {
    var aces: seq<Ace>

    constructor ()
      ensures aces == []
    {
      aces := [];
    }
  }

  class SecurityDescriptor {
    var dacl: Acl?

    constructor (initial: Acl?)
      ensures dacl == initial
    {
      dacl := initial;
    }

    ghost function State(): Dacl
      reads this, dacl
    {
      if dacl == null then None else Some(dacl.aces)
    }

    method GetDacl() returns (out: seq<Ace>)
      requires dacl != null
      ensures out == dacl.aces
    {
      out := [];
      for i := 0 to |dacl.aces|
        invariant out == dacl.aces[..i]
      {
        out := out + [dacl.aces[i]];
      }
    }

    method DaclAdd(ace: Ace)
      modifies this, dacl
      ensures State() == Some((if old(dacl) == null then [] else old(dacl.aces)) + [ace])
      ensures dacl == old(dacl) || fresh(dacl)
    {
      if dacl == null {
        dacl := new Acl();
      }
      dacl.aces := dacl.aces + [ace];
    }

    method ReplaceDacl(newDacl: seq<Ace>)
      modifies this
      ensures State() == RightsEditor.ReplaceDacl(newDacl)
      ensures dacl != null ==> fresh(dacl)
    {
      dacl := null;
      for i := 0 to |newDacl|
        invariant dacl != null ==> fresh(dacl)
        invariant State() == RightsEditor.ReplaceDacl(newDacl[..i])
      {
        assert newDacl[..i + 1] == newDacl[..i] + [newDacl[i]];
        DaclAdd(newDacl[i]);
      }
      assert newDacl[..|newDacl|] == newDacl;
    }

    /** The first ACE that an edit of the right would reuse, or -1. */
    static method MatchDaclIndex(trustee: Sid, aces: seq<Ace>, right: Right, allow: bool) returns (index: int)
      ensures -1 <= index < |aces|
      ensures index >= 0 ==> StrictMatch(aces[index], trustee, right, allow)
      ensures forall j :: 0 <= j < (if index >= 0 then index else |aces|) ==>
              !StrictMatch(aces[j], trustee, right, allow)
    {
      for i := 0 to |aces|
        invariant forall j :: 0 <= j < i ==> !StrictMatch(aces[j], trustee, right, allow)
      {
        if StrictMatch(aces[i], trustee, right, allow) {
          return i;
        }
      }
      return -1;
    }

    method AddRightBase(trustee: Sid, right: Right, allow: bool)
      requires dacl != null
      modifies dacl
      ensures State() == RightsEditor.AddRightBase(old(State()), trustee, right, allow)
      ensures IsEditable(right) ==> IsAddition(old(dacl.aces), dacl.aces, trustee, right, allow)
    {
      ghost var before := dacl.aces;
      var mask := MapAccessMask(right.accessMask);
      var aces := GetDacl();
      var index := MatchDaclIndex(trustee, aces, right, allow);
      AddAtIndex(aces, trustee, right, allow, index);
      if index != -1 {
        if !BitmaskIsSet(aces[index].accessMask, mask) {
          dacl.aces := dacl.aces[index := aces[index].(accessMask := aces[index].accessMask + mask)];
        } else {
          assert aces[index].accessMask + mask == aces[index].accessMask;
          assert aces[index := aces[index]] == aces;
        }
      } else {
        dacl.aces := dacl.aces + [MakeAce(trustee, right, mask, allow)];
      }
      if IsEditable(right) {
        AddAccessRightsWrites(before, trustee, right, allow);
      }
    }

    /** The DACL without the right: matching ACEs lose its bits, and go when no bit is left. */
    static method FilterAces(aces: seq<Ace>, trustee: Sid, right: Right, allow: bool) returns (out: seq<Ace>)
      ensures out == RemoveAccessRights(aces, trustee, right, allow)
    {
      var mask := MapAccessMask(right.accessMask);
      out := [];
      for i := 0 to |aces|
        invariant out == RemoveAccessRights(aces[..i], trustee, right, allow)
      {
        var ace := aces[i];
        assert aces[..i + 1] == aces[..i] + [ace];
        RemoveSnoc(aces[..i], ace, trustee, right, allow);
        if StrictMatch(ace, trustee, right, allow) && BitmaskIsSet(ace.accessMask, mask) {
          var edited := UnsetMask(ace.accessMask, mask);
          if edited != {} {
            out := out + [ace.(accessMask := edited)];
          }
        } else {
          out := out + [ace];
        }
      }
      assert aces[..|aces|] == aces;
    }

    static lemma {:induction false} RemoveSnoc(aces: seq<Ace>, ace: Ace, trustee: Sid, right: Right, allow: bool)
      ensures var mask, before := MapAccessMask(right.accessMask), RemoveAccessRights(aces, trustee, right, allow);
              RemoveAccessRights(aces + [ace], trustee, right, allow)
              == if StrictMatch(ace, trustee, right, allow) && BitmaskIsSet(ace.accessMask, mask) then
                   if UnsetMask(ace.accessMask, mask) == {} then before
                   else before + [ace.(accessMask := UnsetMask(ace.accessMask, mask))]
                 else before + [ace]
    {
      if aces == [] {
        assert [] + [ace] == [ace];
      } else {
        assert (aces + [ace])[1..] == aces[1..] + [ace];
        RemoveSnoc(aces[1..], ace, trustee, right, allow);
      }
    }

    method RemoveRightBase(trustee: Sid, right: Right, allow: bool)
      requires dacl != null
      modifies this
      ensures State() == RightsEditor.RemoveRightBase(old(State()), trustee, right, allow)
      ensures dacl != null ==> fresh(dacl)
    {
      var aces := GetDacl();
      var out := FilterAces(aces, trustee, right, allow);
      ReplaceDacl(out);
    }

    /** All four marks in one pass over the DACL. */
    method GetRightState(trustee: Sid, right: Right) returns (marks: RightMarks)
      requires dacl != null
      ensures marks.inheritedAllow <==> RightState(dacl.aces, trustee, right, true, true)
      ensures marks.inheritedDeny <==> RightState(dacl.aces, trustee, right, true, false)
      ensures marks.allow <==> RightState(dacl.aces, trustee, right, false, true)
      ensures marks.deny <==> RightState(dacl.aces, trustee, right, false, false)
      ensures IsEditable(right) ==> MarksMean(dacl.aces, trustee, right, marks)
    {
      var aces := GetDacl();
      marks := RightMarks(false, false, false, false);
      for i := 0 to |aces|
        invariant marks.inheritedAllow <==> RightState(aces[..i], trustee, right, true, true)
        invariant marks.inheritedDeny <==> RightState(aces[..i], trustee, right, true, false)
        invariant marks.allow <==> RightState(aces[..i], trustee, right, false, true)
        invariant marks.deny <==> RightState(aces[..i], trustee, right, false, false)
      {
        var ace := aces[i];
        assert aces[..i + 1] == aces[..i] + [ace];
        RightStateSnoc(aces[..i], ace, trustee, right);
        var forAllow := AceMatch(ace, trustee, right, true);
        var forDeny := AceMatch(ace, trustee, right, false);
        if forAllow || forDeny {
          if IsInherited(ace) {
            if forAllow { marks := marks.(inheritedAllow := true); } else { marks := marks.(inheritedDeny := true); }
          } else {
            if forAllow { marks := marks.(allow := true); } else { marks := marks.(deny := true); }
          }
        }
      }
      assert aces[..|aces|] == aces;
      if IsEditable(right) {
        RightStateMeaning(aces, trustee, right, true);
        RightStateMeaning(aces, trustee, right, false);
      }
    }

    static lemma RightStateSnoc(aces: seq<Ace>, ace: Ace, trustee: Sid, right: Right)
      ensures forall inherited, allow ::
        RightState(aces + [ace], trustee, right, inherited, allow)
        <==> RightState(aces, trustee, right, inherited, allow)
             || (IsInherited(ace) == inherited && AceMatch(ace, trustee, right, allow))
    {
      forall inherited, allow
        ensures RightState(aces + [ace], trustee, right, inherited, allow)
          <==> RightState(aces, trustee, right, inherited, allow)
               || (IsInherited(ace) == inherited && AceMatch(ace, trustee, right, allow))
      {
        var more := aces + [ace];
        assert more[|aces|] == ace;
        if i :| 0 <= i < |aces| && IsInherited(aces[i]) == inherited && AceMatch(aces[i], trustee, right, allow) {
          assert more[i] == aces[i];
        }
      }
    }

    /** Stands for the library sort: the result is some list that IsSorting allows. */
    method SortDacl()
      requires dacl != null
      modifies dacl
      ensures IsSorting(old(dacl.aces), dacl.aces)
    {
      var aces := dacl.aces;
      var sorted := [];
      for i := 0 to |aces|
        invariant IsSorting(aces[..i], sorted)
      {
        assert aces[..i + 1] == aces[..i] + [aces[i]];
        InsertSorts(sorted, aces[i]);
        sorted := Insert(sorted, aces[i]);
      }
      assert aces[..|aces|] == aces;
      dacl.aces := sorted;
    }

    static function Insert(sorted: seq<Ace>, ace: Ace): seq<Ace> {
      if sorted == [] || SortRank(sorted[|sorted| - 1]) <= SortRank(ace) then sorted + [ace]
      else Insert(sorted[..|sorted| - 1], ace) + [sorted[|sorted| - 1]]
    }

    static lemma {:induction false} InsertSorts(sorted: seq<Ace>, ace: Ace)
      requires IsSorted(sorted)
      ensures IsSorting(sorted + [ace], Insert(sorted, ace))
    {
      if sorted != [] {
        var last, front := sorted[|sorted| - 1], sorted[..|sorted| - 1];
        assert sorted == front + [last];
        if SortRank(last) <= SortRank(ace) {
          AppendLargest(sorted, ace);
        } else {
          InsertSorts(front, ace);
          AppendBoth(front, ace, last, Insert(front, ace));
        }
      }
    }

    static lemma AppendLargest(sorted: seq<Ace>, ace: Ace)
      requires IsSorted(sorted) && (sorted != [] ==> SortRank(sorted[|sorted| - 1]) <= SortRank(ace))
      ensures IsSorted(sorted + [ace])
    {
      var more := sorted + [ace];
      forall i, j | 0 <= i < j < |more| ensures SortRank(more[i]) <= SortRank(more[j]) {
        if j == |sorted| && i < |sorted| - 1 {
          assert SortRank(sorted[i]) <= SortRank(sorted[|sorted| - 1]);
        }
      }
    }

    static lemma AppendBoth(front: seq<Ace>, ace: Ace, last: Ace, r: seq<Ace>)
      requires IsSorted(front + [last]) && SortRank(ace) <= SortRank(last) && IsSorting(front + [ace], r)
      ensures IsSorting(front + [last] + [ace], r + [last])
    {
      if r != [] {
        var x := r[|r| - 1];
        assert x in multiset(r);
        assert x in front + [ace];
        if x in front {
          var i :| 0 <= i < |front| && front[i] == x;
          assert (front + [last])[i] == x && (front + [last])[|front|] == last;
        }
      }
      AppendLargest(r, last);
    }

    // -------------------------------------------------------------------------
    // Complete operations. They stop, not completed, where the source reads through NULL.

    method RemoveRights(trustee: Sid, rights: seq<Right>, allow: bool)
      modifies this
      ensures State() == RemoveAll(old(State()), trustee, rights, allow)
      ensures dacl != null ==> dacl == old(dacl) || fresh(dacl)
    {
      for i := 0 to |rights|
        invariant RemoveAll(State(), trustee, rights[i..], allow) == RemoveAll(old(State()), trustee, rights, allow)
        invariant dacl != null ==> dacl == old(dacl) || fresh(dacl)
      {
        if dacl == null {
          NullStaysNull(trustee, rights[i..], allow);
          return;
        }
        assert rights[i..][1..] == rights[i + 1..];
        RemoveRightBase(trustee, rights[i], allow);
      }
    }

    method AddRights(trustee: Sid, rights: seq<Right>, allow: bool)
      modifies dacl
      ensures State() == AddAll(old(State()), trustee, rights, allow)
    {
      for i := 0 to |rights|
        invariant AddAll(State(), trustee, rights[i..], allow) == AddAll(old(State()), trustee, rights, allow)
      {
        if dacl == null {
          NullStaysNull(trustee, rights[i..], allow);
          return;
        }
        assert rights[i..][1..] == rights[i + 1..];
        AddRightBase(trustee, rights[i], allow);
      }
    }

    method BreakUpSuperiors(trustee: Sid, superiors: seq<Right>, schemaRights: seq<SchemaRight>, side: bool)
      modifies this, dacl
      ensures State() == BreakUpAll(old(State()), trustee, superiors, schemaRights, side)
      ensures dacl != null ==> dacl == old(dacl) || fresh(dacl)
    {
      for i := 0 to |superiors|
        invariant BreakUpAll(State(), trustee, superiors[i..], schemaRights, side)
                  == BreakUpAll(old(State()), trustee, superiors, schemaRights, side)
        invariant dacl != null ==> dacl == old(dacl) || fresh(dacl)
      {
        if dacl == null {
          BreakUpAllSome(None, trustee, superiors[i..], schemaRights, side);
          return;
        }
        assert superiors[i..][1..] == superiors[i + 1..];
        var marks := GetRightState(trustee, superiors[i]);
        var superiorIsSet := if side then marks.allow else marks.deny;
        if superiorIsSet {
          RemoveRightBase(trustee, superiors[i], side);
          AddRights(trustee, Subordinates(superiors[i], schemaRights), side);
        }
      }
    }

    /** What a complete add is specified to do, before the sort. */
    static lemma AddRightOutcome(d: Dacl, t: Sid, right: Right, schemaRights: seq<SchemaRight>, allow: bool)
      ensures var after := RightsEditor.AddRight(d, t, right, schemaRights, allow);
              && (IsValid(right) ==>
                  (after.Some? <==> d.Some? && !AddMeetsNull(d.value, t, right, schemaRights, allow)))
              && (IsEditable(right) && SomeOutside(d, ScopeOf(t, right), true, true) ==> after.Some?)
    {
      if IsValid(right) && d.Some? {
        AddMeetsNullExactly(d.value, t, right, schemaRights, allow);
      } else if d.None? {
        BreakUpAllSome(d, t, Superiors(right), schemaRights, !allow);
        NullStaysNull(t, Subordinates(right, schemaRights), allow);
        NullStaysNull(t, Subordinates(right, schemaRights), !allow);
      }
      if IsEditable(right) && SomeOutside(d, ScopeOf(t, right), true, true) {
        var x :| x in d.value && IsOutside(x, ScopeOf(t, right), true, true);
        AddRightConserves(d, t, right, schemaRights, allow, x);
      }
    }

    /** What holds after the sort of a complete add. */
    static lemma AddRightShown(
        d: Dacl, t: Sid, right: Right, schemaRights: seq<SchemaRight>, allow: bool, sorted: seq<Ace>)
      requires IsSortingOf(RightsEditor.AddRight(d, t, right, schemaRights, allow), sorted)
      ensures IsListed(right) ==> Reads(sorted, t, right, allow) && !Reads(sorted, t, right, !allow)
      ensures IsEditable(right) && IsFirstOfScope(d, ScopeOf(t, right)) ==>
        GainsOneAce(d.value, sorted, t, right, allow)
    {
      var after := RightsEditor.AddRight(d, t, right, schemaRights, allow).value;
      if IsListed(right) {
        AddRightSets(d, t, right, schemaRights, allow, right);
        SortingKeepsState(after, sorted, t, right, false, allow);
        SortingKeepsState(after, sorted, t, right, false, !allow);
      }
      if IsEditable(right) && IsFirstOfScope(d, ScopeOf(t, right)) {
        FirstAddGains(d.value, t, right, schemaRights, allow, sorted);
      }
    }

    /** What a complete remove is specified to do, before the sort. */
    static lemma RemoveRightOutcome(d: Dacl, t: Sid, right: Right, schemaRights: seq<SchemaRight>, allow: bool)
      ensures var after := RightsEditor.RemoveRight(d, t, right, schemaRights, allow);
              && (IsValid(right) ==>
                  (after.Some? <==> d.Some? && !RemoveMeetsNull(d.value, t, right, schemaRights, allow)))
              && (IsEditable(right) && SomeOutside(d, ScopeOf(t, right), allow, !allow) ==> after.Some?)
              && (IsListed(right) && after.Some? ==> !Reads(after.value, t, right, allow))
    {
      if IsValid(right) && d.Some? {
        RemoveMeetsNullExactly(d.value, t, right, schemaRights, allow);
      } else if d.None? {
        BreakUpAllSome(d, t, Superiors(right), schemaRights, allow);
        NullStaysNull(t, Subordinates(right, schemaRights), allow);
      }
      if IsEditable(right) && SomeOutside(d, ScopeOf(t, right), allow, !allow) {
        var x :| x in d.value && IsOutside(x, ScopeOf(t, right), allow, !allow);
        RemoveRightConserves(d, t, right, schemaRights, allow, x);
      }
      if IsListed(right) && RightsEditor.RemoveRight(d, t, right, schemaRights, allow).Some? {
        RemoveRightUnsets(d, t, right, schemaRights, allow, right);
      }
    }

    method AddRight(trustee: Sid, right: Right, schemaRights: seq<SchemaRight>, allow: bool) returns (completed: bool)
      modifies this, dacl
      ensures IsValid(right) ==>
        completed == (old(State()).Some? && !AddMeetsNull(old(State()).value, trustee, right, schemaRights, allow))
      ensures completed == RightsEditor.AddRight(old(State()), trustee, right, schemaRights, allow).Some?
      ensures completed ==> dacl != null
      ensures completed ==>
              IsSortingOf(RightsEditor.AddRight(old(State()), trustee, right, schemaRights, allow), dacl.aces)
      ensures completed && IsListed(right) ==>
        Reads(dacl.aces, trustee, right, allow) && !Reads(dacl.aces, trustee, right, !allow)
      ensures IsEditable(right) && SomeOutside(old(State()), ScopeOf(trustee, right), true, true) ==> completed
      ensures completed && IsEditable(right) && IsFirstOfScope(old(State()), ScopeOf(trustee, right)) ==>
        GainsOneAce(old(State()).value, dacl.aces, trustee, right, allow)
    {
      ghost var spec := RightsEditor.AddRight(State(), trustee, right, schemaRights, allow);
      AddRightOutcome(State(), trustee, right, schemaRights, allow);
      var subordinates := Subordinates(right, schemaRights);
      BreakUpSuperiors(trustee, Superiors(right), schemaRights, !allow);
      RemoveRights(trustee, subordinates, allow);
      if dacl != null {
        RemoveRightBase(trustee, right, !allow);
      }
      RemoveRights(trustee, subordinates, !allow);
      completed := dacl != null;
      if completed {
        AddRightBase(trustee, right, allow);
        assert State() == spec;
        SortDacl();
        AddRightShown(old(State()), trustee, right, schemaRights, allow, dacl.aces);
      }
    }

    method RemoveRight(trustee: Sid, right: Right, schemaRights: seq<SchemaRight>, allow: bool)
        returns (completed: bool)
      modifies this, dacl
      ensures IsValid(right) ==>
        completed == (old(State()).Some? && !RemoveMeetsNull(old(State()).value, trustee, right, schemaRights, allow))
      ensures completed == RightsEditor.RemoveRight(old(State()), trustee, right, schemaRights, allow).Some?
      ensures completed ==> dacl != null
      ensures completed ==>
              IsSortingOf(RightsEditor.RemoveRight(old(State()), trustee, right, schemaRights, allow), dacl.aces)
      ensures completed && IsListed(right) ==> !Reads(dacl.aces, trustee, right, allow)
      ensures IsEditable(right) && SomeOutside(old(State()), ScopeOf(trustee, right), allow, !allow) ==> completed
    {
      ghost var spec := RightsEditor.RemoveRight(State(), trustee, right, schemaRights, allow);
      RemoveRightOutcome(State(), trustee, right, schemaRights, allow);
      BreakUpSuperiors(trustee, Superiors(right), schemaRights, allow);
      if dacl != null {
        RemoveRightBase(trustee, right, allow);
      }
      RemoveRights(trustee, Subordinates(right, schemaRights), allow);
      assert State() == spec;
      completed := dacl != null;
      if completed {
        SortDacl();
        SortingKeepsState(spec.value, dacl.aces, trustee, right, false, allow);
      }
    }
  }
}
