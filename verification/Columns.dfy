/**
 The proof view of a DACL: for one scope, one side and one object type, the masks of
 the ACEs with that key, in order. Every base operation changes one such column.
 */
module Columns {
  import opened Primitives
  import opened Aces
  import opened RightsEditor

  ghost predicate Keyed(ace: Ace, scope: Scope, allow: bool, key: OptionalGuid) {
    InScope(ace, scope) && OnSide(ace, allow) && ObjectKey(ace) == key
  }

  ghost function Masks(aces: seq<Ace>, scope: Scope, allow: bool, key: OptionalGuid): seq<Mask> {
    if aces == [] then []
    else if Keyed(aces[0], scope, allow, key) then [aces[0].accessMask] + Masks(aces[1..], scope, allow, key)
    else Masks(aces[1..], scope, allow, key)
  }

  /** Some ACE of the column has all the given bits. */
  ghost predicate Has(masks: seq<Mask>, bits: Mask) {
    exists k :: k in masks && BitmaskIsSet(k, bits)
  }

  ghost function Edited(k: Mask, mask: Mask): Mask {
    if BitmaskIsSet(k, mask) then UnsetMask(k, mask) else k
  }

  ghost predicate Cleared(k: Mask, mask: Mask) {
    BitmaskIsSet(k, mask) && UnsetMask(k, mask) == {}
  }

  ghost function RemoveMask(masks: seq<Mask>, mask: Mask): seq<Mask> {
    if masks == [] then []
    else if Cleared(masks[0], mask) then RemoveMask(masks[1..], mask)
    else [Edited(masks[0], mask)] + RemoveMask(masks[1..], mask)
  }

  ghost function AddMask(masks: seq<Mask>, mask: Mask): seq<Mask> {
    if masks == [] then [mask] else [masks[0] + mask] + masks[1..]
  }

  // ---------------------------------------------------------------------------
  // Base operations act on one column.

  lemma MasksAppend(a: seq<Ace>, b: seq<Ace>, scope: Scope, allow: bool, key: OptionalGuid)
    ensures Masks(a + b, scope, allow, key) == Masks(a, scope, allow, key) + Masks(b, scope, allow, key)
  {
    if a == [] {
      assert a + b == b;
    } else {
      assert (a + b)[1..] == a[1..] + b;
      MasksAppend(a[1..], b, scope, allow, key);
    }
  }

  lemma MasksCons(ace: Ace, rest: seq<Ace>, scope: Scope, allow: bool, key: OptionalGuid)
    ensures Masks([ace] + rest, scope, allow, key)
            == if Keyed(ace, scope, allow, key) then [ace.accessMask] + Masks(rest, scope, allow, key)
               else Masks(rest, scope, allow, key)
  {
    assert ([ace] + rest)[1..] == rest;
  }

  lemma KeyedIgnoresMask(ace: Ace, mask: Mask, scope: Scope, side: bool, key: OptionalGuid)
    ensures Keyed(ace.(accessMask := mask), scope, side, key) == Keyed(ace, scope, side, key)
  {
  }

  /** Whether an edit of the given right reaches the ACE, in terms of keys. */
  lemma StrictMatchIsKeyed(ace: Ace, t: Sid, right: Right, allow: bool, side: bool, key: OptionalGuid)
    requires IsEditable(right)
    ensures StrictMatch(ace, t, right, allow) == Keyed(ace, ScopeOf(t, right), allow, right.objectType)
    ensures StrictMatch(ace, t, right, allow) && Keyed(ace, ScopeOf(t, right), side, key)
            ==> side == allow && key == right.objectType
  {
    StrictMatchMeaning(ace, t, right, allow);
  }

  lemma {:induction false} RemoveColumn(
      aces: seq<Ace>, t: Sid, right: Right, allow: bool, side: bool, key: OptionalGuid)
    requires IsEditable(right)
    ensures var scope := ScopeOf(t, right);
            Masks(RemoveAccessRights(aces, t, right, allow), scope, side, key)
            == if side == allow && key == right.objectType
               then RemoveMask(Masks(aces, scope, side, key), MapAccessMask(right.accessMask))
               else Masks(aces, scope, side, key)
  {
    if aces != [] {
      var ace, mask, scope := aces[0], MapAccessMask(right.accessMask), ScopeOf(t, right);
      var rest := RemoveAccessRights(aces[1..], t, right, allow);
      var edited := UnsetMask(ace.accessMask, mask);
      RemoveColumn(aces[1..], t, right, allow, side, key);
      StrictMatchIsKeyed(ace, t, right, allow, side, key);
      KeyedIgnoresMask(ace, edited, scope, side, key);
      MasksCons(ace, rest, scope, side, key);
      MasksCons(ace.(accessMask := edited), rest, scope, side, key);
      RemoveMaskCons(ace.accessMask, Masks(aces[1..], scope, side, key), mask);
    }
  }

  lemma RemoveMaskCons(head: Mask, tail: seq<Mask>, mask: Mask)
    ensures RemoveMask([head] + tail, mask)
            == if Cleared(head, mask) then RemoveMask(tail, mask) else [Edited(head, mask)] + RemoveMask(tail, mask)
  {
    assert ([head] + tail)[1..] == tail;
  }

  lemma {:induction false} AddColumn(aces: seq<Ace>, t: Sid, right: Right, allow: bool, side: bool, key: OptionalGuid)
    requires IsEditable(right)
    ensures var scope := ScopeOf(t, right);
            Masks(AddAccessRights(aces, t, right, allow), scope, side, key)
            == if side == allow && key == right.objectType
               then AddMask(Masks(aces, scope, side, key), MapAccessMask(right.accessMask))
               else Masks(aces, scope, side, key)
  {
    var mask, scope := MapAccessMask(right.accessMask), ScopeOf(t, right);
    if aces == [] {
      var made := MakeAce(t, right, mask, allow);
      MadeAceMatches(t, right, mask, allow);
      StrictMatchIsKeyed(made, t, right, allow, side, key);
      MasksCons(made, [], scope, side, key);
    } else {
      var ace := aces[0];
      StrictMatchIsKeyed(ace, t, right, allow, side, key);
      KeyedIgnoresMask(ace, ace.accessMask + mask, scope, side, key);
      MasksCons(ace.(accessMask := ace.accessMask + mask), aces[1..], scope, side, key);
      MasksCons(ace, AddAccessRights(aces[1..], t, right, allow), scope, side, key);
      AddColumn(aces[1..], t, right, allow, side, key);
    }
  }

  // ---------------------------------------------------------------------------
  // The state shown for a right, read off two columns.

  lemma {:induction false} HasMeaning(aces: seq<Ace>, scope: Scope, allow: bool, key: OptionalGuid, bits: Mask)
    ensures Has(Masks(aces, scope, allow, key), bits)
            <==> exists i :: 0 <= i < |aces| && Keyed(aces[i], scope, allow, key) &&
                             BitmaskIsSet(aces[i].accessMask, bits)
  {
    if aces != [] {
      var ms, rest := Masks(aces, scope, allow, key), Masks(aces[1..], scope, allow, key);
      HasMeaning(aces[1..], scope, allow, key, bits);
      assert Has(ms, bits)
          <==> (Keyed(aces[0], scope, allow, key) && BitmaskIsSet(aces[0].accessMask, bits)) || Has(rest, bits) by {
        if Keyed(aces[0], scope, allow, key) {
          assert ms == [aces[0].accessMask] + rest;
        } else {
          assert ms == rest;
        }
      }
      if i :| 0 <= i < |aces| && Keyed(aces[i], scope, allow, key) && BitmaskIsSet(aces[i].accessMask, bits) {
        assert i > 0 ==> aces[i] == aces[1..][i - 1];
      }
      if i :| 0 <= i < |aces[1..]| && Keyed(aces[1..][i], scope, allow, key) &&
              BitmaskIsSet(aces[1..][i].accessMask, bits) {
        assert aces[1..][i] == aces[i + 1];
      }
    }
  }

  lemma ReadsMeaning(aces: seq<Ace>, t: Sid, right: Right, allow: bool)
    requires IsEditable(right)
    ensures var scope, bits := ScopeOf(t, right), MapAccessMask(right.accessMask);
            Reads(aces, t, right, allow)
            <==> Has(Masks(aces, scope, allow, []), bits) || Has(Masks(aces, scope, allow, right.objectType), bits)
  {
    var scope, bits := ScopeOf(t, right), MapAccessMask(right.accessMask);
    HasMeaning(aces, scope, allow, [], bits);
    HasMeaning(aces, scope, allow, right.objectType, bits);
    forall i | 0 <= i < |aces|
      ensures !IsInherited(aces[i]) && AceMatch(aces[i], t, right, allow)
              <==> BitmaskIsSet(aces[i].accessMask, bits)
                   && (Keyed(aces[i], scope, allow, []) || Keyed(aces[i], scope, allow, right.objectType))
    {
      LooseMatchMeaning(aces[i], t, right, allow);
    }
  }

  // ---------------------------------------------------------------------------
  // What adding and removing bits does to a column.

  lemma {:induction false} RemoveMaskHas(masks: seq<Mask>, mask: Mask, bits: Mask)
    requires bits != {}
    ensures Has(RemoveMask(masks, mask), bits) <==> exists k :: k in masks && BitmaskIsSet(Edited(k, mask), bits)
  {
    if masks != [] {
      var head, tail := masks[0], RemoveMask(masks[1..], mask);
      RemoveMaskHas(masks[1..], mask, bits);
      assert masks == [head] + masks[1..];
      ClearedHasNothing(head, mask, bits);
      HasCons(Edited(head, mask), tail, bits);
    }
  }

  lemma HasCons(head: Mask, tail: seq<Mask>, bits: Mask)
    ensures Has([head] + tail, bits) <==> BitmaskIsSet(head, bits) || Has(tail, bits)
  {
    assert head in [head] + tail;
  }

  lemma ClearedHasNothing(k: Mask, mask: Mask, bits: Mask)
    requires bits != {}
    ensures Cleared(k, mask) ==> !BitmaskIsSet(Edited(k, mask), bits)
  {
  }

  lemma AddMaskHas(masks: seq<Mask>, mask: Mask, bits: Mask)
    ensures Has(AddMask(masks, mask), mask)
    ensures Has(masks, bits) ==> Has(AddMask(masks, mask), bits)
    ensures bits != {} && mask * bits == {} && Has(AddMask(masks, mask), bits) ==> Has(masks, bits)
  {
    var head: Mask := if masks == [] then {} else masks[0];
    var tail := if masks == [] then [] else masks[1..];
    assert {} + mask == mask;
    assert AddMask(masks, mask) == [head + mask] + tail;
    assert masks != [] ==> masks == [head] + tail;
    HasCons(head + mask, tail, mask);
    HasCons(head + mask, tail, bits);
    HasCons(head, tail, bits);
    OrBits(head, mask, bits);
  }

  lemma OrBits(head: Mask, mask: Mask, bits: Mask)
    ensures BitmaskIsSet(head + mask, mask)
    ensures BitmaskIsSet(head, bits) ==> BitmaskIsSet(head + mask, bits)
    ensures mask * bits == {} && BitmaskIsSet(head + mask, bits) ==> BitmaskIsSet(head, bits)
    ensures bits != {} ==> !BitmaskIsSet({}, bits)
  {
    assert forall b :: b in bits && b in mask ==> b in mask * bits;
  }
}
