/** The canonical order of a DACL: the comparator it is sorted with and the simplified one it is checked with. */
module AclOrder {
  import opened Aces

  /** Two object ACEs with the same object flags must agree on the GUIDs that those flags announce. */
  predicate AceEqual(a: Ace, b: Ace) {
    && a.aceType == b.aceType && a.flags == b.flags && a.accessMask == b.accessMask
    && (IsObjectType(a.aceType) ==>
          && a.objectFlags == b.objectFlags
          && (OBJECT_TYPE_PRESENT_BIT in a.objectFlags ==> a.objectType == b.objectType)
          && (INHERITED_OBJECT_TYPE_PRESENT_BIT in a.objectFlags ==> a.inheritedType == b.inheritedType))
    && a.trustee == b.trustee
  }

  function AceCompareSimplified(a: Ace, b: Ace): int {
    if AceEqual(a, b) then 0
    else if IsInherited(a) != IsInherited(b) then if IsInherited(a) then 1 else -1
    else if IsAccessAllowed(a) != IsAccessAllowed(b) then if IsAccessAllowed(a) then 1 else -1
    else 0
  }

  /** Audit, alarm and callback ACEs: neither plain nor object allow or deny. */
  predicate IsOtherType(ace: Ace) {
    !IsAccessAllowed(ace) && !IsAccessDenied(ace)
  }

  /** The leading keys of the comparator that sorts; ties are broken by keys that no property here depends on. */
  function SortRank(ace: Ace): nat {
    (if IsInherited(ace) then 8 else 0)
    + (if IsOtherType(ace) then 4 else 0)
    + (if IsAccessAllowed(ace) then 2 else 0)
    + (if ace.aceType == ACCESS_ALLOWED_OBJECT || ace.aceType == ACCESS_DENIED_OBJECT then 1 else 0)
  }

  ghost predicate IsSorted(aces: seq<Ace>) {
    forall i, j :: 0 <= i < j < |aces| ==> SortRank(aces[i]) <= SortRank(aces[j])
  }

  /** What qsort guarantees: the same ACEs, in an order that the comparator accepts. */
  ghost predicate IsSorting(before: seq<Ace>, after: seq<Ace>) {
    multiset(after) == multiset(before) && IsSorted(after)
  }

  /** The order Microsoft documents: explicit before inherited, and in each group denied before allowed. */
  function CanonicalKey(ace: Ace): nat {
    (if IsInherited(ace) then 2 else 0) + (if IsAccessAllowed(ace) then 1 else 0)
  }

  ghost predicate IsCanonical(aces: seq<Ace>) {
    forall i, j :: 0 <= i < j < |aces| ==> CanonicalKey(aces[i]) <= CanonicalKey(aces[j])
  }

  lemma SimplifiedMeaning(a: Ace, b: Ace)
    ensures AceCompareSimplified(a, b) <= 0 <==> CanonicalKey(a) <= CanonicalKey(b)
    ensures AceCompareSimplified(a, b) < 0 <==> CanonicalKey(a) < CanonicalKey(b)
  {
  }

  /** Explicit denials come first, then explicit allow ACEs, inherited denials, inherited allow ACEs. */
  lemma CanonicalOrder(a: Ace, b: Ace)
    ensures CanonicalKey(a) < CanonicalKey(b) <==>
            if IsInherited(a) == IsInherited(b) then !IsAccessAllowed(a) && IsAccessAllowed(b) else IsInherited(b)
  {
  }

  /** Sorting puts explicit ACEs first; among these or the others, audit and alarm ACEs last; then denials before allow
      ACEs; then ACEs for the entity before those for one of its properties or children. */
  lemma RankOrder(a: Ace, b: Ace)
    ensures SortRank(a) < SortRank(b) <==>
            if IsInherited(a) != IsInherited(b) then IsInherited(b)
            else if IsOtherType(a) != IsOtherType(b) then IsOtherType(b)
            else if IsAccessAllowed(a) != IsAccessAllowed(b) then IsAccessAllowed(b)
            else !(5 <= a.aceType <= 6) && 5 <= b.aceType <= 6
  {
  }

  /** Equal ACEs agree in all but GUIDs that they do not announce. */
  lemma EqualExactly(a: Ace, b: Ace)
    ensures AceEqual(a, b) <==>
      && a.trustee == b.trustee && a.aceType == b.aceType && a.flags == b.flags && a.accessMask == b.accessMask
      && (IsObjectType(a.aceType) ==> a.objectFlags == b.objectFlags)
      && ObjectKey(a) == ObjectKey(b) && InheritedKey(a) == InheritedKey(b)
  {
  }

  /** The check compares neighbours only, and accepts exactly the canonical lists. */
  method IsOrderCorrect(dacl: seq<Ace>) returns (ok: bool)
    requires dacl != []
    ensures ok <==> IsCanonical(dacl)
  {
    var curr, rest := dacl[0], dacl[1..];
    ok := true;
    ghost var n := 1;
    while rest != []
      invariant 1 <= n <= |dacl| && rest == dacl[n..] && curr == dacl[n - 1]
      invariant ok <==> IsCanonical(dacl[..n])
      decreases |rest|
    {
      var next := rest[0];
      rest := rest[1..];
      SimplifiedMeaning(curr, next);
      assert dacl[..n + 1][..n] == dacl[..n];
      assert dacl[..n + 1][n] == next && dacl[..n + 1][n - 1] == curr;
      CanonicalSnoc(dacl[..n], next);
      assert dacl[..n + 1] == dacl[..n] + [next];
      if !(AceCompareSimplified(curr, next) <= 0) {
        ok := false;
      }
      curr := next;
      n := n + 1;
    }
    assert dacl[..n] == dacl;
  }

  lemma CanonicalSnoc(aces: seq<Ace>, next: Ace)
    requires aces != []
    ensures IsCanonical(aces + [next]) <==> IsCanonical(aces) && CanonicalKey(aces[|aces| - 1]) <= CanonicalKey(next)
  {
    var more := aces + [next];
    if IsCanonical(more) {
      assert more[|aces| - 1] == aces[|aces| - 1] && more[|aces|] == next;
      forall i, j | 0 <= i < j < |aces| ensures CanonicalKey(aces[i]) <= CanonicalKey(aces[j]) {
        assert more[i] == aces[i] && more[j] == aces[j];
      }
    }
  }

  /** An allow ACE and an ACE of another type, both inherited or both explicit. */
  ghost predicate AreMixed(a: Ace, b: Ace) {
    IsAccessAllowed(a) && IsOtherType(b) && IsInherited(a) == IsInherited(b)
  }

  ghost predicate MixesTypes(aces: seq<Ace>) {
    exists i, j :: 0 <= i < |aces| && 0 <= j < |aces| && AreMixed(aces[i], aces[j])
  }

  /**
   The two comparators disagree on where audit, alarm and callback ACEs go: a sorted
   DACL passes the order check exactly when it does not mix them with allow ACEs.
   */
  lemma SortedPassesCheckExactly(aces: seq<Ace>)
    requires IsSorted(aces)
    ensures IsCanonical(aces) <==> !MixesTypes(aces)
  {
    if MixesTypes(aces) {
      var i, j :| 0 <= i < |aces| && 0 <= j < |aces| && AreMixed(aces[i], aces[j]);
      assert SortRank(aces[i]) < SortRank(aces[j]);
      assert i < j && CanonicalKey(aces[i]) > CanonicalKey(aces[j]);
    } else {
      forall i, j | 0 <= i < j < |aces| ensures CanonicalKey(aces[i]) <= CanonicalKey(aces[j]) {
        RankRefinesKey(aces[i], aces[j]);
      }
    }
  }

  lemma RankRefinesKey(a: Ace, b: Ace)
    requires SortRank(a) <= SortRank(b)
    ensures CanonicalKey(a) <= CanonicalKey(b) || AreMixed(a, b)
  {
  }
}
