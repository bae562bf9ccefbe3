/** The rights that a superior right stands for, and the common rights of every class, in their order. */
module RightLists {
  import opened Primitives
  import opened Aces
  import opened RightsEditor
  import opened SddlAccess
  import opened SddlLetters

  /** One after the other, as they are in the list of the class. */
  lemma {:induction false} SubordinatesInOrder(right: Right, a: seq<Right>, b: seq<Right>)
    ensures SubordinatesAmong(right, a + b) == SubordinatesAmong(right, a) + SubordinatesAmong(right, b)
  {
    if a == [] {
      assert a + b == b;
    } else {
      assert (a + b)[1..] == a[1..] + b;
      SubordinatesInOrder(right, a[1..], b);
    }
  }

  /** Each with its own mask and object type, in the scope of the superior. */
  lemma SubordinateOfOne(right: Right, c: Right)
    ensures SubordinatesAmong(right, [c]) ==
            if IsSubordinateMatch(right.accessMask, c)
            then [Right(c.accessMask, c.objectType, right.inheritedType, right.flags)] else []
  {
    assert [c][1..] == [] && SubordinatesAmong(right, []) == [];
  }

  // The numbers of the common rights in the order of the list.
  const COMMON_NUMBERS: seq<nat> := [
    0xF_01FF, 0x2_0094, 0x2_0028, 0x4, 0x10, 0x20, 0x1_0000, 0x40, 0x2_0000, 0x4_0000, 0x8_0000, 0x8, 0x100, 0x1, 0x2]

  lemma OneBitMask(mask: Mask, b: Bit)
    requires mask == {b}
    ensures MaskValue(mask) == TwoToThe(b)
  {
    ValueOfBitFrom(b, 0);
  }

  ghost function CommonBit(i: nat): Bit {
    if i == 3 then 2 else if i == 4 then 4 else if i == 5 then 5 else if i == 6 then 16 else if i == 7 then 6
    else if i == 8 then 17 else if i == 9 then 18 else if i == 10 then 19 else if i == 11 then 3
    else if i == 12 then 8 else if i == 13 then 0 else 1
  }

  lemma CommonBitIs(i: nat)
    requires 3 <= i < 15
    ensures COMMON_RIGHTS[i] == {CommonBit(i)}
  {
  }

  lemma CommonBitNumber(i: nat)
    requires 3 <= i < 15
    ensures TwoToThe(CommonBit(i)) == COMMON_NUMBERS[i]
  {
    Powers();
  }

  /** The common rights are these fifteen, in this order, without object type. */
  lemma CommonRightsAre(i: nat)
    requires i < 15
    ensures |CommonRights()| == 15 && CommonRights()[i] == Right(COMMON_RIGHTS[i], [], [], {})
    ensures MaskValue(COMMON_RIGHTS[i]) == COMMON_NUMBERS[i]
  {
    if i < 3 {
      GenericNumbers();
    } else {
      CommonBitIs(i);
      OneBitMask(COMMON_RIGHTS[i], CommonBit(i));
      CommonBitNumber(i);
    }
  }
}
