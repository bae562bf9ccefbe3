/** What the letters of SDDL stand for: access rights, ACE types, ACE flags, ACL flags, and the parts of an ACE and of a
    descriptor, each in both directions. */
module SddlLetters {
  import opened Primitives
  import opened Strings
  import opened Guids
  import opened Aces
  import opened SddlFlags
  import opened SddlAccess
  import opened SddlSids
  import opened Sddl
  import opened SddlRoundTrip
  import opened SddlMeaning

  // ---------------------------------------------------------------------------
  // An entry with bits of its own is what prints these bits.

  lemma {:induction false} ExactFinds(table: FlagMap, k: nat)
    requires k < |table| && forall i :: 0 <= i < k ==> table[i].bits != table[k].bits
    ensures FindExact(table, table[k].bits) == Some(table[k])
  {
    if k > 0 {
      assert forall i :: 0 <= i < k - 1 ==> table[1..][i] == table[i + 1];
      ExactFinds(table[1..], k - 1);
    }
  }

  // ---------------------------------------------------------------------------
  // Numbers of masks.

  lemma {:induction false} ValueOfBitFrom(b: Bit, i: nat)
    requires i <= b
    ensures ValueFrom({b}, i) == TwoToThe(b - i)
    decreases b - i
  {
    if i < b {
      ValueOfBitFrom(b, i + 1);
    } else {
      ValueIgnoresLowBits({b}, {}, i + 1);
      NoValue(i + 1);
    }
  }

  lemma {:induction false} NoValue(i: nat)
    ensures ValueFrom({}, i) == 0
    decreases 32 - i
  {
    if i < 32 {
      NoValue(i + 1);
    }
  }

  lemma {:induction false} ValueAdds(a: Mask, b: Mask, i: nat)
    requires a * b == {}
    ensures ValueFrom(a + b, i) == ValueFrom(a, i) + ValueFrom(b, i)
    decreases 32 - i
  {
    if i < 32 {
      ValueAdds(a, b, i + 1);
      assert i as int in a && i as int in b ==> i as int in a * b;
    }
  }

  ghost function BitsFrom(bits: seq<Bit>, i: nat): Mask
    decreases |bits| - i
  {
    if i >= |bits| then {} else {bits[i]} + BitsFrom(bits, i + 1)
  }

  ghost function SumFrom(bits: seq<Bit>, i: nat): nat
    decreases |bits| - i
  {
    if i >= |bits| then 0 else TwoToThe(bits[i]) + SumFrom(bits, i + 1)
  }

  lemma {:induction false} ValueIsSum(bits: seq<Bit>, i: nat)
    requires forall j, k :: i <= j < k < |bits| ==> bits[j] < bits[k]
    ensures MaskValue(BitsFrom(bits, i)) == SumFrom(bits, i)
    ensures forall b :: b in BitsFrom(bits, i) ==> i < |bits| && bits[i] <= b
    decreases |bits| - i
  {
    if i >= |bits| {
      NoValue(0);
    } else {
      ValueIsSum(bits, i + 1);
      ValueOfBitFrom(bits[i], 0);
      ValueAdds({bits[i]}, BitsFrom(bits, i + 1), 0);
    }
  }

  lemma Powers()
    ensures TwoToThe(0) == 1 && TwoToThe(1) == 2 && TwoToThe(2) == 4 && TwoToThe(3) == 8 && TwoToThe(4) == 0x10
    ensures TwoToThe(5) == 0x20 && TwoToThe(6) == 0x40 && TwoToThe(7) == 0x80 && TwoToThe(8) == 0x100
    ensures TwoToThe(16) == 0x1_0000 && TwoToThe(17) == 0x2_0000 && TwoToThe(18) == 0x4_0000
    ensures TwoToThe(19) == 0x8_0000 && TwoToThe(20) == 0x10_0000
    ensures TwoToThe(28) == 0x1000_0000 && TwoToThe(29) == 0x2000_0000
    ensures TwoToThe(30) == 0x4000_0000 && TwoToThe(31) == 0x8000_0000
  {
    assert TwoToThe(12) == 0x1000;
    assert TwoToThe(24) == 0x100_0000;
  }

  // ---------------------------------------------------------------------------
  // Access rights.

  /** The mask prints as these letters, which read as it, and it is this number. */
  ghost predicate IsRight(letters: string, mask: Mask, number: nat) {
    EncodeAccess(mask) == letters && DecodeAccess(letters) == Some(mask) && MaskValue(mask) == number
  }

  // The letters, the constant of the rights editor and its number in section 5.1.3.2 of MS-ADTS.
  const DIRECTORY_RIGHTS: seq<(string, Mask, nat)> := [
    ("CC", CREATE_CHILD, 0x1), ("DC", DELETE_CHILD, 0x2), ("LC", LIST, 0x4), ("SW", SELF_WRITE, 0x8),
    ("RP", READ_PROP, 0x10), ("WP", WRITE_PROP, 0x20), ("DT", DELETE_TREE, 0x40), ("LO", LIST_OBJECT, 0x80),
    ("CR", CONTROL_ACCESS, 0x100)]

  const STANDARD_RIGHTS: seq<(string, Mask, nat)> := [
    ("SD", STD_DELETE, 0x1_0000), ("RC", READ_CONTROL, 0x2_0000), ("WD", WRITE_DAC, 0x4_0000),
    ("WO", WRITE_OWNER, 0x8_0000), ("GA", {28}, 0x1000_0000), ("GX", {29}, 0x2000_0000),
    ("GW", {30}, 0x4000_0000), ("GR", {31}, 0x8000_0000)]

  lemma BitIndex(k: nat)
    requires k < 17
    ensures ACCESS_MASK[k].bits == {if k < 9 then k else if k < 13 then k + 7 else k + 15}
  {
  }

  lemma BitPrintsAlone(k: nat)
    requires k < 17
    ensures FindExact(ACCESS_MASK, ACCESS_MASK[k].bits) == Some(ACCESS_MASK[k])
  {
    forall i | 0 <= i < k ensures ACCESS_MASK[i].bits != ACCESS_MASK[k].bits {
      BitIndex(i);
      BitIndex(k);
      var b := if i < 9 then i else if i < 13 then i + 7 else i + 15;
      assert b in ACCESS_MASK[i].bits && b !in ACCESS_MASK[k].bits;
    }
    ExactFinds(ACCESS_MASK, k);
  }

  lemma EntryIsRight(k: nat, letters: string, b: Bit, number: nat)
    requires k < 17 && ACCESS_MASK[k].name == letters && ACCESS_MASK[k].bits == {b} && TwoToThe(b) == number
    ensures IsRight(letters, {b}, number)
  {
    BitPrintsAlone(k);
    AccessRoundTrip({b});
    ValueOfBitFrom(b, 0);
  }

  lemma DirectoryRight(i: nat)
    requires i < |DIRECTORY_RIGHTS|
    ensures IsRight(DIRECTORY_RIGHTS[i].0, DIRECTORY_RIGHTS[i].1, DIRECTORY_RIGHTS[i].2)
  {
    Powers();
    EntryIsRight(i, DIRECTORY_RIGHTS[i].0, i, DIRECTORY_RIGHTS[i].2);
  }

  lemma StandardRight(i: nat)
    requires i < |STANDARD_RIGHTS|
    ensures IsRight(STANDARD_RIGHTS[i].0, STANDARD_RIGHTS[i].1, STANDARD_RIGHTS[i].2)
  {
    Powers();
    EntryIsRight(9 + i, STANDARD_RIGHTS[i].0, if i < 4 then 16 + i else 24 + i, STANDARD_RIGHTS[i].2);
  }

  // The rights of a file, whose bits are those of several letters and one without a letter.
  const FILE_NUMBERS: seq<(string, nat)> := [
    ("FA", 0x1F_01FF), ("FR", 0x12_0089), ("FW", 0x12_0116), ("FX", 0x12_00A0)]

  ghost function FileBits(i: nat): seq<Bit> {
    if i == 0 then [0, 1, 2, 3, 4, 5, 6, 7, 8, 16, 17, 18, 19, 20]
    else if i == 1 then [0, 3, 7, 17, 20]
    else if i == 2 then [1, 2, 4, 8, 17, 20]
    else [5, 7, 17, 20]
  }

  lemma {:induction false} BitsFromMembers(bits: seq<Bit>, i: nat)
    requires i <= |bits|
    ensures forall b :: b in BitsFrom(bits, i) <==> b in bits[i..]
    decreases |bits| - i
  {
    if i < |bits| {
      BitsFromMembers(bits, i + 1);
      assert bits[i..] == [bits[i]] + bits[i + 1..];
    }
  }

  lemma FileEntry(i: nat)
    requires i < 4
    ensures FILE_RIGHTS[i].bits == BitsFrom(FileBits(i), 0) && FILE_RIGHTS[i].name == FILE_NUMBERS[i].0
  {
    var bits := FileBits(i);
    BitsFromMembers(bits, 0);
    assert bits[0..] == bits;
    SameBits(i);
  }

  lemma SameBits(i: nat)
    requires i < 4
    ensures forall b :: b in FILE_RIGHTS[i].bits <==> b in FileBits(i)
  {
  }

  lemma FileSum(i: nat)
    requires i < 4
    ensures SumFrom(FileBits(i), 0) == FILE_NUMBERS[i].1
  {
    var bits := FileBits(i);
    if i == 0 { SumOfAll(bits); } else if i == 1 { SumOfRead(bits); }
    else if i == 2 { SumOfWrite(bits); } else { SumOfExecute(bits); }
  }

  lemma SumOfAll(bits: seq<Bit>)
    requires bits == [0, 1, 2, 3, 4, 5, 6, 7, 8, 16, 17, 18, 19, 20]
    ensures SumFrom(bits, 0) == 0x1F_01FF
  {
    Powers();
    assert SumFrom(bits, 13) == 0x10_0000;
    assert SumFrom(bits, 11) == 0x1C_0000;
    assert SumFrom(bits, 9) == 0x1F_0000;
    assert SumFrom(bits, 7) == 0x1F_0180;
    assert SumFrom(bits, 5) == 0x1F_01E0;
    assert SumFrom(bits, 3) == 0x1F_01F8;
    assert SumFrom(bits, 1) == 0x1F_01FE;
  }

  lemma SumOfRead(bits: seq<Bit>)
    requires bits == [0, 3, 7, 17, 20]
    ensures SumFrom(bits, 0) == 0x12_0089
  {
    Powers();
    assert SumFrom(bits, 4) == 0x10_0000;
    assert SumFrom(bits, 3) == 0x12_0000;
    assert SumFrom(bits, 1) == 0x12_0088;
  }

  lemma SumOfWrite(bits: seq<Bit>)
    requires bits == [1, 2, 4, 8, 17, 20]
    ensures SumFrom(bits, 0) == 0x12_0116
  {
    Powers();
    assert SumFrom(bits, 5) == 0x10_0000;
    assert SumFrom(bits, 4) == 0x12_0000;
    assert SumFrom(bits, 2) == 0x12_0110;
  }

  lemma SumOfExecute(bits: seq<Bit>)
    requires bits == [5, 7, 17, 20]
    ensures SumFrom(bits, 0) == 0x12_00A0
  {
    Powers();
    assert SumFrom(bits, 3) == 0x10_0000;
    assert SumFrom(bits, 2) == 0x12_0000;
  }

  lemma NoLetters(i: nat)
    requires i < 4
    ensures 20 in FILE_RIGHTS[i].bits
  {
  }

  lemma {:induction false} BitsWithoutLetter(table: FlagMap, k: nat)
    requires table == ACCESS_MASK && k <= 17
    ensures 20 !in AllBits(table[k..])
    decreases 17 - k
  {
    if k < 17 {
      BitIndex(k);
      BitsWithoutLetter(table, k + 1);
      assert table[k..][1..] == table[k + 1..];
    }
  }

  lemma MaskNumber(mask: Mask, bits: seq<Bit>)
    requires forall b :: b in mask <==> b in bits
    requires forall j, k :: 0 <= j < k < |bits| ==> bits[j] < bits[k]
    ensures MaskValue(mask) == SumFrom(bits, 0)
  {
    BitsFromMembers(bits, 0);
    assert bits[0..] == bits;
    ValueIsSum(bits, 0);
    assert mask == BitsFrom(bits, 0);
  }

  lemma GenericReadNumber(bits: seq<Bit>)
    requires bits == [2, 4, 7, 17]
    ensures MaskValue(GENERIC_READ) == 0x2_0094
  {
    MaskNumber(GENERIC_READ, bits);
    Powers();
    assert SumFrom(bits, 3) == 0x2_0000;
    assert SumFrom(bits, 2) == 0x2_0080;
  }

  lemma GenericReadFixedNumber(bits: seq<Bit>)
    requires bits == [2, 4, 17]
    ensures MaskValue(MapAccessMask(GENERIC_READ)) == 0x2_0014
  {
    MaskNumber(MapAccessMask(GENERIC_READ), bits);
    Powers();
    assert SumFrom(bits, 2) == 0x2_0000;
  }

  lemma GenericWriteNumber(bits: seq<Bit>)
    requires bits == [3, 5, 17]
    ensures MaskValue(GENERIC_WRITE) == 0x2_0028
  {
    MaskNumber(GENERIC_WRITE, bits);
    Powers();
    assert SumFrom(bits, 2) == 0x2_0000;
  }

  lemma FileNumber(i: nat)
    requires i < 4
    ensures MaskValue(FILE_RIGHTS[i].bits) == FILE_NUMBERS[i].1
  {
    FileEntry(i);
    FileSum(i);
    FileBitsGrow(i);
    ValueIsSum(FileBits(i), 0);
  }

  lemma LessOneBit(mask: Mask, more: Mask, b: Bit)
    requires b !in mask && more == mask + {b}
    ensures MaskValue(more) == MaskValue(mask) + TwoToThe(b)
  {
    ValueAdds(mask, {b}, 0);
    ValueOfBitFrom(b, 0);
  }

  lemma FileAllBits()
    ensures FILE_RIGHTS[0].bits == GENERIC_ALL + {20}
  {
  }

  /** Full control over a file is full control and one bit more. */
  lemma GenericAllNumber()
    ensures MaskValue(GENERIC_ALL) == 0xF_01FF
  {
    FileNumber(0);
    FileAllBits();
    LessOneBit(GENERIC_ALL, FILE_RIGHTS[0].bits, 20);
    Powers();
  }

  /** The generic rights as numbers; generic read as it is written lacks the right to list objects. */
  lemma GenericNumbers()
    ensures MaskValue(GENERIC_READ) == 0x2_0094 && MaskValue(MapAccessMask(GENERIC_READ)) == 0x2_0014
    ensures MaskValue(GENERIC_WRITE) == 0x2_0028 && MaskValue(GENERIC_ALL) == 0xF_01FF
    ensures forall mask: Mask :: mask != GENERIC_READ ==> MapAccessMask(mask) == mask
  {
    GenericReadNumber([2, 4, 7, 17]);
    GenericReadFixedNumber([2, 4, 17]);
    GenericWriteNumber([3, 5, 17]);
    GenericAllNumber();
  }

  lemma NotLettersAlone(mask: Mask)
    requires 20 in mask
    ensures FlagsToString(ACCESS_MASK, mask, true).None?
  {
    AccessTable();
    BitsWithoutLetter(ACCESS_MASK, 0);
    assert ACCESS_MASK[0..] == ACCESS_MASK;
    if FlagsToString(ACCESS_MASK, mask, true).Some? {
      FlagsRoundTrip(ACCESS_MASK, mask, true, "");
    }
  }

  lemma FilesDiffer(i: nat, j: nat)
    requires i < j < 4
    ensures FILE_RIGHTS[i].bits != FILE_RIGHTS[j].bits
  {
    var b := if i == 0 then 18 else if i == 1 then 3 else 1;
    assert b in FILE_RIGHTS[i].bits && b !in FILE_RIGHTS[j].bits;
  }

  /** A file right prints as its letters, which read as the mask with this number. */
  lemma FileRight(i: nat)
    requires i < |FILE_NUMBERS|
    ensures IsRight(FILE_NUMBERS[i].0, MaskOf(FILE_NUMBERS[i].1), FILE_NUMBERS[i].1)
  {
    var mask := FILE_RIGHTS[i].bits;
    FileEntry(i);
    FileNumber(i);
    MaskOfValue(mask);
    NoLetters(i);
    NotLettersAlone(mask);
    forall j | 0 <= j < i ensures FILE_RIGHTS[j].bits != FILE_RIGHTS[i].bits {
      FilesDiffer(j, i);
    }
    ExactFinds(FILE_RIGHTS, i);
    AccessRoundTrip(mask);
  }

  lemma FileBitsGrow(i: nat)
    requires i < 4
    ensures forall j, k :: 0 <= j < k < |FileBits(i)| ==> FileBits(i)[j] < FileBits(i)[k]
  {
  }

  // ---------------------------------------------------------------------------
  // Which letters are accepted as a mask.

  ghost function Blanks(n: nat): string {
    if n == 0 then "" else " " + Blanks(n - 1)
  }

  /** Names with any number of blanks before each; none behind the last. */
  ghost function Spelled(blanks: seq<nat>, names: seq<FlagEntry>): string
    requires |blanks| == |names|
  {
    if names == [] then "" else Blanks(blanks[0]) + names[0].name + Spelled(blanks[1..], names[1..])
  }

  ghost predicate AreRights(names: seq<FlagEntry>) {
    forall i :: 0 <= i < |names| ==> names[i] in ACCESS_MASK || names[i] in FILE_RIGHTS
  }

  lemma {:induction false} SkipsBlanks(n: nat, rest: string)
    requires rest != "" && rest[0] != ' '
    ensures SkipBlanks(Blanks(n) + rest) == rest
    ensures (Blanks(n) + rest)[0] == if n == 0 then rest[0] else ' '
  {
    if n == 0 {
      assert Blanks(n) + rest == rest;
    } else {
      assert (Blanks(n) + rest)[1..] == Blanks(n - 1) + rest;
      SkipsBlanks(n - 1, rest);
    }
  }

  lemma {:induction false} BlanksSkipped(s: string) returns (n: nat)
    ensures s == Blanks(n) + SkipBlanks(s)
  {
    if s != "" && s[0] == ' ' {
      n := BlanksSkipped(s[1..]);
      n := n + 1;
      assert s == " " + s[1..];
    } else {
      n := 0;
    }
  }

  lemma FileNamesDiffer(i: nat, j: nat)
    requires i < 4 && j < 4 && i != j
    ensures !(FILE_RIGHTS[i].name <= FILE_RIGHTS[j].name) && |FILE_RIGHTS[i].name| == 2
  {
    assert FILE_RIGHTS[i].name[1] != FILE_RIGHTS[j].name[1];
  }

  lemma NameIsFound(e: FlagEntry, rest: string)
    requires e in ACCESS_MASK || e in FILE_RIGHTS
    ensures MapAccessFlag(e.name + rest) == Some(e) && IsUpper(e.name[0])
  {
    if e in FILE_RIGHTS {
      var k :| 0 <= k < |FILE_RIGHTS| && FILE_RIGHTS[k] == e;
      forall i | 0 <= i < k ensures !(FILE_RIGHTS[i].name <= e.name) && !(e.name <= FILE_RIGHTS[i].name) {
        FileNamesDiffer(i, k);
        FileNamesDiffer(k, i);
      }
      MapFlagFinds(FILE_RIGHTS, k, rest);
      FileNames(e.name + rest);
      assert e.name[0] == (e.name + rest)[0];
    } else {
      var k :| 0 <= k < |ACCESS_MASK| && ACCESS_MASK[k] == e;
      AccessTable();
      MapFlagFinds(ACCESS_MASK, k, rest);
      AccessNamesAreNotFile(e.name + rest);
    }
  }

  lemma FoundIsRight(s: string)
    requires MapAccessFlag(s).Some?
    ensures MapAccessFlag(s).value in ACCESS_MASK || MapAccessFlag(s).value in FILE_RIGHTS
  {
    if MapFlag(FILE_RIGHTS, s).Some? {
      var e := FoundEntry(FILE_RIGHTS, s);
    } else {
      var e := FoundEntry(ACCESS_MASK, s);
    }
  }

  lemma LettersStep(n: nat, e: FlagEntry, rest: string, read: Mask)
    requires e in ACCESS_MASK || e in FILE_RIGHTS
    ensures DecodeLetters(Blanks(n) + e.name + rest, read) == DecodeLetters(rest, read + e.bits)
  {
    var s := e.name + rest;
    NameIsFound(e, rest);
    assert s[0] == e.name[0];
    SkipsBlanks(n, s);
    assert Blanks(n) + e.name + rest == Blanks(n) + s;
    assert s[|e.name|..] == rest;
  }

  lemma {:induction false} SpelledIsRead(blanks: seq<nat>, names: seq<FlagEntry>, read: Mask)
    requires |blanks| == |names| && AreRights(names)
    ensures DecodeLetters(Spelled(blanks, names), read) == Some(read + AllBits(names))
    decreases |names|
  {
    if names == [] {
      assert read + AllBits(names) == read;
    } else {
      LettersStep(blanks[0], names[0], Spelled(blanks[1..], names[1..]), read);
      SpelledIsRead(blanks[1..], names[1..], read + names[0].bits);
      assert read + names[0].bits + AllBits(names[1..]) == read + AllBits(names);
    }
  }

  lemma {:induction false} ReadIsSpelled(s: string, read: Mask) returns (blanks: seq<nat>, names: seq<FlagEntry>)
    requires DecodeLetters(s, read).Some?
    ensures |blanks| == |names| && AreRights(names) && s == Spelled(blanks, names)
    decreases |s|
  {
    blanks, names := [], [];
    if s != "" {
      var n, e, rest := FirstSpelled(s, read);
      var laterBlanks, laterNames := ReadIsSpelled(rest, read + e.bits);
      blanks, names := [n] + laterBlanks, [e] + laterNames;
      assert blanks[1..] == laterBlanks && names[1..] == laterNames;
    }
  }

  lemma FirstSpelled(s: string, read: Mask) returns (n: nat, e: FlagEntry, rest: string)
    requires s != "" && DecodeLetters(s, read).Some?
    ensures e in ACCESS_MASK || e in FILE_RIGHTS
    ensures s == Blanks(n) + e.name + rest && |rest| < |s| && DecodeLetters(rest, read + e.bits).Some?
  {
    var t := SkipBlanks(s);
    n := BlanksSkipped(s);
    e, rest := FirstFound(s, t, read);
    FoundIsRight(t);
    assert Blanks(n) + e.name + rest == Blanks(n) + (e.name + rest);
  }

  lemma FirstFound(s: string, t: string, read: Mask) returns (e: FlagEntry, rest: string)
    requires s != "" && t == SkipBlanks(s) && DecodeLetters(s, read).Some?
    ensures MapAccessFlag(t) == Some(e) && t == e.name + rest && |rest| < |s|
    ensures DecodeLetters(rest, read + e.bits).Some?
  {
    e := MapAccessFlag(t).value;
    rest := t[|e.name|..];
  }

  /** A text that is not a number is accepted exactly when it spells rights, and stands for all their bits. */
  lemma LettersExactly(s: string, mask: Mask)
    requires StrToUll(s).None?
    ensures DecodeAccess(s) == Some(mask) <==>
      exists blanks, names :: |blanks| == |names| && AreRights(names) && s == Spelled(blanks, names)
                              && mask == AllBits(names)
  {
    forall blanks: seq<nat>, names | |blanks| == |names| && AreRights(names) && s == Spelled(blanks, names)
      ensures DecodeLetters(s, {}) == Some(AllBits(names))
    {
      SpelledIsRead(blanks, names, {});
      assert {} + AllBits(names) == AllBits(names);
    }
    if DecodeAccess(s) == Some(mask) {
      var blanks, names := ReadIsSpelled(s, {});
    }
  }

  // ---------------------------------------------------------------------------
  // ACE types and flags.

  // The letters, the type and its number in section 2.4.4.1 of MS-DTYP.
  const TYPE_LETTERS: seq<(string, byte, byte)> := [
    ("A", ACCESS_ALLOWED, 0), ("D", ACCESS_DENIED, 1), ("AU", SYSTEM_AUDIT, 2), ("AL", 3, 3),
    ("OA", ACCESS_ALLOWED_OBJECT, 5), ("OD", ACCESS_DENIED_OBJECT, 6), ("OU", SYSTEM_AUDIT_OBJECT, 7),
    ("OL", SYSTEM_ALARM_OBJECT, 8)]

  ghost predicate IsTypeName(letters: string, aceType: byte) {
    DecodeType(letters) == Some(aceType) && FlagsToString(ACE_TYPES, MaskOf(aceType), true) == Some(letters)
  }

  lemma TypeLetters(i: nat)
    requires i < |TYPE_LETTERS|
    ensures IsTypeName(TYPE_LETTERS[i].0, TYPE_LETTERS[i].1) && TYPE_LETTERS[i].1 == TYPE_LETTERS[i].2
  {
    TypeRoundTrip(TYPE_LETTERS[i].1);
  }

  const FLAG_LETTERS: seq<(string, FlagBit, nat)> := [
    ("OI", 0, 0x1), ("CI", CONTAINER_INHERIT_BIT, 0x2), ("NP", 2, 0x4), ("IO", 3, 0x8), ("ID", INHERITED_BIT, 0x10),
    ("SA", 6, 0x40), ("FA", 7, 0x80)]

  ghost predicate IsFlagName(letters: string, bit: FlagBit) {
    DecodeAceFlags(letters) == Some({bit}) && FlagsToString(ACE_FLAGS, {bit}, true) == Some(letters)
  }

  lemma FlagLetters(i: nat)
    requires i < |FLAG_LETTERS|
    ensures IsFlagName(FLAG_LETTERS[i].0, FLAG_LETTERS[i].1) && MaskValue({FLAG_LETTERS[i].1}) == FLAG_LETTERS[i].2
  {
    var bit := FLAG_LETTERS[i].1;
    FlagEntryOf(i);
    FlagPrintsAlone(i);
    AceFlagsRoundTrip({bit});
    ValueOfBitFrom(bit, 0);
    FlagNumber(i);
  }

  lemma FlagEntryOf(i: nat)
    requires i < 7
    ensures ACE_FLAGS[i].name == FLAG_LETTERS[i].0 && ACE_FLAGS[i].bits == {FLAG_LETTERS[i].1}
    ensures FLAG_LETTERS[i].1 != 5
  {
  }

  lemma FlagPrintsAlone(i: nat)
    requires i < 7
    ensures FindExact(ACE_FLAGS, ACE_FLAGS[i].bits) == Some(ACE_FLAGS[i])
  {
    forall j | 0 <= j < i ensures ACE_FLAGS[j].bits != ACE_FLAGS[i].bits {
      AceFlagNames(i);
      AceFlagNames(j);
      assert (if j < 5 then j else j + 1) in ACE_FLAGS[j].bits;
    }
    ExactFinds(ACE_FLAGS, i);
  }

  lemma FlagNumber(i: nat)
    requires i < 7
    ensures TwoToThe(FLAG_LETTERS[i].1) == FLAG_LETTERS[i].2
  {
    Powers();
  }

  // ---------------------------------------------------------------------------
  // Descriptors with one part.

  lemma OnePart(s: string, sd: Descriptor, domain: Sid)
    requires s != "" && DecodePart(s, EMPTY, domain) == Some((sd, ""))
    ensures Decode(s, domain) == Some(sd)
  {
    DecodeStep(s, EMPTY, sd, "", domain);
  }

  lemma MeansAlone(code: string, sid: Sid, domain: Sid)
    requires Means(code, sid)
    ensures DecodeSid(code, domain) == Some((sid, ""))
  {
    assert code + "" == code;
    assert DecodeSid(code + "", domain) == Some((sid, ""));
  }

  /** After "O:" a SID is the owner. */
  lemma OwnerMarker(s: string, code: string, sid: Sid, domain: Sid)
    requires s == "O:" + code && Means(code, sid)
    ensures Decode(s, domain) == Some(Descriptor(Some(sid), None, None, None, {15}))
  {
    MeansAlone(code, sid, domain);
    assert s[0] == 'O' && s[1] == ':' && s[2..] == code;
    DecodeOwner(s, EMPTY, sid, "", domain);
    OnePart(s, EMPTY.(owner := Some(sid)), domain);
  }

  /** And after "G:" the group. */
  lemma GroupMarker(s: string, code: string, sid: Sid, domain: Sid)
    requires s == "G:" + code && Means(code, sid)
    ensures Decode(s, domain) == Some(Descriptor(None, Some(sid), None, None, {15}))
  {
    MeansAlone(code, sid, domain);
    assert s[0] == 'G' && s[1] == ':' && s[2..] == code;
    DecodeGroup(s, EMPTY, sid, "", domain);
    OnePart(s, EMPTY.(group := Some(sid)), domain);
  }

  // The letters and the bit of a DACL flag in section 2.4.6 of MS-DTYP; the bit of the SACL flag is the next one.
  const CONTROL_LETTERS: seq<(string, Bit)> := [("P", 12), ("AR", 8), ("AI", 10)]

  lemma ControlEntry(i: nat)
    requires i < 3
    ensures ACL_FLAGS[i].name == CONTROL_LETTERS[i].0 && ACL_FLAGS[i].bits == {CONTROL_LETTERS[i].1}
    ensures FindExact(ACL_FLAGS, ACL_FLAGS[i].bits) == Some(ACL_FLAGS[i])
  {
    assert 12 in ACL_FLAGS[0].bits && 8 in ACL_FLAGS[1].bits;
    ExactFinds(ACL_FLAGS, i);
  }

  lemma ControlText(i: nat, domain: Sid)
    requires i < |CONTROL_LETTERS|
    ensures DecodeAcl(CONTROL_LETTERS[i].0, domain) == Some(({CONTROL_LETTERS[i].1}, [], ""))
  {
    var letters, bit := CONTROL_LETTERS[i].0, CONTROL_LETTERS[i].1;
    ControlEntry(i);
    EncodeFlags(letters, {bit}, domain);
    AclRoundTrip([], {bit}, domain, "");
    assert {bit} * {8, 10, 12} == {bit};
    assert letters + "" == letters;
  }

  /** After "D:" flags and no ACEs are an empty DACL that is present, with that control bit. */
  lemma DaclMarker(s: string, i: nat, domain: Sid)
    requires i < |CONTROL_LETTERS| && s == "D:" + CONTROL_LETTERS[i].0
    ensures Decode(s, domain) == Some(Descriptor(None, None, Some([]), None, {2, CONTROL_LETTERS[i].1, 15}))
  {
    var bit := CONTROL_LETTERS[i].1;
    ControlText(i, domain);
    assert s[0] == 'D' && s[1] == ':' && s[2..] == CONTROL_LETTERS[i].0;
    DecodeDacl(s, EMPTY, {bit}, [], "", domain);
    OnePart(s, EMPTY.(dacl := Some([]), control := EMPTY.control + {bit} + {DACL_PRESENT_BIT}), domain);
    assert EMPTY.control + {bit} + {DACL_PRESENT_BIT} == {2, bit, 15};
  }

  /** And after "S:" an empty SACL. */
  lemma SaclMarker(s: string, i: nat, domain: Sid)
    requires i < |CONTROL_LETTERS| && s == "S:" + CONTROL_LETTERS[i].0
    ensures Decode(s, domain) == Some(Descriptor(None, None, None, Some([]), {4, CONTROL_LETTERS[i].1 + 1, 15}))
  {
    var bit := CONTROL_LETTERS[i].1;
    ControlText(i, domain);
    assert s[0] == 'S' && s[1] == ':' && s[2..] == CONTROL_LETTERS[i].0;
    DecodeSacl(s, EMPTY, {bit}, [], "", domain);
    var control := EMPTY.control + ShiftLeft({bit}) + {SACL_PRESENT_BIT};
    OnePart(s, EMPTY.(sacl := Some([]), control := control), domain);
    ShiftedBit(bit);
    assert control == {4, bit + 1, 15};
  }

  lemma ShiftedBit(bit: Bit)
    requires bit < 31
    ensures ShiftLeft({bit}) == {bit + 1}
  {
  }

  lemma EncodeFlags(letters: string, flags: Mask, domain: Sid)
    requires FlagsToString(ACL_FLAGS, flags, false) == Some(letters)
    ensures EncodeAcl([], flags, domain) == Some(letters)
  {
    assert letters + "" == letters;
  }

  // ---------------------------------------------------------------------------
  // The six parts of an ACE.

  lemma SixParts(a: string, b: string, c: string, d: string, e: string, f: string)
    ensures Join([a, b, c, d, e, f], ";") == a + ";" + b + ";" + c + ";" + d + ";" + e + ";" + f
  {
    assert Join([f], ";") == f;
    assert Join([e, f], ";") == e + ";" + f;
    assert Join([d, e, f], ";") == d + ";" + e + ";" + f;
    assert Join([c, d, e, f], ";") == c + ";" + d + ";" + e + ";" + f;
    assert Join([b, c, d, e, f], ";") == b + ";" + c + ";" + d + ";" + e + ";" + f;
  }

  /**
   An object ACE is its type, a flag, a right, the object type, the inherited type and the trustee, in this
   order; of a missing GUID nothing is written.
   */
  lemma AceParts(ace: Ace, letters: string, flag: string, right: string, number: nat, code: string, domain: Sid)
    requires IsTypeName(letters, ace.aceType) && IsObjectType(ace.aceType) && IsCanonicalAce(ace)
    requires exists bit: FlagBit :: ace.flags == {bit} && IsFlagName(flag, bit)
    requires IsRight(right, ace.accessMask, number) && Means(code, ace.trustee)
    ensures var object_ := if 0 in ace.objectFlags then GuidToDisplayValue(ace.objectType) else "";
            var inherited := if 1 in ace.objectFlags then GuidToDisplayValue(ace.inheritedType) else "";
            var text := letters + ";" + flag + ";" + right + ";" + object_ + ";" + inherited + ";" + code;
            EncodeAce(ace, domain) == Some(text) && DecodeAce(text, domain) == Some(ace)
  {
    var object_ := if 0 in ace.objectFlags then GuidToDisplayValue(ace.objectType) else "";
    var inherited := if 1 in ace.objectFlags then GuidToDisplayValue(ace.inheritedType) else "";
    SixParts(letters, flag, right, object_, inherited, code);
    AceRoundTrip(ace, domain);
  }

  lemma {:induction false} NamesLeave(table: FlagMap, flags: Mask)
    ensures BitNames(table, flags).1 == flags - AllBits(table)
  {
    if table != [] {
      NamesLeave(table[1..], flags - table[0].bits);
      NamesLeave(table[1..], flags);
      forall b: Bit | b in table[0].bits && b in flags ensures table[0].bits * flags != {} {
        assert b in table[0].bits * flags;
      }
    }
  }

  /** A table names flags exactly when it has a name for each of their bits. */
  lemma NamedExactly(table: FlagMap, flags: Mask)
    ensures FlagsToString(table, flags, true).Some? <==> flags <= AllBits(table) || FindExact(table, flags).Some?
  {
    NamesLeave(table, flags);
    NothingLeft(flags, AllBits(table));
  }

  lemma NothingLeft(a: Mask, b: Mask)
    ensures a - b == {} <==> a <= b
  {
    forall x | x in a && a - b == {} ensures x in b {
      assert x !in a - b;
    }
  }

  lemma NoEntryBeyond(k: nat)
    requires k < |ACE_TYPES|
    ensures ACE_TYPES[k].bits <= {0, 1, 2, 3}
  {
  }

  lemma {:induction false} TypeTableBits(table: FlagMap, k: nat)
    requires table == ACE_TYPES && k <= 8
    ensures AllBits(table[k..]) <= {0, 1, 2, 3}
    ensures k == 0 ==> {0, 1, 2, 3} <= AllBits(table[k..])
    decreases 8 - k
  {
    if k < 8 {
      NoEntryBeyond(k);
      TypeTableBits(table, k + 1);
      assert table[k..][1..] == table[k + 1..];
      if k == 0 {
        EntryWithin(table, 4);
        EntryWithin(table, 5);
        assert table[0..] == table;
      }
    }
  }

  lemma LowTypes(aceType: byte)
    ensures MaskOf(aceType) <= {0, 1, 2, 3} <==> aceType < 16
  {
    if aceType < 16 {
      forall b: Bit | b in MaskOf(aceType) ensures b <= 3 {
        FourBits(aceType, b);
      }
    } else if MaskOf(aceType) <= {0, 1, 2, 3} {
      ValueOfMask(aceType);
      LowValue(MaskOf(aceType));
    }
  }

  lemma LowValue(mask: Mask)
    requires mask <= {0, 1, 2, 3}
    ensures MaskValue(mask) < 16
  {
    ValueIgnoresLowBits(mask, {}, 4);
    NoValue(4);
    assert ValueFrom(mask, 3) < 2;
    assert ValueFrom(mask, 2) < 4;
    assert ValueFrom(mask, 1) < 8;
  }

  lemma TypePrintable(aceType: byte)
    ensures FlagsToString(ACE_TYPES, MaskOf(aceType), true).Some? <==> aceType < 16
  {
    NamedExactly(ACE_TYPES, MaskOf(aceType));
    TypeTableBits(ACE_TYPES, 0);
    assert ACE_TYPES[0..] == ACE_TYPES;
    LowTypes(aceType);
    if FindExact(ACE_TYPES, MaskOf(aceType)).Some? {
      var k :| 0 <= k < |ACE_TYPES| && ACE_TYPES[k] == FindExact(ACE_TYPES, MaskOf(aceType)).value;
      NoEntryBeyond(k);
    }
  }

  lemma FlagsPrintableExactly(flags: AceFlags)
    ensures FlagsToString(ACE_FLAGS, flags, true).Some? <==> 5 !in flags
  {
    NamedExactly(ACE_FLAGS, flags);
    NoFifthFlag(ACE_FLAGS, 0);
    assert ACE_FLAGS[0..] == ACE_FLAGS;
    if FindExact(ACE_FLAGS, flags).Some? {
      var k :| 0 <= k < |ACE_FLAGS| && ACE_FLAGS[k] == FindExact(ACE_FLAGS, flags).value;
      AceFlagNames(k);
    } else if 5 !in flags {
      AceFlagBits(flags);
    }
  }

  lemma {:induction false} NoFifthFlag(table: FlagMap, k: nat)
    requires table == ACE_FLAGS && k <= 7
    ensures 5 !in AllBits(table[k..])
    decreases 7 - k
  {
    if k < 7 {
      AceFlagNames(k);
      NoFifthFlag(table, k + 1);
      assert table[k..][1..] == table[k + 1..];
    }
  }

  /** Any type of four bits gets printed, even one that has no letters of its own; a flag without letters does not. */
  lemma PrintableExactly(ace: Ace, domain: Sid)
    ensures EncodeAce(ace, domain).Some? <==> ace.aceType < 16 && 5 !in ace.flags
  {
    TypePrintable(ace.aceType);
    FlagsPrintableExactly(ace.flags);
  }

  lemma NameOfFirst(table: FlagMap, flags: Mask, k: nat)
    requires k < |table| && FindExact(table, flags).None?
    requires forall i :: 0 <= i < k ==> table[i].bits * flags == {}
    requires flags != {} && flags <= table[k].bits
    ensures FlagsToString(table, flags, true) == Some(table[k].name)
  {
    assert table[k].bits * flags == flags && flags - table[k].bits == {};
    NothingMore(table[k + 1..]);
    if k == 0 {
      assert table[0].name + "" == table[0].name;
    } else {
      assert forall i :: 0 <= i < k - 1 ==> table[1..][i] == table[i + 1];
      assert table[1..][k - 1] == table[k];
      NameOfFirst(table[1..], flags, k - 1);
    }
  }

  lemma {:induction false} NothingMore(table: FlagMap)
    ensures BitNames(table, {}) == ("", {})
  {
    if table != [] {
      assert table[0].bits * {} == {};
      NothingMore(table[1..]);
    }
  }

  lemma {:induction false} NoExact(table: FlagMap, flags: Mask)
    requires forall i :: 0 <= i < |table| ==> table[i].bits != flags
    ensures FindExact(table, flags).None?
  {
    if table != [] {
      assert forall i :: 0 <= i < |table| - 1 ==> table[1..][i] == table[i + 1];
      NoExact(table[1..], flags);
    }
  }

  lemma TypesAgainstFour(i: nat)
    requires i < 8
    ensures ACE_TYPES[i].bits != {2} && (i < 2 ==> ACE_TYPES[i].bits * {2} == {})
  {
    assert i != 5 ==> (2 in ACE_TYPES[i].bits ==> 0 in ACE_TYPES[i].bits || 1 in ACE_TYPES[i].bits);
  }

  /** For example, a compound ACE, type 4, is printed with the letters of an object ACE, and is one when read again. */
  lemma CompoundBecomesObject()
    ensures FlagsToString(ACE_TYPES, MaskOf(4), true) == Some("OA") && DecodeType("OA") == Some(ACCESS_ALLOWED_OBJECT)
  {
    forall b: Bit ensures b in MaskOf(4) <==> b == 2 {
      FourBits(4, b);
    }
    assert MaskOf(4) == {2};
    forall i | 0 <= i < |ACE_TYPES| ensures ACE_TYPES[i].bits != {2} && (i < 2 ==> ACE_TYPES[i].bits * {2} == {}) {
      TypesAgainstFour(i);
    }
    NoExact(ACE_TYPES, {2});
    NameOfFirst(ACE_TYPES, {2}, 2);
    TypeRoundTrip(ACCESS_ALLOWED_OBJECT);
  }

  /** A missing GUID is all zeros. */
  lemma MissingGuid(i: nat)
    requires i < 16
    ensures DecodeGuid("").Some? && DecodeGuid("").value[i] == 0
  {
  }
}
