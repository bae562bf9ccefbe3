/** Access masks in SDDL: letter pairs, the name of a file right, or a number. */
module SddlAccess {
  import opened Primitives
  import opened Strings
  import opened Numbers
  import opened SidText
  import opened SddlFlags

  const ACCESS_MASK: FlagMap := [
    FlagEntry("CC", {0}), FlagEntry("DC", {1}), FlagEntry("LC", {2}), FlagEntry("SW", {3}), FlagEntry("RP", {4}),
    FlagEntry("WP", {5}), FlagEntry("DT", {6}), FlagEntry("LO", {7}), FlagEntry("CR", {8}), FlagEntry("SD", {16}),
    FlagEntry("RC", {17}), FlagEntry("WD", {18}), FlagEntry("WO", {19}), FlagEntry("GA", {28}), FlagEntry("GX", {29}),
    FlagEntry("GW", {30}), FlagEntry("GR", {31})]

  // 0x1F01FF, 0x120089, 0x120116 and 0x1200A0.
  const FILE_RIGHTS: FlagMap := [
    FlagEntry("FA", {0, 1, 2, 3, 4, 5, 6, 7, 8, 16, 17, 18, 19, 20}),
    FlagEntry("FR", {0, 3, 7, 17, 20}),
    FlagEntry("FW", {1, 2, 4, 8, 17, 20}),
    FlagEntry("FX", {5, 7, 17, 20})]

  // ---------------------------------------------------------------------------
  // A mask as a number.

  function ValueFrom(mask: Mask, i: nat): nat
    decreases 32 - i
  {
    if i >= 32 then 0 else (if i in mask then 1 else 0) + 2 * ValueFrom(mask, i + 1)
  }

  function MaskFrom(n: nat, i: nat): Mask
    decreases 32 - i
  {
    if i >= 32 then {} else (if n % 2 == 1 then {i as Bit} else {}) + MaskFrom(n / 2, i + 1)
  }

  /** The unsigned 32-bit number with these bits. */
  function MaskValue(mask: Mask): (n: uint32)
  {
    ValueBound(mask, 0);
    ValueFrom(mask, 0)
  }

  function MaskOf(n: nat): Mask {
    MaskFrom(n, 0)
  }

  function TwoToThe(k: nat): nat {
    if k == 0 then 1 else 2 * TwoToThe(k - 1)
  }

  lemma {:induction false} ValueBound(mask: Mask, i: nat)
    requires i <= 32
    ensures ValueFrom(mask, i) < TwoToThe(32 - i)
    ensures TwoToThe(32) == 0x1_0000_0000
    decreases 32 - i
  {
    assert TwoToThe(8) == 0x100;
    assert TwoToThe(16) == 0x1_0000;
    assert TwoToThe(24) == 0x100_0000;
    if i < 32 {
      ValueBound(mask, i + 1);
    }
  }

  lemma {:induction false} MaskOfValueFrom(mask: Mask, i: nat)
    requires i <= 32
    ensures MaskFrom(ValueFrom(mask, i), i) == set b | b in mask && b >= i
    decreases 32 - i
  {
    if i < 32 {
      MaskOfValueFrom(mask, i + 1);
    }
  }

  lemma MaskOfValue(mask: Mask)
    ensures MaskOf(MaskValue(mask)) == mask
  {
    MaskOfValueFrom(mask, 0);
  }

  lemma {:induction false} ValueIgnoresLowBits(a: Mask, b: Mask, i: nat)
    requires forall x :: x >= i ==> (x in a <==> x in b)
    ensures ValueFrom(a, i) == ValueFrom(b, i)
    decreases 32 - i
  {
    if i < 32 {
      ValueIgnoresLowBits(a, b, i + 1);
    }
  }

  lemma {:induction false} MaskFromBits(n: nat, i: nat)
    ensures forall b :: b in MaskFrom(n, i) ==> b >= i
    decreases 32 - i
  {
    if i < 32 {
      MaskFromBits(n / 2, i + 1);
    }
  }

  lemma {:induction false} ValueOfMaskFrom(n: nat, i: nat)
    requires i <= 32 && n < TwoToThe(32 - i)
    ensures ValueFrom(MaskFrom(n, i), i) == n
    decreases 32 - i
  {
    if i < 32 {
      ValueOfMaskFrom(n / 2, i + 1);
      MaskFromBits(n / 2, i + 1);
      ValueIgnoresLowBits(MaskFrom(n, i), MaskFrom(n / 2, i + 1), i + 1);
    }
  }

  lemma ValueOfMask(n: uint32)
    ensures MaskValue(MaskOf(n)) == n
  {
    ValueBound({}, 0);
    ValueOfMaskFrom(n, 0);
  }

  // ---------------------------------------------------------------------------
  // Printing and parsing.

  function EncodeAccess(mask: Mask): string {
    var letters := FlagsToString(ACCESS_MASK, mask, true);
    if letters.Some? then letters.value
    else
      var file := FindExact(FILE_RIGHTS, mask);
      if file.Some? then file.value.name else "0x" + ToBase(MaskValue(mask), Hexadecimal)
  }

  /** A non-negative number at the start of the text; None when there is none or when it is negative. */
  function StrToUll(s: string): Option<(nat, string)> {
    var t := SkipSpaces(s);
    var digits := if t != "" && t[0] == '+' then t[1..] else t;
    if IsDecimal(digits) then Some(ScanAnyBase(digits)) else None
  }

  function SkipBlanks(s: string): (r: string)
    ensures |r| <= |s|
    ensures r != "" ==> r[0] != ' '
  {
    if s != "" && s[0] == ' ' then SkipBlanks(s[1..]) else s
  }

  /** A file right wins over a directory right, as the second lookup overwrites the first. */
  function MapAccessFlag(str: string): (r: Option<FlagEntry>)
    ensures r.Some? ==> r.value.name <= str
  {
    var file := MapFlag(FILE_RIGHTS, str);
    if file.Some? then file else MapFlag(ACCESS_MASK, str)
  }

  function DecodeLetters(str: string, mask: Mask): Option<Mask>
    decreases |str|
  {
    if str == "" then Some(mask)
    else if !IsUpper(str[0]) && str[0] != ' ' then None
    else
      var s := SkipBlanks(str);
      if s == "" then None
      else
        var found := MapAccessFlag(s);
        if found.None? then None else DecodeLetters(s[|found.value.name|..], mask + found.value.bits)
  }

  function DecodeAccess(str: string): Option<Mask> {
    var number := StrToUll(str);
    if number.Some? then
      if number.value.0 > 0xFFFF_FFFF || |str| - |number.value.1| > 13 || number.value.1 != "" then None
      else Some(MaskOf(number.value.0))
    else DecodeLetters(str, {})
  }

  method SddlDecodeAccess(str0: string) returns (mask: Option<Mask>)
    ensures mask == DecodeAccess(str0)
  {
    var number := StrToUll(str0);
    if number.Some? {
      if number.value.0 > 0xFFFF_FFFF { return None; }
      if |str0| - |number.value.1| > 13 { return None; }
      if number.value.1 != "" { return None; }
      return Some(MaskOf(number.value.0));
    }
    var str, read := str0, {};
    while str != "" && (IsUpper(str[0]) || str[0] == ' ')
      invariant DecodeLetters(str, read) == DecodeLetters(str0, {})
      decreases |str|
    {
      ghost var start := str;
      while str[0] == ' '
        invariant str != "" && |str| <= |start| && SkipBlanks(str) == SkipBlanks(start)
        decreases |str|
      {
        str := str[1..];
        if str == "" { return None; }
      }
      var entry := SddlMapFlag(ACCESS_MASK, str);
      var file := SddlMapFlag(FILE_RIGHTS, str);
      if file.Some? {
        entry := file;
      }
      if entry.None? { return None; }
      read := read + entry.value.bits;
      str := str[|entry.value.name|..];
    }
    return if str != "" then None else Some(read);
  }

  // ---------------------------------------------------------------------------
  // Round trip.

  /** The two letters of a name as one number, so that names are compared by value. */
  ghost function NameNumber(name: string): int {
    if |name| == 2 then name[0] as int * 0x100 + name[1] as int else -1
  }

  lemma DifferentNumbers(a: string, b: string)
    requires |a| == 2 && |b| == 2 && NameNumber(a) != NameNumber(b)
    ensures !(a <= b)
  {
    assert b[..2] == b;
  }

  lemma AccessNames(i: nat)
    requires i < 17
    ensures |ACCESS_MASK[i].name| == 2 && IsUpper(ACCESS_MASK[i].name[0])
    ensures IsOneBit(ACCESS_MASK[i].bits)
  {
  }

  lemma AccessNamesDiffer(i: nat, j: nat)
    requires i < 17 && j < 17 && i != j
    ensures NameNumber(ACCESS_MASK[i].name) != NameNumber(ACCESS_MASK[j].name)
  {
  }

  /** Two-letter names, all different, each for one bit. */
  lemma TwoLetterTable(table: FlagMap)
    requires forall i :: 0 <= i < |table| ==>
            |table[i].name| == 2 && IsUpper(table[i].name[0]) && IsOneBit(table[i].bits)
    requires forall i, j :: 0 <= i < |table| && 0 <= j < |table| && i != j ==>
            NameNumber(table[i].name) != NameNumber(table[j].name)
    ensures IsLetterTable(table)
  {
    forall i, j | 0 <= i < |table| && 0 <= j < |table| && i != j ensures !(table[i].name <= table[j].name) {
      DifferentNumbers(table[i].name, table[j].name);
    }
  }

  lemma AccessTable()
    ensures IsLetterTable(ACCESS_MASK)
  {
    forall i, j | 0 <= i < |ACCESS_MASK| && 0 <= j < |ACCESS_MASK| && i != j
      ensures NameNumber(ACCESS_MASK[i].name) != NameNumber(ACCESS_MASK[j].name)
    {
      AccessNamesDiffer(i, j);
    }
    forall i | 0 <= i < |ACCESS_MASK|
      ensures |ACCESS_MASK[i].name| == 2 && IsUpper(ACCESS_MASK[i].name[0]) && IsOneBit(ACCESS_MASK[i].bits)
    {
      AccessNames(i);
    }
    TwoLetterTable(ACCESS_MASK);
  }

  /** File rights are the names that start with F. */
  lemma FileNames(str: string)
    requires MapFlag(FILE_RIGHTS, str).Some?
    ensures str != "" && str[0] == 'F'
  {
    var e := FoundEntry(FILE_RIGHTS, str);
  }

  lemma {:induction false} FoundEntry(table: FlagMap, str: string) returns (e: FlagEntry)
    requires MapFlag(table, str).Some?
    ensures e in table && e == MapFlag(table, str).value && e.name <= str && e.name[0] == str[0]
  {
    if table[0].name <= str {
      e := table[0];
    } else {
      e := FoundEntry(table[1..], str);
    }
  }

  lemma AccessNameStarts(i: nat)
    requires i < 17
    ensures ACCESS_MASK[i].name[0] != 'F'
  {
  }

  lemma AccessNamesAreNotFile(str: string)
    requires MapFlag(ACCESS_MASK, str).Some?
    ensures MapFlag(FILE_RIGHTS, str).None?
  {
    var e := FoundEntry(ACCESS_MASK, str);
    var i :| 0 <= i < |ACCESS_MASK| && ACCESS_MASK[i] == e;
    AccessNameStarts(i);
    if MapFlag(FILE_RIGHTS, str).Some? {
      FileNames(str);
    }
  }

  /** A text that the directory table alone reads to the end is read the same with both tables. */
  lemma {:induction false} LettersAreFlags(str: string, read: Mask)
    requires MapFlags(ACCESS_MASK, str, read).1 == ""
    ensures DecodeLetters(str, read) == Some(MapFlags(ACCESS_MASK, str, read).0)
    decreases |str|
  {
    if str != "" {
      var found := MapFlag(ACCESS_MASK, str);
      AccessNamesAreNotFile(str);
      assert SkipBlanks(str) == str;
      LettersAreFlags(str[|found.value.name|..], read + found.value.bits);
    }
  }

  lemma LettersRoundTrip(mask: Mask)
    requires FlagsToString(ACCESS_MASK, mask, true).Some?
    ensures DecodeAccess(EncodeAccess(mask)) == Some(mask)
  {
    var s := FlagsToString(ACCESS_MASK, mask, true).value;
    AccessTable();
    FlagsReadBack(ACCESS_MASK, mask, s);
    LettersAreFlags(s, {});
    LettersAreNotNumbers(s);
  }

  lemma LettersAreNotNumbers(s: string)
    requires MapFlags(ACCESS_MASK, s, {}).1 == ""
    ensures StrToUll(s).None?
  {
    assert s != "" ==> IsUpper(s[0]);
    assert SkipSpaces(s) == s;
  }

  lemma FileRoundTrip(k: nat)
    requires k < |FILE_RIGHTS|
    ensures DecodeAccess(FILE_RIGHTS[k].name) == Some(FILE_RIGHTS[k].bits)
  {
    var e := FILE_RIGHTS[k];
    assert forall i :: 0 <= i < k ==> FILE_RIGHTS[i].name[1] != e.name[1];
    MapFlagFinds(FILE_RIGHTS, k, "");
    assert e.name + "" == e.name;
    assert e.name[0] == 'F' && |e.name| == 2;
    assert SkipBlanks(e.name) == e.name;
    assert e.name[2..] == "";
    assert {} + e.bits == e.bits;
  }

  lemma NumberRoundTrip(n: uint32)
    ensures DecodeAccess("0x" + ToBase(n, Hexadecimal)) == Some(MaskOf(n))
  {
    var s := "0x" + ToBase(n, Hexadecimal);
    ScanHexadecimal(n, "");
    assert s + "" == s;
    assert Power(Hexadecimal, 4) == 0x1_0000;
    assert Power(Hexadecimal, 8) == 0x1_0000_0000;
    PrintedLength(n, Hexadecimal, 8);
    assert SkipSpaces(s) == s;
  }

  /** Every 32-bit mask survives printing and parsing, whichever of the three forms the printer chose. */
  lemma AccessRoundTrip(mask: Mask)
    ensures DecodeAccess(EncodeAccess(mask)) == Some(mask)
  {
    if FlagsToString(ACCESS_MASK, mask, true).Some? {
      LettersRoundTrip(mask);
    } else if FindExact(FILE_RIGHTS, mask).Some? {
      var e := FindExact(FILE_RIGHTS, mask).value;
      var k :| 0 <= k < |FILE_RIGHTS| && FILE_RIGHTS[k] == e;
      FileRoundTrip(k);
    } else {
      NumberRoundTrip(MaskValue(mask));
      MaskOfValue(mask);
    }
  }
}
