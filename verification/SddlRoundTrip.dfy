/** Decoding the encoding of a canonical security descriptor gives it back. */
module SddlRoundTrip {
  import opened Primitives
  import opened Numbers
  import opened Strings
  import opened Guids
  import opened Aces
  import opened SidText
  import opened SddlFlags
  import opened SddlAccess
  import opened SddlSids
  import opened Sddl

  // ---------------------------------------------------------------------------
  // Which characters the printer uses.

  /** Neither the separator of tokens nor the end of an ACE. */
  ghost predicate IsPlain(s: string) {
    forall c :: c in s ==> c != ';' && c != ')'
  }

  ghost predicate HasPlainNames(table: FlagMap) {
    forall e :: e in table ==> IsPlain(e.name)
  }

  lemma {:induction false} BitNamesPlain(table: FlagMap, flags: Mask)
    requires HasPlainNames(table)
    ensures IsPlain(BitNames(table, flags).0)
  {
    if table != [] {
      BitNamesPlain(table[1..], flags - table[0].bits);
      BitNamesPlain(table[1..], flags);
      assert table[0] in table;
    }
  }

  lemma FlagsPlain(table: FlagMap, flags: Mask, checkAll: bool)
    requires HasPlainNames(table) && FlagsToString(table, flags, checkAll).Some?
    ensures IsPlain(FlagsToString(table, flags, checkAll).value)
  {
    BitNamesPlain(table, flags);
  }

  lemma TypeEntryIsPlain(i: nat)
    requires i < |ACE_TYPES|
    ensures IsPlain(ACE_TYPES[i].name)
  {
  }

  lemma FlagEntryIsPlain(i: nat)
    requires i < |ACE_FLAGS|
    ensures IsPlain(ACE_FLAGS[i].name)
  {
  }

  lemma FlagTableIsPlain()
    ensures HasPlainNames(ACE_FLAGS)
  {
    forall e | e in ACE_FLAGS ensures IsPlain(e.name) {
      var i :| 0 <= i < |ACE_FLAGS| && ACE_FLAGS[i] == e;
      FlagEntryIsPlain(i);
    }
  }

  lemma AccessTableIsPlain(i: nat)
    requires i < |ACCESS_MASK|
    ensures IsPlain(ACCESS_MASK[i].name)
  {
  }

  lemma AccessTableNames()
    ensures HasPlainNames(ACCESS_MASK)
  {
    forall e | e in ACCESS_MASK ensures IsPlain(e.name) {
      var i :| 0 <= i < |ACCESS_MASK| && ACCESS_MASK[i] == e;
      AccessTableIsPlain(i);
    }
  }

  lemma FileNameIsPlain(i: nat)
    requires i < |FILE_RIGHTS|
    ensures IsPlain(FILE_RIGHTS[i].name)
  {
  }

  lemma FileTableNames()
    ensures HasPlainNames(FILE_RIGHTS)
  {
    forall e | e in FILE_RIGHTS ensures IsPlain(e.name) {
      var i :| 0 <= i < |FILE_RIGHTS| && FILE_RIGHTS[i] == e;
      FileNameIsPlain(i);
    }
  }

  lemma ExactPlain(table: FlagMap, mask: Mask)
    requires HasPlainNames(table) && FindExact(table, mask).Some?
    ensures IsPlain(FindExact(table, mask).value.name)
  {
  }

  lemma NumberPlain(n: nat)
    ensures IsPlain("0x" + ToBase(n, Hexadecimal))
  {
    PrintedDigits(n, Hexadecimal);
  }

  lemma AccessPlain(mask: Mask)
    ensures IsPlain(EncodeAccess(mask))
  {
    if FlagsToString(ACCESS_MASK, mask, true).Some? {
      AccessTableNames();
      FlagsPlain(ACCESS_MASK, mask, true);
    } else if FindExact(FILE_RIGHTS, mask).Some? {
      FileTableNames();
      ExactPlain(FILE_RIGHTS, mask);
    } else {
      NumberPlain(MaskValue(mask));
    }
  }

  lemma {:induction false} SidPlain(sid: Sid, domain: Sid, i: nat)
    ensures IsPlain(EncodeSidFrom(sid, domain, i))
    decreases |SID_CODES| - i
  {
    if i >= |SID_CODES| {
      SidTextChars(sid);
      assert SidToString(sid) == "S-" + SidToString(sid)[2..];
    } else if CodeFits(SID_CODES[i], sid, domain) {
      CodeAt(i);
      var code := SID_CODES[i].code;
      assert code == [code[0], code[1]];
    } else {
      SidPlain(sid, domain, i + 1);
    }
  }

  lemma GuidPlain(guid: GuidBytes)
    ensures IsPlain(GuidToDisplayValue(guid)) && GuidToDisplayValue(guid) != ""
  {
    DisplayThenBytes(guid);
    var s := GuidToDisplayValue(guid);
    forall c | c in s ensures c != ';' && c != ')' {
      var i :| 0 <= i < |s| && s[i] == c;
      assert c == '-' || IsHexDigit(c);
    }
  }

  // ---------------------------------------------------------------------------
  // Tokens.

  lemma {:induction false} CutFirst(first: string, at: char, rest: string)
    requires at !in first
    ensures Cut(first + [at] + rest, at) == Some((first, rest))
  {
    var s := first + [at] + rest;
    if first == "" {
      assert s[1..] == rest;
    } else {
      assert s[1..] == first[1..] + [at] + rest;
      CutFirst(first[1..], at, rest);
      assert first == [first[0]] + first[1..];
    }
  }

  lemma {:induction false} TokensOfJoin(tokens: seq<string>)
    requires |tokens| >= 1 && forall i :: 0 <= i < |tokens| - 1 ==> ';' !in tokens[i]
    ensures Tokens(Join(tokens, ";"), |tokens| - 1) == Some(tokens)
  {
    if |tokens| > 1 {
      TokensOfJoin(tokens[1..]);
      CutFirst(tokens[0], ';', Join(tokens[1..], ";"));
      assert tokens == [tokens[0]] + tokens[1..];
    } else {
      assert tokens == [tokens[0]];
    }
  }

  lemma {:induction false} JoinPlain(tokens: seq<string>)
    requires forall t :: t in tokens ==> ')' !in t
    ensures ')' !in Join(tokens, ";")
  {
    if |tokens| > 1 {
      assert forall t :: t in tokens[1..] ==> t in tokens;
      JoinPlain(tokens[1..]);
    }
  }

  // ---------------------------------------------------------------------------
  // The parts of an ACE.

  ghost predicate IsKnownType(aceType: byte) {
    aceType <= 8 && aceType != 4
  }

  /** The bits of a number below sixteen. */
  lemma FourBits(n: nat, b: Bit)
    requires n < 16
    ensures b in MaskOf(n) <==> IsBitOf(n, b)
  {
    LowMask(n, 0);
    LowMask(n / 2, 1);
    LowMask(n / 4, 2);
    LowMask(n / 8, 3);
    ZeroMask(4);
    Quarters(n);
  }

  predicate IsBitOf(n: nat, b: Bit) {
    (b == 0 && n % 2 == 1) || (b == 1 && n / 2 % 2 == 1) || (b == 2 && n / 4 % 2 == 1) || (b == 3 && n / 8 % 2 == 1)
  }

  lemma Quarters(n: nat)
    requires n < 16
    ensures n / 2 / 2 == n / 4 && n / 4 / 2 == n / 8 && n / 8 / 2 == 0
  {
  }

  lemma LowMask(n: nat, i: Bit)
    ensures MaskFrom(n, i) == (if n % 2 == 1 then {i} else {}) + MaskFrom(n / 2, i + 1)
  {
  }

  lemma {:induction false} ZeroMask(i: nat)
    ensures MaskFrom(0, i) == {}
    decreases 32 - i
  {
    if i < 32 {
      ZeroMask(i + 1);
    }
  }

  /** The entry of a type, by its position in the table. */
  ghost function TypeIndex(aceType: byte): nat
    requires IsKnownType(aceType)
  {
    match aceType
    case 0 => 6
    case 1 => 7
    case 2 => 0
    case 3 => 1
    case 5 => 2
    case 6 => 3
    case 7 => 4
    case _ => 5
  }

  lemma TypeEntry(aceType: byte)
    requires IsKnownType(aceType)
    ensures ACE_TYPES[TypeIndex(aceType)].bits == MaskOf(aceType)
  {
    forall b: Bit ensures b in ACE_TYPES[TypeIndex(aceType)].bits <==> b in MaskOf(aceType) {
      FourBits(aceType, b);
      TypeBits(aceType, b);
    }
  }

  lemma TypeBits(aceType: byte, b: Bit)
    requires IsKnownType(aceType)
    ensures b in ACE_TYPES[TypeIndex(aceType)].bits <==> IsBitOf(aceType, b)
  {
  }

  lemma TypesDiffer(i: nat, j: nat)
    requires i < j < |ACE_TYPES|
    ensures ACE_TYPES[i].bits != ACE_TYPES[j].bits
  {
    assert ACE_TYPES[i].bits != ACE_TYPES[j].bits by {
      assert 0 in ACE_TYPES[i].bits <==> i == 1 || i == 2 || i == 4 || i == 7;
      assert 1 in ACE_TYPES[i].bits <==> i == 0 || i == 1 || i == 3 || i == 4;
      assert 2 in ACE_TYPES[i].bits <==> i == 2 || i == 3 || i == 4;
      assert 3 in ACE_TYPES[i].bits <==> i == 5;
      assert 0 in ACE_TYPES[j].bits <==> j == 1 || j == 2 || j == 4 || j == 7;
      assert 1 in ACE_TYPES[j].bits <==> j == 0 || j == 1 || j == 3 || j == 4;
      assert 2 in ACE_TYPES[j].bits <==> j == 2 || j == 3 || j == 4;
      assert 3 in ACE_TYPES[j].bits <==> j == 5;
    }
  }

  lemma TypeNamesDiffer(i: nat, j: nat)
    requires i < j < |ACE_TYPES|
    ensures !(ACE_TYPES[i].name <= ACE_TYPES[j].name)
  {
    var a, b := ACE_TYPES[i].name, ACE_TYPES[j].name;
    assert i < 6 ==> |a| == 2;
    assert j >= 6 ==> |b| == 1;
    assert i < 6 && j < 6 ==> a[0] != b[0] || a[1] != b[1];
    assert i == 6 ==> a[0] != b[0];
  }

  lemma TypeIsPrintedWhole(aceType: byte)
    requires IsKnownType(aceType)
    ensures FindExact(ACE_TYPES, MaskOf(aceType)) == Some(ACE_TYPES[TypeIndex(aceType)])
  {
    var k := TypeIndex(aceType);
    TypeEntry(aceType);
    ExactAt(ACE_TYPES, k);
    var e := FindExact(ACE_TYPES, MaskOf(aceType)).value;
    var i :| 0 <= i < |ACE_TYPES| && ACE_TYPES[i] == e;
    if i < k { TypesDiffer(i, k); } else if k < i { TypesDiffer(k, i); }
  }

  lemma TypeIsReadWhole(k: nat)
    requires k < |ACE_TYPES|
    ensures MapFlag(ACE_TYPES, ACE_TYPES[k].name) == Some(ACE_TYPES[k])
  {
    forall j | 0 <= j < k ensures !(ACE_TYPES[j].name <= ACE_TYPES[k].name) { TypeNamesDiffer(j, k); }
    MapFlagWhole(ACE_TYPES, k);
  }

  lemma TypeOfEntry(token: string, e: FlagEntry, value: byte)
    requires MapFlag(ACE_TYPES, token) == Some(e) && MaskValue(e.bits) == value && DecodeType(token).Some?
    ensures DecodeType(token).value == value
  {
  }

  lemma WholeTypeIsAccepted(token: string, e: FlagEntry)
    requires MapFlag(ACE_TYPES, token) == Some(e) && |token| == |e.name|
    ensures DecodeType(token).Some?
  {
  }

  ghost function TypeName(aceType: byte): Name
    requires IsKnownType(aceType)
  {
    ACE_TYPES[TypeIndex(aceType)].name
  }

  lemma TypeRoundTrip(aceType: byte)
    requires IsKnownType(aceType)
    ensures FlagsToString(ACE_TYPES, MaskOf(aceType), true) == Some(TypeName(aceType))
    ensures DecodeType(TypeName(aceType)) == Some(aceType)
  {
    var k := TypeIndex(aceType);
    TypeIsPrintedWhole(aceType);
    TypeEntry(aceType);
    TypeIsReadWhole(k);
    ValueOfMask(aceType);
    WholeTypeIsAccepted(TypeName(aceType), ACE_TYPES[k]);
    TypeOfEntry(TypeName(aceType), ACE_TYPES[k], aceType);
  }

  lemma TypeNamePlain(aceType: byte)
    requires IsKnownType(aceType)
    ensures IsPlain(TypeName(aceType))
  {
    TypeEntryIsPlain(TypeIndex(aceType));
  }

  lemma {:induction false} ExactAt(table: FlagMap, k: nat)
    requires k < |table|
    ensures FindExact(table, table[k].bits).Some?
  {
    if k > 0 {
      ExactAt(table[1..], k - 1);
    }
  }

  lemma AceFlagNames(i: nat)
    requires i < 7
    ensures |ACE_FLAGS[i].name| == 2 && IsUpper(ACE_FLAGS[i].name[0])
    ensures ACE_FLAGS[i].bits == {if i < 5 then i else i + 1}
  {
  }

  lemma AceFlagNamesDiffer(i: nat, j: nat)
    requires i < 7 && j < 7 && i != j
    ensures NameNumber(ACE_FLAGS[i].name) != NameNumber(ACE_FLAGS[j].name)
  {
  }

  lemma AceFlagTable()
    ensures IsLetterTable(ACE_FLAGS)
  {
    forall i, j | 0 <= i < |ACE_FLAGS| && 0 <= j < |ACE_FLAGS| && i != j
      ensures NameNumber(ACE_FLAGS[i].name) != NameNumber(ACE_FLAGS[j].name)
    {
      AceFlagNamesDiffer(i, j);
    }
    forall i | 0 <= i < |ACE_FLAGS|
      ensures |ACE_FLAGS[i].name| == 2 && IsUpper(ACE_FLAGS[i].name[0]) && IsOneBit(ACE_FLAGS[i].bits)
    {
      AceFlagNames(i);
    }
    TwoLetterTable(ACE_FLAGS);
  }

  /** Bit 5 is the one flag without a name. */
  lemma AceFlagBits(flags: AceFlags)
    requires 5 !in flags
    ensures flags <= AllBits(ACE_FLAGS)
  {
    forall b | b in flags ensures b in AllBits(ACE_FLAGS) {
      var i := if b < 5 then b else b - 1;
      AceFlagNames(i);
      EntryWithin(ACE_FLAGS, i);
    }
  }

  lemma AceFlagsRoundTrip(flags: AceFlags)
    requires 5 !in flags
    ensures FlagsToString(ACE_FLAGS, flags, true).Some?
    ensures DecodeAceFlags(FlagsToString(ACE_FLAGS, flags, true).value) == Some(flags)
  {
    AceFlagTable();
    AceFlagBits(flags);
    FlagsPrintable(ACE_FLAGS, flags, true);
    FlagsReadBack(ACE_FLAGS, flags, FlagsToString(ACE_FLAGS, flags, true).value);
    ReadAceFlags(FlagsToString(ACE_FLAGS, flags, true).value, flags);
  }

  lemma ReadAceFlags(token: string, flags: AceFlags)
    requires MapFlags(ACE_FLAGS, token, {}) == (flags, "")
    ensures DecodeAceFlags(token) == Some(flags)
  {
    assert (set b: Bit | b in flags && b < 8 :: b as FlagBit) == flags;
  }

  lemma AceFlagsPlain(flags: AceFlags)
    requires FlagsToString(ACE_FLAGS, flags, true).Some?
    ensures IsPlain(FlagsToString(ACE_FLAGS, flags, true).value)
  {
    FlagTableIsPlain();
    FlagsPlain(ACE_FLAGS, flags, true);
  }

  lemma GuidTokenRoundTrip(guid: GuidBytes)
    ensures DecodeGuid(GuidToDisplayValue(guid)) == Some(guid)
  {
    DisplayThenParse(guid);
  }

  // ---------------------------------------------------------------------------
  // A whole ACE.

  /** What the text form can represent: known types and flags, GUIDs exactly where the object flags announce them. */
  ghost predicate IsCanonicalAce(ace: Ace) {
    && IsKnownType(ace.aceType)
    && 5 !in ace.flags
    && (ace.objectFlags != {} ==> IsObjectType(ace.aceType))
    && ace.objectFlags <= {OBJECT_TYPE_PRESENT_BIT, INHERITED_OBJECT_TYPE_PRESENT_BIT}
    && (!ObjectPresent(ace) ==> ace.objectType == NO_GUID)
    && (!InheritedObjectPresent(ace) ==> ace.inheritedType == NO_GUID)
  }

  lemma SixTokens(t0: string, t1: string, t2: string, t3: string, t4: string, t5: string)
    requires IsPlain(t0) && IsPlain(t1) && IsPlain(t2) && IsPlain(t3) && IsPlain(t4) && IsPlain(t5)
    ensures Tokens(Join([t0, t1, t2, t3, t4, t5], ";"), 5) == Some([t0, t1, t2, t3, t4, t5])
    ensures ')' !in Join([t0, t1, t2, t3, t4, t5], ";")
  {
    TokensOfJoin([t0, t1, t2, t3, t4, t5]);
    JoinPlain([t0, t1, t2, t3, t4, t5]);
  }

  /** Assembling an ACE from tokens that decode to its parts. */
  lemma DecodeTokensStep(tokens: seq<string>, domain: Sid, ace: Ace)
    requires |tokens| == 6
    requires DecodeType(tokens[0]) == Some(ace.aceType) && DecodeAceFlags(tokens[1]) == Some(ace.flags)
    requires DecodeAccess(tokens[2]) == Some(ace.accessMask)
    requires DecodeGuid(tokens[3]) == Some(ace.objectType) && DecodeGuid(tokens[4]) == Some(ace.inheritedType)
    requires DecodeSid(tokens[5], domain) == Some((ace.trustee, ""))
    requires ace.objectFlags == (if tokens[3] == "" then {} else {OBJECT_TYPE_PRESENT_BIT})
                                + (if tokens[4] == "" then {} else {INHERITED_OBJECT_TYPE_PRESENT_BIT})
    ensures DecodeTokens(tokens, domain) == Some(ace)
  {
  }

  lemma ObjectTokens(ace: Ace)
    requires IsCanonicalAce(ace)
    ensures DecodeGuid(ObjectText(ace)) == Some(ace.objectType) &&
            DecodeGuid(InheritedText(ace)) == Some(ace.inheritedType)
    ensures IsPlain(ObjectText(ace)) && IsPlain(InheritedText(ace))
    ensures ObjectText(ace) == "" <==> OBJECT_TYPE_PRESENT_BIT !in ace.objectFlags
    ensures InheritedText(ace) == "" <==> INHERITED_OBJECT_TYPE_PRESENT_BIT !in ace.objectFlags
  {
    GuidTokenRoundTrip(ace.objectType);
    GuidTokenRoundTrip(ace.inheritedType);
    GuidPlain(ace.objectType);
    GuidPlain(ace.inheritedType);
  }

  lemma TwoFlags(flags: Mask)
    requires flags <= {OBJECT_TYPE_PRESENT_BIT, INHERITED_OBJECT_TYPE_PRESENT_BIT}
    ensures flags == (if OBJECT_TYPE_PRESENT_BIT !in flags then {} else {OBJECT_TYPE_PRESENT_BIT})
                     + (if INHERITED_OBJECT_TYPE_PRESENT_BIT !in flags then {} else {INHERITED_OBJECT_TYPE_PRESENT_BIT})
  {
  }

  /** A canonical ACE is printed as six tokens, which decode to its parts. */
  lemma AceTokens(ace: Ace, domain: Sid) returns (aceType: string, flags: string, trustee: string)
    requires IsCanonicalAce(ace)
    ensures EncodeAce(ace, domain) ==
            Some(Join(
              [aceType, flags, EncodeAccess(ace.accessMask), ObjectText(ace), InheritedText(ace), trustee], ";"))
    ensures DecodeType(aceType) == Some(ace.aceType) && DecodeAceFlags(flags) == Some(ace.flags)
    ensures DecodeSid(trustee, domain) == Some((ace.trustee, ""))
    ensures IsPlain(aceType) && IsPlain(flags) && IsPlain(trustee)
  {
    TypeRoundTrip(ace.aceType);
    TypeNamePlain(ace.aceType);
    AceFlagsRoundTrip(ace.flags);
    AceFlagsPlain(ace.flags);
    SidPlain(ace.trustee, domain, 0);
    SidRoundTrip(ace.trustee, domain, "");
    aceType, flags := TypeName(ace.aceType), FlagsToString(ACE_FLAGS, ace.flags, true).value;
    trustee := EncodeSid(ace.trustee, domain);
    assert trustee + "" == trustee;
  }

  /** A canonical ACE can be printed, its text has no closing parenthesis, and it reads back as it was. */
  lemma AceRoundTrip(ace: Ace, domain: Sid)
    requires IsCanonicalAce(ace)
    ensures EncodeAce(ace, domain).Some?
    ensures DecodeAce(EncodeAce(ace, domain).value, domain) == Some(ace)
    ensures ')' !in EncodeAce(ace, domain).value
  {
    var aceType, flags, sid := AceTokens(ace, domain);
    var access := EncodeAccess(ace.accessMask);
    AccessRoundTrip(ace.accessMask);
    AccessPlain(ace.accessMask);
    ObjectTokens(ace);
    TwoFlags(ace.objectFlags);
    SixTokens(aceType, flags, access, ObjectText(ace), InheritedText(ace), sid);
    DecodeTokensStep([aceType, flags, access, ObjectText(ace), InheritedText(ace), sid], domain, ace);
  }

  // ---------------------------------------------------------------------------
  // ACLs.

  ghost predicate AreCanonical(aces: seq<Ace>) {
    forall ace :: ace in aces ==> IsCanonicalAce(ace)
  }

  lemma ReadItemsStep<T>(text: string, item: T, tail: string, read: seq<T>, parse: string -> Option<T>)
    requires parse(text) == Some(item) && ')' !in text
    ensures ReadItems("(" + text + ")" + tail, read, parse) == ReadItems(tail, read + [item], parse)
  {
    var s := "(" + text + ")" + tail;
    assert s[1..] == text + [')'] + tail;
    CutFirst(text, ')', tail);
  }

  lemma PrintItemsStep<T>(items: seq<T>, print_: T -> Option<string>, text: string, tail: string)
    requires items != [] && print_(items[0]) == Some(text) && PrintItems(items[1..], print_) == Some(tail)
    ensures PrintItems(items, print_) == Some("(" + text + ")" + tail)
    ensures ("(" + text + ")" + tail) != "" && ("(" + text + ")" + tail)[0] == '('
  {
  }

  lemma Regroup(text: string, tail: string, rest: string)
    ensures "(" + text + ")" + tail + rest == "(" + text + ")" + (tail + rest)
  {
  }

  /** Items whose own text reads back, and has no closing parenthesis, read back as a list. */
  lemma {:induction false} ItemsRoundTrip<T>(
      items: seq<T>, print_: T -> Option<string>, parse: string -> Option<T>, read: seq<T>, rest: string)
    requires rest == "" || rest[0] != '('
    requires forall x :: x in items ==> print_(x).Some? && parse(print_(x).value) == Some(x) && ')' !in print_(x).value
    ensures PrintItems(items, print_).Some?
    ensures if items == [] then PrintItems(items, print_).value == ""
            else PrintItems(items, print_).value != "" && PrintItems(items, print_).value[0] == '('
    ensures ReadItems(PrintItems(items, print_).value + rest, read, parse) == Some((read + items, rest))
    decreases |items|
  {
    if items == [] {
      assert "" + rest == rest && read + [] == read;
    } else {
      var first := items[0];
      assert forall x :: x in items[1..] ==> x in items;
      ItemsRoundTrip(items[1..], print_, parse, read + [first], rest);
      var text, tail := print_(first).value, PrintItems(items[1..], print_).value;
      PrintItemsStep(items, print_, text, tail);
      ReadItemsStep(text, first, tail + rest, read, parse);
      Regroup(text, tail, rest);
      ReadSoFar(items, read);
    }
  }

  lemma ReadSoFar<T>(items: seq<T>, read: seq<T>)
    requires items != []
    ensures read + [items[0]] + items[1..] == read + items
  {
    assert items == [items[0]] + items[1..];
  }

  lemma AcesRoundTrip(aces: seq<Ace>, domain: Sid, rest: string)
    requires AreCanonical(aces) && (rest == "" || rest[0] != '(')
    ensures EncodeAces(aces, domain).Some?
    ensures if aces == [] then EncodeAces(aces, domain).value == ""
            else EncodeAces(aces, domain).value != "" && EncodeAces(aces, domain).value[0] == '('
    ensures DecodeAces(EncodeAces(aces, domain).value + rest, domain) == Some((aces, rest))
  {
    var print_ := (ace: Ace) => EncodeAce(ace, domain);
    var parse := (text: string) => DecodeAce(text, domain);
    forall x | x in aces ensures print_(x).Some? && parse(print_(x).value) == Some(x) && ')' !in print_(x).value {
      AceRoundTrip(x, domain);
    }
    ItemsRoundTrip(aces, print_, parse, [], rest);
    assert [] + aces == aces;
  }

  lemma AclFlagAt(i: nat)
    requires i < |ACL_FLAGS|
    ensures IsOneBit(ACL_FLAGS[i].bits) && ':' !in ACL_FLAGS[i].name
    ensures ACL_FLAGS[i].name[0] == 'P' || ACL_FLAGS[i].name[0] == 'A'
  {
    assert IsOneBit({12}) && IsOneBit({8}) && IsOneBit({10});
  }

  lemma AclNamesDiffer(i: nat, j: nat)
    requires i < |ACL_FLAGS| && j < |ACL_FLAGS| && i != j
    ensures !(ACL_FLAGS[i].name <= ACL_FLAGS[j].name)
  {
    var a, b := ACL_FLAGS[i].name, ACL_FLAGS[j].name;
    assert i == 0 || j == 0 ==> a[0] != b[0];
    assert i > 0 && j > 0 ==> a[1] != b[1];
  }

  lemma AclFlagBits()
    ensures AllBits(ACL_FLAGS) == {8, 10, 12}
  {
    var t := ACL_FLAGS;
    assert t[1..][1..] == t[2..] && t[2..][1..] == [];
    assert AllBits(t[2..]) == {10} + {};
    assert AllBits(t[1..]) == {8} + AllBits(t[2..]);
  }

  lemma AclFlagTable()
    ensures IsLetterTable(ACL_FLAGS) && AllBits(ACL_FLAGS) == {8, 10, 12}
    ensures forall e :: e in ACL_FLAGS ==> ':' !in e.name && (e.name[0] == 'P' || e.name[0] == 'A')
  {
    AclFlagBits();
    forall i, j | 0 <= i < |ACL_FLAGS| && 0 <= j < |ACL_FLAGS| && i != j
        ensures !(ACL_FLAGS[i].name <= ACL_FLAGS[j].name) {
      AclNamesDiffer(i, j);
    }
    forall e | e in ACL_FLAGS ensures IsOneBit(e.bits) && ':' !in e.name && (e.name[0] == 'P' || e.name[0] == 'A') {
      var i :| 0 <= i < |ACL_FLAGS| && ACL_FLAGS[i] == e;
      AclFlagAt(i);
    }
  }

  lemma {:induction false} NamesAvoid(table: FlagMap, flags: Mask, c: char)
    requires forall e :: e in table ==> c !in e.name
    ensures c !in BitNames(table, flags).0
  {
    if table != [] {
      NamesAvoid(table[1..], flags - table[0].bits, c);
      NamesAvoid(table[1..], flags, c);
      assert table[0] in table;
    }
  }

  /** What may follow an ACL in a descriptor: nothing, or the SACL. */
  predicate FollowsAcl(rest: string) {
    rest == "" || "S:" <= rest
  }

  lemma AclFlagsEnd(rest: string)
    requires rest == "" || rest[0] == '(' || rest[0] == 'S'
    ensures EndsFlags(ACL_FLAGS, rest)
  {
    AclFlagTable();
    if MapFlag(ACL_FLAGS, rest).Some? {
      var e := FoundEntry(ACL_FLAGS, rest);
    }
  }

  lemma AclRoundTrip(aces: seq<Ace>, flags: Mask, domain: Sid, rest: string)
    requires AreCanonical(aces) && FollowsAcl(rest)
    ensures EncodeAcl(aces, flags, domain).Some?
    ensures DecodeAcl(EncodeAcl(aces, flags, domain).value + rest, domain) == Some((flags * {8, 10, 12}, aces, rest))
  {
    AclFlagTable();
    FlagsPrintable(ACL_FLAGS, flags, false);
    AcesRoundTrip(aces, domain, rest);
    var names, text := FlagsToString(ACL_FLAGS, flags, false).value, EncodeAces(aces, domain).value;
    AclFlagsEnd(text + rest);
    AclFlagsEnd(rest);
    FlagsRoundTrip(ACL_FLAGS, flags, false, text + rest);
    FlagsAvoid(ACL_FLAGS, flags, ':');
    AclTextReadsBack(names, text, flags * {8, 10, 12}, aces, rest, domain);
  }

  lemma AclTextReadsBack(names: string, text: string, flags: Mask, aces: seq<Ace>, rest: string, domain: Sid)
    requires ':' !in names && FollowsAcl(rest)
    requires EndsFlags(ACL_FLAGS, rest)
    requires if aces == [] then text == "" else text != "" && text[0] == '('
    requires MapFlags(ACL_FLAGS, names + (text + rest), {}) == (flags, text + rest)
    requires DecodeAces(text + rest, domain) == Some((aces, rest))
    ensures DecodeAcl(names + text + rest, domain) == Some((flags, aces, rest))
  {
    var s := names + text + rest;
    AppendAssociates(names, text, rest);
    if IsMarker(s) {
      NoFlagsNoAces(names, text, rest);
      EmptyAcl(rest, flags, domain);
    } else {
      DecodeAclStep(s, flags, text + rest, aces, rest, domain);
    }
  }

  lemma EmptyAcl(s: string, flags: Mask, domain: Sid)
    requires IsMarker(s) && EndsFlags(ACL_FLAGS, s) && MapFlags(ACL_FLAGS, s, {}) == (flags, s)
    ensures DecodeAcl(s, domain) == Some((flags, [], s))
  {
  }

  predicate IsMarker(s: string) {
    |s| >= 2 && IsUpper(s[0]) && s[1] == ':'
  }

  lemma DecodeAclStep(s: string, flags: Mask, afterFlags: string, aces: seq<Ace>, rest: string, domain: Sid)
    requires !IsMarker(s) && MapFlags(ACL_FLAGS, s, {}) == (flags, afterFlags)
    requires DecodeAces(afterFlags, domain) == Some((aces, rest))
    ensures DecodeAcl(s, domain) == Some((flags, aces, rest))
  {
  }

  lemma FlagsAvoid(table: FlagMap, flags: Mask, c: char)
    requires forall e :: e in table ==> c !in e.name
    requires FlagsToString(table, flags, false).Some?
    ensures c !in FlagsToString(table, flags, false).value
  {
    NamesAvoid(table, flags, c);
  }

  /** A capital and a colon right at the start can only come from what follows an empty ACL. */
  lemma NoFlagsNoAces(names: string, text: string, rest: string)
    requires ':' !in names && (text == "" || text[0] == '(') && FollowsAcl(rest)
    requires IsMarker(names + text + rest)
    ensures names == "" && text == "" && names + text + rest == rest && text + rest == rest
  {
  }

  // ---------------------------------------------------------------------------
  // Descriptors.

  const DACL_FLAG_BITS: Mask := {8, 10, 12}
  const SACL_FLAG_BITS: Mask := {9, 11, 13}

  /** The control bits say which ACLs are present, and carry flags of present ACLs only. */
  ghost predicate IsCanonicalControl(sd: Descriptor) {
    && SELF_RELATIVE_BIT in sd.control
    && (DACL_PRESENT_BIT in sd.control <==> sd.dacl.Some?)
    && (SACL_PRESENT_BIT in sd.control <==> sd.sacl.Some?)
    && (sd.dacl.None? ==> sd.control * DACL_FLAG_BITS == {})
    && (sd.sacl.None? ==> sd.control * SACL_FLAG_BITS == {})
    && sd.control <= DACL_FLAG_BITS + SACL_FLAG_BITS + {SELF_RELATIVE_BIT, DACL_PRESENT_BIT, SACL_PRESENT_BIT}
  }

  ghost predicate IsCanonical(sd: Descriptor) {
    && IsCanonicalControl(sd)
    && (sd.dacl.Some? ==> AreCanonical(sd.dacl.value))
    && (sd.sacl.Some? ==> AreCanonical(sd.sacl.value))
  }

  // The text of each part, empty when the part is absent.

  ghost function OwnerText(sid: Option<Sid>, domain: Sid): string {
    if sid.None? then "" else "O:" + EncodeSid(sid.value, domain)
  }

  ghost function GroupText(sid: Option<Sid>, domain: Sid): string {
    if sid.None? then "" else "G:" + EncodeSid(sid.value, domain)
  }

  ghost function AclText(marker: string, acl: Option<seq<Ace>>, flags: Mask, domain: Sid): string
    requires acl.Some? ==> EncodeAcl(acl.value, flags, domain).Some?
  {
    if acl.None? then "" else marker + EncodeAcl(acl.value, flags, domain).value
  }

  lemma DecodeStep(s: string, sd: Descriptor, next: Descriptor, rest: string, domain: Sid)
    requires s != "" && DecodePart(s, sd, domain) == Some((next, rest))
    ensures DecodeFrom(s, sd, domain) == DecodeFrom(rest, next, domain)
  {
  }

  lemma DecodeOwner(s: string, sd: Descriptor, sid: Sid, rest: string, domain: Sid)
    requires |s| >= 2 && s[0] == 'O' && s[1] == ':' && sd.owner.None? && DecodeSid(s[2..], domain) == Some((sid, rest))
    ensures DecodePart(s, sd, domain) == Some((sd.(owner := Some(sid)), rest))
  {
  }

  lemma DecodeGroup(s: string, sd: Descriptor, sid: Sid, rest: string, domain: Sid)
    requires |s| >= 2 && s[0] == 'G' && s[1] == ':' && sd.group.None? && DecodeSid(s[2..], domain) == Some((sid, rest))
    ensures DecodePart(s, sd, domain) == Some((sd.(group := Some(sid)), rest))
  {
  }

  lemma DecodeDacl(s: string, sd: Descriptor, flags: Mask, aces: seq<Ace>, rest: string, domain: Sid)
    requires |s| >= 2 && s[0] == 'D' && s[1] == ':' && sd.dacl.None? &&
            DecodeAcl(s[2..], domain) == Some((flags, aces, rest))
    ensures DecodePart(s, sd, domain) ==
            Some((sd.(dacl := Some(aces), control := sd.control + flags + {DACL_PRESENT_BIT}), rest))
  {
  }

  lemma DecodeSacl(s: string, sd: Descriptor, flags: Mask, aces: seq<Ace>, rest: string, domain: Sid)
    requires |s| >= 2 && s[0] == 'S' && s[1] == ':' && sd.sacl.None? &&
            DecodeAcl(s[2..], domain) == Some((flags, aces, rest))
    ensures DecodePart(s, sd, domain)
            == Some((sd.(sacl := Some(aces), control := sd.control + ShiftLeft(flags) + {SACL_PRESENT_BIT}), rest))
  {
  }

  lemma DropMarker(marker: string, text: string, rest: string)
    requires |marker| == 2
    ensures var s := marker + text + rest; |s| >= 2 && s[0] == marker[0] && s[1] == marker[1] && s[2..] == text + rest
  {
  }

  lemma StageOwner(sid: Option<Sid>, rest: string, sd: Descriptor, domain: Sid)
    requires sd.owner.None? && FollowsSid(rest)
    ensures DecodeFrom(OwnerText(sid, domain) + rest, sd, domain) == DecodeFrom(rest, sd.(owner := sid), domain)
  {
    var s := OwnerText(sid, domain) + rest;
    if sid.None? {
      assert s == rest && sd.(owner := sid) == sd;
    } else {
      DropMarker("O:", EncodeSid(sid.value, domain), rest);
      SidRoundTrip(sid.value, domain, rest);
      DecodeOwner(s, sd, sid.value, rest, domain);
      DecodeStep(s, sd, sd.(owner := sid), rest, domain);
    }
  }

  lemma StageGroup(sid: Option<Sid>, rest: string, sd: Descriptor, domain: Sid)
    requires sd.group.None? && FollowsSid(rest)
    ensures DecodeFrom(GroupText(sid, domain) + rest, sd, domain) == DecodeFrom(rest, sd.(group := sid), domain)
  {
    var s := GroupText(sid, domain) + rest;
    if sid.None? {
      assert s == rest && sd.(group := sid) == sd;
    } else {
      DropMarker("G:", EncodeSid(sid.value, domain), rest);
      SidRoundTrip(sid.value, domain, rest);
      DecodeGroup(s, sd, sid.value, rest, domain);
      DecodeStep(s, sd, sd.(group := sid), rest, domain);
    }
  }

  ghost function WithDacl(sd: Descriptor, dacl: Option<seq<Ace>>, flags: Mask): Descriptor {
    if dacl.None? then sd else sd.(dacl := dacl, control := sd.control + flags + {DACL_PRESENT_BIT})
  }

  ghost function WithSacl(sd: Descriptor, sacl: Option<seq<Ace>>, flags: Mask): Descriptor {
    if sacl.None? then sd else sd.(sacl := sacl, control := sd.control + ShiftLeft(flags) + {SACL_PRESENT_BIT})
  }

  lemma StageDacl(dacl: Option<seq<Ace>>, flags: Mask, rest: string, sd: Descriptor, domain: Sid)
    requires sd.dacl.None? && FollowsAcl(rest) && (dacl.Some? ==> AreCanonical(dacl.value))
    ensures dacl.Some? ==> EncodeAcl(dacl.value, flags, domain).Some?
    ensures DecodeFrom(AclText("D:", dacl, flags, domain) + rest, sd, domain)
            == DecodeFrom(rest, WithDacl(sd, dacl, flags * {8, 10, 12}), domain)
  {
    if dacl.None? {
      assert "" + rest == rest;
    } else {
      AclRoundTrip(dacl.value, flags, domain, rest);
      var s := AclText("D:", dacl, flags, domain) + rest;
      DropMarker("D:", EncodeAcl(dacl.value, flags, domain).value, rest);
      DecodeDacl(s, sd, flags * {8, 10, 12}, dacl.value, rest, domain);
      DecodeStep(s, sd, WithDacl(sd, dacl, flags * {8, 10, 12}), rest, domain);
    }
  }

  lemma StageSacl(sacl: Option<seq<Ace>>, flags: Mask, sd: Descriptor, domain: Sid)
    requires sd.sacl.None? && (sacl.Some? ==> AreCanonical(sacl.value))
    ensures sacl.Some? ==> EncodeAcl(sacl.value, flags, domain).Some?
    ensures DecodeFrom(AclText("S:", sacl, flags, domain), sd, domain) == Some(WithSacl(sd, sacl, flags * {8, 10, 12}))
  {
    if sacl.Some? {
      AclRoundTrip(sacl.value, flags, domain, "");
      var s := AclText("S:", sacl, flags, domain);
      DropMarker("S:", EncodeAcl(sacl.value, flags, domain).value, "");
      assert s + "" == s;
      DecodeSacl(s, sd, flags * {8, 10, 12}, sacl.value, "", domain);
      DecodeStep(s, sd, WithSacl(sd, sacl, flags * {8, 10, 12}), "", domain);
    }
  }

  /** The one-bit shift brings the SACL flags back to their own bits and lets no DACL flag through. */
  lemma ShiftedFlags(control: Mask)
    ensures ShiftLeft(ShiftRight(control) * DACL_FLAG_BITS) == control * SACL_FLAG_BITS
  {
    forall b: Bit ensures b in ShiftLeft(ShiftRight(control) * DACL_FLAG_BITS) <==> b in control * SACL_FLAG_BITS {
      if b in control * SACL_FLAG_BITS {
        var a: Bit := b - 1;
        assert a in ShiftRight(control) * DACL_FLAG_BITS;
      }
    }
  }

  lemma ControlRestored(sd: Descriptor)
    requires IsCanonicalControl(sd)
    ensures sd.control == {SELF_RELATIVE_BIT}
      + (if sd.dacl.Some? then sd.control * DACL_FLAG_BITS + {DACL_PRESENT_BIT} else {})
      + (if sd.sacl.Some? then sd.control * SACL_FLAG_BITS + {SACL_PRESENT_BIT} else {})
  {
    var c := sd.control;
    assert forall b :: b in c && b in DACL_FLAG_BITS ==> b in c * DACL_FLAG_BITS;
    assert forall b :: b in c && b in SACL_FLAG_BITS ==> b in c * SACL_FLAG_BITS;
  }

  lemma MarkersFollow(
      sid: Option<Sid>, dacl: Option<seq<Ace>>, flags: Mask, sacl: Option<seq<Ace>>, saclFlags: Mask, domain: Sid)
    requires dacl.Some? ==> EncodeAcl(dacl.value, flags, domain).Some?
    requires sacl.Some? ==> EncodeAcl(sacl.value, saclFlags, domain).Some?
    ensures FollowsAcl(AclText("S:", sacl, saclFlags, domain))
    ensures FollowsSid(AclText("D:", dacl, flags, domain) + AclText("S:", sacl, saclFlags, domain))
    ensures FollowsSid(GroupText(sid, domain) +
            (AclText("D:", dacl, flags, domain) + AclText("S:", sacl, saclFlags, domain)))
  {
  }

  lemma EncodeIsText(sd: Descriptor, domain: Sid)
    requires IsCanonicalControl(sd)
    requires sd.dacl.Some? ==> EncodeAcl(sd.dacl.value, sd.control, domain).Some?
    requires sd.sacl.Some? ==> EncodeAcl(sd.sacl.value, ShiftRight(sd.control), domain).Some?
    ensures Encode(sd, domain)
            == Some(OwnerText(sd.owner, domain) + GroupText(sd.group, domain) +
                AclText("D:", sd.dacl, sd.control, domain)
                    + AclText("S:", sd.sacl, ShiftRight(sd.control), domain))
  {
  }

  lemma RegroupFour(o: string, g: string, d: string, s: string)
    ensures o + g + d + s == o + (g + (d + s))
  {
  }

  /**
   Every canonical descriptor can be printed, and parsing the text gives back the owner, the
   group, both ACLs with their ACEs in order, and all control bits.
   */
  lemma DescriptorRoundTrip(sd: Descriptor, domain: Sid)
    requires IsCanonical(sd)
    ensures Encode(sd, domain).Some?
    ensures Decode(Encode(sd, domain).value, domain) == Some(sd)
  {
    var flags, saclFlags := sd.control, ShiftRight(sd.control);
    var sd1 := EMPTY.(owner := sd.owner, group := sd.group);
    var sd2 := WithDacl(sd1, sd.dacl, flags * {8, 10, 12});
    StageSacl(sd.sacl, saclFlags, sd2, domain);
    StageDacl(sd.dacl, flags, "", sd1, domain);
    MarkersFollow(sd.group, sd.dacl, flags, sd.sacl, saclFlags, domain);
    var s := AclText("S:", sd.sacl, saclFlags, domain);
    var d := AclText("D:", sd.dacl, flags, domain);
    StageDacl(sd.dacl, flags, s, sd1, domain);
    StageGroup(sd.group, d + s, EMPTY.(owner := sd.owner), domain);
    StageOwner(sd.owner, GroupText(sd.group, domain) + (d + s), EMPTY, domain);
    RegroupFour(OwnerText(sd.owner, domain), GroupText(sd.group, domain), d, s);
    EncodeIsText(sd, domain);
    Assembled(sd);
  }

  lemma Assembled(sd: Descriptor)
    requires IsCanonicalControl(sd)
    ensures WithSacl(WithDacl(EMPTY.(owner := sd.owner, group := sd.group), sd.dacl, sd.control * {8, 10, 12}),
                     sd.sacl, ShiftRight(sd.control) * {8, 10, 12}) == sd
  {
    ShiftedFlags(sd.control);
    ControlRestored(sd);
  }
}
