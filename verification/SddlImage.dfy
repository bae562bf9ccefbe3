/** What decoding can produce, and with it exactly which descriptors survive the round trip. */
module SddlImage {
  import opened Primitives
  import opened Aces
  import opened SddlFlags
  import opened SddlAccess
  import opened Sddl
  import opened SddlRoundTrip

  /** What the parser makes of any ACE text it accepts: GUIDs go with the object flags, whatever the type. */
  ghost predicate IsParsedAce(ace: Ace) {
    && IsKnownType(ace.aceType)
    && 5 !in ace.flags
    && ace.objectFlags <= {OBJECT_TYPE_PRESENT_BIT, INHERITED_OBJECT_TYPE_PRESENT_BIT}
    && (OBJECT_TYPE_PRESENT_BIT !in ace.objectFlags ==> ace.objectType == NO_GUID)
    && (INHERITED_OBJECT_TYPE_PRESENT_BIT !in ace.objectFlags ==> ace.inheritedType == NO_GUID)
  }

  /** The ACE without GUIDs that its type cannot carry. */
  ghost function NormalAce(ace: Ace): Ace {
    if IsObjectType(ace.aceType) then ace else ace.(objectFlags := {}, objectType := NO_GUID, inheritedType := NO_GUID)
  }

  ghost function NormalAces(aces: seq<Ace>): (r: seq<Ace>)
    ensures |r| == |aces| && forall i :: 0 <= i < |aces| ==> r[i] == NormalAce(aces[i])
  {
    seq(|aces|, i requires 0 <= i < |aces| => NormalAce(aces[i]))
  }

  ghost function NormalAcl(acl: Option<seq<Ace>>): Option<seq<Ace>> {
    if acl.None? then None else Some(NormalAces(acl.value))
  }

  ghost function Normal(sd: Descriptor): Descriptor {
    sd.(dacl := NormalAcl(sd.dacl), sacl := NormalAcl(sd.sacl))
  }

  ghost predicate AreParsed(acl: Option<seq<Ace>>) {
    acl.Some? ==> forall i :: 0 <= i < |acl.value| ==> IsParsedAce(acl.value[i])
  }

  ghost predicate IsParsed(sd: Descriptor) {
    IsCanonicalControl(sd) && AreParsed(sd.dacl) && AreParsed(sd.sacl)
  }

  // ---------------------------------------------------------------------------
  // Parsed values.

  lemma {:induction false} MapFlagsBits(table: FlagMap, str: string, read: Mask)
    ensures MapFlags(table, str, read).0 <= read + AllBits(table)
    decreases |str|
  {
    if str != "" && IsUpper(str[0]) && MapFlag(table, str).Some? {
      var e := FoundEntry(table, str);
      var k :| 0 <= k < |table| && table[k] == e;
      EntryWithin(table, k);
      MapFlagsBits(table, str[|e.name|..], read + e.bits);
    }
  }

  ghost function TypeAt(k: nat): byte {
    match k
    case 0 => 2
    case 1 => 3
    case 2 => 5
    case 3 => 6
    case 4 => 7
    case 5 => 8
    case 6 => 0
    case _ => 1
  }

  lemma TypeValueAt(k: nat)
    requires k < |ACE_TYPES|
    ensures IsKnownType(TypeAt(k)) && MaskValue(ACE_TYPES[k].bits) == TypeAt(k)
  {
    assert TypeIndex(TypeAt(k)) == k;
    TypeEntry(TypeAt(k));
    ValueOfMask(TypeAt(k));
  }

  lemma DecodedTypeIsKnown(token: string)
    requires DecodeType(token).Some?
    ensures IsKnownType(DecodeType(token).value)
  {
    var e := FoundEntry(ACE_TYPES, token);
    var k :| 0 <= k < |ACE_TYPES| && ACE_TYPES[k] == e;
    TypeValueAt(k);
    TypeOfEntry(token, e, TypeAt(k));
  }

  lemma {:induction false} AllBitsMeaning(table: FlagMap, b: Bit)
    ensures b in AllBits(table) <==> exists i :: 0 <= i < |table| && b in table[i].bits
  {
    if table != [] {
      AllBitsMeaning(table[1..], b);
      assert forall i :: 0 < i < |table| ==> table[i] == table[1..][i - 1];
      assert forall i :: 0 <= i < |table| - 1 ==> table[1..][i] == table[i + 1];
    }
  }

  lemma DecodedFlagsHaveNoBitFive(token: string)
    requires DecodeAceFlags(token).Some?
    ensures 5 !in DecodeAceFlags(token).value
  {
    MapFlagsBits(ACE_FLAGS, token, {});
    AllBitsMeaning(ACE_FLAGS, 5);
    forall i | 0 <= i < |ACE_FLAGS| ensures 5 !in ACE_FLAGS[i].bits {
      AceFlagNames(i);
    }
  }

  lemma DecodedTokens(tokens: seq<string>, domain: Sid)
    requires |tokens| == 6 && DecodeTokens(tokens, domain).Some?
    ensures IsParsedAce(DecodeTokens(tokens, domain).value)
  {
    DecodedTypeIsKnown(tokens[0]);
    DecodedFlagsHaveNoBitFive(tokens[1]);
  }

  lemma DecodedAce(text: string, domain: Sid)
    requires DecodeAce(text, domain).Some?
    ensures IsParsedAce(DecodeAce(text, domain).value)
  {
    DecodedTokens(Tokens(text, 5).value, domain);
  }

  /** Whatever holds of every parsed item holds of the whole list. */
  lemma {:induction false} ItemsAreParsed<T>(s: string, read: seq<T>, parse: string -> Option<T>, good: T -> bool)
    requires forall text :: parse(text).Some? ==> good(parse(text).value)
    requires forall x :: x in read ==> good(x)
    requires ReadItems(s, read, parse).Some?
    ensures forall x :: x in ReadItems(s, read, parse).value.0 ==> good(x)
    decreases |s|
  {
    if s != "" && s[0] == '(' {
      var cut := Cut(s[1..], ')');
      ItemsAreParsed(cut.value.1, read + [parse(cut.value.0).value], parse, good);
    }
  }

  lemma DecodedAcl(s: string, domain: Sid)
    requires DecodeAcl(s, domain).Some?
    ensures DecodeAcl(s, domain).value.0 <= DACL_FLAG_BITS
    ensures AreParsed(Some(DecodeAcl(s, domain).value.1))
  {
    if !IsMarker(s) {
      AclFlagTable();
      MapFlagsBits(ACL_FLAGS, s, {});
      DecodedAces(MapFlags(ACL_FLAGS, s, {}).1, domain);
    }
  }

  lemma DecodedAces(s: string, domain: Sid)
    requires DecodeAces(s, domain).Some?
    ensures AreParsed(Some(DecodeAces(s, domain).value.0))
  {
    var parse := (text: string) => DecodeAce(text, domain);
    ghost var good := (ace: Ace) => IsParsedAce(ace);
    forall text | parse(text).Some? ensures good(parse(text).value) {
      DecodedAce(text, domain);
    }
    ItemsAreParsed(s, [], parse, good);
    var aces := DecodeAces(s, domain).value.0;
    forall i | 0 <= i < |aces| ensures IsParsedAce(aces[i]) {
      assert good(aces[i]);
    }
  }

  lemma DecodedPart(s: string, sd: Descriptor, domain: Sid)
    requires s != "" && IsParsed(sd) && DecodePart(s, sd, domain).Some?
    ensures IsParsed(DecodePart(s, sd, domain).value.0)
  {
    if s[0] == 'D' {
      DecodedAcl(s[2..], domain);
      ControlWithDacl(sd, DecodeAcl(s[2..], domain).value.0);
    } else if s[0] == 'S' {
      DecodedAcl(s[2..], domain);
      ControlWithSacl(sd, DecodeAcl(s[2..], domain).value.0);
    }
  }

  lemma ControlWithDacl(sd: Descriptor, flags: Mask)
    requires IsCanonicalControl(sd) && sd.dacl.None? && flags <= DACL_FLAG_BITS
    ensures forall aces ::
              IsCanonicalControl(sd.(dacl := Some(aces), control := sd.control + flags + {DACL_PRESENT_BIT}))
  {
    var c := sd.control + flags + {DACL_PRESENT_BIT};
    assert sd.sacl.None? ==> c * SACL_FLAG_BITS == {} by {
      assert forall b :: b in sd.control && b in SACL_FLAG_BITS ==> b in sd.control * SACL_FLAG_BITS;
    }
  }

  lemma ControlWithSacl(sd: Descriptor, flags: Mask)
    requires IsCanonicalControl(sd) && sd.sacl.None? && flags <= DACL_FLAG_BITS
    ensures forall aces ::
              IsCanonicalControl(sd.(sacl := Some(aces), control := sd.control + ShiftLeft(flags) + {SACL_PRESENT_BIT}))
  {
    assert ShiftLeft(flags) <= SACL_FLAG_BITS;
    var c := sd.control + ShiftLeft(flags) + {SACL_PRESENT_BIT};
    assert sd.dacl.None? ==> c * DACL_FLAG_BITS == {} by {
      assert forall b :: b in sd.control && b in DACL_FLAG_BITS ==> b in sd.control * DACL_FLAG_BITS;
    }
  }

  lemma {:induction false} DecodedFrom(s: string, sd: Descriptor, domain: Sid)
    requires IsParsed(sd) && DecodeFrom(s, sd, domain).Some?
    ensures IsParsed(DecodeFrom(s, sd, domain).value)
    decreases |s|
  {
    if s != "" {
      var part := DecodePart(s, sd, domain);
      DecodedPart(s, sd, domain);
      DecodedFrom(part.value.1, part.value.0, domain);
    }
  }

  // ---------------------------------------------------------------------------
  // The printer does not see what normalizing removes.

  lemma NormalAceIsCanonical(ace: Ace)
    requires IsParsedAce(ace)
    ensures IsCanonicalAce(NormalAce(ace))
    ensures IsCanonicalAce(ace) ==> NormalAce(ace) == ace
  {
  }

  lemma NormalAcePrintsTheSame(ace: Ace, domain: Sid)
    ensures EncodeAce(NormalAce(ace), domain) == EncodeAce(ace, domain)
  {
    assert ObjectText(NormalAce(ace)) == ObjectText(ace);
    assert InheritedText(NormalAce(ace)) == InheritedText(ace);
  }

  lemma {:induction false} SameItemsPrintTheSame<T>(a: seq<T>, b: seq<T>, print_: T -> Option<string>)
    requires |a| == |b| && forall i :: 0 <= i < |a| ==> print_(a[i]) == print_(b[i])
    ensures PrintItems(a, print_) == PrintItems(b, print_)
  {
    if a != [] {
      SameItemsPrintTheSame(a[1..], b[1..], print_);
    }
  }

  lemma NormalAclPrintsTheSame(aces: seq<Ace>, flags: Mask, domain: Sid)
    ensures EncodeAcl(NormalAces(aces), flags, domain) == EncodeAcl(aces, flags, domain)
  {
    var print_ := (ace: Ace) => EncodeAce(ace, domain);
    forall i | 0 <= i < |aces| ensures print_(NormalAces(aces)[i]) == print_(aces[i]) {
      NormalAcePrintsTheSame(aces[i], domain);
    }
    SameItemsPrintTheSame(NormalAces(aces), aces, print_);
  }

  lemma NormalPrintsTheSame(sd: Descriptor, domain: Sid)
    ensures Encode(Normal(sd), domain) == Encode(sd, domain)
  {
    if sd.dacl.Some? { NormalAclPrintsTheSame(sd.dacl.value, sd.control, domain); }
    if sd.sacl.Some? { NormalAclPrintsTheSame(sd.sacl.value, ShiftRight(sd.control), domain); }
  }

  lemma NormalIsCanonical(sd: Descriptor)
    requires IsParsed(sd)
    ensures IsCanonical(Normal(sd))
  {
    forall ace | sd.dacl.Some? && ace in NormalAces(sd.dacl.value) ensures IsCanonicalAce(ace) {
      var i :| 0 <= i < |sd.dacl.value| && NormalAces(sd.dacl.value)[i] == ace;
      NormalAceIsCanonical(sd.dacl.value[i]);
    }
    forall ace | sd.sacl.Some? && ace in NormalAces(sd.sacl.value) ensures IsCanonicalAce(ace) {
      var i :| 0 <= i < |sd.sacl.value| && NormalAces(sd.sacl.value)[i] == ace;
      NormalAceIsCanonical(sd.sacl.value[i]);
    }
  }

  // ---------------------------------------------------------------------------
  // Main results.

  /** For every text the parser accepts, printing and parsing again loses nothing but GUIDs on plain ACEs. */
  lemma ReprintAcceptedText(s: string, domain: Sid)
    requires Decode(s, domain).Some?
    ensures Encode(Decode(s, domain).value, domain).Some?
    ensures Decode(Encode(Decode(s, domain).value, domain).value, domain) == Some(Normal(Decode(s, domain).value))
  {
    var sd := Decode(s, domain).value;
    DecodedFrom(s, EMPTY, domain);
    NormalIsCanonical(sd);
    NormalPrintsTheSame(sd, domain);
    DescriptorRoundTrip(Normal(sd), domain);
  }

  /** A descriptor survives printing and parsing exactly when it is canonical. */
  lemma RoundTripExactly(sd: Descriptor, domain: Sid)
    ensures Encode(sd, domain).Some? && Decode(Encode(sd, domain).value, domain) == Some(sd) <==> IsCanonical(sd)
  {
    if IsCanonical(sd) {
      DescriptorRoundTrip(sd, domain);
    } else if Encode(sd, domain).Some? && Decode(Encode(sd, domain).value, domain) == Some(sd) {
      DecodedFrom(Encode(sd, domain).value, EMPTY, domain);
      NormalIsCanonical(sd);
      NormalPrintsTheSame(sd, domain);
      DescriptorRoundTrip(Normal(sd), domain);
      assert false;
    }
  }

  /** A plain allow ACE that says to carry an object type does not survive. */
  lemma GuidOnPlainAceIsLost(ace: Ace, domain: Sid)
    requires ace.aceType == ACCESS_ALLOWED && OBJECT_TYPE_PRESENT_BIT in ace.objectFlags
    ensures var sd := Descriptor(None, None, Some([ace]), None, {DACL_PRESENT_BIT, SELF_RELATIVE_BIT});
            !(Encode(sd, domain).Some? && Decode(Encode(sd, domain).value, domain) == Some(sd))
  {
    var sd := Descriptor(None, None, Some([ace]), None, {DACL_PRESENT_BIT, SELF_RELATIVE_BIT});
    assert ace in sd.dacl.value && !IsCanonicalAce(ace);
    RoundTripExactly(sd, domain);
  }
}
