/**
 Security descriptors as text (section 2.5.1 of MS-DTYP): the printer and the
 cursor-based parser of src/adldap/samba/sddl.c.
 */
module Sddl {
  import opened Primitives
  import opened Strings
  import opened Guids
  import opened Aces
  import opened SddlFlags
  import opened SddlAccess
  import opened SddlSids

  // An ACE type is printed through the flag printer, so its number is taken as a mask.
  const ACE_TYPES: FlagMap := [
    FlagEntry("AU", {1}), FlagEntry("AL", {0, 1}), FlagEntry("OA", {0, 2}), FlagEntry("OD", {1, 2}),
    FlagEntry("OU", {0, 1, 2}), FlagEntry("OL", {3}), FlagEntry("A", {}), FlagEntry("D", {0})]

  const ACE_FLAGS: FlagMap := [
    FlagEntry("OI", {0}), FlagEntry("CI", {1}), FlagEntry("NP", {2}), FlagEntry("IO", {3}),
    FlagEntry("ID", {4}), FlagEntry("SA", {6}), FlagEntry("FA", {7})]

  const ACL_FLAGS: FlagMap := [FlagEntry("P", {12}), FlagEntry("AR", {8}), FlagEntry("AI", {10})]

  // Control bits of a descriptor.
  const DACL_PRESENT_BIT: Bit := 2
  const SACL_PRESENT_BIT: Bit := 4
  const SELF_RELATIVE_BIT: Bit := 15

  /** The control bits are 16 bits wide. The revisions, constant in decoded descriptors, are not kept. */
  datatype Descriptor = Descriptor(
    owner: Option<Sid>, group: Option<Sid>, dacl: Option<seq<Ace>>, sacl: Option<seq<Ace>>, control: Mask)

  const NO_GUID: GuidBytes := [0, 0, 0, 0, 0, 0, 0, 0, 0, 0, 0, 0, 0, 0, 0, 0]

  // ---------------------------------------------------------------------------
  // ACEs.

  function ObjectText(ace: Ace): string {
    if ObjectPresent(ace) then GuidToDisplayValue(ace.objectType) else ""
  }

  function InheritedText(ace: Ace): string {
    if InheritedObjectPresent(ace) then GuidToDisplayValue(ace.inheritedType) else ""
  }

  function EncodeAce(ace: Ace, domain: Sid): Option<string> {
    var aceType := FlagsToString(ACE_TYPES, MaskOf(ace.aceType), true);
    var flags := FlagsToString(ACE_FLAGS, ace.flags, true);
    if aceType.None? || flags.None? then None
    else
      Some(Join([aceType.value, flags.value, EncodeAccess(ace.accessMask), ObjectText(ace), InheritedText(ace),
                 EncodeSid(ace.trustee, domain)], ";"))
  }

  /** The text up to the first occurrence of the character, and the text after it. */
  function Cut(s: string, at: char): (r: Option<(string, string)>)
    ensures r.Some? ==> s == r.value.0 + [at] + r.value.1
  {
    if s == "" then None
    else if s[0] == at then assert s == "" + [at] + s[1..]; Some(("", s[1..]))
    else
      var rest := Cut(s[1..], at);
      if rest.None? then None else Some(([s[0]] + rest.value.0, rest.value.1))
  }

  /** The tokens before the first n separators, and the rest as the last token. */
  function Tokens(s: string, n: nat): (r: Option<seq<string>>)
    ensures r.Some? ==> |r.value| == n + 1
    decreases n
  {
    if n == 0 then Some([s])
    else
      var cut := Cut(s, ';');
      if cut.None? then None
      else
        var rest := Tokens(cut.value.1, n - 1);
        if rest.None? then None else Some([cut.value.0] + rest.value)
  }

  function DecodeType(token: string): Option<byte> {
    var entry := MapFlag(ACE_TYPES, token);
    if entry.None? || |token| != |entry.value.name| then None else Some(MaskValue(entry.value.bits) % 0x100)
  }

  function DecodeAceFlags(token: string): Option<AceFlags> {
    var (flags, rest) := MapFlags(ACE_FLAGS, token, {});
    if rest != "" then None else Some(set b: Bit | b in flags && b < 8 :: b as FlagBit)
  }

  /** No token, no GUID; otherwise the token must be a well-formed GUID string. */
  function DecodeGuid(token: string): Option<GuidBytes> {
    if token == "" then Some(NO_GUID)
    else if !IsGuidString(token) then None
    else Some(MemoryImage(GuidOf(token)))
  }

  function DecodeTokens(tokens: seq<string>, domain: Sid): Option<Ace>
    requires |tokens| == 6
  {
    var aceType, flags, mask := DecodeType(tokens[0]), DecodeAceFlags(tokens[1]), DecodeAccess(tokens[2]);
    var objectType, inheritedType := DecodeGuid(tokens[3]), DecodeGuid(tokens[4]);
    var trustee := DecodeSid(tokens[5], domain);
    if aceType.None? || flags.None? || mask.None? || objectType.None? || inheritedType.None? || trustee.None? then None
    else if trustee.value.1 != "" then None
    else
      var present := (if tokens[3] == "" then {} else {OBJECT_TYPE_PRESENT_BIT})
                     + (if tokens[4] == "" then {} else {INHERITED_OBJECT_TYPE_PRESENT_BIT});
      Some(Ace(aceType.value, flags.value, mask.value, present, objectType.value, inheritedType.value, trustee.value.0))
  }

  function DecodeAce(s: string, domain: Sid): Option<Ace> {
    var tokens := Tokens(s, 5);
    if tokens.None? then None else DecodeTokens(tokens.value, domain)
  }

  // ---------------------------------------------------------------------------
  // ACLs.

  /** Each item in parentheses, one after the other. */
  function PrintItems<T>(items: seq<T>, print_: T -> Option<string>): Option<string> {
    if items == [] then Some("")
    else
      var first, rest := print_(items[0]), PrintItems(items[1..], print_);
      if first.None? || rest.None? then None else Some("(" + first.value + ")" + rest.value)
  }

  /** Reads parenthesized items as long as they follow, in addition to those already read. */
  function ReadItems<T>(s: string, read: seq<T>, parse: string -> Option<T>): (r: Option<(seq<T>, string)>)
    ensures r.Some? ==> |r.value.1| <= |s|
    decreases |s|
  {
    if s == "" || s[0] != '(' then Some((read, s))
    else
      var cut := Cut(s[1..], ')');
      if cut.None? then None
      else
        var item := parse(cut.value.0);
        if item.None? then None else ReadItems(cut.value.1, read + [item.value], parse)
  }

  function EncodeAces(aces: seq<Ace>, domain: Sid): Option<string> {
    PrintItems(aces, ace => EncodeAce(ace, domain))
  }

  function EncodeAcl(aces: seq<Ace>, flags: Mask, domain: Sid): Option<string> {
    var names, text := FlagsToString(ACL_FLAGS, flags, false), EncodeAces(aces, domain);
    if names.None? || text.None? then None else Some(names.value + text.value)
  }

  function DecodeAces(s: string, domain: Sid): (r: Option<(seq<Ace>, string)>)
    ensures r.Some? ==> |r.value.1| <= |s|
  {
    ReadItems(s, [], text => DecodeAce(text, domain))
  }

  /** The flags, the ACEs and the text after them. A marker of the next part right away means an empty ACL. */
  function DecodeAcl(s: string, domain: Sid): (r: Option<(Mask, seq<Ace>, string)>)
    ensures r.Some? ==> |r.value.2| <= |s|
  {
    if |s| >= 2 && IsUpper(s[0]) && s[1] == ':' then Some(({}, [], s))
    else
      var (flags, rest) := MapFlags(ACL_FLAGS, s, {});
      var aces := DecodeAces(rest, domain);
      if aces.None? then None else Some((flags, aces.value.0, aces.value.1))
  }

  // ---------------------------------------------------------------------------
  // Descriptors.

  function ShiftRight(m: Mask): Mask {
    set b | b in m && b > 0 :: (b - 1) as Bit
  }

  function ShiftLeft(m: Mask): Mask {
    set b | b in m && b < 31 :: (b + 1) as Bit
  }

  function Encode(sd: Descriptor, domain: Sid): Option<string> {
    var owner := if sd.owner.None? then "" else "O:" + EncodeSid(sd.owner.value, domain);
    var group := if sd.group.None? then "" else "G:" + EncodeSid(sd.group.value, domain);
    var hasDacl := DACL_PRESENT_BIT in sd.control && sd.dacl.Some?;
    var hasSacl := SACL_PRESENT_BIT in sd.control && sd.sacl.Some?;
    var dacl := if hasDacl then EncodeAcl(sd.dacl.value, sd.control, domain) else Some("");
    var sacl := if hasSacl then EncodeAcl(sd.sacl.value, ShiftRight(sd.control), domain) else Some("");
    if dacl.None? || sacl.None? then None
    else
      Some(owner + group + (if hasDacl then "D:" + dacl.value else "") + (if hasSacl then "S:" + sacl.value else ""))
  }

  const EMPTY := Descriptor(None, None, None, None, {SELF_RELATIVE_BIT})

  /** Reads one marked part into the descriptor; None on a bad marker, a repeated part or a bad part. */
  function DecodePart(s: string, sd: Descriptor, domain: Sid): (r: Option<(Descriptor, string)>)
    requires s != ""
    ensures r.Some? ==> |r.value.1| < |s|
  {
    if |s| < 2 || s[1] != ':' then None
    else if s[0] == 'D' && sd.dacl.None? then
      var acl := DecodeAcl(s[2..], domain);
      if acl.None? then None
      else Some((sd.(dacl := Some(acl.value.1), control := sd.control + acl.value.0 + {DACL_PRESENT_BIT}), acl.value.2))
    else if s[0] == 'S' && sd.sacl.None? then
      var acl := DecodeAcl(s[2..], domain);
      if acl.None? then None
      else Some((sd.(sacl := Some(acl.value.1), control := sd.control + ShiftLeft(acl.value.0) + {SACL_PRESENT_BIT}),
          acl.value.2))
    else if s[0] == 'O' && sd.owner.None? then
      var sid := DecodeSid(s[2..], domain);
      if sid.None? then None else Some((sd.(owner := Some(sid.value.0)), sid.value.1))
    else if s[0] == 'G' && sd.group.None? then
      var sid := DecodeSid(s[2..], domain);
      if sid.None? then None else Some((sd.(group := Some(sid.value.0)), sid.value.1))
    else None
  }

  function DecodeFrom(s: string, sd: Descriptor, domain: Sid): Option<Descriptor>
    decreases |s|
  {
    if s == "" then Some(sd)
    else
      var part := DecodePart(s, sd, domain);
      if part.None? then None else DecodeFrom(part.value.1, part.value.0, domain)
  }

  function Decode(s: string, domain: Sid): Option<Descriptor> {
    DecodeFrom(s, EMPTY, domain)
  }
}
