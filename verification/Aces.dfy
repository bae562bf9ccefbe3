/**
 Access control entries, the rights shown in the permission check lists, and the
 two matchers of src/adldap/ad_security.cpp: the strict one that decides which
 ACE is edited and the loose one that decides what is displayed.
 */
module Aces {
  import opened Primitives

  /** A security identifier (section 2.4.2 of MS-DTYP). The 48-bit authority is kept as a number. */
  datatype Sid = Sid(revision: byte, authority: Authority, subAuths: SubAuths)
  type Authority = x: int | 0 <= x < 0x1_0000_0000_0000
  type SubAuths = s: seq<uint32> | |s| <= 15

  /** The 16 bytes that a GUID structure occupies in memory. */
  type GuidBytes = s: seq<byte> | |s| == 16 witness [0, 0, 0, 0, 0, 0, 0, 0, 0, 0, 0, 0, 0, 0, 0, 0]

  /** A GUID kept in a byte array; the empty array stands for "no GUID". */
  type OptionalGuid = s: seq<byte> | |s| == 0 || |s| == 16

  datatype Ace = Ace(
    aceType: byte,
    flags: AceFlags,
    accessMask: Mask,
    objectFlags: Mask,
    objectType: GuidBytes,
    inheritedType: GuidBytes,
    trustee: Sid)

  /** The 8-bit flags of an ACE, given by the positions of the set bits. */
  type AceFlags = set<FlagBit>
  type FlagBit = b: nat | b < 8

  /** One line of a permission check list. */
  datatype Right = Right(accessMask: Mask, objectType: OptionalGuid, inheritedType: OptionalGuid, flags: AceFlags)

  // ACE types (section 2.4.4.1 of MS-DTYP).
  const ACCESS_ALLOWED: byte := 0
  const ACCESS_DENIED: byte := 1
  const SYSTEM_AUDIT: byte := 2
  const ACCESS_ALLOWED_OBJECT: byte := 5
  const ACCESS_DENIED_OBJECT: byte := 6
  const SYSTEM_AUDIT_OBJECT: byte := 7
  const SYSTEM_ALARM_OBJECT: byte := 8

  // ACE flags, by bit position.
  const CONTAINER_INHERIT_BIT: FlagBit := 1
  const INHERITED_BIT: FlagBit := 4

  // Object ACE flags, by bit position.
  const OBJECT_TYPE_PRESENT_BIT: Bit := 0
  const INHERITED_OBJECT_TYPE_PRESENT_BIT: Bit := 1

  // Access masks (section 5.1.3.2 of MS-ADTS): bits 0 to 8 are specific to directory
  // objects, bits 16 to 19 are the standard rights.
  const CREATE_CHILD: Mask := {0}
  const DELETE_CHILD: Mask := {1}
  const LIST: Mask := {2}
  const SELF_WRITE: Mask := {3}
  const READ_PROP: Mask := {4}
  const WRITE_PROP: Mask := {5}
  const DELETE_TREE: Mask := {6}
  const LIST_OBJECT: Mask := {7}
  const CONTROL_ACCESS: Mask := {8}
  const STD_DELETE: Mask := {16}
  const READ_CONTROL: Mask := {17}
  const WRITE_DAC: Mask := {18}
  const WRITE_OWNER: Mask := {19}
  const GENERIC_READ: Mask := READ_CONTROL + LIST + READ_PROP + LIST_OBJECT
  const GENERIC_WRITE: Mask := READ_CONTROL + SELF_WRITE + WRITE_PROP
  const GENERIC_ALL: Mask := {0, 1, 2, 3, 4, 5, 6, 7, 8, 16, 17, 18, 19}

  /** Generic read as RSAT writes it: without the "list object" bit. */
  const GENERIC_READ_FIXED: Mask := GENERIC_READ - LIST_OBJECT

  predicate BitmaskIsSet(mask: Mask, bits: Mask) {
    bits <= mask
  }

  function MapAccessMask(mask: Mask): Mask {
    if mask == GENERIC_READ then GENERIC_READ_FIXED else mask
  }

  predicate IsObjectType(aceType: byte) {
    || aceType == ACCESS_ALLOWED_OBJECT || aceType == ACCESS_DENIED_OBJECT
    || aceType == SYSTEM_AUDIT_OBJECT || aceType == SYSTEM_ALARM_OBJECT
  }

  predicate IsInherited(ace: Ace) {
    INHERITED_BIT in ace.flags
  }

  predicate IsAccessAllowed(ace: Ace) {
    ace.aceType == ACCESS_ALLOWED || ace.aceType == ACCESS_ALLOWED_OBJECT
  }

  predicate IsAccessDenied(ace: Ace) {
    ace.aceType == ACCESS_DENIED || ace.aceType == ACCESS_DENIED_OBJECT
  }

  predicate OnSide(ace: Ace, allow: bool) {
    if allow then IsAccessAllowed(ace) else IsAccessDenied(ace)
  }

  predicate ObjectPresent(ace: Ace) {
    IsObjectType(ace.aceType) && OBJECT_TYPE_PRESENT_BIT in ace.objectFlags
  }

  predicate InheritedObjectPresent(ace: Ace) {
    IsObjectType(ace.aceType) && INHERITED_OBJECT_TYPE_PRESENT_BIT in ace.objectFlags
  }

  /** How an ACE is compared with a right, masks left aside. */
  datatype MatchFlags = MatchFlags(matchInheritance: bool, matchObjectType: bool)

  /** The matching used to edit: inherited ACEs never match and object types must agree. */
  const STRICT := MatchFlags(false, true)

  /** The matching used to display: inherited ACEs match, and so do ACEs without an object type. */
  const LOOSE := MatchFlags(true, false)

  predicate AceMatchWithoutAccessMask(ace: Ace, trustee: Sid, right: Right, allow: bool, match_: MatchFlags) {
    var typeMatch := (allow && IsAccessAllowed(ace)) || (!allow && IsAccessDenied(ace));
    var inherited := CONTAINER_INHERIT_BIT in ace.flags && INHERITED_BIT in ace.flags;
    var flagsMatch :=
      if match_.matchInheritance then inherited || ace.flags == right.flags else ace.flags == right.flags;
    var objectMatch :=
      if ObjectPresent(ace) then ace.objectType == right.objectType
      else if match_.matchObjectType then right.objectType == [] else true;
    var inheritedObjectMatch :=
      if InheritedObjectPresent(ace) then ace.inheritedType == right.inheritedType || inherited
      else right.inheritedType == [] || inherited;
    inheritedObjectMatch && typeMatch && flagsMatch && ace.trustee == trustee && objectMatch
  }

  predicate StrictMatch(ace: Ace, trustee: Sid, right: Right, allow: bool) {
    AceMatchWithoutAccessMask(ace, trustee, right, allow, STRICT)
  }

  predicate AceMatch(ace: Ace, trustee: Sid, right: Right, allow: bool) {
    BitmaskIsSet(ace.accessMask, MapAccessMask(right.accessMask))
    && AceMatchWithoutAccessMask(ace, trustee, right, allow, LOOSE)
  }

  function MakeAce(trustee: Sid, right: Right, mask: Mask, allow: bool): Ace {
    var objectPresent := right.objectType != [];
    var inheritedPresent := right.inheritedType != [];
    var blank: GuidBytes := [0, 0, 0, 0, 0, 0, 0, 0, 0, 0, 0, 0, 0, 0, 0, 0];
    Ace(
      if objectPresent || inheritedPresent
      then if allow then ACCESS_ALLOWED_OBJECT else ACCESS_DENIED_OBJECT
      else if allow then ACCESS_ALLOWED else ACCESS_DENIED,
      right.flags,
      mask,
      (if objectPresent then {OBJECT_TYPE_PRESENT_BIT} else {}) +
      (if inheritedPresent then {INHERITED_OBJECT_TYPE_PRESENT_BIT} else {}),
      if objectPresent then right.objectType else blank,
      if inheritedPresent then right.inheritedType else blank,
      trustee)
  }

  // ---------------------------------------------------------------------------
  // What the two matchers mean for the ACEs an edit can reach.

  /** The part of a DACL that one check list edits: one trustee, one set of flags, one inherited type. */
  datatype Scope = Scope(trustee: Sid, flags: AceFlags, inheritedType: OptionalGuid)

  function ScopeOf(trustee: Sid, right: Right): Scope {
    Scope(trustee, right.flags, right.inheritedType)
  }

  /** The object type an ACE is restricted to, empty when it has none. */
  function ObjectKey(ace: Ace): OptionalGuid {
    if ObjectPresent(ace) then ace.objectType else []
  }

  function InheritedKey(ace: Ace): OptionalGuid {
    if InheritedObjectPresent(ace) then ace.inheritedType else []
  }

  predicate InScope(ace: Ace, scope: Scope) {
    ace.trustee == scope.trustee && ace.flags == scope.flags && InheritedKey(ace) == scope.inheritedType
  }

  /** Edited rights never carry the inherited flag: only the server writes inherited ACEs. */
  predicate IsEditable(right: Right) {
    INHERITED_BIT !in right.flags
  }

  lemma StrictMatchMeaning(ace: Ace, trustee: Sid, right: Right, allow: bool)
    requires IsEditable(right)
    ensures StrictMatch(ace, trustee, right, allow)
            <==> InScope(ace, ScopeOf(trustee, right)) && OnSide(ace, allow) && ObjectKey(ace) == right.objectType
  {
  }

  lemma LooseMatchMeaning(ace: Ace, trustee: Sid, right: Right, allow: bool)
    requires IsEditable(right)
    ensures !IsInherited(ace) && AceMatch(ace, trustee, right, allow)
            <==> && InScope(ace, ScopeOf(trustee, right)) && OnSide(ace, allow)
                 && (ObjectKey(ace) == right.objectType || ObjectKey(ace) == [])
                 && BitmaskIsSet(ace.accessMask, MapAccessMask(right.accessMask))
  {
  }

  /** An explicit ACE that makes the right show as set: of its scope and side, over its object type or over all, with
      its bits. */
  predicate GrantsExplicitly(ace: Ace, trustee: Sid, right: Right, allow: bool) {
    && !IsInherited(ace)
    && InScope(ace, ScopeOf(trustee, right)) && OnSide(ace, allow)
    && (ObjectKey(ace) == right.objectType || ObjectKey(ace) == [])
    && MapAccessMask(right.accessMask) <= ace.accessMask
  }

  /** An inherited ACE that does: it is inheritable too, and of the trustee and side; neither its other flags nor its
      inherited type are compared. */
  predicate GrantsByInheritance(ace: Ace, trustee: Sid, right: Right, allow: bool) {
    && INHERITED_BIT in ace.flags && CONTAINER_INHERIT_BIT in ace.flags
    && ace.trustee == trustee && OnSide(ace, allow)
    && (ObjectKey(ace) == right.objectType || ObjectKey(ace) == [])
    && MapAccessMask(right.accessMask) <= ace.accessMask
  }

  lemma LooseMatchInherited(ace: Ace, trustee: Sid, right: Right, allow: bool)
    requires IsEditable(right)
    ensures IsInherited(ace) && AceMatch(ace, trustee, right, allow)
            <==> GrantsByInheritance(ace, trustee, right, allow)
  {
  }

  /** The ACE that a right is written as: of the plain type exactly when the right has no GUID. */
  predicate IsAceOf(ace: Ace, trustee: Sid, right: Right, allow: bool) {
    && ace.aceType == (
         if right.objectType == [] && right.inheritedType == [] then if allow then ACCESS_ALLOWED else ACCESS_DENIED
         else if allow then ACCESS_ALLOWED_OBJECT else ACCESS_DENIED_OBJECT)
    && ace.flags == right.flags && ace.accessMask == MapAccessMask(right.accessMask) && ace.trustee == trustee
    && (OBJECT_TYPE_PRESENT_BIT in ace.objectFlags <==> right.objectType != [])
    && (INHERITED_OBJECT_TYPE_PRESENT_BIT in ace.objectFlags <==> right.inheritedType != [])
    && ace.objectFlags <= {OBJECT_TYPE_PRESENT_BIT, INHERITED_OBJECT_TYPE_PRESENT_BIT}
    && (right.objectType != [] ==> ace.objectType == right.objectType)
    && (right.inheritedType != [] ==> ace.inheritedType == right.inheritedType)
  }

  lemma MadeAceMatches(trustee: Sid, right: Right, mask: Mask, allow: bool)
    requires IsEditable(right)
    ensures var ace := MakeAce(trustee, right, mask, allow);
            InScope(ace, ScopeOf(trustee, right)) && OnSide(ace, allow) && ObjectKey(ace) == right.objectType
  {
  }

  lemma MatchIgnoresMask(ace: Ace, mask: Mask, trustee: Sid, right: Right, allow: bool)
    ensures StrictMatch(ace.(accessMask := mask), trustee, right, allow) == StrictMatch(ace, trustee, right, allow)
  {
  }
}
