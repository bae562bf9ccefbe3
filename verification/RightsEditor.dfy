/**
 The DACL rights editor of src/adldap/ad_security.cpp as functions of the list of
 ACEs. None stands for a NULL DACL: replacing the DACL by an empty list leaves NULL,
 and every operation that follows reads through it.
 */
module RightsEditor {
  import opened Primitives
  import opened Aces

  type Dacl = Option<seq<Ace>>

  // ---------------------------------------------------------------------------
  // Base operations.

  /** Generic read and generic write share READ_CONTROL, so unsetting one spares that bit while the other is set. */
  function MaskToUnset(aceMask: Mask, mask: Mask): Mask {
    if mask == GENERIC_READ_FIXED && BitmaskIsSet(aceMask, GENERIC_WRITE) then mask - READ_CONTROL
    else if mask == GENERIC_WRITE && BitmaskIsSet(aceMask, GENERIC_READ_FIXED) then mask - READ_CONTROL
    else mask
  }

  function UnsetMask(aceMask: Mask, mask: Mask): Mask {
    aceMask - MaskToUnset(aceMask, mask)
  }

  function RemoveAccessRights(aces: seq<Ace>, trustee: Sid, right: Right, allow: bool): seq<Ace> {
    if aces == [] then []
    else
      var ace, mask := aces[0], MapAccessMask(right.accessMask);
      var rest := RemoveAccessRights(aces[1..], trustee, right, allow);
      if StrictMatch(ace, trustee, right, allow) && BitmaskIsSet(ace.accessMask, mask) then
        var edited := UnsetMask(ace.accessMask, mask);
        if edited == {} then rest else [ace.(accessMask := edited)] + rest
      else
        [ace] + rest
  }

  function AddAccessRights(aces: seq<Ace>, trustee: Sid, right: Right, allow: bool): seq<Ace> {
    var mask := MapAccessMask(right.accessMask);
    if aces == [] then [MakeAce(trustee, right, mask, allow)]
    else if StrictMatch(aces[0], trustee, right, allow) then
      [aces[0].(accessMask := aces[0].accessMask + mask)] + aces[1..]
    else
      [aces[0]] + AddAccessRights(aces[1..], trustee, right, allow)
  }

  function ReplaceDacl(aces: seq<Ace>): Dacl {
    if aces == [] then None else Some(aces)
  }

  function RemoveRightBase(dacl: Dacl, trustee: Sid, right: Right, allow: bool): Dacl {
    if dacl.None? then None else ReplaceDacl(RemoveAccessRights(dacl.value, trustee, right, allow))
  }

  function AddRightBase(dacl: Dacl, trustee: Sid, right: Right, allow: bool): Dacl {
    if dacl.None? then None else Some(AddAccessRights(dacl.value, trustee, right, allow))
  }

  function RemoveAll(dacl: Dacl, trustee: Sid, rights: seq<Right>, allow: bool): Dacl
    decreases |rights|
  {
    if rights == [] then dacl
    else RemoveAll(RemoveRightBase(dacl, trustee, rights[0], allow), trustee, rights[1..], allow)
  }

  function AddAll(dacl: Dacl, trustee: Sid, rights: seq<Right>, allow: bool): Dacl
    decreases |rights|
  {
    if rights == [] then dacl
    else AddAll(AddRightBase(dacl, trustee, rights[0], allow), trustee, rights[1..], allow)
  }

  // ---------------------------------------------------------------------------
  // Queries.

  /** One of the four slots of the state shown for a right. */
  predicate RightState(aces: seq<Ace>, trustee: Sid, right: Right, inherited: bool, allow: bool) {
    exists i :: 0 <= i < |aces| && IsInherited(aces[i]) == inherited && AceMatch(aces[i], trustee, right, allow)
  }

  /** The slot the editor works on: set by ACEs that are not inherited. */
  predicate Reads(aces: seq<Ace>, trustee: Sid, right: Right, allow: bool) {
    RightState(aces, trustee, right, false, allow)
  }

  // ---------------------------------------------------------------------------
  // Superior and subordinate rights.

  const COMMON_RIGHTS: seq<Mask> := [
    GENERIC_ALL, GENERIC_READ, GENERIC_WRITE, LIST, READ_PROP, WRITE_PROP, STD_DELETE, DELETE_TREE,
    READ_CONTROL, WRITE_DAC, WRITE_OWNER, SELF_WRITE, CONTROL_ACCESS, CREATE_CHILD, DELETE_CHILD]

  predicate IsObjectMask(mask: Mask) {
    || mask == READ_PROP || mask == WRITE_PROP
    || mask == CONTROL_ACCESS || mask == CREATE_CHILD || mask == DELETE_CHILD
  }

  function CommonRights(): seq<Right> {
    seq(|COMMON_RIGHTS|, i requires 0 <= i < |COMMON_RIGHTS| => Right(COMMON_RIGHTS[i], [], [], {}))
  }

  /**
   The shape of every right that the directory schema and the common tasks add to a
   class: one of the five object masks, or full control over a class of children.
   */
  predicate IsSchemaRight(right: Right) {
    IsObjectMask(right.accessMask) || (right.accessMask == GENERIC_ALL && right.objectType == [])
  }

  type SchemaRight = r: Right | IsSchemaRight(r) witness Right({4}, [], [], {})

  function ClassRights(schemaRights: seq<SchemaRight>): (rights: seq<Right>) {
    CommonRights() + schemaRights
  }

  function Superiors(right: Right): seq<Right> {
    var all := Right(GENERIC_ALL, [], right.inheritedType, right.flags);
    var own := right.(objectType := []);
    if right.objectType != [] then
      if right.accessMask == READ_PROP then [all, all.(accessMask := GENERIC_READ), own]
      else if right.accessMask == WRITE_PROP then [all, all.(accessMask := GENERIC_WRITE), own]
      else if IsObjectMask(right.accessMask) then [all, own]
      else []
    else if right.accessMask == GENERIC_READ || right.accessMask == GENERIC_WRITE then [all]
    else []
  }

  predicate IsSubordinateMatch(mask: Mask, classRight: Right) {
    var m := classRight.accessMask;
    if mask == GENERIC_ALL then m != mask
    else if mask == GENERIC_READ then m == READ_PROP || m == LIST
    else if mask == GENERIC_WRITE then m == WRITE_PROP || m == SELF_WRITE
    else IsObjectMask(mask) && m == mask && classRight.objectType != []
  }

  function SubordinatesAmong(right: Right, classRights: seq<Right>): seq<Right> {
    if classRights == [] then []
    else
      var rest := SubordinatesAmong(right, classRights[1..]);
      if IsSubordinateMatch(right.accessMask, classRights[0])
      then [Right(classRights[0].accessMask, classRights[0].objectType, right.inheritedType, right.flags)] + rest
      else rest
  }

  function Subordinates(right: Right, schemaRights: seq<SchemaRight>): seq<Right> {
    if right.objectType != [] then [] else SubordinatesAmong(right, ClassRights(schemaRights))
  }

  // ---------------------------------------------------------------------------
  // Complete operations, up to the final sort.

  /** Replaces a superior right that is set by the rights it stands for. */
  function BreakUp(dacl: Dacl, trustee: Sid, superior: Right, schemaRights: seq<SchemaRight>, allow: bool): Dacl {
    if dacl.None? || !Reads(dacl.value, trustee, superior, allow) then dacl
    else AddAll(RemoveRightBase(dacl, trustee, superior, allow), trustee, Subordinates(superior, schemaRights), allow)
  }

  function BreakUpAll(
      dacl: Dacl, trustee: Sid, superiors: seq<Right>, schemaRights: seq<SchemaRight>, allow: bool): Dacl
    decreases |superiors|
  {
    if superiors == [] then dacl
    else BreakUpAll(BreakUp(dacl, trustee, superiors[0], schemaRights, allow), trustee, superiors[1..], schemaRights,
        allow)
  }

  function RemoveRight(dacl: Dacl, trustee: Sid, right: Right, schemaRights: seq<SchemaRight>, allow: bool): Dacl {
    var broken := BreakUpAll(dacl, trustee, Superiors(right), schemaRights, allow);
    var removed := RemoveRightBase(broken, trustee, right, allow);
    RemoveAll(removed, trustee, Subordinates(right, schemaRights), allow)
  }

  function AddRight(dacl: Dacl, trustee: Sid, right: Right, schemaRights: seq<SchemaRight>, allow: bool): Dacl {
    var subordinates := Subordinates(right, schemaRights);
    var broken := BreakUpAll(dacl, trustee, Superiors(right), schemaRights, !allow);
    var cleared := RemoveAll(broken, trustee, subordinates, allow);
    var opposed := RemoveRightBase(cleared, trustee, right, !allow);
    AddRightBase(RemoveAll(opposed, trustee, subordinates, !allow), trustee, right, allow)
  }
}
