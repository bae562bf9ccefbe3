# Verified model of the ADMC directory library

ADMC is a console for administering Active Directory. This project models the parts of its library
that compute, rather than the parts that talk to a server, and proves what administrators rely on:
what a permission check list shows after an edit, what an edit leaves alone, and that everything
written as text can be read back. `dafny verify dfyconfig.toml` checks all of it.

## What is modelled

**The DACL rights editor** (`Aces`, `RightsEditor`, `RightLists`, `Columns`, `RightsProofs`, `RightsTheorems`,
`Siblings`, `PlainRights`, `Additions`, `RightsRuns`, `Removals`, `NullDacl`, `AclOrder`, `SecurityDescriptors`,
`Protection`, `Counterexamples`). A security descriptor is an object whose DACL is edited in place and may
be NULL. A strict matcher decides which ACE is edited, a loose one decides what is displayed. The complete
operations break up superior rights (full control, generic read and write, the same right over all objects)
into subordinates and cascade removals. The methods of `SecurityDescriptor` are proved against functions of
the list of ACEs (`RightsEditor`), and the theorems are about those functions. The proofs look at a DACL
through columns: the access masks of the ACEs of one trustee, one set of flags, one inherited type, one side
and one object type.

**SDDL**, section 2.5.1 of MS-DTYP (`Numbers`, `Numerals`, `Strings`, `Guids`, `SidText`, `SidParsing`,
`SddlFlags`, `SddlAccess`, `SddlSids`, `Sddl`, `SddlRoundTrip`, `SddlImage`, `SddlMethods`, `SddlMeaning`,
`SddlLetters`). The table-driven printer and the cursor-based parser, from flags and access masks up to
whole descriptors; the last two modules say what each code and letter stands for. `Numerals` and
`SidParsing` say which texts the readers of numbers and SIDs accept.

**Graph and tree walks.** `Schemas` is the depth-first loader of the attributes that rights can be
given on; `GptWalk` lists a policy template directory with an explicit stack and deletes it backwards, and
`GptDepth` says when that order is by depth.

**Codecs with state.** `GplinkLists`, `GplinkText`, `GplinkCase` and `Gplinks` are the gplink attribute as a
list with options, as text, in its letter case, and as the object that holds list and options; `Octets` is
the octet editor in four bases; `Guids` and `GuidMethods` are the three representations of a GUID that the
ACE matcher takes for equal.

## How it is modelled

- A 32-bit mask is the set of its bit positions, so its width is in the type (`Primitives.Mask`). Where
  the number matters, in SDDL, `SddlAccess.MaskValue` and `MaskOf` convert, and are inverse to each other.
- `None` is a NULL DACL. Replacing a DACL by an empty list leaves NULL, and the next operation reads
  through it; the functions then stay `None`, and the methods report that they did not complete.
- The rights of a class are the common rights plus a parameter: any list of rights of the shapes that
  the schema readers produce (`RightsEditor.SchemaRight`). Edited rights do not carry the inherited
  flag, which only the server writes (`Aces.IsEditable`), and have a non-empty mask.
- The numeric values of the access masks are those of section 5.1.3.2 of MS-ADTS, the ACE types and flags
  those of section 2.4.4.1 of MS-DTYP; well-known SIDs and relative identifiers come from section 2.4.2.4
  of MS-DTYP. The headers that define them are not part of this model.
- The library sort is any permutation whose order the comparator accepts (`AclOrder.IsSorting`).
- Letter case is ASCII. A character that a C parser would read beyond the end of a string is taken as a
  format error.
- A path on the share is the list of names that lead to it; `GptWalk.TextTellsPath` ties it to the text
  that the source builds by concatenation.

## What turned out not to hold

Each is proved with the exact condition under which the expected behaviour does hold, and with an input on
which it does not, which the lemma named after the word "fails" exhibits.

- The comparator that sorts a DACL puts audit, alarm and callback ACEs after the allow ACEs, the one that
  checks the order wants them before: `AclOrder.SortedPassesCheckExactly`; fails for an allow and an audit
  ACE, `Counterexamples.SortedMayFailCheck`.
- READ_CONTROL gets lost when a lone generic read or write is broken up to remove a property right, and
  when a generic right is removed: `Siblings.ReadControlExactly`,
  `PlainRights.RemoveGenericReadControlExactly`, `PlainRights.AddGenericReadControlExactly`; fails for a lone
  generic read, `Counterexamples.ReadControlMayGetLost`.
- Adding one generic right can complete the other one on the same side:
  `PlainRights.AddGenericPartnerExactly`; fails for an ACE with the two writing rights,
  `Counterexamples.GenericReadMayCompleteWrite`.
- Object rights of a kind that has no superiors stay set while an ACE without object type grants their
  mask: `RightsTheorems.RemoveUnlistedRightExactly`, `RightsTheorems.AddUnlistedRightExactly`; fails for the
  validated write, `Counterexamples.UnlistedMayStay`, `Counterexamples.UnlistedMayStayDenied`.
- An edit can meet a NULL DACL half-way, even where it would leave rights in the end:
  `NullDacl.RemoveMeetsNullExactly`, `NullDacl.AddMeetsNullExactly`; fails for a DACL of one full control from
  which one property is removed, `Counterexamples.LoneFullControlMeetsNull`.
- Lifting "user cannot change password" has no visible effect under a denial of all extended rights:
  `Protection.CannotChangeThenQueryExactly`; fails for that denial alone,
  `Counterexamples.PasswordDenialMayStay`. Setting or lifting it can meet NULL as well:
  `Protection.CannotChangeMeetsNullExactly`.
- Lifting protection against deletion leaves a NULL DACL, through which the following sort reads, when the
  DACL held nothing but the protecting denials: `Protection.UnprotectMeetsNullExactly`; fails for one of
  them, `Counterexamples.UnprotectMayMeetNull`.
- A descriptor survives SDDL exactly when it is canonical; among parsed descriptors, what gets lost is
  GUIDs on ACE types that cannot carry them: `SddlImage.RoundTripExactly`, `SddlImage.ReprintAcceptedText`;
  fails for a plain ACE with a GUID, `SddlImage.GuidOnPlainAceIsLost`.
- An ACE type without letters is printed with the letters of types whose bits make it up:
  `SddlLetters.PrintableExactly`; fails for the compound type, `SddlLetters.CompoundBecomesObject`.
- The SID parser promises to refuse sub-authorities beyond 32 bits (`src/adldap/samba/src_4_22/dom_sid.c:247-256`),
  but the check is commented out, as is the one for the dash after the revision. Exactly what it accepts, and as
  which SID, is `SidParsing.ParsesExactly`; fails for a wrapped sub-authority, `SidParsing.WrappedIsAccepted`.
- Of a gplink name with several parts, one of them malformed, only the malformed part is printed, and a
  prefix inside a name is removed with the prefix before it: `GplinkText.RoundTripExactly`; fails for
  `cn=a,b` and `cn=ldap://x`, `GplinkText.LostNames`.
- The contents of a policy template are in order of increasing depth, as `src/adldap/ad_interface_p.h:61-62`
  has it, only for narrow trees: `GptDepth.ByDepthExactly`; fails for a file beside a deeper file in another
  directory, `GptDepth.FileBesideDeeperFile`. For every tree a directory precedes what is below it, which is
  what deletion needs: `GptWalk.FinishedWalk`.
- Loading the directory configuration again clears eight tables but not the permissionable attributes
  (`src/adldap/ad_config.cpp:134-141`). So a loaded class keeps its old list, unless the load starts from it,
  and a class reachable only through loaded ones is not loaded at all: `Schemas.ReloadExactly`; fails for
  three classes in a row of which two are loaded, `Schemas.ReloadMayMiss`, and for any list that has become
  wrong, `Schemas.ReloadKeepsOldList`.

## Model

| member | source | states |
|---|---|---|
| Aces.StrictMatchMeaning | src/adldap/ad_security.cpp:292-356 | without inheritance and with object types, the matcher accepts exactly the ACEs of the right's scope, side and object type |
| Aces.LooseMatchMeaning | src/adldap/ad_security.cpp:292-376 | the displaying matcher accepts, among explicit ACEs of the scope and side, those with the object type or with none, that contain the mapped mask |
| Aces.LooseMatchInherited | src/adldap/ad_security.cpp:304-310 | and, among inherited ACEs, those that are inheritable too, of the trustee and side, with the object type or with none, that contain the mapped mask; neither the flags nor the inherited type of the right matter |
| Aces.MadeAceMatches | src/adldap/ad_security.cpp:474-505 | a made ACE is one that the next edit of the same right finds again; its whole shape is the next row |
| Additions.AddAccessRightsWrites | src/adldap/ad_security.cpp:576-603 | an addition joins the mapped mask to the first ACE of the right's scope, side and object type, or appends one ACE, of the plain type exactly when the right has no GUID, with the right's flags, mask, trustee, object flags and GUIDs |
| Additions.AddRightWrites | src/adldap/ad_security.cpp:1215-1268 | before the sort, a complete add ends in such an addition to what its removals leave |
| Additions.FirstAddAppends | src/adldap/ad_security.cpp:426-505 | when no ACE is in the right's scope, a complete add of any right keeps the DACL and appends the one ACE made of the right |
| RightsTheorems.BreakUpHas | src/adldap/ad_security.cpp:1215-1246 | replacing a set superior: its subordinates are granted afterwards, other masks neither appear nor vanish, the other side is untouched |
| RightsTheorems.BrokenUp | src/adldap/ad_security.cpp:1292-1322 | after its superiors are broken up, one after the other and re-adding rights in between, no ACE without object type grants an object right any more |
| RightsTheorems.RemoveRightUnsets | src/adldap/ad_security.cpp:1292-1341 | after a complete remove neither the right nor any subordinate reads as set on that side, whatever the DACL was |
| RightsTheorems.RemoveRightUnsetsSuperiors | src/adldap/ad_security.cpp:1292-1341 | nor does any of its superiors |
| RightsTheorems.AddRightSets | src/adldap/ad_security.cpp:1215-1268 | after a complete add the right and every subordinate read as set on the chosen side and as not set on the opposite side, whatever the DACL was |
| RightsTheorems.AddRightBaseReads | src/adldap/ad_security.cpp:576-603 | a base addition sets what its mask contains, changes no unrelated right and nothing on the opposite side |
| RightsTheorems.RemoveUnlistedRightExactly | src/adldap/ad_security.cpp:1381-1450 | an object right of another kind is still set after its removal exactly when its mask was granted without object type |
| RightsTheorems.AddUnlistedRightExactly | src/adldap/ad_security.cpp:1381-1450 | the same for the opposite side after an addition |
| Counterexamples.UnlistedMayStay | src/adldap/ad_security.cpp:1381-1450 | such a right over an object type reads as set after its removal |
| Counterexamples.UnlistedMayStayDenied | src/adldap/ad_security.cpp:1381-1450 | and as denied after having been allowed |
| RightsTheorems.ObjectAddIsRemoveThenAdd | src/adldap/ad_security.cpp:1215-1268 | adding an object right is removing it from the opposite side, then one base addition |
| RightsTheorems.SuperiorsAreDual | src/adldap/ad_security.cpp:1381-1518 | for object rights and the generic rights, a common right is in the superior list exactly when it has the right in its subordinate list |
| RightLists.CommonRightsAre | src/adldap/ad_security.cpp:154-170 | the fifteen common rights by number, in the order of the list, without object type |
| RightLists.SubordinatesInOrder | src/adldap/ad_security.cpp:1452-1518 | the subordinates of two lists of class rights, one after the other, are those of the first and then those of the second |
| RightLists.SubordinateOfOne | src/adldap/ad_security.cpp:1508-1514 | of one class right that a superior stands for there is one subordinate, with its mask and object type and with the superior's flags and inherited type |
| Siblings.RemoveObjectRightKeepsSiblings | src/adldap/ad_security.cpp:1292-1325 | removing an object right, with any superiors set, keeps the shown state of every other class right on that side, save its superiors and READ_CONTROL |
| Siblings.RemoveObjectRightOtherSide | src/adldap/ad_security.cpp:1292-1325 | and changes nothing shown on the other side |
| Siblings.AddObjectRightKeepsSiblings | src/adldap/ad_security.cpp:1215-1246 | adding an object right keeps every other class right on the chosen side, and the siblings on the opposite side whose superior is broken up; rights over all objects are the next rows |
| PlainRights.AddPlainRightKeepsOpposite | src/adldap/ad_security.cpp:1215-1268 | adding a right over all objects, which may break up an opposite full control, keeps every class right that it spares on the opposite side |
| PlainRights.AddPlainRightKeepsChosen | src/adldap/ad_security.cpp:1215-1268 | and every class right that shares no bit with it on the chosen side |
| PlainRights.AddGenericPartnerExactly | src/adldap/ad_security.cpp:576-603 | after one generic right is added, the other is set on that side exactly when it was before, or when the ACE that takes up the added one had all of it but READ_CONTROL |
| Counterexamples.GenericReadMayCompleteWrite | src/adldap/ad_security.cpp:576-603 | generic read added to the two writing rights makes generic write read as set |
| PlainRights.RemovePlainRightKeepsOthers | src/adldap/ad_security.cpp:512-540 | removing a right over all objects other than full control, even out of full control, keeps every class right that shares no bit with it, and of generic read and write either one when the other is removed, although both contain READ_CONTROL |
| Siblings.ReadControlExactly | src/adldap/ad_security.cpp:512-540 | after a property right is removed READ_CONTROL is set exactly when some ACE granted it otherwise than through the lone generic right |
| PlainRights.RemoveGenericReadControlExactly | src/adldap/ad_security.cpp:512-540 | the same exact condition when generic read or write itself is removed |
| PlainRights.AddGenericReadControlExactly | src/adldap/ad_security.cpp:1215-1268 | and on the opposite side when it is added |
| Counterexamples.ReadControlMayGetLost | src/adldap/ad_security.cpp:1292-1325 | a lone generic read loses READ_CONTROL with one property |
| RightsRuns.RemoveRightConserves | src/adldap/ad_security.cpp:1292-1341 | a complete remove conserves, as a multiset, every ACE out of the edited scope or of the opposite type |
| RightsRuns.AddRightConserves | src/adldap/ad_security.cpp:1215-1268 | a complete add conserves every ACE out of the edited scope |
| RightsRuns.RunConserves | src/adldap/ad_security.cpp:1215-1341 | over any run of edits and sorts in one scope, every ACE that differs in trustee, flags or inherited type keeps its multiplicity in every state |
| RightsRuns.RunNeverMeetsNull | src/adldap/ad_security.cpp:1520-1531 | with one such ACE, no edit of any run ends on, or passes through, a NULL DACL |
| RightsRuns.RunKeepsInheritedState | src/adldap/ad_security.cpp:1021-1054 | no run changes what is shown as inherited, for any trustee and right |
| RightsRuns.SortingKeepsState | src/adldap/ad_security.cpp:785-788 | sorting changes nothing that is shown |
| Removals.StepsNullExactly | src/adldap/ad_security.cpp:542-574 | a series of removals ends on NULL exactly when it consumes every ACE, each taken by itself |
| Removals.BaseNullExactly | src/adldap/ad_security.cpp:605-612 | one base removal ends on NULL exactly when every ACE matches the right and grants its mask and nothing else |
| Removals.SubordinatesConsumeExactly | src/adldap/ad_security.cpp:1327-1338 | the removal of all subordinates consumes an ACE exactly when it is of the scope and grants something, all of it bits of subordinates over its object type |
| NullDacl.RemoveMeetsNullExactly | src/adldap/ad_security.cpp:1292-1341 | a complete remove of any right meets NULL exactly when: a generic superior is the first one set and every ACE is just that one; or the same right over all objects is, and nothing is left of the ACEs when both are removed and the class has no relative of the right; or no superior is set and every ACE is used up |
| NullDacl.AddMeetsNullExactly | src/adldap/ad_security.cpp:1215-1268 | a complete add of an object right meets NULL exactly when its removal from the opposite side does; of another right, exactly when an opposite full control is all there is or every ACE is used up on its side |
| Counterexamples.LoneFullControlMeetsNull | src/adldap/ad_security.cpp:1292-1341 | removing one property from a DACL of one full control meets NULL |
| AclOrder.IsOrderCorrect | src/adldap/ad_security.cpp:1116-1132 | the check of neighbours accepts a non-empty DACL exactly when all pairs are in (inherited, allowed) order |
| AclOrder.SimplifiedMeaning | src/adldap/ad_security.cpp:267-288 | the simplified comparator is the order of that key |
| AclOrder.CanonicalOrder | src/adldap/ad_security.cpp:267-288 | explicit denials, explicit allow ACEs, inherited denials, inherited allow ACEs |
| AclOrder.RankOrder | src/adldap/samba/src_4_22/libsmb_xattr.c:46-99 | the sorting comparator's first four keys, in this order: explicit first, audit and alarm last, denials first, object ACEs last |
| AclOrder.EqualExactly | src/adldap/ad_security.cpp:267-288 | ACEs are taken for equal exactly when they agree in all but GUIDs that they do not announce |
| AclOrder.SortedPassesCheckExactly | src/adldap/samba/src_4_22/libsmb_xattr.c:46-99 | a sorted DACL passes the check exactly when it does not mix allow ACEs with ACEs that are neither allow nor deny |
| Counterexamples.SortedMayFailCheck | src/adldap/samba/src_4_22/libsmb_xattr.c:62-74 | an allow and an audit ACE are sorted and fail the check |
| SecurityDescriptors.SecurityDescriptor.GetDacl | src/adldap/ad_security.cpp:981-993 | a copy of the ACEs in order |
| SecurityDescriptors.SecurityDescriptor.ReplaceDacl | src/adldap/ad_security.cpp:1520-1531 | the new list, and NULL for an empty one |
| SecurityDescriptors.SecurityDescriptor.MatchDaclIndex | src/adldap/ad_security.cpp:378-405 | the first strictly matching ACE, or -1 when there is none |
| SecurityDescriptors.SecurityDescriptor.AddRightBase | src/adldap/ad_security.cpp:576-603 | the mask joined to the first match in place, or one ACE of the whole shape above appended |
| SecurityDescriptors.SecurityDescriptor.FilterAces | src/adldap/ad_security.cpp:542-574 | matching ACEs that contain the mask lose it, and go when nothing is left |
| SecurityDescriptors.SecurityDescriptor.RemoveRightBase | src/adldap/ad_security.cpp:605-612 | the DACL becomes the filtered list, or NULL |
| SecurityDescriptors.SecurityDescriptor.GetRightState | src/adldap/ad_security.cpp:1021-1054 | the two explicit marks: some ACE of the scope and side grants the right over its object type or over all objects; the two inherited marks: some inheritable inherited ACE of the trustee and side does |
| SecurityDescriptors.SecurityDescriptor.SortDacl | src/adldap/ad_security.cpp:785-788 | a permutation in the order of the comparator |
| SecurityDescriptors.SecurityDescriptor.BreakUpSuperiors | src/adldap/ad_security.cpp:1215-1246 | the loop over superiors is the specification's, for either side |
| SecurityDescriptors.SecurityDescriptor.AddRight | src/adldap/ad_security.cpp:1215-1268 | completes exactly when the DACL is not NULL and the condition above does not hold, gives a sorted permutation of the specified DACL with the right set on the chosen side only, gains exactly the one ACE made of the right when none was in its scope, and always completes when an ACE lies outside the scope |
| SecurityDescriptors.SecurityDescriptor.RemoveRight | src/adldap/ad_security.cpp:1292-1341 | the same for removal, with the right not set; an ACE of the opposite type suffices for completing |
| Protection.ProtectThenQuery | src/adldap/ad_security.cpp:798-826 | after protection is set or lifted on any DACL that does not become empty, the query returns that value |
| Protection.ProtectConserves | src/adldap/ad_security.cpp:917-936 | allow ACEs, and all that is not a denial for everyone, are conserved |
| Protection.ProtectKeepsOtherDenials | src/adldap/ad_security.cpp:917-936 | denials of other rights, in the very ACEs that are edited, read as before |
| Protection.UnprotectMeetsNullExactly | src/adldap/ad_security.cpp:917-936 | lifting protection leaves NULL exactly when every ACE is a protecting denial and nothing else |
| Counterexamples.UnprotectMayMeetNull | src/adldap/ad_security.cpp:917-936 | one protecting denial alone leaves NULL when lifted |
| Protection.GetProtected | src/adldap/ad_security.cpp:798-826 | true exactly when both denials read as set |
| Protection.SetProtected | src/adldap/ad_security.cpp:917-936 | afterwards the query returns the asked value; the DACL is unchanged when it did so before, else a sorted permutation of the edited one; other ACEs are conserved, and the only failure is the one above |
| Protection.CannotChangeThenQueryExactly | src/adldap/ad_security.cpp:828-915 | the query for "cannot change password" returns what was set exactly unless the denial is lifted under a blanket denial of extended rights |
| Protection.CannotChangeMeetsNullExactly | src/adldap/ad_security.cpp:883-915 | setting or lifting it meets NULL exactly when every ACE gives SELF just the opposite of what is set |
| Protection.CannotChangeConserves | src/adldap/ad_security.cpp:883-915 | ACEs outside the explicit scope of the two trustees are conserved |
| Counterexamples.PasswordDenialMayStay | src/adldap/ad_security.cpp:828-915 | lifting under a denial of all extended rights leaves the query true |
| Protection.GetUserCannotChange | src/adldap/ad_security.cpp:828-868 | true exactly when one of the two trustees reads as denied |
| Protection.SetUserCannotChange | src/adldap/ad_security.cpp:883-915 | completes exactly unless that NULL is met, gives a sorted permutation of the DACL after the two base edits per trustee, conserves the other ACEs, and has the property above on the result |
| Numbers.ScanPrinted | src/admc/core/attribute.cpp:64-67 | scanning a printed number, in any of the four bases and before any text, gives the number and that text |
| Numerals.DigitMeaning | src/admc/core/attribute.cpp:115-119 | the value of each of the sixteen digits, letters in either case |
| Strings.SplitJoined | src/adldap/gplink.cpp:62-63 | splitting joined parts gives the parts, when none holds the separator |
| Strings.JoinedSplit | src/adldap/gplink.cpp:62-63 | joining split text gives the text, and no part holds the separator |
| SidText.ParsePrinted | src/adldap/samba/src_4_22/dom_sid.c:157-276 | every SID, 48-bit authorities included, is parsed back from its printed form to the end |
| SidText.PrintingIsInjective | src/adldap/samba/src_4_22/dom_sid.c:517-560 | different SIDs have different texts |
| SidParsing.ParsesExactly | src/adldap/samba/src_4_22/dom_sid.c:157-271 | the texts accepted to their end, each with its SID: an S, a dash, digits modulo 2^8, any one character that is no digit, and numbers with dashes between them, the authority below 2^48 and at most 15 sub-authorities modulo 2^32 |
| SidParsing.WrappedIsAccepted | src/adldap/samba/src_4_22/dom_sid.c:179-265 | S-1x5-4294967296 is accepted as S-1-5-0 |
| SddlFlags.SddlMapFlag | src/adldap/samba/sddl.c:46-64 | the first entry whose name is a prefix of the text |
| SddlFlags.SddlMapFlags | src/adldap/samba/sddl.c:69-108 | the greedy loop, with the length it consumed |
| SddlFlags.SddlFlagsToString | src/adldap/samba/sddl.c:682-715 | the exact entry, or the names of the set bits in table order; fails on a bit without a name when asked to |
| SddlFlags.FlagsRoundTrip | src/adldap/samba/sddl.c:682-715 | for any table of one-bit entries none of whose names is a prefix of another, greedy parsing of printed flags before any text that starts no name gives the flags and that text |
| SddlAccess.ValueOfMask | src/adldap/samba/sddl.c:796-808 | bits and number of a 32-bit mask determine each other |
| SddlAccess.SddlDecodeAccess | src/adldap/samba/sddl.c:356-440 | a number in any C notation, or letters with blanks between them, exactly as the specification reads them |
| SddlAccess.AccessRoundTrip | src/adldap/samba/sddl.c:356-440 | every 32-bit mask survives printing and parsing, as letters, as a file right or in hexadecimal, zero as the empty string included |
| Numerals.MaskIsRead | src/adldap/samba/sddl.c:373-402 | a number in any of the three notations, with spaces and a plus sign before it, is a mask if all has at most 13 characters and it fits 32 bits, otherwise it is refused |
| SddlLetters.LettersExactly | src/adldap/samba/sddl.c:405-437 | a text that is no number is accepted exactly when it consists of names of rights with any number of blanks before each, and stands for the union of their bits |
| SddlSids.StringFormRoundTrip | src/adldap/samba/sddl.c:206-286 | the numeric form is consumed exactly, also before a DACL marker whose D reads as a hex digit |
| SddlSids.SidRoundTrip | src/adldap/samba/sddl.c:720-764 | a printed SID, two-letter code or numeric form, before the end or any marker, is read back and consumes exactly its own text |
| SddlMeaning.Universal | src/adldap/samba/sddl.c:120-124 | the codes of everyone and of the stand-ins for creator and owner: each is read as its SID in front of any text, and the SID is printed as the code, in any domain |
| SddlMeaning.NtAuthority | src/adldap/samba/sddl.c:126-137 | the same for the codes of S-1-5-n |
| SddlMeaning.BuiltinGroup | src/adldap/samba/sddl.c:139-150 | for those of S-1-5-32-n: BA is 544, the administrators, BU is 545, the users, and so on |
| SddlMeaning.BuiltinRole | src/adldap/samba/sddl.c:152-163 | for the other groups of S-1-5-32-n |
| SddlMeaning.OtherAuthority | src/adldap/samba/sddl.c:165-176 | for drivers, packages, integrity levels and asserted identities |
| SddlMeaning.FirstAccount | src/adldap/samba/sddl.c:178-185 | a code of an account is the domain SID with the account's identifier, read if there is room for it and printed if the domain has a sub-authority |
| SddlMeaning.Account | src/adldap/samba/sddl.c:186-199 | the same for the other accounts of a domain |
| Protection.TrusteesByCode | src/adldap/samba/sddl.c:120-131 | the two trustees of these features are those that SDDL calls WD and PS |
| SddlLetters.DirectoryRight | src/adldap/samba/sddl.c:312-320 | the nine letters of directory rights are printed for and read as the constants of the editor, whose numbers they are |
| SddlLetters.StandardRight | src/adldap/samba/sddl.c:321-328 | the same for the standard and generic rights |
| SddlLetters.GenericNumbers | src/adldap/ad_security.cpp:172-228 | the numbers of the generic rights; mapping takes "list object" out of generic read and changes no other mask |
| SddlLetters.FileRight | src/adldap/samba/sddl.c:333-336 | a file right is printed as its name for one number only, in spite of having letters for most of its bits |
| SddlLetters.TypeLetters | src/adldap/samba/sddl.c:288-296 | the letters of the eight ACE types, their constants and numbers |
| SddlLetters.FlagLetters | src/adldap/samba/sddl.c:300-307 | the letters of the seven ACE flags, their bits and numbers |
| SddlLetters.AceParts | src/adldap/samba/sddl.c:457-543 | an object ACE is type, flags, rights, object type, inherited type and trustee in this order, both when printed and when read |
| SddlLetters.MissingGuid | src/adldap/samba/sddl.c:468-520 | a GUID that is not written is all zeros |
| SddlLetters.PrintableExactly | src/adldap/samba/sddl.c:770-842 | an ACE can be printed exactly when its type has four bits and its unused flag is clear, so also with types that have no letters |
| SddlLetters.CompoundBecomesObject | src/adldap/samba/sddl.c:682-715 | a compound type is printed as "OA" and read again as an object type |
| SddlLetters.OwnerMarker | src/adldap/samba/sddl.c:656-659 | a SID after O: is the owner |
| SddlLetters.GroupMarker | src/adldap/samba/sddl.c:661-664 | and after G: the group |
| SddlLetters.DaclMarker | src/adldap/samba/sddl.c:642-646 | flags after D: are those of an empty DACL that is present |
| SddlLetters.SaclMarker | src/adldap/samba/sddl.c:648-654 | and after S: of a SACL, one bit further |
| SddlMethods.SddlEncodeSid | src/adldap/samba/sddl.c:720-764 | the first code that fits, in table order, else the numeric form |
| SddlMethods.SddlDecodeSid | src/adldap/samba/sddl.c:206-286 | the cursor version of the specified SID parser |
| SddlMethods.SplitTokens | src/adldap/samba/sddl.c:472-479 | six tokens at the first five semicolons, or failure |
| SddlMethods.SddlEncodeAcl | src/adldap/samba/sddl.c:862-887 | flags, then each ACE in parentheses, in order |
| SddlMethods.SddlDecodeAces | src/adldap/samba/sddl.c:574-610 | the loop over parenthesised ACEs, with what follows them |
| SddlMethods.SddlDecode | src/adldap/samba/sddl.c:616-677 | the loop over the four parts |
| SddlRoundTrip.AceRoundTrip | src/adldap/samba/sddl.c:457-543 | a canonical ACE survives printing and parsing: type, flags, mask, GUIDs and trustee |
| SddlRoundTrip.AclRoundTrip | src/adldap/samba/sddl.c:548-611 | a printed ACL before the end or a SACL is read back with its flags and its ACEs in order, and consumes exactly its own text |
| SddlRoundTrip.ShiftedFlags | src/adldap/samba/sddl.c:652-654 | the SACL flags, printed shifted by one bit, come back without touching DACL flags |
| SddlRoundTrip.DescriptorRoundTrip | src/adldap/samba/sddl.c:892-948 | decoding the encoding of any canonical descriptor gives it back: owner, group, both ACLs and control bits |
| SddlImage.ReprintAcceptedText | src/adldap/samba/sddl.c:616-677 | for every text the parser accepts, printing succeeds and parsing again loses at most GUIDs on ACE types that cannot carry them |
| SddlImage.RoundTripExactly | src/adldap/samba/sddl.c:892-948 | a descriptor survives exactly when it is canonical |
| SddlImage.GuidOnPlainAceIsLost | src/adldap/samba/sddl.c:811-825 | a plain allow ACE that says to carry an object type does not survive |
| Guids.ParseGuidString | src/adldap/samba/util_str_hex.c:22-69 | accepts exactly the well-formed strings, and builds the fields they write |
| Guids.HexBytes | src/adldap/samba/util_str_hex.c:6-20 | succeeds exactly on hexadecimal digits and gives their bytes |
| Guids.FromHexReads | src/adldap/ad_utils.cpp:472-487 | of any text the hexadecimal digits alone count, with a zero before an odd number of them, and they are the digits of the bytes |
| Guids.GuidStringToSegmentList | src/adldap/ad_utils.cpp:472-487 | one segment per part, the first three byte-reversed |
| Guids.RepresentationsAgree | src/adldap/ad_utils.cpp:472-505 | for every well-formed string the byte-array route gives the little-endian memory image of the parsed structure |
| Guids.DisplayThenBytes | src/adldap/ad_display.cpp:254-273 | displaying 16 bytes gives a well-formed string that converts back to them |
| Guids.DisplayThenParse | src/adldap/ad_display.cpp:254-273 | and whose parsed structure has them as its memory image |
| GuidMethods.SegmentListToGuidBytes | src/adldap/ad_utils.cpp:489-497 | the concatenation of the segments |
| GuidMethods.StringToBytes | src/adldap/ad_utils.cpp:499-505 | for a well-formed string, the memory image of what the other parser builds |
| GuidMethods.MakeGuidString | src/adldap/ad_display.cpp:237-252 | the hexadecimal segments with dashes between them |
| GuidMethods.DisplayValue | src/adldap/ad_display.cpp:254-273 | the display form of any byte array, with missing bytes left out; of 16 bytes well formed and convertible back |
| GplinkLists.SetBitChangesOneBit | src/adldap/ad_utils.cpp:437-449 | setting an option gives its bit the value and keeps every other bit, negative values included |
| GplinkLists.MovePlaces | src/adldap/gplink.cpp:236-274 | a move is a permutation that puts the policy where asked and keeps the order of the others |
| GplinkLists.MoveDownUndoesMoveUp | src/adldap/gplink.cpp:236-265 | a move up with a place to go lowers the order by one, and moving down undoes it, repeated names or not |
| GplinkLists.MoveUpUndoesMoveDown | src/adldap/gplink.cpp:236-265 | and the other way round unless the name is repeated right below |
| GplinkLists.RunKeepsValid | src/adldap/gplink.cpp:213-302 | over any run of mutators the options speak of exactly the listed policies, and a list without repetitions stays one |
| GplinkLists.RunKeepsOthers | src/adldap/gplink.cpp:213-302 | a run keeps the listing, the relative order and the options of every set of policies that none of its commands acts on |
| GplinkLists.AddThenRemove | src/adldap/gplink.cpp:213-234 | adding twice is adding once, and removing what was just added leaves no trace |
| GplinkLists.OptionReadsBack | src/adldap/gplink.cpp:276-302 | an option reads back as it was set; the other option, and other policies, read as before |
| GplinkLists.OptionBits | src/adldap/gplink.cpp:276-288 | the lowest bit of a value disables a link, the next one enforces it |
| GplinkLists.OrderExactly | src/adldap/gplink.cpp:308-313 | the order of a policy is its first place, counted from one, and zero if it is not listed |
| GplinkText.NumberReadsBack | src/adldap/gplink.cpp:151-152 | every option value survives printing and reading |
| Numerals.NumeralIsRead | src/adldap/gplink.cpp:80-82 | an option value is a decimal number with an optional sign between spaces, zero if it does not fit 32 bits |
| Numerals.OtherwiseZero | src/adldap/gplink.cpp:80-82 | any other text is the option value zero |
| Numerals.SpacesAre | src/adldap/gplink.cpp:80-82 | the characters that count as space are the blank and the five controls from tab to carriage return |
| GplinkText.LinkCaseExactly | src/adldap/gplink.cpp:101-141 | printing a name in link case and lowering it gives the name back exactly when all parts are pairs or there is one part |
| GplinkText.ComesBackExactly | src/adldap/gplink.cpp:44-49 | the same for one name |
| GplinkText.RoundTripExactly | src/adldap/gplink.cpp:52-162 | for links whose names are free of the three delimiters, parsing the printed text gives the same list and options exactly when every listed name is printed whole, which fails for several parts with a malformed one, and its printed form does not hold the prefix |
| GplinkText.LostNames | src/adldap/gplink.cpp:101-141 | two names that do not survive |
| Strings.LetterCase | src/adldap/gplink.cpp:114-129 | capitals and small letters correspond one to one, other characters have no case |
| GplinkCase.LinkCaseParts | src/adldap/gplink.cpp:101-141 | a name of pairs is printed with the same length and lower case, and in each part the attribute is in capitals exactly when it is "dc", the value exactly when the part equals the first; every other character is unchanged |
| GplinkCase.FirstMalformedPart | src/adldap/gplink.cpp:103-109 | of another name the first part that is not a pair is printed, unchanged and alone |
| GplinkCase.TextOfLinks | src/adldap/gplink.cpp:145-162 | the printed text is that of the other policies, then bracket, prefix, name, semicolon, option and bracket for the first one |
| GplinkCase.DirectoryCaseParts | src/adldap/gplink.cpp:170-203 | towards LDAP any name keeps its parts: the first in capitals, the attributes of the other pairs in capitals, "system" and "policies" with one capital, all other characters unchanged |
| GplinkText.SameTextExactly | src/adldap/gplink.cpp:304-306 | printable links print the same exactly when list order and options agree |
| GplinkText.ParsedIsValid | src/adldap/gplink.cpp:52-86 | whatever the text, the parsed options speak of exactly the listed policies, named in lower case |
| Gplinks.DirectoryCaseLower | src/adldap/gplink.cpp:170-203 | the case given to LDAP differs from the listed name in case only |
| Gplinks.GpoDnToGplinkCase | src/adldap/gplink.cpp:101-141 | the loop over the parts, with its early return of a malformed one, whose letter case the rows above state |
| Gplinks.Gplink.FromText | src/adldap/gplink.cpp:52-86 | the parsing constructor builds what the specification parses, a valid state for any text |
| Gplinks.Gplink.ToString | src/adldap/gplink.cpp:145-162 | the specified text, whose brackets, prefix and letter case the rows above state |
| Gplinks.Gplink.Add | src/adldap/gplink.cpp:213-223 | appended with option zero unless listed |
| Gplinks.Gplink.Remove | src/adldap/gplink.cpp:225-234 | no longer listed, option gone |
| Gplinks.Gplink.MoveUp | src/adldap/gplink.cpp:236-249 | the first occurrence moves one place up if it can |
| Gplinks.Gplink.MoveDown | src/adldap/gplink.cpp:251-265 | one place down if it can; validity is what keeps the unchecked position from being -1 |
| Gplinks.Gplink.Move | src/adldap/gplink.cpp:267-274 | from one order to another, ignored out of range |
| Gplinks.Gplink.GetOption | src/adldap/gplink.cpp:276-288 | the option's bit, false for a policy that is not listed |
| Gplinks.Gplink.SetOption | src/adldap/gplink.cpp:290-302 | that bit of that policy only |
| Gplinks.Gplink.Equals | src/adldap/gplink.cpp:304-306 | comparing texts is, between printable links, comparing lists and options |
| Gplinks.Gplink.GpoDnList | src/adldap/gplink.cpp:319-337 | the enforced or disabled list is exactly the listed policies with the option, in order and in directory case |
| Octets.OctetBytesToString | src/admc/core/attribute.cpp:50-96 | the bytes in the base, padded to its width, with blanks between them |
| Octets.OctetStringToBytes | src/admc/core/attribute.cpp:98-126 | each token stripped of zeros and converted, truncated to a byte |
| Numerals.LongIsRead | src/admc/core/attribute.cpp:115-119 | what the conversion takes from any token without padding: spaces, a sign, in base 16 a prefix, and the digits up to the first other character, clamped to 64 bits |
| Octets.AttributeValidateInput | src/admc/core/attribute.cpp:204-214 | true exactly when every token is valid in the format |
| Octets.ValidToken | src/admc/core/attribute.cpp:133-179 | the four validators accept exactly the digit strings of the byte's width whose value fits a byte, although the octal one compares the decimal reading with 377 |
| Octets.BytesRoundTrip | src/admc/core/attribute.cpp:50-126 | in each base a non-empty byte array is shown as valid input that converts back to it |
| Octets.StringRoundTrip | src/admc/core/attribute.cpp:98-126 | in each base valid input converts to bytes that are shown exactly as typed |
| Octets.ValidExactly | src/admc/core/attribute.cpp:204-214 | the validator accepts exactly the strings that show some non-empty byte array |
| Schemas.Sort | src/adldap/ad_config.cpp:1144-1147 | the strictly sorted list of the members |
| Schemas.SortedIsUnique | src/adldap/ad_config.cpp:1144-1147 | there is only one such list |
| Schemas.LessExactly | src/adldap/ad_config.cpp:1147 | the order of the list is that of a dictionary: after a common start one word ends, or the characters differ |
| Schemas.HiddenExactly | src/adldap/ad_config.cpp:557-573 | an attribute is left out exactly when it has an entry with an odd link identifier, with bit 2 of its system flags, or for the system alone |
| Schemas.MemberIsListed | src/adldap/ad_config.cpp:1137-1141 | of "member" and "memberOf" the first is listed and the second is not |
| Schemas.AttributeListIsUnique | src/adldap/ad_config.cpp:1119-1147 | a class has only one right list |
| Schemas.ReachableIsLeast | src/adldap/ad_config.cpp:1150-1156 | the reachable classes are the least set that holds the start and is closed under inferiors with an entry |
| Schemas.ClosedCanBeAvoided | src/adldap/ad_config.cpp:1150-1156 | skipping loaded classes misses nothing when the loaded classes are closed |
| Schemas.LoadsReachExactly | src/adldap/ad_config.cpp:1106-1157 | after any run of loads from nothing, cycles or not, the keys are exactly the classes reachable from a requested class, each with its one right list |
| Schemas.AdConfig.PermissionableAttributes | src/adldap/ad_config.cpp:1119-1147 | the sorted list of the allowed attributes without an entry, or whose link identifier is absent or even, whose bit 2 of the system flags is clear, and which are not system-only |
| Schemas.AdConfig.LoadPermissionableAttributes | src/adldap/ad_config.cpp:1106-1157 | terminates on every graph; adds exactly the classes reachable through classes not loaded before, gives them and the start class their lists, and leaves the other lists as they were |
| Schemas.ReloadExactly | src/adldap/ad_config.cpp:1106-1157 | a load leaves every reachable class with its right list exactly when each of them, beside the start class, had it before, or was not loaded and is reachable through classes that were not |
| Schemas.ReloadMayMiss | src/adldap/ad_config.cpp:1150-1156 | a class reachable only through a loaded one is left out |
| Schemas.ReloadKeepsOldList | src/adldap/ad_config.cpp:134-141 | a loaded class that is not the start class keeps its list, right or wrong |
| GptWalk.TextTellsPath | src/adldap/ad_interface.cpp:1761-1763 | the text of a path tells it, and a child's text is its parent's, a slash and its name |
| GptWalk.ChildIsNew | src/adldap/ad_interface.cpp:1755-1775 | what a directory on the stack lists was never seen before |
| GptWalk.TurnKeepsWalking | src/adldap/ad_interface.cpp:1736-1785 | every turn keeps the state of the walk: no repetition, parents first, everything seen either explored or waiting |
| GptWalk.FinishedWalk | src/adldap/ad_interface.cpp:1721-1788 | an empty stack means that the root and every descendant are listed exactly once, each directory before everything below it |
| GptWalk.NextIsEmpty | src/adldap/ad_interface.cpp:2369-2397 | in reverse order the next path still exists and nothing is left under it |
| GptDepth.DeepFirst | src/adldap/ad_interface.cpp:1736-1785 | two entries at different depths that are in unrelated directories can be listed deeper first, if each directory on the way lists the next one last |
| GptDepth.ByDepthExactly | src/adldap/ad_interface_p.h:61-63 | the contents are by increasing depth in whatever order the server lists exactly when of two entries at different depths the less deep one is always in a directory above the other's |
| GptDepth.FileBesideDeeperFile | src/adldap/ad_interface_p.h:61-63 | a tree of six entries and listings of it for which the order is another one |
| GptWalk.Share.GetGptContents | src/adldap/ad_interface.cpp:1721-1788 | succeeds exactly on an existing directory, with its contents parents first, in whatever order the server lists |
| GptWalk.Share.DeleteGpt | src/adldap/ad_interface.cpp:2361-2400 | no removal ever fails on a directory that is not empty; exactly the root and what is under it are gone |

## Left out

- LDAP, SMB, Kerberos and DNS calls, the NDR encoding of descriptors, memory allocation and its failures, and everything that is displayed or translated.
- Protection and password settings as writes to the directory: the model has the edit and the query of the descriptor, not reading or storing it.
- Reading the class rights out of the schema: they are a parameter, restricted to the shapes that the readers produce.
- Removing all explicit ACEs of a trustee from a DACL, listing the trustees of a DACL and naming rights: filters and look-ups of one step.
- Conditions of callback ACEs, and the sizes and revisions of ACLs and descriptors: they are not part of an ACE or a descriptor here.
- SecurityDescriptors.SecurityDescriptor.SortDacl: the keys by which the comparator breaks ties among ACEs of the same kind are left open, as no property here depends on them.
- The three SIDs that complete a relative SDDL code are one, as the decoder of the source sets them; the caller's encoder passes one SID too.
- RightsTheorems.RemoveRightUnsets: is about edits that do not end on NULL; exactly when they do is `NullDacl.RemoveMeetsNullExactly`.
- RightsTheorems.AddRightSets: is about edits that do not end on NULL; exactly when they do is `NullDacl.AddMeetsNullExactly`.
- GplinkText.RoundTripExactly: names that contain `[`, `]` or `;`, the delimiters of the attribute, are outside it.
- GplinkLists.SetBitChangesOneBit: the bitwise operators are written as arithmetic on the two bits that the options use.
- GptWalk.Share.GetGptContents: read errors and permissions of the share are not modelled, only a missing directory.
- Octets.AttributeValidateInput: the anchors of the source's patterns are read as the ends of the token, so a token with a trailing newline, which a pattern engine may let pass, is not valid here.
- Octets.OctetStringToBytes: conversion of text outside ASCII is not modelled.
