/** What the codes of SDDL stand for (section 2.5.1.1 of MS-DTYP): each SID with its code, in both directions. */
module SddlMeaning {
  import opened Primitives
  import opened Aces
  import opened SidText
  import opened SddlSids

  /** The code is read as the SID in front of any text, and the SID is printed as the code. */
  ghost predicate Means(code: string, sid: Sid) {
    && (forall domain, rest :: DecodeSid(code + rest, domain) == Some((sid, rest)))
    && (forall domain :: EncodeSid(sid, domain) == code)
  }

  /** The code is the account of the domain with this identifier; the domain SID must have room for it. */
  ghost predicate MeansAccount(code: string, rid: uint32) {
    && (forall domain: Sid, rest :: |domain.subAuths| < 15 ==>
          DecodeSid(code + rest, domain) == Some((domain.(subAuths := domain.subAuths + [rid]), rest)))
    && (forall domain: Sid, rest :: |domain.subAuths| == 15 ==> DecodeSid(code + rest, domain).None?)
    && (forall domain: Sid :: 1 <= |domain.subAuths| < 15 ==>
          EncodeSid(domain.(subAuths := domain.subAuths + [rid]), domain) == code)
  }

  // ---------------------------------------------------------------------------
  // No two entries of the table fit the same SID: along the table this number grows.

  ghost function SidNumber(sid: Sid): int {
    var n := |sid.subAuths|;
    if n == 0 then -1 else sid.authority * 1_000_000 + n * 100_000 + sid.subAuths[n - 1]
  }

  ghost function EntryNumber(entry: SidCode): int {
    match entry
    case WellKnown(_, sid) => SidNumber(sid)
    case Relative(_, rid) => 100_000_000 + rid
  }

  lemma Numbers0(i: nat)
    requires i < 11
    ensures 1_000_000 <= EntryNumber(CODES_0[i]) < 5_100_012 && CODES_0[i].WellKnown?
    ensures i < 10 ==> EntryNumber(CODES_0[i]) < EntryNumber(CODES_0[i + 1])
  {
  }

  lemma Numbers1(i: nat)
    requires i < 11
    ensures 5_100_012 <= EntryNumber(CODES_1[i]) < 5_200_550 && CODES_1[i].WellKnown?
    ensures i < 10 ==> EntryNumber(CODES_1[i]) < EntryNumber(CODES_1[i + 1])
  {
  }

  lemma Numbers2(i: nat)
    requires i < 11
    ensures 5_200_550 <= EntryNumber(CODES_2[i]) < 5_200_574 && CODES_2[i].WellKnown?
    ensures i < 10 ==> EntryNumber(CODES_2[i]) < EntryNumber(CODES_2[i + 1])
  {
  }

  lemma Numbers3(i: nat)
    requires i < 11
    ensures 5_200_574 <= EntryNumber(CODES_3[i]) < 16_108_448 && CODES_3[i].WellKnown?
    ensures i < 10 ==> EntryNumber(CODES_3[i]) < EntryNumber(CODES_3[i + 1])
  {
  }

  lemma Numbers4(i: nat)
    requires i < 11
    ensures 16_108_448 <= EntryNumber(CODES_4[i]) < 100_000_515 && (CODES_4[i].WellKnown? <==> i < 5)
    ensures i < 10 ==> EntryNumber(CODES_4[i]) < EntryNumber(CODES_4[i + 1])
  {
  }

  lemma Numbers5(i: nat)
    requires i < 11
    ensures 100_000_515 <= EntryNumber(CODES_5[i]) && CODES_5[i].Relative?
    ensures i < 10 ==> EntryNumber(CODES_5[i]) < EntryNumber(CODES_5[i + 1])
  {
  }

  lemma NumberStep(i: nat)
    requires i < |SID_CODES|
    ensures SID_CODES[i].WellKnown? <==> i < 49
    ensures i + 1 < |SID_CODES| ==> EntryNumber(SID_CODES[i]) < EntryNumber(SID_CODES[i + 1])
  {
    SixChunks(CODES_0, CODES_1, CODES_2, CODES_3, CODES_4, CODES_5, i);
    if i < 11 { Numbers0(i); } else if i < 22 { Numbers1(i - 11); } else if i < 33 { Numbers2(i - 22); }
    else if i < 44 { Numbers3(i - 33); } else if i < 55 { Numbers4(i - 44); } else { Numbers5(i - 55); }
    if i + 1 < |SID_CODES| {
      SixChunks(CODES_0, CODES_1, CODES_2, CODES_3, CODES_4, CODES_5, i + 1);
      if i == 10 { Numbers1(0); } else if i == 21 { Numbers2(0); } else if i == 32 { Numbers3(0); }
      else if i == 43 { Numbers4(0); } else if i == 54 { Numbers5(0); }
    }
  }

  lemma {:induction false} NumbersGrow(i: nat, j: nat)
    requires i < j < |SID_CODES|
    ensures EntryNumber(SID_CODES[i]) < EntryNumber(SID_CODES[j])
    decreases j - i
  {
    NumberStep(i);
    if i + 1 < j {
      NumbersGrow(i + 1, j);
    }
  }

  // ---------------------------------------------------------------------------
  // An entry that fits, and no earlier one, is what is printed.

  lemma {:induction false} FirstFitIsPrinted(sid: Sid, domain: Sid, i: nat, k: nat)
    requires i <= k < |SID_CODES| && CodeFits(SID_CODES[k], sid, domain)
    requires forall j :: i <= j < k ==> !CodeFits(SID_CODES[j], sid, domain)
    ensures EncodeSidFrom(sid, domain, i) == SID_CODES[k].code
    decreases k - i
  {
    if i < k {
      FirstFitIsPrinted(sid, domain, i + 1, k);
    }
  }

  lemma KnownMeans(k: nat, code: string, sid: Sid)
    requires k < |SID_CODES| && SID_CODES[k] == WellKnown(code, sid)
    ensures Means(code, sid)
  {
    NumberStep(k);
    forall domain ensures EncodeSid(sid, domain) == code {
      forall j | 0 <= j < k ensures !CodeFits(SID_CODES[j], sid, domain) {
        NumberStep(j);
        NumbersGrow(j, k);
        if CodeFits(SID_CODES[j], sid, domain) {
          PrintingIsInjective(sid, SID_CODES[j].sid);
        }
      }
      FirstFitIsPrinted(sid, domain, 0, k);
    }
    forall domain, rest ensures DecodeSid(code + rest, domain) == Some((sid, rest)) {
      CodeRoundTrip(sid, domain, k, rest);
    }
  }

  /** The last sub-authorities of well-known SIDs with several, none of which is the identifier of an account. */
  ghost predicate IsAlias(n: uint32) {
    n <= 1 || 544 <= n <= 552 || 554 <= n <= 580
  }

  ghost predicate EndsApart(entry: SidCode) {
    match entry
    case WellKnown(_, sid) => |sid.subAuths| >= 2 ==> IsAlias(sid.subAuths[|sid.subAuths| - 1])
    case Relative(_, rid) => !IsAlias(rid)
  }

  lemma Ends0(i: nat)
    requires i < 11
    ensures EndsApart(CODES_0[i])
  {
  }

  lemma Ends1(i: nat)
    requires i < 11
    ensures EndsApart(CODES_1[i])
  {
  }

  lemma Ends2(i: nat)
    requires i < 11
    ensures EndsApart(CODES_2[i])
  {
  }

  lemma Ends3(i: nat)
    requires i < 11
    ensures EndsApart(CODES_3[i])
  {
  }

  lemma Ends4(i: nat)
    requires i < 11
    ensures EndsApart(CODES_4[i])
  {
  }

  lemma Ends5(i: nat)
    requires i < 11
    ensures EndsApart(CODES_5[i])
  {
  }

  lemma AllEndApart(i: nat)
    requires i < |SID_CODES|
    ensures EndsApart(SID_CODES[i])
  {
    SixChunks(CODES_0, CODES_1, CODES_2, CODES_3, CODES_4, CODES_5, i);
    if i < 11 { Ends0(i); } else if i < 22 { Ends1(i - 11); } else if i < 33 { Ends2(i - 22); }
    else if i < 44 { Ends3(i - 33); } else if i < 55 { Ends4(i - 44); } else { Ends5(i - 55); }
  }

  lemma AccountFitsNoOther(domain: Sid, rid: uint32, k: nat, j: nat)
    requires j < k < |SID_CODES| && SID_CODES[k].Relative? && SID_CODES[k].rid == rid
    requires 1 <= |domain.subAuths| < 15
    ensures !CodeFits(SID_CODES[j], domain.(subAuths := domain.subAuths + [rid]), domain)
  {
    var sid := domain.(subAuths := domain.subAuths + [rid]);
    assert sid.subAuths[|sid.subAuths| - 1] == rid;
    AllEndApart(j);
    AllEndApart(k);
    NumbersGrow(j, k);
    if SID_CODES[j].WellKnown? && CodeFits(SID_CODES[j], sid, domain) {
      PrintingIsInjective(sid, SID_CODES[j].sid);
    }
  }

  lemma AccountMeans(k: nat, code: string, rid: uint32)
    requires k < |SID_CODES| && SID_CODES[k] == Relative(code, rid)
    ensures MeansAccount(code, rid)
  {
    AllEndApart(k);
    CodeAt(k);
    forall domain: Sid | 1 <= |domain.subAuths| < 15
      ensures EncodeSid(domain.(subAuths := domain.subAuths + [rid]), domain) == code
    {
      var sid := domain.(subAuths := domain.subAuths + [rid]);
      assert sid.subAuths[|sid.subAuths| - 1] == rid;
      assert sid.subAuths[..|sid.subAuths| - 1] == domain.subAuths;
      forall j | 0 <= j < k ensures !CodeFits(SID_CODES[j], sid, domain) {
        AccountFitsNoOther(domain, rid, k, j);
      }
      FirstFitIsPrinted(sid, domain, 0, k);
    }
    forall domain: Sid, rest
      ensures |domain.subAuths| < 15 ==>
              DecodeSid(code + rest, domain) == Some((domain.(subAuths := domain.subAuths + [rid]), rest))
      ensures |domain.subAuths| == 15 ==> DecodeSid(code + rest, domain).None?
    {
      ReadCode(k, code, rest, domain);
    }
  }

  lemma ReadCode(k: nat, code: string, rest: string, domain: Sid)
    requires k < |SID_CODES| && SID_CODES[k].code == code
    ensures var sid := SidOfCode(SID_CODES[k], domain);
            DecodeSid(code + rest, domain) == if sid.None? then None else Some((sid.value, rest))
  {
    var s := code + rest;
    CodeAt(k);
    assert s[..2] == code && s[2..] == rest;
    assert code != "S-";
    FindCodeFinds(k, 0, rest);
  }

  // ---------------------------------------------------------------------------
  // The codes, one by one.

  // Everyone, and the stand-ins for the creator and the owner.
  const UNIVERSAL: seq<(string, Sid)> := [
    ("WD", Sid(1, 1, [0])), ("CO", Sid(1, 3, [0])), ("CG", Sid(1, 3, [1])), ("OW", Sid(1, 3, [4]))]

  lemma Universal(i: nat)
    requires i < |UNIVERSAL|
    ensures Means(UNIVERSAL[i].0, UNIVERSAL[i].1)
  {
    At(0 + i);
    KnownMeans(0 + i, UNIVERSAL[i].0, UNIVERSAL[i].1);
  }

  // S-1-5-n: kinds of logons and services.
  const NT_AUTHORITY: seq<(string, uint32)> := [
    ("NU", 2), ("IU", 4), ("SU", 6), ("AN", 7), ("ED", 9), ("PS", 10), ("AU", 11), ("RC", 12), ("SY", 18),
    ("LS", 19), ("NS", 20), ("WR", 33)]

  lemma NtAuthority(i: nat)
    requires i < |NT_AUTHORITY|
    ensures Means(NT_AUTHORITY[i].0, Sid(1, 5, [NT_AUTHORITY[i].1]))
  {
    At(4 + i);
    KnownMeans(4 + i, NT_AUTHORITY[i].0, Sid(1, 5, [NT_AUTHORITY[i].1]));
  }

  // S-1-5-32-n: local groups of every machine.
  const BUILTIN_GROUPS: seq<(string, uint32)> := [
    ("BA", 544), ("BU", 545), ("BG", 546), ("PU", 547), ("AO", 548), ("SO", 549), ("PO", 550), ("BO", 551),
    ("RE", 552), ("RU", 554), ("RD", 555), ("NO", 556)]

  lemma BuiltinGroup(i: nat)
    requires i < |BUILTIN_GROUPS|
    ensures Means(BUILTIN_GROUPS[i].0, Sid(1, 5, [32, BUILTIN_GROUPS[i].1]))
  {
    At(16 + i);
    KnownMeans(16 + i, BUILTIN_GROUPS[i].0, Sid(1, 5, [32, BUILTIN_GROUPS[i].1]));
  }

  // S-1-5-32-n: local groups for single tasks.
  const BUILTIN_ROLES: seq<(string, uint32)> := [
    ("MU", 558), ("LU", 559), ("IS", 568), ("CY", 569), ("ER", 573), ("CD", 574), ("RA", 575), ("ES", 576),
    ("MS", 577), ("HA", 578), ("AA", 579), ("RM", 580)]

  lemma BuiltinRole(i: nat)
    requires i < |BUILTIN_ROLES|
    ensures Means(BUILTIN_ROLES[i].0, Sid(1, 5, [32, BUILTIN_ROLES[i].1]))
  {
    At(28 + i);
    KnownMeans(28 + i, BUILTIN_ROLES[i].0, Sid(1, 5, [32, BUILTIN_ROLES[i].1]));
  }

  // Drivers, packages, integrity levels and asserted identities.
  const OTHER_AUTHORITIES: seq<(string, Sid)> := [
    ("UD", Sid(1, 5, [84, 0, 0, 0, 0, 0])), ("AC", Sid(1, 15, [2, 1])), ("LW", Sid(1, 16, [4096])),
    ("ME", Sid(1, 16, [8192])), ("MP", Sid(1, 16, [8448])), ("HI", Sid(1, 16, [12288])),
    ("SI", Sid(1, 16, [16384])), ("AS", Sid(1, 18, [1])), ("SS", Sid(1, 18, [2]))]

  lemma OtherAuthority(i: nat)
    requires i < |OTHER_AUTHORITIES|
    ensures Means(OTHER_AUTHORITIES[i].0, OTHER_AUTHORITIES[i].1)
  {
    At(40 + i);
    KnownMeans(40 + i, OTHER_AUTHORITIES[i].0, OTHER_AUTHORITIES[i].1);
  }

  // Accounts of a domain by their identifiers.
  const FIRST_ACCOUNTS: seq<(string, uint32)> := [
    ("RO", 498), ("LA", 500), ("LG", 501), ("DA", 512), ("DU", 513), ("DG", 514)]

  lemma FirstAccount(i: nat)
    requires i < |FIRST_ACCOUNTS|
    ensures MeansAccount(FIRST_ACCOUNTS[i].0, FIRST_ACCOUNTS[i].1)
  {
    At(49 + i);
    AccountMeans(49 + i, FIRST_ACCOUNTS[i].0, FIRST_ACCOUNTS[i].1);
  }

  // More of them.
  const ACCOUNTS: seq<(string, uint32)> := [
    ("DC", 515), ("DD", 516), ("CA", 517), ("SA", 518), ("EA", 519), ("PA", 520), ("CN", 522), ("AP", 525),
    ("KA", 526), ("EK", 527), ("RS", 553)]

  lemma Account(i: nat)
    requires i < |ACCOUNTS|
    ensures MeansAccount(ACCOUNTS[i].0, ACCOUNTS[i].1)
  {
    At(55 + i);
    AccountMeans(55 + i, ACCOUNTS[i].0, ACCOUNTS[i].1);
  }

  lemma At(i: nat)
    requires i < 66
    ensures SID_CODES[i] == if i < 11 then CODES_0[i] else if i < 22 then CODES_1[i - 11]
                            else if i < 33 then CODES_2[i - 22] else if i < 44 then CODES_3[i - 33]
                            else if i < 55 then CODES_4[i - 44] else CODES_5[i - 55]
  {
    SixChunks(CODES_0, CODES_1, CODES_2, CODES_3, CODES_4, CODES_5, i);
  }
}
