/** SIDs in SDDL: a two-letter code or the string form. */
module SddlSids {
  import opened Primitives
  import opened Numbers
  import opened Aces
  import opened SidText
  import opened SddlFlags

  /** A code stands for one SID, or for one account of the domain. */
  datatype SidCode = WellKnown(code: string, sid: Sid) | Relative(code: string, rid: uint32)

  // Section 2.5.1.1 of MS-DTYP, in the order of the source. The machine, the domain and
  // the forest are the same SID in both entry points, so their accounts are alike here.
  const CODES_0: seq<SidCode> := [
    WellKnown("WD", Sid(1, 1, [0])), WellKnown("CO", Sid(1, 3, [0])), WellKnown("CG", Sid(1, 3, [1])),
    WellKnown("OW", Sid(1, 3, [4])), WellKnown("NU", Sid(1, 5, [2])), WellKnown("IU", Sid(1, 5, [4])),
    WellKnown("SU", Sid(1, 5, [6])), WellKnown("AN", Sid(1, 5, [7])), WellKnown("ED", Sid(1, 5, [9])),
    WellKnown("PS", Sid(1, 5, [10])), WellKnown("AU", Sid(1, 5, [11]))]

  const CODES_1: seq<SidCode> := [
    WellKnown("RC", Sid(1, 5, [12])), WellKnown("SY", Sid(1, 5, [18])), WellKnown("LS", Sid(1, 5, [19])),
    WellKnown("NS", Sid(1, 5, [20])), WellKnown("WR", Sid(1, 5, [33])), WellKnown("BA", Sid(1, 5, [32, 544])),
    WellKnown("BU", Sid(1, 5, [32, 545])), WellKnown("BG", Sid(1, 5, [32, 546])), WellKnown("PU", Sid(1, 5, [32, 547])),
    WellKnown("AO", Sid(1, 5, [32, 548])), WellKnown("SO", Sid(1, 5, [32, 549]))]

  const CODES_2: seq<SidCode> := [
    WellKnown("PO", Sid(1, 5, [32, 550])), WellKnown("BO", Sid(1, 5, [32, 551])), WellKnown("RE", Sid(1, 5, [32, 552])),
    WellKnown("RU", Sid(1, 5, [32, 554])), WellKnown("RD", Sid(1, 5, [32, 555])), WellKnown("NO", Sid(1, 5, [32, 556])),
    WellKnown("MU", Sid(1, 5, [32, 558])), WellKnown("LU", Sid(1, 5, [32, 559])), WellKnown("IS", Sid(1, 5, [32, 568])),
    WellKnown("CY", Sid(1, 5, [32, 569])), WellKnown("ER", Sid(1, 5, [32, 573]))]

  const CODES_3: seq<SidCode> := [
    WellKnown("CD", Sid(1, 5, [32, 574])), WellKnown("RA", Sid(1, 5, [32, 575])), WellKnown("ES", Sid(1, 5, [32, 576])),
    WellKnown("MS", Sid(1, 5, [32, 577])), WellKnown("HA", Sid(1, 5, [32, 578])), WellKnown("AA", Sid(1, 5, [32, 579])),
    WellKnown("RM", Sid(1, 5, [32, 580])), WellKnown("UD", Sid(1, 5, [84, 0, 0, 0, 0, 0])),
    WellKnown("AC", Sid(1, 15, [2, 1])),
    WellKnown("LW", Sid(1, 16, [4096])), WellKnown("ME", Sid(1, 16, [8192]))]

  const CODES_4: seq<SidCode> := [
    WellKnown("MP", Sid(1, 16, [8448])), WellKnown("HI", Sid(1, 16, [12288])), WellKnown("SI", Sid(1, 16, [16384])),
    WellKnown("AS", Sid(1, 18, [1])), WellKnown("SS", Sid(1, 18, [2])), Relative("RO", 498),
    Relative("LA", 500), Relative("LG", 501), Relative("DA", 512),
    Relative("DU", 513), Relative("DG", 514)]

  const CODES_5: seq<SidCode> := [
    Relative("DC", 515), Relative("DD", 516), Relative("CA", 517),
    Relative("SA", 518), Relative("EA", 519), Relative("PA", 520),
    Relative("CN", 522), Relative("AP", 525), Relative("KA", 526),
    Relative("EK", 527), Relative("RS", 553)]

  const SID_CODES: seq<SidCode> := CODES_0 + CODES_1 + CODES_2 + CODES_3 + CODES_4 + CODES_5

  ghost function CodeNumber(code: string): int {
    if |code| == 2 then code[0] as int * 0x100 + code[1] as int else -1
  }

  /** The position of a code in the table, which shows that no code occurs twice. */
  ghost function CodeIndex(n: int): int {
    if n == 0x5744 then 0 else if n == 0x434F then 1 else if n == 0x4347 then 2 else if n == 0x4F57 then 3 else
    if n == 0x4E55 then 4 else if n == 0x4955 then 5 else if n == 0x5355 then 6 else if n == 0x414E then 7 else
    if n == 0x4544 then 8 else if n == 0x5053 then 9 else if n == 0x4155 then 10 else if n == 0x5243 then 11 else
    if n == 0x5359 then 12 else if n == 0x4C53 then 13 else if n == 0x4E53 then 14 else if n == 0x5752 then 15 else
    if n == 0x4241 then 16 else if n == 0x4255 then 17 else if n == 0x4247 then 18 else if n == 0x5055 then 19 else
    if n == 0x414F then 20 else if n == 0x534F then 21 else if n == 0x504F then 22 else if n == 0x424F then 23 else
    if n == 0x5245 then 24 else if n == 0x5255 then 25 else if n == 0x5244 then 26 else if n == 0x4E4F then 27 else
    if n == 0x4D55 then 28 else if n == 0x4C55 then 29 else if n == 0x4953 then 30 else if n == 0x4359 then 31 else
    if n == 0x4552 then 32 else if n == 0x4344 then 33 else if n == 0x5241 then 34 else if n == 0x4553 then 35 else
    if n == 0x4D53 then 36 else if n == 0x4841 then 37 else if n == 0x4141 then 38 else if n == 0x524D then 39 else
    if n == 0x5544 then 40 else if n == 0x4143 then 41 else if n == 0x4C57 then 42 else if n == 0x4D45 then 43 else
    if n == 0x4D50 then 44 else if n == 0x4849 then 45 else if n == 0x5349 then 46 else if n == 0x4153 then 47 else
    if n == 0x5353 then 48 else if n == 0x524F then 49 else if n == 0x4C41 then 50 else if n == 0x4C47 then 51 else
    if n == 0x4441 then 52 else if n == 0x4455 then 53 else if n == 0x4447 then 54 else if n == 0x4443 then 55 else
    if n == 0x4444 then 56 else if n == 0x4341 then 57 else if n == 0x5341 then 58 else if n == 0x4541 then 59 else
    if n == 0x5041 then 60 else if n == 0x434E then 61 else if n == 0x4150 then 62 else if n == 0x4B41 then 63 else
    if n == 0x454B then 64 else if n == 0x5253 then 65
    else -1
  }

  lemma Chunk0(i: nat)
    requires i < 11
    ensures |CODES_0[i].code| == 2 && IsUpper(CODES_0[i].code[0]) && IsUpper(CODES_0[i].code[1])
    ensures CodeIndex(CodeNumber(CODES_0[i].code)) == 0 + i
  {
  }

  lemma Chunk1(i: nat)
    requires i < 11
    ensures |CODES_1[i].code| == 2 && IsUpper(CODES_1[i].code[0]) && IsUpper(CODES_1[i].code[1])
    ensures CodeIndex(CodeNumber(CODES_1[i].code)) == 11 + i
  {
  }

  lemma Chunk2(i: nat)
    requires i < 11
    ensures |CODES_2[i].code| == 2 && IsUpper(CODES_2[i].code[0]) && IsUpper(CODES_2[i].code[1])
    ensures CodeIndex(CodeNumber(CODES_2[i].code)) == 22 + i
  {
  }

  lemma Chunk3(i: nat)
    requires i < 11
    ensures |CODES_3[i].code| == 2 && IsUpper(CODES_3[i].code[0]) && IsUpper(CODES_3[i].code[1])
    ensures CodeIndex(CodeNumber(CODES_3[i].code)) == 33 + i
  {
  }

  lemma Chunk4(i: nat)
    requires i < 11
    ensures |CODES_4[i].code| == 2 && IsUpper(CODES_4[i].code[0]) && IsUpper(CODES_4[i].code[1])
    ensures CodeIndex(CodeNumber(CODES_4[i].code)) == 44 + i
  {
  }

  lemma Chunk5Letters(i: nat)
    requires i < 11
    ensures |CODES_5[i].code| == 2 && IsUpper(CODES_5[i].code[0]) && IsUpper(CODES_5[i].code[1])
  {
  }

  lemma Chunk5(i: nat)
    requires i < 11
    ensures |CODES_5[i].code| == 2 && IsUpper(CODES_5[i].code[0]) && IsUpper(CODES_5[i].code[1])
    ensures CodeIndex(CodeNumber(CODES_5[i].code)) == 55 + i
  {
    Chunk5Letters(i);
  }

  lemma SixChunks<T>(a: seq<T>, b: seq<T>, c: seq<T>, d: seq<T>, e: seq<T>, f: seq<T>, i: nat)
    requires |a| == 11 && |b| == 11 && |c| == 11 && |d| == 11 && |e| == 11 && |f| == 11 && i < 66
    ensures var all := a + b + c + d + e + f;
            all[i] == if i < 11 then a[i] else if i < 22 then b[i - 11] else if i < 33 then c[i - 22]
                      else if i < 44 then d[i - 33] else if i < 55 then e[i - 44] else f[i - 55]
  {
  }

  lemma CodeAt(i: nat)
    requires i < |SID_CODES|
    ensures |SID_CODES[i].code| == 2 && IsUpper(SID_CODES[i].code[0]) && IsUpper(SID_CODES[i].code[1])
    ensures CodeIndex(CodeNumber(SID_CODES[i].code)) == i
  {
    SixChunks(CODES_0, CODES_1, CODES_2, CODES_3, CODES_4, CODES_5, i);
    if i < 11 { Chunk0(i); } else if i < 22 { Chunk1(i - 11); } else if i < 33 { Chunk2(i - 22); }
    else if i < 44 { Chunk3(i - 33); } else if i < 55 { Chunk4(i - 44); } else { Chunk5(i - 55); }
  }

  // ---------------------------------------------------------------------------
  // Printing and parsing.

  function LastRid(sid: Sid): uint32 {
    if |sid.subAuths| > 1 then sid.subAuths[|sid.subAuths| - 1] else 0
  }

  predicate InDomain(domain: Sid, sid: Sid) {
    && |sid.subAuths| >= 2
    && |domain.subAuths| == |sid.subAuths| - 1
    && sid.subAuths[..|sid.subAuths| - 1] == domain.subAuths
    && domain.revision == sid.revision && domain.authority == sid.authority
  }

  function AddRid(domain: Sid, rid: uint32): Option<Sid> {
    if |domain.subAuths| == 15 then None else Some(domain.(subAuths := domain.subAuths + [rid]))
  }

  predicate CodeFits(entry: SidCode, sid: Sid, domain: Sid) {
    match entry
    case WellKnown(_, known) => SidToString(sid) == SidToString(known)
    case Relative(_, rid) => LastRid(sid) != 0 && InDomain(domain, sid) && rid == LastRid(sid)
  }

  function EncodeSidFrom(sid: Sid, domain: Sid, i: nat): string
    decreases |SID_CODES| - i
  {
    if i >= |SID_CODES| then SidToString(sid)
    else if CodeFits(SID_CODES[i], sid, domain) then SID_CODES[i].code
    else EncodeSidFrom(sid, domain, i + 1)
  }

  function EncodeSid(sid: Sid, domain: Sid): string {
    EncodeSidFrom(sid, domain, 0)
  }

  /** The first code that starts the text, or the size of the table. */
  function FindCode(s: string, i: nat): nat
    decreases |SID_CODES| - i
  {
    if i >= |SID_CODES| then |SID_CODES| else if SID_CODES[i].code <= s then i else FindCode(s, i + 1)
  }

  /** The characters that the parser takes for part of a SID, capital hex digits included. */
  predicate IsSidChar(c: char) {
    c == '-' || c == 'x' || c == 'X' || IsDigit(c, Hexadecimal)
  }

  function SidSpan(s: string): (n: nat)
    ensures n <= |s|
  {
    if s == "" || !IsSidChar(s[0]) then 0 else 1 + SidSpan(s[1..])
  }

  /** Where a SID in string form ends; a D before a colon is the DACL marker, not a digit. */
  function SidEnd(s: string): nat
    requires |s| >= 2
  {
    var len := SidSpan(s[2..]) + 2;
    if len >= 5 && s[len - 1] == 'D' && len < |s| && s[len] == ':' then len - 1 else len
  }

  function SidOfCode(entry: SidCode, domain: Sid): Option<Sid> {
    match entry
    case WellKnown(_, sid) =>
      var parsed := ParseSid(SidToString(sid));
      if parsed.None? then None else Some(parsed.value.0)
    case Relative(_, rid) => AddRid(domain, rid)
  }

  function DecodeSid(s: string, domain: Sid): (r: Option<(Sid, string)>)
    ensures r.Some? ==> |r.value.1| <= |s|
  {
    if "S-" <= s then
      if SidSpan(s[2..]) + 2 < 5 then None
      else
        var parsed := ParseSid(s[..SidEnd(s)]);
        if parsed.None? || parsed.value.1 != "" then None else Some((parsed.value.0, s[SidEnd(s)..]))
    else
      var i := FindCode(s, 0);
      if i >= |SID_CODES| || |s| < 2 then None
      else
        var sid := SidOfCode(SID_CODES[i], domain);
        if sid.None? then None else Some((sid.value, s[2..]))
  }

  // ---------------------------------------------------------------------------
  // Round trip.

  predicate IsSidTextChar(c: char) {
    c == '-' || c == 'x' || IsPrintedDigit(c)
  }

  ghost predicate IsSidText(s: string) {
    forall c :: c in s ==> IsSidTextChar(c)
  }

  lemma {:induction false} SubAuthsTextChars(subs: seq<uint32>)
    ensures IsSidText(SubAuthsText(subs))
  {
    if subs != [] {
      PrintedDigits(subs[0], Decimal);
      SubAuthsTextChars(subs[1..]);
    }
  }

  lemma AuthorityTextChars(authority: Authority)
    ensures AuthorityText(authority) != "" && IsSidText(AuthorityText(authority))
  {
    PrintedDigits(authority, Decimal);
    PrintedDigits(authority, Hexadecimal);
  }

  lemma SidTextChars(sid: Sid)
    ensures |SidToString(sid)| >= 5 && "S-" <= SidToString(sid) && IsSidText(SidToString(sid)[2..])
  {
    var revision, authority, subs := ToBase(sid.revision, Decimal), AuthorityText(sid.authority),
        SubAuthsText(sid.subAuths);
    PrintedDigits(sid.revision, Decimal);
    AuthorityTextChars(sid.authority);
    SubAuthsTextChars(sid.subAuths);
    assert SidToString(sid)[2..] == revision + "-" + authority + subs;
    assert IsSidText(revision + "-");
  }

  /** What may follow a SID in a descriptor: nothing, or the marker of the next part. */
  predicate FollowsSid(rest: string) {
    rest == "" || (|rest| >= 2 && (rest[0] == 'G' || rest[0] == 'D' || rest[0] == 'S') && rest[1] == ':')
  }

  lemma {:induction false} SpanOfText(text: string, rest: string)
    requires IsSidText(text)
    ensures SidSpan(text + rest) == |text| + SidSpan(rest)
  {
    if text == "" {
      assert text + rest == rest;
    } else {
      assert text[0] in text;
      assert (text + rest)[1..] == text[1..] + rest;
      SpanOfText(text[1..], rest);
    }
  }

  lemma TextEndsWhereRestBegins(sid: Sid, rest: string)
    requires FollowsSid(rest)
    ensures SidEnd(SidToString(sid) + rest) == |SidToString(sid)|
    ensures SidSpan((SidToString(sid) + rest)[2..]) + 2 >= 5
  {
    var text := SidToString(sid);
    var s := text + rest;
    SidTextChars(sid);
    assert s[2..] == text[2..] + rest;
    SpanOfText(text[2..], rest);
    assert text[|text| - 1] == text[2..][|text| - 3];
    assert text[|text| - 1] in text[2..];
    if rest != "" {
      assert !IsSidChar(':');
      assert s[|text|] == rest[0] && s[|text| + 1] == rest[1];
      assert SidSpan(rest) == if rest[0] == 'D' then 1 else 0 by {
        assert rest[1..][0] == ':';
      }
    }
  }

  lemma StringFormRoundTrip(sid: Sid, domain: Sid, rest: string)
    requires FollowsSid(rest)
    ensures DecodeSid(SidToString(sid) + rest, domain) == Some((sid, rest))
  {
    var text := SidToString(sid);
    SidTextChars(sid);
    TextEndsWhereRestBegins(sid, rest);
    assert (text + rest)[..|text|] == text && (text + rest)[|text|..] == rest;
    assert "S-" <= text + rest;
    ParsePrinted(sid);
  }

  lemma {:induction false} FindCodeFinds(k: nat, i: nat, rest: string)
    requires i <= k < |SID_CODES|
    ensures FindCode(SID_CODES[k].code + rest, i) == k
    decreases k - i
  {
    var s := SID_CODES[k].code + rest;
    CodeAt(k);
    CodeAt(i);
    if SID_CODES[i].code <= s {
      assert SID_CODES[i].code == s[..2] == SID_CODES[k].code;
    } else {
      assert SID_CODES[k].code <= s;
      FindCodeFinds(k, i + 1, rest);
    }
  }

  lemma CodeRoundTrip(sid: Sid, domain: Sid, k: nat, rest: string)
    requires k < |SID_CODES| && CodeFits(SID_CODES[k], sid, domain)
    ensures DecodeSid(SID_CODES[k].code + rest, domain) == Some((sid, rest))
  {
    var entry := SID_CODES[k];
    var s := entry.code + rest;
    CodeAt(k);
    assert s[..2] == entry.code && s[2..] == rest;
    assert entry.code != "S-";
    assert !("S-" <= s);
    FindCodeFinds(k, 0, rest);
    CodeMeansSid(entry, sid, domain);
  }

  lemma CodeMeansSid(entry: SidCode, sid: Sid, domain: Sid)
    requires CodeFits(entry, sid, domain)
    ensures SidOfCode(entry, domain) == Some(sid)
  {
    match entry
    case WellKnown(_, known) =>
      PrintingIsInjective(sid, known);
      ParsePrinted(known);
    case Relative(_, rid) =>
      assert sid.subAuths == domain.subAuths + [rid];
  }

  /** Either form reads back as the same SID, and the parser stops exactly where the SID ends. */
  lemma {:induction false} SidRoundTripFrom(sid: Sid, domain: Sid, i: nat, rest: string)
    requires FollowsSid(rest)
    ensures DecodeSid(EncodeSidFrom(sid, domain, i) + rest, domain) == Some((sid, rest))
    decreases |SID_CODES| - i
  {
    if i >= |SID_CODES| {
      StringFormRoundTrip(sid, domain, rest);
    } else if CodeFits(SID_CODES[i], sid, domain) {
      CodeRoundTrip(sid, domain, i, rest);
    } else {
      SidRoundTripFrom(sid, domain, i + 1, rest);
    }
  }

  lemma SidRoundTrip(sid: Sid, domain: Sid, rest: string)
    requires FollowsSid(rest)
    ensures DecodeSid(EncodeSid(sid, domain) + rest, domain) == Some((sid, rest))
  {
    SidRoundTripFrom(sid, domain, 0, rest);
  }
}
