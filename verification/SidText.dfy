/** The string form of a SID (section 2.4.2.1 of MS-DTYP) as samba prints and parses it. */
module SidText {
  import opened Primitives
  import opened Numbers
  import opened Aces

  const UINT64_MAX: nat := 0xFFFF_FFFF_FFFF_FFFF

  function Saturate(n: nat): nat {
    if n > UINT64_MAX then UINT64_MAX else n
  }

  predicate IsDecimal(s: string) {
    s != "" && '0' <= s[0] <= '9'
  }

  /** strtoull in base 0 where the text starts with a digit: hexadecimal after 0x, octal after 0, else decimal. */
  function ScanAnyBase(s: string): (r: (nat, string))
    ensures |r.1| <= |s|
    ensures IsDecimal(s) ==> |r.1| < |s|
  {
    var (value, rest) :=
      if |s| > 2 && s[0] == '0' && (s[1] == 'x' || s[1] == 'X') && IsDigit(s[2], Hexadecimal)
      then ScanDigits(s[2..], Hexadecimal, 0)
      else if s != "" && s[0] == '0' then ScanDigits(s[1..], Octal, 0)
      else ScanDigits(s, Decimal, 0);
    (Saturate(value), rest)
  }

  function SkipZeros(s: string): (r: string)
    ensures |r| <= |s|
    ensures IsDecimal(s) ==> IsDecimal(r)
  {
    if |s| > 1 && s[0] == '0' && '0' <= s[1] <= '9' then SkipZeros(s[1..]) else s
  }

  // ---------------------------------------------------------------------------
  // Printing.

  function AuthorityText(authority: Authority): string {
    if authority >= 0xFFFF_FFFF then "0x" + ToBase(authority, Hexadecimal) else ToBase(authority, Decimal)
  }

  function SubAuthsText(subs: seq<uint32>): string {
    if subs == [] then "" else "-" + ToBase(subs[0], Decimal) + SubAuthsText(subs[1..])
  }

  function SidToString(sid: Sid): string {
    "S-" + ToBase(sid.revision, Decimal) + "-" + AuthorityText(sid.authority) + SubAuthsText(sid.subAuths)
  }

  // ---------------------------------------------------------------------------
  // Parsing.

  /** The sub-authorities from the first dash on, added to those read so far; None on a format error or too many. */
  function ParseSubAuths(s: string, read: SubAuths): (r: Option<(SubAuths, string)>)
    ensures r.Some? ==> |r.value.1| <= |s|
    decreases |s|
  {
    if s == "" || s[0] != '-' then Some((read, s))
    else if !IsDecimal(s[1..]) then None
    else
      var (value, rest) := ScanAnyBase(SkipZeros(s[1..]));
      if |read| == 15 then None else ParseSubAuths(rest, read + [value % 0x1_0000_0000])
  }

  /** The authority and the sub-authorities, from the first digit of the authority on. */
  function ParseAfterRevision(s: string, revision: byte): Option<(Sid, string)> {
    var (authority, rest) := ScanAnyBase(s);
    if authority >= 0x1_0000_0000_0000 || |s| - |rest| > 15 then None
    else
      var subs := ParseSubAuths(rest, []);
      if subs.None? then None else Some((Sid(revision, authority, subs.value.0), subs.value.1))
  }

  /** The SID at the start of the text and what follows it. Running past the end counts as a format error. */
  function ParseSid(s: string): Option<(Sid, string)> {
    if |s| < 3 || (s[0] != 'S' && s[0] != 's') || s[1] != '-' || !IsDecimal(s[2..]) then None
    else
      var (revision, rest) := ScanDigits(s[2..], Decimal, 0);
      if rest == "" || !IsDecimal(rest[1..]) then None
      else ParseAfterRevision(SkipZeros(rest[1..]), Saturate(revision) % 0x100)
  }

  // ---------------------------------------------------------------------------
  // Printed numbers scan back.

  /** Text that cannot continue a number. */
  predicate EndsNumber(rest: string) {
    rest == "" || rest[0] == '-'
  }

  lemma ScanDecimal(n: nat, rest: string)
    requires n <= UINT64_MAX && EndsNumber(rest)
    ensures var s := ToBase(n, Decimal) + rest;
            IsDecimal(s) && ScanDigits(s, Decimal, 0) == (n, rest) && SkipZeros(s) == s && ScanAnyBase(s) == (n, rest)
  {
    var digits := ToBase(n, Decimal);
    var s := digits + rest;
    PrintedDigits(n, Decimal);
    ScanPrinted(n, Decimal, rest);
    assert s[0] == digits[0] && digits[0] in digits;
    if n == 0 {
      assert digits == "0";
      assert s[1..] == rest;
      assert |s| > 1 ==> s[1] == rest[0];
    } else {
      assert s[0] != '0';
    }
  }

  lemma ScanHexadecimal(n: nat, rest: string)
    requires n <= UINT64_MAX && EndsNumber(rest)
    ensures var s := "0x" + ToBase(n, Hexadecimal) + rest;
            IsDecimal(s) && SkipZeros(s) == s && ScanAnyBase(s) == (n, rest)
  {
    var digits := ToBase(n, Hexadecimal);
    var s := "0x" + digits + rest;
    PrintedDigits(n, Hexadecimal);
    ScanPrinted(n, Hexadecimal, rest);
    assert s[2..] == digits + rest;
    assert s[2] == digits[0] && digits[0] in digits;
    assert ScanDigits(rest, Hexadecimal, n) == (n, rest);
  }

  lemma ScanAuthority(authority: Authority, rest: string)
    requires EndsNumber(rest)
    ensures var s := AuthorityText(authority) + rest;
            IsDecimal(s) && SkipZeros(s) == s && ScanAnyBase(s) == (authority, rest)
  {
    if authority >= 0xFFFF_FFFF {
      ScanHexadecimal(authority, rest);
    } else {
      ScanDecimal(authority, rest);
    }
  }

  lemma AuthorityLength(authority: Authority)
    ensures |AuthorityText(authority)| <= 15
  {
    if authority >= 0xFFFF_FFFF {
      PowerSixteen();
      PrintedLength(authority, Hexadecimal, 12);
    } else {
      PowerTen();
      PrintedLength(authority, Decimal, 10);
    }
  }

  lemma PowerSixteen()
    ensures Power(Hexadecimal, 12) == 0x1_0000_0000_0000
  {
    assert Power(Hexadecimal, 4) == 0x1_0000;
    assert Power(Hexadecimal, 8) == 0x1_0000_0000;
  }

  lemma PowerTen()
    ensures Power(Decimal, 10) == 10_000_000_000
  {
    assert Power(Decimal, 5) == 100_000;
  }

  /** One step of the parser, given what its scanner returned. */
  lemma ParseSubAuthsStep(s: string, read: SubAuths, value: uint32, rest: string)
    requires |read| < 15 && s != "" && s[0] == '-' && IsDecimal(s[1..])
    requires ScanAnyBase(SkipZeros(s[1..])) == (value, rest)
    ensures ParseSubAuths(s, read) == ParseSubAuths(rest, read + [value])
  {
  }

  lemma {:induction false} ParsePrintedSubAuths(subs: seq<uint32>, read: SubAuths)
    requires |read| + |subs| <= 15
    ensures ParseSubAuths(SubAuthsText(subs), read) == Some((read + subs, ""))
    decreases |subs|
  {
    if subs != [] {
      var rest, s := SubAuthsText(subs[1..]), SubAuthsText(subs);
      assert s[1..] == ToBase(subs[0], Decimal) + rest;
      ScanDecimal(subs[0], rest);
      ParseSubAuthsStep(s, read, subs[0], rest);
      ParsePrintedSubAuths(subs[1..], read + [subs[0]]);
      assert read + [subs[0]] + subs[1..] == read + subs;
    } else {
      assert read + subs == read;
    }
  }

  lemma ParseRevisionStep(s: string, revision: byte, rest: string)
    requires |s| >= 3 && s[0] == 'S' && s[1] == '-' && IsDecimal(s[2..])
    requires ScanDigits(s[2..], Decimal, 0) == (revision, rest)
    requires rest != "" && IsDecimal(rest[1..]) && SkipZeros(rest[1..]) == rest[1..]
    ensures ParseSid(s) == ParseAfterRevision(rest[1..], revision)
  {
  }

  lemma ParseAuthorityStep(s: string, sid: Sid, afterAuthority: string, rest: string)
    requires ScanAnyBase(s) == (sid.authority, afterAuthority) && |s| - |afterAuthority| <= 15
    requires ParseSubAuths(afterAuthority, []) == Some((sid.subAuths, rest))
    ensures ParseAfterRevision(s, sid.revision) == Some((sid, rest))
  {
  }

  /** Every SID survives printing and parsing, and the parser stops at its end. */
  lemma ParsePrinted(sid: Sid)
    ensures ParseSid(SidToString(sid)) == Some((sid, ""))
  {
    var s, subs := SidToString(sid), SubAuthsText(sid.subAuths);
    var authority := AuthorityText(sid.authority) + subs;
    assert s[2..] == ToBase(sid.revision, Decimal) + ("-" + authority);
    ScanDecimal(sid.revision, "-" + authority);
    assert ("-" + authority)[1..] == authority;
    assert EndsNumber(subs);
    ScanAuthority(sid.authority, subs);
    AuthorityLength(sid.authority);
    ParsePrintedSubAuths(sid.subAuths, []);
    assert [] + sid.subAuths == sid.subAuths;
    ParseAuthorityStep(authority, sid, subs, "");
    ParseRevisionStep(s, sid.revision, "-" + authority);
  }

  lemma PrintingIsInjective(a: Sid, b: Sid)
    requires SidToString(a) == SidToString(b)
    ensures a == b
  {
    ParsePrinted(a);
    ParsePrinted(b);
  }
}
