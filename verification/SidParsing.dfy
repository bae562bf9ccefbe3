/** Exactly which texts the SID parser accepts to their end, and as which SID. */
module SidParsing {
  import opened Primitives
  import opened Numbers
  import opened Strings
  import opened Aces
  import opened SidText
  import opened Numerals

  // ---------------------------------------------------------------------------
  // The numbers between the dashes: decimal with any number of leading zeros, or hexadecimal behind them.

  ghost function AfterX(t: string): string {
    if t == "" then "" else if t[0] == 'x' || t[0] == 'X' then t[1..] else AfterX(t[1..])
  }

  ghost predicate IsPlainNumber(t: string) {
    t != "" && AreDigits(t, Decimal)
  }

  /** Zeros, at least one, then an x, then hexadecimal digits, at least one. */
  ghost predicate IsHexNumber(t: string) {
    var digits := AfterX(t);
    && digits != "" && AreDigits(digits, Hexadecimal)
    && |t| >= |digits| + 2 && forall i :: 0 <= i < |t| - |digits| - 1 ==> t[i] == '0'
  }

  ghost predicate IsNumberText(t: string) {
    IsPlainNumber(t) || IsHexNumber(t)
  }

  /** The number that the text writes, at most the largest of 64 bits. */
  ghost function ValueOf(t: string): nat {
    AtMost64(if IsPlainNumber(t) then NumberOf(t, Decimal) else NumberOf(AfterX(t), Hexadecimal))
  }

  ghost function AtMost64(n: nat): nat {
    if n >= 0x1_0000_0000_0000_0000 then 0xFFFF_FFFF_FFFF_FFFF else n
  }

  /** The length without leading zeros. */
  ghost function Significant(t: string): nat {
    if |t| > 1 && t[0] == '0' && IsDigit(t[1], Decimal) then Significant(t[1..]) else |t|
  }

  lemma DecimalDigit(c: char)
    ensures IsDigit(c, Decimal) <==> '0' <= c <= '9'
    ensures IsDigit(c, Decimal) ==> IsDigit(c, Hexadecimal)
    ensures IsDigit(c, Octal) ==> IsDigit(c, Decimal)
  {
  }

  lemma {:induction false} LeadingZeroText(t: string)
    requires |t| > 1 && t[0] == '0' && IsDigit(t[1], Decimal)
    ensures IsNumberText(t[1..]) <==> IsNumberText(t)
    ensures ValueOf(t[1..]) == ValueOf(t)
  {
    var u := t[1..];
    DecimalDigit(t[1]);
    assert t == "0" + u;
    assert AfterX(t) == AfterX(u);
    assert IsDigit('0', Decimal);
    assert IsPlainNumber(t) <==> IsPlainNumber(u);
    LeadingZero(u, Decimal);
    AfterXShorter(u);
    if IsHexNumber(u) {
      var n := |u| - |AfterX(u)| - 1;
      assert forall i :: 0 <= i < n + 1 ==> t[i] == if i == 0 then '0' else u[i - 1];
    }
    if IsHexNumber(t) {
      var n := |t| - |AfterX(t)| - 1;
      assert forall i :: 0 <= i < n - 1 ==> u[i] == t[i + 1];
    }
  }

  lemma {:induction false} AfterXShorter(t: string)
    ensures |AfterX(t)| <= |t| && (AfterX(t) != "" ==> |AfterX(t)| < |t|)
    ensures AfterX(t) != "" ==> var k := |t| - |AfterX(t)| - 1; t[k + 1..] == AfterX(t) && (t[k] == 'x' || t[k] == 'X')
  {
    if t != "" && t[0] != 'x' && t[0] != 'X' {
      AfterXShorter(t[1..]);
    }
  }

  // ---------------------------------------------------------------------------
  // Such a number is read to its end, and nothing else is.

  lemma AtMostIsSaturate(n: nat)
    ensures Saturate(n) == AtMost64(n)
  {
  }

  lemma PlainIsScanned(t: string, rest: string)
    requires IsPlainNumber(t) && EndsNumber(rest) && (t[0] == '0' ==> |t| == 1)
    ensures ScanAnyBase(t + rest) == (ValueOf(t), rest)
  {
    var s := t + rest;
    assert t[0] in t;
    DecimalDigit(t[0]);
    AtMostIsSaturate(NumberOf(t, Decimal));
    if t[0] == '0' {
      assert s[1..] == rest;
      assert t[..0] == "" && NumberOf("", Decimal) == 0;
      assert NumberOf(t, Decimal) == 0;
      assert |s| > 1 ==> s[1] == rest[0];
    } else {
      ScanReads(t, rest, Decimal);
    }
  }

  lemma HexIsScanned(t: string, rest: string)
    requires IsHexNumber(t) && !IsPlainNumber(t) && EndsNumber(rest) && !IsDigit(t[1], Decimal)
    ensures ScanAnyBase(t + rest) == (ValueOf(t), rest)
  {
    var s, digits := t + rest, AfterX(t);
    AfterXShorter(t);
    assert IsDigit('0', Decimal);
    assert |t| == |digits| + 2;
    assert t[0] == '0' && s[2..] == digits + rest;
    assert digits[0] in digits && s[2] == digits[0];
    ScanReads(digits, rest, Hexadecimal);
    AtMostIsSaturate(NumberOf(digits, Hexadecimal));
  }

  lemma {:induction false} NumberIsScanned(t: string, rest: string)
    requires IsNumberText(t) && EndsNumber(rest)
    ensures IsDecimal(t + rest) && ScanAnyBase(SkipZeros(t + rest)) == (ValueOf(t), rest)
    ensures |SkipZeros(t + rest)| == Significant(t) + |rest|
    decreases |t|
  {
    var s := t + rest;
    NumberStarts(t);
    if |t| > 1 && t[0] == '0' && IsDigit(t[1], Decimal) {
      DecimalDigit(t[1]);
      LeadingZeroText(t);
      assert s[1..] == t[1..] + rest;
      NumberIsScanned(t[1..], rest);
    } else {
      assert |t| > 1 ==> s[1] == t[1];
      assert |t| == 1 && rest != "" ==> s[1] == '-';
      if |t| > 1 { DecimalDigit(t[1]); }
      assert SkipZeros(s) == s;
      if IsPlainNumber(t) {
        assert |t| > 1 ==> t[1] in t;
        PlainIsScanned(t, rest);
      } else {
        HexIsScanned(t, rest);
      }
    }
  }

  lemma NumberStarts(t: string)
    requires IsNumberText(t)
    ensures t != "" && '0' <= t[0] <= '9' && '-' !in t
  {
    if IsPlainNumber(t) {
      assert t[0] in t;
      DecimalDigit(t[0]);
      assert !IsDigit('-', Decimal);
    } else {
      var n := |t| - |AfterX(t)| - 1;
      AfterXShorter(t);
      assert !IsDigit('-', Hexadecimal);
      forall i | 0 <= i < |t| ensures t[i] != '-' {
        if i > n {
          assert t[i] == t[n + 1..][i - n - 1];
          assert t[i] in AfterX(t);
        }
      }
    }
  }

  lemma {:induction false} ScanSplits(s: string, base: Base, acc: nat) returns (taken: string)
    ensures s == taken + ScanDigits(s, base, acc).1 && AreDigits(taken, base)
    decreases |s|
  {
    if s == "" || !IsDigit(s[0], base) {
      taken := "";
    } else {
      taken := ScanSplits(s[1..], base, Shift(acc, base, DigitValue(s[0])));
      taken := [s[0]] + taken;
    }
  }

  /** A number that is read up to the end or up to a dash was written as such a number. */
  lemma {:induction false} ScannedIsNumber(s: string) returns (t: string)
    requires IsDecimal(s) && EndsNumber(ScanAnyBase(SkipZeros(s)).1)
    ensures s == t + ScanAnyBase(SkipZeros(s)).1 && IsNumberText(t)
    decreases |s|
  {
    DecimalDigit(s[0]);
    if |s| > 1 && s[0] == '0' && '0' <= s[1] <= '9' {
      var u := ScannedIsNumber(s[1..]);
      NumberStarts(u);
      DecimalDigit(u[0]);
      t := "0" + u;
      assert t[1..] == u;
      LeadingZeroText(t);
    } else if HasPrefix(s) {
      var digits := ScanSplits(s[2..], Hexadecimal, 0);
      t := s[..2] + digits;
      assert AfterX(t) == digits by {
        assert t[1..][1..] == digits;
      }
      assert s == t + ScanAnyBase(s).1;
    } else if s[0] == '0' {
      var digits := ScanSplits(s[1..], Octal, 0);
      t := "0" + digits;
      forall c | c in t ensures IsDigit(c, Decimal) {
        DecimalDigit(c);
      }
    } else {
      t := ScanSplits(s, Decimal, 0);
    }
  }

  lemma LongerHead(a: string, b: string, c: string, d: string)
    requires a + b == c + d && '-' !in c && |a| < |c|
    ensures !EndsNumber(b)
  {
    assert (a + b)[|a|] == b[0] && (c + d)[|a|] == c[|a|];
  }

  /** What comes before the first dash is determined. */
  lemma SameHead(a: string, b: string, c: string, d: string)
    requires a + b == c + d && '-' !in a && '-' !in c && EndsNumber(b) && EndsNumber(d)
    ensures a == c && b == d
  {
    if |a| < |c| {
      LongerHead(a, b, c, d);
    } else if |c| < |a| {
      LongerHead(c, d, a, b);
    } else {
      assert a == (a + b)[..|a|] && c == (c + d)[..|a|];
      assert b == (a + b)[|a|..] && d == (c + d)[|a|..];
    }
  }

  lemma OtherwiseStops(p: string, rest: string)
    requires '-' !in p && !IsNumberText(p) && EndsNumber(rest) && IsDecimal(p + rest)
    ensures !EndsNumber(ScanAnyBase(SkipZeros(p + rest)).1)
  {
    if EndsNumber(ScanAnyBase(SkipZeros(p + rest)).1) {
      var t := ScannedIsNumber(p + rest);
      NumberStarts(t);
      SameHead(p, rest, t, ScanAnyBase(SkipZeros(p + rest)).1);
    }
  }

  // ---------------------------------------------------------------------------
  // The sub-authorities.

  ghost function Dashed(pieces: seq<string>): string {
    if pieces == [] then "" else "-" + pieces[0] + Dashed(pieces[1..])
  }

  ghost predicate AllNumbers(pieces: seq<string>) {
    forall i :: 0 <= i < |pieces| ==> IsNumberText(pieces[i])
  }

  /** Sub-authorities wrap around at 32 bits. */
  ghost function Rids(pieces: seq<string>): seq<uint32> {
    seq(|pieces|, i requires 0 <= i < |pieces| => ValueOf(pieces[i]) % 0x1_0000_0000)
  }

  ghost predicate AreClean(pieces: seq<string>) {
    forall i :: 0 <= i < |pieces| ==> '-' !in pieces[i]
  }

  lemma DashedEnds(pieces: seq<string>)
    ensures EndsNumber(Dashed(pieces))
  {
  }

  lemma FirstNumber(pieces: seq<string>)
    requires pieces != []
    ensures AllNumbers(pieces) <==> IsNumberText(pieces[0]) && AllNumbers(pieces[1..])
  {
    assert pieces == [pieces[0]] + pieces[1..];
  }

  /** The parser reads the pieces to the end exactly when all are numbers and there is room for them. */
  lemma {:induction false} SubAuthsExactly(pieces: seq<string>, read: SubAuths)
    requires AreClean(pieces)
    ensures var r := ParseSubAuths(Dashed(pieces), read);
            if AllNumbers(pieces) && |read| + |pieces| <= 15 then r == Some((read + Rids(pieces), ""))
            else r.None? || r.value.1 != ""
    decreases |pieces|
  {
    if pieces == [] {
      assert read + Rids(pieces) == read;
    } else {
      var p, rest, s := pieces[0], Dashed(pieces[1..]), Dashed(pieces);
      assert s[1..] == p + rest;
      DashedEnds(pieces[1..]);
      if IsNumberText(p) {
        NumberStep(s, p, rest, read);
        FirstNumber(pieces);
        if |read| < 15 {
          var v := ValueOf(p) % 0x1_0000_0000;
          SubAuthsExactly(pieces[1..], read + [v]);
          assert read + [v] + Rids(pieces[1..]) == read + Rids(pieces);
        }
      } else if IsDecimal(p + rest) {
        OtherwiseStops(p, rest);
        StoppedSubAuths(s, read);
      }
    }
  }

  lemma NumberStep(s: string, p: string, rest: string, read: SubAuths)
    requires s != "" && s[0] == '-' && s[1..] == p + rest && IsNumberText(p) && EndsNumber(rest)
    ensures ParseSubAuths(s, read) ==
            if |read| == 15 then None else ParseSubAuths(rest, read + [ValueOf(p) % 0x1_0000_0000])
  {
    NumberIsScanned(p, rest);
  }

  lemma StoppedSubAuths(s: string, read: SubAuths)
    requires s != "" && s[0] == '-' && IsDecimal(s[1..]) && !EndsNumber(ScanAnyBase(SkipZeros(s[1..])).1)
    ensures var r := ParseSubAuths(s, read); r.None? || r.value.1 != ""
  {
  }

  // ---------------------------------------------------------------------------
  // The whole SID.

  /** After the authority, up to 15 sub-authorities. Without leading zeros the authority has at most 15 characters. */
  ghost predicate WritesRest(pieces: seq<string>, sid: Sid) {
    && 1 <= |pieces| <= 16 && AllNumbers(pieces)
    && sid.authority == ValueOf(pieces[0]) && Significant(pieces[0]) <= 15
    && sid.subAuths == Rids(pieces[1..])
  }

  lemma RestExactly(pieces: seq<string>, revision: byte, sid: Sid)
    requires pieces != [] && AreClean(pieces) && IsDecimal(pieces[0] + Dashed(pieces[1..]))
    ensures ParseAfterRevision(SkipZeros(pieces[0] + Dashed(pieces[1..])), revision) == Some((sid, ""))
            <==> sid.revision == revision && WritesRest(pieces, sid)
  {
    var p, rest := pieces[0], Dashed(pieces[1..]);
    var s := SkipZeros(p + rest);
    DashedEnds(pieces[1..]);
    FirstNumber(pieces);
    if IsNumberText(p) {
      NumberIsScanned(p, rest);
      SubAuthsExactly(pieces[1..], []);
      assert [] + Rids(pieces[1..]) == Rids(pieces[1..]);
    } else {
      OtherwiseStops(p, rest);
      StoppedRest(s, revision, sid);
    }
  }

  lemma StoppedRest(s: string, revision: byte, sid: Sid)
    requires !EndsNumber(ScanAnyBase(s).1)
    ensures ParseAfterRevision(s, revision) != Some((sid, ""))
  {
  }

  /**
   An S in either case, a dash, the digits of the revision, any one character that is not a digit, and
   pieces with dashes between them. The revision wraps around at 8 bits.
   */
  ghost predicate Writes(s: string, rev: string, mark: char, pieces: seq<string>, sid: Sid) {
    && (s == "S-" + (rev + [mark] + Join(pieces, "-")) || s == "s-" + (rev + [mark] + Join(pieces, "-")))
    && rev != "" && AreDigits(rev, Decimal) && !IsDigit(mark, Decimal)
    && sid.revision == AtMost64(NumberOf(rev, Decimal)) % 0x100
    && WritesRest(pieces, sid)
  }

  lemma {:induction false} JoinIsDashed(pieces: seq<string>)
    requires pieces != []
    ensures Join(pieces, "-") == pieces[0] + Dashed(pieces[1..])
  {
    if |pieces| > 1 {
      JoinIsDashed(pieces[1..]);
    } else {
      assert Dashed(pieces[1..]) == "";
    }
  }

  lemma AfterRevision(s: string, rev: string, mark: char, tail: string)
    requires |s| >= 3 && (s[0] == 'S' || s[0] == 's') && s[1] == '-' && s[2..] == rev + [mark] + tail
    requires rev != "" && AreDigits(rev, Decimal) && !IsDigit(mark, Decimal)
    ensures ParseSid(s) == if IsDecimal(tail)
                           then ParseAfterRevision(SkipZeros(tail), AtMost64(NumberOf(rev, Decimal)) % 0x100) else None
  {
    assert rev + [mark] + tail == rev + ([mark] + tail);
    assert s[2] == s[2..][0] == rev[0] && rev[0] in rev;
    DecimalDigit(rev[0]);
    ScanReads(rev, [mark] + tail, Decimal);
    AtMostIsSaturate(NumberOf(rev, Decimal));
    assert ([mark] + tail)[1..] == tail;
  }

  lemma WrittenIsParsed(s: string, rev: string, mark: char, pieces: seq<string>, sid: Sid)
    requires Writes(s, rev, mark, pieces, sid)
    ensures ParseSid(s) == Some((sid, ""))
  {
    var tail := Join(pieces, "-");
    assert s[2..] == rev + [mark] + tail;
    JoinIsDashed(pieces);
    forall i | 0 <= i < |pieces| ensures '-' !in pieces[i] {
      NumberStarts(pieces[i]);
    }
    DashedEnds(pieces[1..]);
    NumberIsScanned(pieces[0], Dashed(pieces[1..]));
    AfterRevision(s, rev, mark, tail);
    RestExactly(pieces, sid.revision, sid);
  }

  /** The revision of an accepted text, the character after it and the rest. */
  lemma ParsedStarts(s: string) returns (rev: string, mark: char, tail: string)
    requires ParseSid(s).Some?
    ensures |s| >= 3 && (s[0] == 'S' || s[0] == 's') && s[1] == '-' && s[2..] == rev + [mark] + tail
    ensures rev != "" && AreDigits(rev, Decimal) && !IsDigit(mark, Decimal) && IsDecimal(tail)
  {
    rev := ScanSplits(s[2..], Decimal, 0);
    var rest := ScanDigits(s[2..], Decimal, 0).1;
    mark, tail := rest[0], rest[1..];
    MarkEndsDigits(s[2..], Decimal, 0);
    DecimalDigit(s[2]);
    assert rest == [mark] + tail;
    assert rev + [mark] + tail == rev + rest;
  }

  lemma TailIsWritten(tail: string, revision: byte, sid: Sid)
    requires IsDecimal(tail) && ParseAfterRevision(SkipZeros(tail), revision) == Some((sid, ""))
    ensures tail == Join(Split(tail, '-'), "-") && sid.revision == revision && WritesRest(Split(tail, '-'), sid)
  {
    var pieces := Split(tail, '-');
    JoinedSplit(tail, '-');
    assert ['-'] == "-";
    JoinIsDashed(pieces);
    RestExactly(pieces, revision, sid);
  }

  lemma ParsedIsWritten(s: string, sid: Sid) returns (rev: string, mark: char, pieces: seq<string>)
    requires ParseSid(s) == Some((sid, ""))
    ensures Writes(s, rev, mark, pieces, sid)
  {
    var tail;
    rev, mark, tail := ParsedStarts(s);
    pieces := Split(tail, '-');
    AfterRevision(s, rev, mark, tail);
    TailIsWritten(tail, AtMost64(NumberOf(rev, Decimal)) % 0x100, sid);
    SplitStart(s, rev + [mark] + tail);
  }

  lemma SplitStart(s: string, after: string)
    requires |s| >= 2 && (s[0] == 'S' || s[0] == 's') && s[1] == '-' && s[2..] == after
    ensures s == "S-" + after || s == "s-" + after
  {
    assert s == s[..2] + s[2..];
  }

  lemma {:induction false} MarkEndsDigits(s: string, base: Base, acc: nat)
    ensures EndsDigits(ScanDigits(s, base, acc).1, base)
    decreases |s|
  {
    if s != "" && IsDigit(s[0], base) {
      MarkEndsDigits(s[1..], base, Shift(acc, base, DigitValue(s[0])));
    }
  }

  /** The texts that are accepted to their end, each with the SID it is read as. */
  lemma ParsesExactly(s: string, sid: Sid)
    ensures ParseSid(s) == Some((sid, "")) <==> exists rev, mark, pieces :: Writes(s, rev, mark, pieces, sid)
  {
    if ParseSid(s) == Some((sid, "")) {
      var rev, mark, pieces := ParsedIsWritten(s, sid);
    }
    forall rev, mark, pieces | Writes(s, rev, mark, pieces, sid) ensures ParseSid(s) == Some((sid, "")) {
      WrittenIsParsed(s, rev, mark, pieces, sid);
    }
  }

  /** For example, a letter after the revision and a sub-authority of 33 bits. */
  lemma WrappedIsAccepted(s: string, sub: string)
    requires sub == "4294967296" && s == "S-" + ("1" + ['x'] + Join(["5", sub], "-"))
    ensures ParseSid(s) == Some((Sid(1, 5, [0]), ""))
  {
    var pieces := ["5", sub];
    TenDigits(sub);
    OneDigit("5", 5);
    OneDigit("1", 1);
    assert pieces[1..] == [sub];
    assert Rids(pieces[1..]) == [0];
    WrittenIsParsed(s, "1", 'x', pieces, Sid(1, 5, [0]));
  }

  lemma OneDigit(t: string, d: nat)
    requires d < 10 && t == [('0' as nat + d) as char]
    ensures IsPlainNumber(t) && NumberOf(t, Decimal) == d == ValueOf(t)
  {
    assert t[..0] == "" && NumberOf("", Decimal) == 0;
  }

  lemma TenDigits(t: string)
    requires |t| == 10 && t[0] == '4' && t[1] == '2' && t[2] == '9' && t[3] == '4' && t[4] == '9'
    requires t[5] == '6' && t[6] == '7' && t[7] == '2' && t[8] == '9' && t[9] == '6'
    ensures IsPlainNumber(t) && ValueOf(t) == 0x1_0000_0000
  {
    Prefix(t, 1, 0, 4);
    Prefix(t, 2, 4, 2);
    Prefix(t, 3, 42, 9);
    Prefix(t, 4, 429, 4);
    Prefix(t, 5, 4294, 9);
    Prefix(t, 6, 42949, 6);
    Prefix(t, 7, 429496, 7);
    Prefix(t, 8, 4294967, 2);
    Prefix(t, 9, 42949672, 9);
    Prefix(t, 10, 429496729, 6);
    assert t[..10] == t;
  }

  lemma Prefix(t: string, k: nat, before: nat, d: nat)
    requires 0 < k <= |t| && NumberOf(t[..k - 1], Decimal) == before && DigitValue(t[k - 1]) == d
    ensures NumberOf(t[..k], Decimal) == before * 10 + d
  {
    assert t[..k][..k - 1] == t[..k - 1];
  }
}
