/** Numbers in text that is typed or received: what each of the readers takes for a number, and what number it takes it
    for. */
module Numerals {
  import opened Primitives
  import opened Numbers
  import opened Strings
  import opened SidText
  import opened SddlAccess
  import opened GplinkText
  import opened Octets

  // ---------------------------------------------------------------------------
  // Positional notation.

  /** The number that digits write, the most significant first. */
  ghost function NumberOf(digits: string, base: Base): nat {
    if digits == "" then 0
    else NumberOf(digits[..|digits| - 1], base) * Radix(base) + DigitValue(digits[|digits| - 1])
  }

  ghost predicate AreDigits(s: string, base: Base) {
    forall c :: c in s ==> IsDigit(c, base)
  }

  ghost predicate EndsDigits(rest: string, base: Base) {
    rest == "" || !IsDigit(rest[0], base)
  }

  /** The digits are 0 to 9 and the letters from a on, in either case. */
  lemma DigitMeaning(k: nat)
    requires k < 16
    ensures k < 10 ==> DigitValue(('0' as nat + k) as char) == k
    ensures k >= 10 ==> DigitValue(('a' as nat + k - 10) as char) == k == DigitValue(('A' as nat + k - 10) as char)
  {
  }

  lemma ShiftMeaning(acc: nat, base: Base, d: nat)
    ensures Shift(acc, base, d) == acc * Radix(base) + d
  {
  }

  lemma {:induction false} ScanPasses(digits: string, rest: string, base: Base)
    requires AreDigits(digits, base)
    ensures ScanDigits(digits + rest, base, 0) == ScanDigits(rest, base, NumberOf(digits, base))
    decreases |digits|
  {
    if digits == "" {
      assert digits + rest == rest;
    } else {
      var front, last := digits[..|digits| - 1], digits[|digits| - 1];
      assert digits + rest == front + ([last] + rest);
      assert last in digits;
      ScanPasses(front, [last] + rest, base);
      ScanOne(last, rest, base, NumberOf(front, base));
      ShiftMeaning(NumberOf(front, base), base, DigitValue(last));
    }
  }

  lemma ScanReads(digits: string, rest: string, base: Base)
    requires AreDigits(digits, base) && EndsDigits(rest, base)
    ensures ScanDigits(digits + rest, base, 0) == (NumberOf(digits, base), rest)
  {
    ScanPasses(digits, rest, base);
  }

  lemma {:induction false} LeadingZero(digits: string, base: Base)
    ensures NumberOf("0" + digits, base) == NumberOf(digits, base)
    decreases |digits|
  {
    if digits == "" {
      assert NumberOf("", base) == 0;
      assert ("0" + digits)[..0] == "";
    } else {
      var front := digits[..|digits| - 1];
      assert ("0" + digits)[..|digits|] == "0" + front;
      LeadingZero(front, base);
    }
  }

  // ---------------------------------------------------------------------------
  // The options of a gplink: a decimal number with a sign, spaces around it, in 32 bits.

  ghost predicate AreSpaces(s: string) {
    forall c :: c in s ==> IsSpace(c)
  }

  ghost predicate IsSign(sign: string) {
    sign == "" || sign == "+" || sign == "-"
  }

  ghost function Signed(sign: string, n: int): int {
    if sign == "-" then -n else n
  }

  /** A decimal number with an optional sign. */
  ghost predicate IsNumeral(t: string, sign: string, digits: string) {
    t == sign + digits && IsSign(sign) && digits != "" && AreDigits(digits, Decimal)
  }

  /** The blank, and the five control characters from tab to carriage return. */
  lemma SpacesAre(c: char)
    ensures IsSpace(c) <==> c == ' ' || c == '\t' || c == '\n' || c as int == 11 || c as int == 12 || c == '\r'
  {
  }

  /** Trimming takes spaces, and all of them, off both ends. */
  lemma {:induction false} TrimExactly(s: string) returns (before: string, after: string)
    ensures s == before + Trim(s) + after && AreSpaces(before) && AreSpaces(after)
    ensures Trim(s) != "" ==> !IsSpace(Trim(s)[0]) && !IsSpace(Trim(s)[|Trim(s)| - 1])
    decreases |s|
  {
    before, after := "", "";
    if s != "" && IsSpace(s[0]) {
      before, after := TrimExactly(s[1..]);
      before := [s[0]] + before;
    } else if s != "" && IsSpace(s[|s| - 1]) {
      before, after := TrimExactly(s[..|s| - 1]);
      after := after + [s[|s| - 1]];
    }
  }

  lemma NumeralStarts(t: string, sign: string, digits: string, n: int)
    requires IsNumeral(t, sign, digits)
    ensures t != "" && digits != "" && AreDigits(digits, Decimal)
    ensures digits == if t[0] == '-' || t[0] == '+' then t[1..] else t
    ensures Signed(sign, n) == if t[0] == '-' then -n else n
  {
    assert digits[0] in digits;
    assert t[0] == if sign == "" then digits[0] else sign[0];
    assert t[|sign|..] == digits;
  }

  lemma ToIntOf(s: string, digits: string, n: int)
    requires Trim(s) != "" && digits != "" && ScanDigits(digits, Decimal, 0) == (n, "")
    requires digits == if Trim(s)[0] == '-' || Trim(s)[0] == '+' then Trim(s)[1..] else Trim(s)
    ensures var v := if Trim(s)[0] == '-' then -n else n;
            ToInt(s) == if -0x8000_0000 <= v < 0x8000_0000 then v else 0
  {
  }

  lemma NumeralIsRead(s: string, sign: string, digits: string)
    requires IsNumeral(Trim(s), sign, digits)
    ensures var n := Signed(sign, NumberOf(digits, Decimal));
            ToInt(s) == if -0x8000_0000 <= n < 0x8000_0000 then n else 0
  {
    NumeralStarts(Trim(s), sign, digits, NumberOf(digits, Decimal));
    WholeScan(digits);
    ToIntOf(s, digits, NumberOf(digits, Decimal));
  }

  lemma WholeScan(digits: string)
    requires AreDigits(digits, Decimal)
    ensures ScanDigits(digits, Decimal, 0) == (NumberOf(digits, Decimal), "")
  {
    ScanReads(digits, "", Decimal);
    assert digits + "" == digits;
  }

  lemma {:induction false} ScanTakesDigits(s: string, base: Base, acc: nat)
    requires ScanDigits(s, base, acc).1 == ""
    ensures AreDigits(s, base)
    decreases |s|
  {
    if s != "" {
      ScanTakesDigits(s[1..], base, Shift(acc, base, DigitValue(s[0])));
    }
  }

  /** Everything else counts as no options at all. */
  lemma OtherwiseZero(s: string)
    requires forall sign, digits :: !IsNumeral(Trim(s), sign, digits)
    ensures ToInt(s) == 0
  {
    var t := Trim(s);
    var sign := if t != "" && (t[0] == '-' || t[0] == '+') then t[..1] else "";
    var digits := t[|sign|..];
    if ToInt(s) != 0 {
      ScanTakesDigits(digits, Decimal, 0);
      assert t == sign + digits;
      assert IsNumeral(t, sign, digits);
    }
  }

  // ---------------------------------------------------------------------------
  // A byte of the octet editor: spaces, a sign, a prefix in hexadecimal, digits, anything.

  ghost function Clamped(n: int): int {
    if n > 0x7FFF_FFFF_FFFF_FFFF then 0x7FFF_FFFF_FFFF_FFFF
    else if n < -0x8000_0000_0000_0000 then -0x8000_0000_0000_0000
    else n
  }

  /** The text after it, up to the first digit, is a hexadecimal prefix with a digit behind it. */
  ghost predicate HasPrefix(s: string) {
    |s| > 2 && s[0] == '0' && (s[1] == 'x' || s[1] == 'X') && IsDigit(s[2], Hexadecimal)
  }

  lemma {:induction false} SkipsSpaces(space: string, t: string)
    requires AreSpaces(space) && (t == "" || !IsSpace(t[0]))
    ensures SkipSpaces(space + t) == t
  {
    if space == "" {
      assert space + t == t;
    } else {
      assert space[0] in space;
      assert (space + t)[1..] == space[1..] + t;
      SkipsSpaces(space[1..], t);
    }
  }

  lemma LongOfSigned(space: string, sign: string, unsigned: string, base: Base)
    requires AreSpaces(space) && IsSign(sign)
    requires sign == "" && unsigned != "" ==> !IsSpace(unsigned[0]) && unsigned[0] != '+' && unsigned[0] != '-'
    ensures StrToL(space + sign + unsigned, base) == Clamped(Signed(sign, LongOfUnsigned(unsigned, base)))
  {
    var t := sign + unsigned;
    assert space + sign + unsigned == space + t;
    assert t != "" ==> t[0] == if sign != "" then sign[0] else unsigned[0];
    SkipsSpaces(space, t);
    assert t[|sign|..] == unsigned;
  }

  ghost function LongOfUnsigned(unsigned: string, base: Base): nat {
    ScanDigits(if base == Hexadecimal && HasPrefix(unsigned) then unsigned[2..] else unsigned, base, 0).0
  }

  /** Without digits at the expected place the value is zero; digits behind a prefix count in hexadecimal only. */
  lemma LongIsRead(space: string, sign: string, prefix: string, digits: string, rest: string, base: Base)
    requires AreSpaces(space) && IsSign(sign) && AreDigits(digits, base) && EndsDigits(rest, base)
    requires if prefix == "" then base != Hexadecimal || !HasPrefix(digits + rest)
             else base == Hexadecimal && (prefix == "0x" || prefix == "0X") && digits != ""
    requires sign == "" && prefix == "" && digits == "" && rest != "" ==>
             !IsSpace(rest[0]) && rest[0] != '+' && rest[0] != '-'
    ensures StrToL(space + sign + (prefix + (digits + rest)), base)
            == Clamped(Signed(sign, NumberOf(digits, base)))
  {
    var unsigned := prefix + (digits + rest);
    assert unsigned[|prefix|..] == digits + rest;
    assert digits != "" ==> digits[0] in digits && unsigned[|prefix|] == digits[0];
    ScanReads(digits, rest, base);
    LongOfSigned(space, sign, unsigned, base);
  }

  // ---------------------------------------------------------------------------
  // An access mask in SDDL: spaces, a plus sign, a number in decimal, octal or hexadecimal notation.

  ghost predicate IsNotation(t: string, n: nat) {
    || (t != "" && t[0] != '0' && AreDigits(t, Decimal) && n == NumberOf(t, Decimal))
    || (t != "" && t[0] == '0' && AreDigits(t[1..], Octal) && n == NumberOf(t[1..], Octal))
    || (|t| > 2 && ("0x" <= t || "0X" <= t) && AreDigits(t[2..], Hexadecimal) && n == NumberOf(t[2..], Hexadecimal))
  }

  lemma NotationIsScanned(t: string, n: nat)
    requires IsNotation(t, n)
    ensures '0' <= t[0] <= '9' && ScanAnyBase(t) == (Saturate(n), "")
  {
    if t[0] != '0' {
      assert t[0] in t;
      ScanReads(t, "", Decimal);
      assert t + "" == t;
    } else if AreDigits(t[1..], Octal) {
      assert |t| > 1 ==> t[1] == t[1..][0] && t[1] in t[1..];
      ScanReads(t[1..], "", Octal);
      assert t[1..] + "" == t[1..];
    } else {
      assert t[2] == t[2..][0] && t[2] in t[2..];
      ScanReads(t[2..], "", Hexadecimal);
      assert t[2..] + "" == t[2..];
    }
  }

  /** Of at most 13 characters in all, and in 32 bits, it is the mask with that number; otherwise it is refused. */
  lemma MaskIsRead(space: string, sign: string, t: string, n: nat)
    requires AreSpaces(space) && (sign == "" || sign == "+") && IsNotation(t, n)
    ensures DecodeAccess(space + (sign + t))
            == if n > 0xFFFF_FFFF || |space| + |sign| + |t| > 13 then None else Some(MaskOf(n))
  {
    NotationIsScanned(t, n);
    var u := sign + t;
    assert u[0] == if sign == "" then t[0] else '+';
    SkipsSpaces(space, u);
    assert u[|sign|..] == t;
  }
}
