/** Printing and scanning numbers in a base, as printf, itoa and the strto* family do. */
module Numbers {

  datatype Base = Binary | Octal | Decimal | Hexadecimal

  function Radix(base: Base): nat {
    match base
    case Binary => 2
    case Octal => 8
    case Decimal => 10
    case Hexadecimal => 16
  }

  function DigitChar(d: nat): (c: char)
    requires d < 16
    ensures DigitValue(c) == d && IsPrintedDigit(c)
  {
    if d < 10 then ('0' as int + d) as char else ('a' as int + d - 10) as char
  }

  predicate IsPrintedDigit(c: char) {
    '0' <= c <= '9' || 'a' <= c <= 'f'
  }

  /** The value of a digit in either case; 16 for other characters. */
  function DigitValue(c: char): nat {
    if '0' <= c <= '9' then c as int - '0' as int
    else if 'a' <= c <= 'f' then c as int - 'a' as int + 10
    else if 'A' <= c <= 'F' then c as int - 'A' as int + 10
    else 16
  }

  predicate IsDigit(c: char, base: Base) {
    DigitValue(c) < Radix(base)
  }

  // The base is matched on, so that every multiplication and division is by a literal.

  function Quotient(n: nat, base: Base): (q: nat)
    ensures n >= Radix(base) ==> 0 < q < n
    ensures n < Radix(base) <==> q == 0
  {
    match base
    case Binary => n / 2
    case Octal => n / 8
    case Decimal => n / 10
    case Hexadecimal => n / 16
  }

  function Remainder(n: nat, base: Base): (d: nat)
    ensures d < Radix(base)
    ensures Shift(Quotient(n, base), base, d) == n
  {
    match base
    case Binary => n % 2
    case Octal => n % 8
    case Decimal => n % 10
    case Hexadecimal => n % 16
  }

  function Shift(acc: nat, base: Base, d: nat): (n: nat) {
    match base
    case Binary => acc * 2 + d
    case Octal => acc * 8 + d
    case Decimal => acc * 10 + d
    case Hexadecimal => acc * 16 + d
  }

  function ToBase(n: nat, base: Base): (s: string)
    ensures s != []
    decreases n
  {
    if n < Radix(base) then [DigitChar(n)]
    else ToBase(Quotient(n, base), base) + [DigitChar(Remainder(n, base))]
  }

  /** The value of the leading digits, continuing from acc, and what follows them. */
  function ScanDigits(s: string, base: Base, acc: nat): (r: (nat, string))
    ensures |r.1| <= |s|
  {
    if s == "" || !IsDigit(s[0], base) then (acc, s)
    else ScanDigits(s[1..], base, Shift(acc, base, DigitValue(s[0])))
  }

  lemma ScanOne(c: char, rest: string, base: Base, acc: nat)
    requires IsDigit(c, base)
    ensures ScanDigits([c] + rest, base, acc) == ScanDigits(rest, base, Shift(acc, base, DigitValue(c)))
  {
    assert ([c] + rest)[1..] == rest;
  }

  lemma {:induction false} ScanPrinted(n: nat, base: Base, rest: string)
    ensures ScanDigits(ToBase(n, base) + rest, base, 0) == ScanDigits(rest, base, n)
    decreases n
  {
    if n < Radix(base) {
      ScanOne(DigitChar(n), rest, base, 0);
      ShiftZero(n, base);
    } else {
      var q, d := Quotient(n, base), Remainder(n, base);
      var c := DigitChar(d);
      ScanPrinted(q, base, [c] + rest);
      ScanOne(c, rest, base, q);
      AppendAssociates(ToBase(q, base), [c], rest);
    }
  }

  lemma ShiftZero(d: nat, base: Base)
    ensures Shift(0, base, d) == d
  {
  }

  lemma AppendAssociates(a: string, b: string, c: string)
    ensures (a + b) + c == a + (b + c)
  {
  }

  lemma {:induction false} PrintedDigits(n: nat, base: Base)
    ensures forall c :: c in ToBase(n, base) ==> IsDigit(c, base) && IsPrintedDigit(c)
    ensures n > 0 ==> ToBase(n, base)[0] != '0'
    decreases n
  {
    if n >= Radix(base) {
      PrintedDigits(Quotient(n, base), base);
    }
  }

  function Power(base: Base, k: nat): (p: nat)
    ensures p > 0
  {
    if k == 0 then 1 else Shift(Power(base, k - 1), base, 0)
  }

  lemma {:induction false} PrintedLength(n: nat, base: Base, k: nat)
    requires n < Power(base, k) && k > 0
    ensures |ToBase(n, base)| <= k
    decreases k
  {
    if n >= Radix(base) {
      PrintedLength(Quotient(n, base), base, k - 1);
    }
  }
}
