/** The octet editor: bytes as text in four bases, and the validation of what the user types. */
module Octets {
  import opened Primitives
  import opened Numbers
  import opened Strings

  // The display format is a base; each byte has a fixed width in it.

  function Width(format: Base): nat {
    match format
    case Hexadecimal => 2
    case Binary => 8
    case Decimal => 3
    case Octal => 3
  }

  function Zeros(n: nat): string {
    if n == 0 then "" else "0" + Zeros(n - 1)
  }

  function RightJustified(s: string, width: nat): string {
    if |s| >= width then s else Zeros(width - |s|) + s
  }

  function ByteToken(b: byte, format: Base): string {
    RightJustified(ToBase(b, format), Width(format))
  }

  function ByteTokens(bytes: seq<byte>, format: Base): (tokens: seq<string>)
    ensures |tokens| == |bytes| && forall i :: 0 <= i < |bytes| ==> tokens[i] == ByteToken(bytes[i], format)
  {
    seq(|bytes|, i requires 0 <= i < |bytes| => ByteToken(bytes[i], format))
  }

  function BytesToString(bytes: seq<byte>, format: Base): string {
    Join(ByteTokens(bytes, format), " ")
  }

  function StripZeros(s: string): string {
    if s != "" && s[0] == '0' then StripZeros(s[1..]) else s
  }

  const LONG_MAX: nat := 0x7FFF_FFFF_FFFF_FFFF

  function StrToL(s: string, base: Base): int {
    var t := SkipSpaces(s);
    var negative := t != "" && t[0] == '-';
    var unsigned := if t != "" && (t[0] == '-' || t[0] == '+') then t[1..] else t;
    var digits :=
      if base == Hexadecimal && |unsigned| > 2 && unsigned[0] == '0' && (unsigned[1] == 'x' || unsigned[1] == 'X')
         && IsDigit(unsigned[2], Hexadecimal)
      then unsigned[2..] else unsigned;
    var value: int := ScanDigits(digits, base, 0).0;
    if negative then if value > LONG_MAX then -(LONG_MAX + 1) else -value
    else if value > LONG_MAX then LONG_MAX else value
  }

  function TokenByte(token: string, format: Base): byte {
    StrToL(StripZeros(token), format) % 0x100
  }

  function StringToBytes(s: string, format: Base): seq<byte> {
    if s == "" then []
    else
      var tokens := Split(s, ' ');
      seq(|tokens|, i requires 0 <= i < |tokens| => TokenByte(tokens[i], format))
  }

  // ---------------------------------------------------------------------------
  // Validation.

  predicate AllIn(s: string, low: char, high: char) {
    forall c :: c in s ==> low <= c <= high
  }

  /** The decimal value of a token of digits. */
  function DecimalValue(s: string): nat {
    ScanDigits(s, Decimal, 0).0
  }

  predicate IsValidToken(format: Base, token: string) {
    match format
    case Hexadecimal => |token| == 2 && forall c :: c in token ==> IsPrintedDigit(c)
    case Binary => |token| == 8 && AllIn(token, '0', '1')
    case Decimal => |token| == 3 && AllIn(token, '0', '9') && DecimalValue(token) <= 255
    case Octal => |token| == 3 && AllIn(token, '0', '7') && DecimalValue(token) <= 377
  }

  ghost predicate IsValidInput(format: Base, input: string) {
    forall t :: t in Split(input, ' ') ==> IsValidToken(format, t)
  }

  // ---------------------------------------------------------------------------
  // The loops of the source.

  method OctetBytesToString(bytes: seq<byte>, format: Base) returns (out: string)
    ensures out == BytesToString(bytes, format)
  {
    out := "";
    for i := 0 to |bytes|
      invariant out == BytesToString(bytes[..i], format)
    {
      if i > 0 {
        out := out + " ";
      }
      NextByte(bytes[..i], bytes[i], format);
      assert bytes[..i + 1] == bytes[..i] + [bytes[i]];
      out := out + ByteToken(bytes[i], format);
    }
    assert bytes[..|bytes|] == bytes;
  }

  lemma NextByte(bytes: seq<byte>, b: byte, format: Base)
    ensures BytesToString(bytes + [b], format) ==
            (if bytes == [] then "" else BytesToString(bytes, format) + " ") + ByteToken(b, format)
  {
    assert ByteTokens(bytes + [b], format) == ByteTokens(bytes, format) + [ByteToken(b, format)];
    JoinSnoc(ByteTokens(bytes, format), ByteToken(b, format), " ");
  }

  method OctetStringToBytes(s: string, format: Base) returns (out: seq<byte>)
    ensures out == StringToBytes(s, format)
  {
    if s == "" { return []; }
    var tokens := Split(s, ' ');
    out := [];
    for i := 0 to |tokens|
      invariant |out| == i && forall k :: 0 <= k < i ==> out[k] == TokenByte(tokens[k], format)
    {
      var b := TokenToByte(tokens[i], format);
      out := out + [b];
    }
  }

  method TokenToByte(padded: string, format: Base) returns (b: byte)
    ensures b == TokenByte(padded, format)
  {
    var token := padded;
    while token != "" && token[0] == '0'
      invariant StripZeros(token) == StripZeros(padded)
      decreases |token|
    {
      token := token[1..];
    }
    b := StrToL(token, format) % 0x100;
  }

  method AttributeValidateInput(format: Base, input: string) returns (valid: bool)
    ensures valid <==> IsValidInput(format, input)
  {
    var tokens := Split(input, ' ');
    for i := 0 to |tokens|
      invariant forall k :: 0 <= k < i ==> IsValidToken(format, tokens[k])
    {
      if !IsValidToken(format, tokens[i]) {
        return false;
      }
    }
    return true;
  }

  // ---------------------------------------------------------------------------
  // Digits and values.

  ghost predicate IsDigits(s: string, base: Base) {
    forall c :: c in s ==> IsPrintedDigit(c) && IsDigit(c, base)
  }

  ghost function Value(s: string, base: Base): nat {
    ScanDigits(s, base, 0).0
  }

  lemma {:induction false} ScanAll(s: string, base: Base, acc: nat)
    requires IsDigits(s, base)
    ensures ScanDigits(s, base, acc).1 == ""
  {
    if s != "" {
      assert s[0] in s;
      ScanAll(s[1..], base, Shift(acc, base, DigitValue(s[0])));
    }
  }

  lemma {:induction false} ScanSnoc(s: string, c: char, base: Base, acc: nat)
    requires IsDigits(s + [c], base)
    ensures ScanDigits(s + [c], base, acc).0 == Shift(ScanDigits(s, base, acc).0, base, DigitValue(c))
  {
    var t := s + [c];
    assert t[|s|] == c && c in t;
    if s == "" {
      assert t == [c] && t[1..] == "";
    } else {
      assert t[0] in t && t[1..] == s[1..] + [c];
      assert IsDigits(t[1..], base);
      ScanSnoc(s[1..], c, base, Shift(acc, base, DigitValue(s[0])));
    }
  }

  lemma ShiftParts(q: nat, base: Base, d: nat)
    requires d < Radix(base)
    ensures Quotient(Shift(q, base, d), base) == q && Remainder(Shift(q, base, d), base) == d
    ensures Shift(q, base, d) < Radix(base) <==> q == 0
    ensures q == 0 ==> Shift(q, base, d) == d
  {
  }

  lemma ZerosSnoc(n: nat)
    ensures Zeros(n) + "0" == Zeros(n + 1)
    ensures |Zeros(n)| == n
  {
    if n > 0 {
      ZerosSnoc(n - 1);
      assert "0" + Zeros(n - 1) + "0" == "0" + (Zeros(n - 1) + "0");
    }
  }

  lemma DigitCharOfValue(c: char, base: Base)
    requires IsPrintedDigit(c) && IsDigit(c, base)
    ensures DigitValue(c) < 16 && DigitChar(DigitValue(c)) == c
  {
  }

  /** A digit string is its value, printed and padded to the same width. */
  lemma {:induction false} PadOfValue(s: string, base: Base)
    requires s != "" && IsDigits(s, base)
    ensures RightJustified(ToBase(Value(s, base), base), |s|) == s
    ensures |ToBase(Value(s, base), base)| <= |s|
    decreases |s|
  {
    var front, c := s[..|s| - 1], s[|s| - 1];
    assert s == front + [c] && c in s;
    var d, v := DigitValue(c), Value(s, base);
    ScanSnoc(front, c, base, 0);
    DigitCharOfValue(c, base);
    ShiftParts(Value(front, base), base, d);
    if front == "" {
      assert Zeros(0) + [c] == [c];
    } else {
      var printed := ToBase(Value(front, base), base);
      PadOfValue(front, base);
      if Value(front, base) == 0 {
        PadDigit(front, c);
      } else {
        assert ToBase(v, base) == printed + [c];
        PadMore(front, printed, c);
      }
    }
  }

  lemma PadDigit(front: string, c: char)
    requires front != "" && RightJustified("0", |front|) == front
    ensures RightJustified([c], |front| + 1) == front + [c]
  {
    ZerosSnoc(|front| - 1);
    assert RightJustified("0", |front|) == Zeros(|front| - 1) + "0";
  }

  lemma PadMore(front: string, printed: string, c: char)
    requires |printed| <= |front| && RightJustified(printed, |front|) == front
    ensures RightJustified(printed + [c], |front| + 1) == front + [c]
  {
    var zeros := Zeros(|front| - |printed|);
    assert zeros + printed == front;
    assert zeros + (printed + [c]) == front + [c];
  }

  lemma {:induction false} ValueBound(s: string, base: Base)
    requires IsDigits(s, base)
    ensures Value(s, base) < Power(base, |s|)
    decreases |s|
  {
    if s != "" {
      var front, c := s[..|s| - 1], s[|s| - 1];
      assert s == front + [c] && c in s;
      ScanSnoc(front, c, base, 0);
      ValueBound(front, base);
    }
  }

  lemma {:induction false} ValueOfPadded(n: nat, b: nat, base: Base)
    ensures Value(Zeros(n) + ToBase(b, base), base) == b
  {
    if n == 0 {
      assert Zeros(0) + ToBase(b, base) == ToBase(b, base) + "";
      ScanPrinted(b, base, "");
    } else {
      assert Zeros(n) + ToBase(b, base) == ['0'] + (Zeros(n - 1) + ToBase(b, base));
      ScanOne('0', Zeros(n - 1) + ToBase(b, base), base, 0);
      ShiftZero(0, base);
      ValueOfPadded(n - 1, b, base);
    }
  }

  lemma {:induction false} StripKeepsValue(s: string, base: Base)
    ensures Value(StripZeros(s), base) == Value(s, base)
  {
    if s != "" && s[0] == '0' {
      assert s == ['0'] + s[1..];
      ScanOne('0', s[1..], base, 0);
      ShiftZero(0, base);
      StripKeepsValue(s[1..], base);
    }
  }

  lemma {:induction false} StripShape(s: string)
    ensures StripZeros(s) == "" || StripZeros(s)[0] != '0'
    ensures forall c :: c in StripZeros(s) ==> c in s
  {
    if s != "" && s[0] == '0' {
      StripShape(s[1..]);
    }
  }

  /** On a token of digits, the conversion with all its special cases is just the value. */
  lemma TokenValue(token: string, format: Base)
    requires IsDigits(token, format) && Value(token, format) <= 255
    ensures TokenByte(token, format) == Value(token, format)
  {
    var t := StripZeros(token);
    StripShape(token);
    StripKeepsValue(token, format);
    assert t != "" ==> t[0] in token && IsPrintedDigit(t[0]);
    assert SkipSpaces(t) == t;
  }

  // ---------------------------------------------------------------------------
  // The two conversions are inverse to each other.

  /** What the validators accept: digits of the base, in the byte's width, with a value that fits a byte. */
  lemma ValidToken(format: Base, token: string)
    ensures IsValidToken(format, token) <==>
            IsDigits(token, format) && |token| == Width(format) && Value(token, format) <= 255
    ensures IsValidToken(format, token) ==> ' ' !in token
  {
    if IsValidToken(format, token) {
      ValidIsDigits(format, token);
    } else if IsDigits(token, format) && |token| == Width(format) && Value(token, format) <= 255 {
      DigitsAreValid(format, token);
    }
  }

  lemma ValidIsDigits(format: Base, token: string)
    requires IsValidToken(format, token)
    ensures IsDigits(token, format) && |token| == Width(format) && Value(token, format) <= 255
    ensures ' ' !in token
  {
    match format
    case Decimal =>
    case Hexadecimal =>
      ValueBound(token, format);
      assert Power(format, 2) == 256 by { assert Power(format, 1) == 16; }
    case Binary =>
      ValueBound(token, format);
      PowerOfTwo();
    case Octal => OctalToken(token);
  }

  lemma PowerOfTwo()
    ensures Power(Binary, 8) == 256
  {
    assert Power(Binary, 4) == 16 by { assert Power(Binary, 2) == 4; }
    assert Power(Binary, 6) == 64;
  }

  lemma ThreeDigits(s: string, base: Base)
    requires |s| == 3 && forall c :: c in s ==> IsDigit(c, base)
    ensures Value(s, base) ==
            Shift(Shift(Shift(0, base, DigitValue(s[0])), base, DigitValue(s[1])), base, DigitValue(s[2]))
  {
    assert s[0] in s && s[1] in s && s[2] in s;
    var one, two := Shift(0, base, DigitValue(s[0])), Shift(Shift(0, base, DigitValue(s[0])), base, DigitValue(s[1]));
    assert s == [s[0]] + ([s[1]] + ([s[2]] + ""));
    ScanOne(s[0], [s[1]] + ([s[2]] + ""), base, 0);
    ScanOne(s[1], [s[2]] + "", base, one);
    ScanOne(s[2], "", base, two);
  }

  /** A printed byte is a valid token, and reads back as the byte. */
  lemma ByteReadsBack(b: byte, format: Base)
    ensures IsValidToken(format, ByteToken(b, format)) && TokenByte(ByteToken(b, format), format) == b
  {
    var token := RightJustified(ToBase(b, format), Width(format));
    WidthIsEnough(format);
    PrintedLength(b, format, Width(format));
    PaddedDigits(b, format, Width(format));
    DigitsAreValid(format, token);
    TokenValue(token, format);
  }

  lemma WidthIsEnough(format: Base)
    ensures Power(format, Width(format)) > 255
  {
    PowerOfTwo();
    assert Power(Decimal, 2) == 100 && Power(Octal, 2) == 64 && Power(Hexadecimal, 1) == 16;
  }

  lemma DigitsAreValid(format: Base, token: string)
    requires IsDigits(token, format) && |token| == Width(format) && Value(token, format) <= 255
    ensures IsValidToken(format, token)
  {
    match format
    case Hexadecimal =>
    case Binary =>
    case Decimal =>
    case Octal => OctalToken(token);
  }

  lemma OctalToken(token: string)
    requires IsDigits(token, Octal) && |token| == 3
    ensures Value(token, Octal) <= 255 <==> DecimalValue(token) <= 377
    ensures AllIn(token, '0', '7')
  {
    assert token[0] in token && token[1] in token && token[2] in token;
    ThreeDigits(token, Octal);
    ThreeDigits(token, Decimal);
    OctalAsDecimal(DigitValue(token[0]), DigitValue(token[1]), DigitValue(token[2]));
  }

  lemma OctalAsDecimal(a: nat, b: nat, c: nat)
    requires a < 8 && b < 8 && c < 8
    ensures (a * 8 + b) * 8 + c <= 255 <==> (a * 10 + b) * 10 + c <= 377
  {
  }

  lemma PaddedDigits(b: nat, base: Base, width: nat)
    ensures IsDigits(RightJustified(ToBase(b, base), width), base)
    ensures Value(RightJustified(ToBase(b, base), width), base) == b
    ensures |ToBase(b, base)| <= width ==> |RightJustified(ToBase(b, base), width)| == width
  {
    var s := ToBase(b, base);
    PrintedDigits(b, base);
    if |s| >= width {
      assert Zeros(0) + s == s;
      ValueOfPadded(0, b, base);
    } else {
      ZerosSnoc(width - |s|);
      ZerosAre(width - |s|);
      ValueOfPadded(width - |s|, b, base);
    }
  }

  lemma {:induction false} ZerosAre(n: nat)
    ensures forall c :: c in Zeros(n) ==> c == '0'
  {
    if n > 0 {
      ZerosAre(n - 1);
    }
  }

  /** A valid token is printed again as it was written. */
  lemma TokenPrintsBack(token: string, format: Base)
    requires IsValidToken(format, token)
    ensures ByteToken(TokenByte(token, format), format) == token && ' ' !in token
  {
    ValidToken(format, token);
    TokenValue(token, format);
    PadOfValue(token, format);
  }

  /** Any non-empty byte array is shown as valid input that stands for the same bytes. */
  lemma BytesRoundTrip(bytes: seq<byte>, format: Base)
    requires bytes != []
    ensures IsValidInput(format, BytesToString(bytes, format))
    ensures StringToBytes(BytesToString(bytes, format), format) == bytes
  {
    var tokens := ByteTokens(bytes, format);
    forall i | 0 <= i < |bytes|
      ensures IsValidToken(format, tokens[i]) && ' ' !in tokens[i] && TokenByte(tokens[i], format) == bytes[i]
    {
      ByteReadsBack(bytes[i], format);
      ValidToken(format, tokens[i]);
    }
    SplitJoined(tokens, ' ');
    assert " " == [' '];
    assert tokens[0] != "" && Split("", ' ') == [""];
  }

  /** Any valid input stands for bytes that are shown exactly as it was typed. */
  lemma StringRoundTrip(s: string, format: Base)
    requires IsValidInput(format, s)
    ensures StringToBytes(s, format) != [] && BytesToString(StringToBytes(s, format), format) == s
  {
    var tokens := Split(s, ' ');
    assert IsValidToken(format, tokens[0]);
    assert s != "";
    var bytes := StringToBytes(s, format);
    forall i | 0 <= i < |tokens| ensures ByteTokens(bytes, format)[i] == tokens[i] {
      TokenPrintsBack(tokens[i], format);
    }
    assert ByteTokens(bytes, format) == tokens;
    JoinedSplit(s, ' ');
    assert " " == [' '];
  }

  /** So the validator accepts exactly the strings that show some non-empty byte array. */
  lemma ValidExactly(s: string, format: Base)
    ensures IsValidInput(format, s) <==> exists bytes: seq<byte> :: bytes != [] && s == BytesToString(bytes, format)
  {
    if IsValidInput(format, s) {
      StringRoundTrip(s, format);
      var bytes: seq<byte> := StringToBytes(s, format);
      assert bytes != [] && s == BytesToString(bytes, format);
    }
    forall bytes: seq<byte> | bytes != [] && s == BytesToString(bytes, format) ensures IsValidInput(format, s) {
      BytesRoundTrip(bytes, format);
    }
  }
}
