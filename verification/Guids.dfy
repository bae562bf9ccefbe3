/**
 The three representations of a GUID: the string, the structure that samba parses it
 into, and the bytes that the directory and the ACE matcher compare.
 */
module Guids {
  import opened Primitives
  import opened Numbers
  import opened Strings

  type uint16 = x: int | 0 <= x < 0x1_0000

  datatype Guid = Guid(timeLow: uint32, timeMid: uint16, timeHi: uint16, clockSeq: seq<byte>, node: seq<byte>)

  predicate IsHexDigit(c: char) {
    IsDigit(c, Hexadecimal)
  }

  // ---------------------------------------------------------------------------
  // The samba parser.

  predicate IsHexByte(s: string, i: nat)
    requires i + 1 < |s|
  {
    IsHexDigit(s[i]) && IsHexDigit(s[i + 1])
  }

  /** The byte written by two hexadecimal digits; a digit that is not one counts as zero. */
  function HexByte(s: string, i: nat): byte
    requires i + 1 < |s|
  {
    if IsHexByte(s, i) then DigitValue(s[i]) * 16 + DigitValue(s[i + 1]) else 0
  }

  function HexUint16(s: string, i: nat): uint16
    requires i + 3 < |s|
  {
    HexByte(s, i) * 0x100 + HexByte(s, i + 2)
  }

  function HexUint32(s: string, i: nat): uint32
    requires i + 7 < |s|
  {
    HexUint16(s, i) * 0x1_0000 + HexUint16(s, i + 4)
  }

  predicate IsHexRun(s: string, from: nat, to: nat)
    requires to <= |s|
  {
    forall i :: from <= i < to ==> IsHexDigit(s[i])
  }

  predicate IsGuidString(s: string) {
    && |s| == 36
    && IsHexRun(s, 0, 8) && s[8] == '-' && IsHexRun(s, 9, 13) && s[13] == '-' && IsHexRun(s, 14, 18) && s[18] == '-'
    && IsHexRun(s, 19, 23) && s[23] == '-' && IsHexRun(s, 24, 36)
  }

  /** Reads count bytes from the cursor on; stops at the first that is not two digits. */
  method HexBytes(s: string, start: nat, count: nat) returns (bytes: Option<seq<byte>>)
    requires start + 2 * count <= |s|
    ensures bytes.Some? <==> IsHexRun(s, start, start + 2 * count)
    ensures bytes.Some? ==> |bytes.value| == count
    ensures bytes.Some? ==> forall k :: 0 <= k < count ==> bytes.value[k] == HexByte(s, start + 2 * k)
  {
    var out, cursor := [], start;
    for i := 0 to count
      invariant cursor == start + 2 * i && |out| == i
      invariant forall k :: 0 <= k < i ==> out[k] == HexByte(s, start + 2 * k)
      invariant IsHexRun(s, start, cursor)
    {
      if !IsHexByte(s, cursor) {
        assert !IsHexDigit(s[cursor]) || !IsHexDigit(s[cursor + 1]);
        return None;
      }
      out := out + [HexByte(s, cursor)];
      cursor := cursor + 2;
    }
    bytes := Some(out);
  }

  /** Accepts exactly the well-formed strings. */
  method ParseGuidString(s: string) returns (guid: Option<Guid>)
    requires |s| == 36
    ensures guid.Some? <==> IsGuidString(s)
    ensures guid.Some? ==> guid.value == GuidOf(s)
  {
    var timeLow := HexBytes(s, 0, 4);
    if timeLow.None? || s[8] != '-' { return None; }
    var timeMid := HexBytes(s, 9, 2);
    if timeMid.None? || s[13] != '-' { return None; }
    var timeHi := HexBytes(s, 14, 2);
    if timeHi.None? || s[18] != '-' { return None; }
    var clockSeq := HexBytes(s, 19, 2);
    if clockSeq.None? || s[23] != '-' { return None; }
    var node := HexBytes(s, 24, 6);
    if node.None? { return None; }
    return Some(Guid(HexUint32(s, 0), HexUint16(s, 9), HexUint16(s, 14), clockSeq.value, node.value));
  }

  function GuidOf(s: string): Guid
    requires |s| == 36
  {
    Guid(HexUint32(s, 0), HexUint16(s, 9), HexUint16(s, 14), [HexByte(s, 19), HexByte(s, 21)],
         [HexByte(s, 24), HexByte(s, 26), HexByte(s, 28), HexByte(s, 30), HexByte(s, 32), HexByte(s, 34)])
  }

  /** The structure as it lies in little-endian memory. */
  function MemoryImage(g: Guid): seq<byte> {
    [g.timeLow % 0x100, g.timeLow / 0x100 % 0x100, g.timeLow / 0x1_0000 % 0x100, g.timeLow / 0x100_0000,
     g.timeMid % 0x100, g.timeMid / 0x100, g.timeHi % 0x100, g.timeHi / 0x100]
    + g.clockSeq + g.node
  }

  // ---------------------------------------------------------------------------
  // The byte-array route.

  function HexDigits(s: string): string {
    if s == "" then "" else if IsHexDigit(s[0]) then [s[0]] + HexDigits(s[1..]) else HexDigits(s[1..])
  }

  function Pairs(s: string): seq<byte>
    requires |s| % 2 == 0
  {
    if s == "" then [] else [HexByte(s, 0)] + Pairs(s[2..])
  }

  /** Characters that are not digits are skipped, and an odd leading digit makes a byte of its own. */
  function FromHex(s: string): seq<byte> {
    var digits := HexDigits(s);
    Pairs(if |digits| % 2 == 0 then digits else "0" + digits)
  }

  function ToHex(bytes: seq<byte>): string {
    if bytes == [] then "" else [DigitChar(bytes[0] / 16), DigitChar(bytes[0] % 16)] + ToHex(bytes[1..])
  }

  /** Segments of the string, the first three byte-reversed. The source indexes them without a check. */
  method GuidStringToSegmentList(s: string) returns (out: seq<seq<byte>>)
    requires |Split(s, '-')| >= 3
    ensures out == Segments(s)
  {
    var parts := Split(s, '-');
    out := [];
    for i := 0 to |parts|
      invariant |out| == i && forall k :: 0 <= k < i ==> out[k] == FromHex(parts[k])
    {
      out := out + [FromHex(parts[i])];
    }
    out := out[0 := Reverse(out[0])];
    out := out[1 := Reverse(out[1])];
    out := out[2 := Reverse(out[2])];
  }

  function Segments(s: string): seq<seq<byte>> {
    var parts := Split(s, '-');
    seq(|parts|, i requires 0 <= i < |parts| => if i < 3 then Reverse(FromHex(parts[i])) else FromHex(parts[i]))
  }

  function Flatten(segments: seq<seq<byte>>): seq<byte> {
    if segments == [] then [] else segments[0] + Flatten(segments[1..])
  }

  function GuidStringToBytes(s: string): seq<byte> {
    if s == "" then [] else Flatten(Segments(s))
  }

  /** The display form of a GUID: five segments, the first three byte-reversed. */
  function GuidToDisplayValue(b: seq<byte>): string
    requires |b| == 16
  {
    Join([ToHex(Reverse(b[0..4])), ToHex(Reverse(b[4..6])), ToHex(Reverse(b[6..8])),
          ToHex(b[8..10]), ToHex(b[10..16])], "-")
  }

  // ---------------------------------------------------------------------------
  // Hexadecimal text of bytes.

  lemma {:induction false} ToHexShape(bytes: seq<byte>)
    ensures |ToHex(bytes)| == 2 * |bytes|
    ensures forall c :: c in ToHex(bytes) ==> IsPrintedDigit(c)
  {
    if bytes != [] {
      ToHexShape(bytes[1..]);
    }
  }

  lemma {:induction false} AllDigits(s: string)
    requires forall c :: c in s ==> IsHexDigit(c)
    ensures HexDigits(s) == s
  {
    if s != "" {
      assert s == [s[0]] + s[1..];
      AllDigits(s[1..]);
    }
  }

  lemma {:induction false} HexDigitsAppend(a: string, b: string)
    ensures HexDigits(a + b) == HexDigits(a) + HexDigits(b)
  {
    if a == "" {
      assert a + b == b;
    } else {
      assert (a + b)[1..] == a[1..] + b;
      HexDigitsAppend(a[1..], b);
    }
  }

  lemma {:induction false} HexDigitsAreDigits(s: string)
    ensures forall c :: c in HexDigits(s) ==> IsHexDigit(c)
  {
    if s != "" {
      HexDigitsAreDigits(s[1..]);
    }
  }

  lemma ByteHalves(a: char, b: char)
    requires IsHexDigit(a) && IsHexDigit(b)
    ensures var n := DigitValue(a) * 16 + DigitValue(b);
            n < 0x100 && DigitChar(n / 16) == ToLowerChar(a) && DigitChar(n % 16) == ToLowerChar(b)
  {
    var n := DigitValue(a) * 16 + DigitValue(b);
    assert n / 16 == DigitValue(a) && n % 16 == DigitValue(b);
    DigitLower(a);
    DigitLower(b);
  }

  lemma LowerTwo(s: string)
    requires |s| >= 2
    ensures ToLower(s) == [ToLowerChar(s[0]), ToLowerChar(s[1])] + ToLower(s[2..])
  {
  }

  /** The digits of these bytes, in small letters. */
  lemma {:induction false} HexOfPairs(digits: string)
    requires |digits| % 2 == 0 && forall c :: c in digits ==> IsHexDigit(c)
    ensures ToHex(Pairs(digits)) == ToLower(digits)
  {
    if digits != "" {
      assert digits[0] in digits && digits[1] in digits;
      assert forall c :: c in digits[2..] ==> c in digits;
      ByteHalves(digits[0], digits[1]);
      HexOfPairs(digits[2..]);
      LowerTwo(digits);
      HexCons(HexByte(digits, 0), Pairs(digits[2..]));
    }
  }

  lemma HexCons(b: byte, rest: seq<byte>)
    ensures ToHex([b] + rest) == [DigitChar(b / 16), DigitChar(b % 16)] + ToHex(rest)
  {
    assert ([b] + rest)[1..] == rest;
  }

  lemma DigitLower(c: char)
    requires IsHexDigit(c)
    ensures DigitChar(DigitValue(c)) == ToLowerChar(c)
  {
  }

  /** Text in hexadecimal may hold other characters, which do not count; a zero is missing in front of an odd number
      of digits. */
  lemma FromHexReads(before: string, after: string, c: char)
    ensures var digits := HexDigits(before + [c] + after);
            && digits == HexDigits(before) + (if IsHexDigit(c) then [c] else "") + HexDigits(after)
            && ToHex(FromHex(before + [c] + after)) == ToLower(if |digits| % 2 == 0 then digits else "0" + digits)
  {
    HexDigitsAppend(before + [c], after);
    HexDigitsAppend(before, [c]);
    assert HexDigits([c]) == if IsHexDigit(c) then [c] else "" by {
      assert [c][1..] == "";
      assert HexDigits("") == "";
    }
    var digits := HexDigits(before + [c] + after);
    HexDigitsAreDigits(before + [c] + after);
    assert IsHexDigit('0');
    HexOfPairs(if |digits| % 2 == 0 then digits else "0" + digits);
  }

  lemma FromHexToHex(bytes: seq<byte>)
    ensures FromHex(ToHex(bytes)) == bytes
  {
    ToHexShape(bytes);
    AllDigits(ToHex(bytes));
    PairsToHex(bytes);
  }

  lemma {:induction false} PairsToHex(bytes: seq<byte>)
    ensures |ToHex(bytes)| % 2 == 0 && Pairs(ToHex(bytes)) == bytes
  {
    if bytes != [] {
      PairsToHex(bytes[1..]);
      assert ToHex(bytes)[2..] == ToHex(bytes[1..]);
      assert HexByte(ToHex(bytes), 0) == bytes[0];
    }
  }

  lemma {:induction false} PairsAt(s: string, k: nat)
    requires |s| % 2 == 0 && 2 * k < |s|
    ensures |Pairs(s)| == |s| / 2 && Pairs(s)[k] == HexByte(s, 2 * k)
  {
    if k > 0 {
      PairsAt(s[2..], k - 1);
      assert s[2..][2 * (k - 1)] == s[2 * k] && s[2..][2 * (k - 1) + 1] == s[2 * k + 1];
    } else if |s| > 2 {
      PairsAt(s[2..], 0);
    }
  }

  // ---------------------------------------------------------------------------
  // The representations agree.

  /** One segment of a well-formed string, as bytes. */
  lemma SegmentBytes(s: string, from: nat, to: nat)
    requires from <= to <= |s| && (to - from) % 2 == 0 && IsHexRun(s, from, to)
    ensures |FromHex(s[from..to])| == (to - from) / 2
    ensures forall k :: 0 <= k < (to - from) / 2 ==> FromHex(s[from..to])[k] == HexByte(s, from + 2 * k)
    ensures '-' !in s[from..to]
  {
    var segment := s[from..to];
    forall c | c in segment ensures IsHexDigit(c) {
      var i :| 0 <= i < |segment| && segment[i] == c;
      assert s[from + i] == c;
    }
    AllDigits(segment);
    if segment != "" { PairsAt(segment, 0); }
    forall k | 0 <= k < (to - from) / 2 ensures FromHex(segment)[k] == HexByte(s, from + 2 * k) {
      PairsAt(segment, k);
    }
  }

  lemma SplitGuidString(s: string)
    requires IsGuidString(s)
    ensures Split(s, '-') == [s[0..8], s[9..13], s[14..18], s[19..23], s[24..36]]
  {
    SegmentBytes(s, 0, 8);
    SegmentBytes(s, 9, 13);
    SegmentBytes(s, 14, 18);
    SegmentBytes(s, 19, 23);
    SegmentBytes(s, 24, 36);
    var parts := [s[0..8], s[9..13], s[14..18], s[19..23], s[24..36]];
    assert s == parts[0] + "-" + parts[1] + "-" + parts[2] + "-" + parts[3] + "-" + parts[4];
    SplitJoined(parts, '-');
    JoinFive(parts, "-");
  }

  lemma JoinFive(p: seq<string>, sep: string)
    requires |p| == 5
    ensures Join(p, sep) == p[0] + sep + p[1] + sep + p[2] + sep + p[3] + sep + p[4]
  {
    assert p[1..] == [p[1], p[2], p[3], p[4]];
    assert p[1..][1..] == [p[2], p[3], p[4]];
    assert p[1..][1..][1..] == [p[3], p[4]];
    assert Join([p[3], p[4]], sep) == p[3] + sep + p[4];
    assert Join([p[2], p[3], p[4]], sep) == p[2] + sep + (p[3] + sep + p[4]);
  }

  lemma ReverseShort(s: seq<byte>)
    ensures |s| == 2 ==> Reverse(s) == [s[1], s[0]]
    ensures |s| == 4 ==> Reverse(s) == [s[3], s[2], s[1], s[0]]
  {
    forall k | 0 <= k < |s| ensures Reverse(s)[k] == s[|s| - 1 - k] {
      ReverseAt(s, k);
    }
  }

  lemma FlattenFive(p: seq<seq<byte>>)
    requires |p| == 5
    ensures Flatten(p) == p[0] + p[1] + p[2] + p[3] + p[4]
  {
    assert p[1..][1..] == p[2..] && p[2..][1..] == p[3..] && p[3..][1..] == p[4..] && p[4..][1..] == [];
    assert Flatten(p[4..]) == p[4] + [];
    assert Flatten(p[3..]) == p[3] + p[4];
    assert Flatten(p[2..]) == p[2] + (p[3] + p[4]);
    assert Flatten(p[1..]) == p[1] + (p[2] + (p[3] + p[4]));
  }

  /** The fixed-size fields of the structure, byte by byte. */
  lemma FieldBytes(s: string)
    requires |s| == 36
    ensures var n := GuidOf(s).timeLow;
            n % 0x100 == HexByte(s, 6) && n / 0x100 % 0x100 == HexByte(s, 4)
            && n / 0x1_0000 % 0x100 == HexByte(s, 2) && n / 0x100_0000 == HexByte(s, 0)
    ensures GuidOf(s).timeMid % 0x100 == HexByte(s, 11) && GuidOf(s).timeMid / 0x100 == HexByte(s, 9)
    ensures GuidOf(s).timeHi % 0x100 == HexByte(s, 16) && GuidOf(s).timeHi / 0x100 == HexByte(s, 14)
  {
    LittleEndian(HexByte(s, 0), HexByte(s, 2), HexByte(s, 4), HexByte(s, 6));
    LittleEndian(0, 0, HexByte(s, 9), HexByte(s, 11));
    LittleEndian(0, 0, HexByte(s, 14), HexByte(s, 16));
  }

  lemma ImageBytes(s: string)
    requires |s| == 36
    ensures MemoryImage(GuidOf(s))
            == [HexByte(s, 6), HexByte(s, 4), HexByte(s, 2), HexByte(s, 0), HexByte(s, 11), HexByte(s, 9),
                HexByte(s, 16), HexByte(s, 14)] + GuidOf(s).clockSeq + GuidOf(s).node
  {
    FieldBytes(s);
  }

  lemma SegmentsOfGuidString(s: string)
    requires IsGuidString(s)
    ensures Segments(s) == [
      [HexByte(s, 6), HexByte(s, 4), HexByte(s, 2), HexByte(s, 0)], [HexByte(s, 11), HexByte(s, 9)],
      [HexByte(s, 16), HexByte(s, 14)], GuidOf(s).clockSeq, GuidOf(s).node]
  {
    SplitGuidString(s);
    SegmentBytes(s, 0, 8);
    SegmentBytes(s, 9, 13);
    SegmentBytes(s, 14, 18);
    SegmentBytes(s, 19, 23);
    SegmentBytes(s, 24, 36);
    ReverseShort(FromHex(s[0..8]));
    ReverseShort(FromHex(s[9..13]));
    ReverseShort(FromHex(s[14..18]));
    NodeBytes(s, FromHex(s[24..36]));
    assert FromHex(s[19..23]) == GuidOf(s).clockSeq;
  }

  lemma NodeBytes(s: string, bytes: seq<byte>)
    requires |s| == 36 && |bytes| == 6 && forall k :: 0 <= k < 6 ==> bytes[k] == HexByte(s, 24 + 2 * k)
    ensures bytes == GuidOf(s).node
  {
    assert bytes[0] == HexByte(s, 24) && bytes[1] == HexByte(s, 26) && bytes[2] == HexByte(s, 28);
    assert bytes[3] == HexByte(s, 30) && bytes[4] == HexByte(s, 32) && bytes[5] == HexByte(s, 34);
  }

  /** The byte arrays compared with ACEs are the memory image of the structure samba parses from the same string. */
  lemma RepresentationsAgree(s: string)
    requires IsGuidString(s)
    ensures GuidStringToBytes(s) == MemoryImage(GuidOf(s))
  {
    SegmentsOfGuidString(s);
    FlattenFive(Segments(s));
    ImageBytes(s);
    var head := [HexByte(s, 6), HexByte(s, 4), HexByte(s, 2), HexByte(s, 0), HexByte(s, 11), HexByte(s, 9),
                 HexByte(s, 16), HexByte(s, 14)];
    assert head == head[..4] + head[4..6] + head[6..];
  }

  lemma LittleEndian(a: byte, b: byte, c: byte, d: byte)
    ensures var n := (a * 0x100 + b) * 0x1_0000 + (c * 0x100 + d);
            n % 0x100 == d && n / 0x100 % 0x100 == c && n / 0x1_0000 % 0x100 == b && n / 0x100_0000 == a
  {
  }

  lemma HexPart(bytes: seq<byte>)
    ensures '-' !in ToHex(bytes) && FromHex(ToHex(bytes)) == bytes && |ToHex(bytes)| == 2 * |bytes|
    ensures forall c :: c in ToHex(bytes) ==> IsHexDigit(c)
  {
    ToHexShape(bytes);
    FromHexToHex(bytes);
  }

  ghost function DisplayParts(b: seq<byte>): (parts: seq<string>)
    requires |b| == 16
    ensures |parts| == 5
  {
    [ToHex(Reverse(b[0..4])), ToHex(Reverse(b[4..6])), ToHex(Reverse(b[6..8])), ToHex(b[8..10]), ToHex(b[10..16])]
  }

  lemma DisplayPartsAreHex(b: seq<byte>, i: nat)
    requires |b| == 16 && i < 5
    ensures '-' !in DisplayParts(b)[i] && forall c :: c in DisplayParts(b)[i] ==> IsHexDigit(c)
    ensures |DisplayParts(b)[i]| == if i == 0 then 8 else if i == 4 then 12 else 4
  {
    HexPart(Reverse(b[0..4]));
    HexPart(Reverse(b[4..6]));
    HexPart(Reverse(b[6..8]));
    HexPart(b[8..10]);
    HexPart(b[10..16]);
  }

  /** Displaying 16 bytes gives a well-formed string whose bytes they are. */
  lemma DisplayThenBytes(b: seq<byte>)
    requires |b| == 16
    ensures IsGuidString(GuidToDisplayValue(b))
    ensures GuidStringToBytes(GuidToDisplayValue(b)) == b
  {
    var parts, s := DisplayParts(b), GuidToDisplayValue(b);
    forall i | 0 <= i < 5
      ensures '-' !in parts[i] && forall c :: c in parts[i] ==> IsHexDigit(c)
      ensures |parts[i]| == if i == 0 then 8 else if i == 4 then 12 else 4
    {
      DisplayPartsAreHex(b, i);
    }
    JoinFive(parts, "-");
    DisplayShape(parts);
    SplitJoined(parts, '-');
    DisplayedSegments(b, s);
    FlattenFive(Segments(s));
    FiveSlices(b);
  }

  lemma FiveSlices(b: seq<byte>)
    requires |b| == 16
    ensures b == b[0..4] + b[4..6] + b[6..8] + b[8..10] + b[10..16]
  {
  }

  lemma DisplayedSegments(b: seq<byte>, s: string)
    requires |b| == 16
    requires Split(s, '-')
          == [ToHex(Reverse(b[0..4])), ToHex(Reverse(b[4..6])), ToHex(Reverse(b[6..8])),
              ToHex(b[8..10]), ToHex(b[10..16])]
    ensures Segments(s) == [b[0..4], b[4..6], b[6..8], b[8..10], b[10..16]]
  {
    FromHexToHex(Reverse(b[0..4]));
    FromHexToHex(Reverse(b[4..6]));
    FromHexToHex(Reverse(b[6..8]));
    FromHexToHex(b[8..10]);
    FromHexToHex(b[10..16]);
    ReverseTwice(b[0..4]);
    ReverseTwice(b[4..6]);
    ReverseTwice(b[6..8]);
  }

  lemma DisplayShape(p: seq<string>)
    requires |p| == 5 && |p[0]| == 8 && |p[1]| == 4 && |p[2]| == 4 && |p[3]| == 4 && |p[4]| == 12
    requires forall i :: 0 <= i < 5 ==> forall c :: c in p[i] ==> IsHexDigit(c)
    ensures IsGuidString(p[0] + "-" + p[1] + "-" + p[2] + "-" + p[3] + "-" + p[4])
  {
    var s := p[0] + "-" + p[1] + "-" + p[2] + "-" + p[3] + "-" + p[4];
    assert s[0..8] == p[0] && s[9..13] == p[1] && s[14..18] == p[2] && s[19..23] == p[3] && s[24..36] == p[4];
    forall i | 0 <= i < 8 ensures IsHexDigit(s[i]) { assert s[i] == p[0][i]; }
    forall i | 9 <= i < 13 ensures IsHexDigit(s[i]) { assert s[i] == p[1][i - 9]; }
    forall i | 14 <= i < 18 ensures IsHexDigit(s[i]) { assert s[i] == p[2][i - 14]; }
    forall i | 19 <= i < 23 ensures IsHexDigit(s[i]) { assert s[i] == p[3][i - 19]; }
    forall i | 24 <= i < 36 ensures IsHexDigit(s[i]) { assert s[i] == p[4][i - 24]; }
  }

  /** Through the structure too: parsing the display form gives the same bytes back. */
  lemma DisplayThenParse(b: seq<byte>)
    requires |b| == 16
    ensures IsGuidString(GuidToDisplayValue(b))
    ensures MemoryImage(GuidOf(GuidToDisplayValue(b))) == b
  {
    DisplayThenBytes(b);
    RepresentationsAgree(GuidToDisplayValue(b));
  }
}
