/** The loops that build GUID bytes from segments and GUID text from bytes. */
module GuidMethods {
  import opened Primitives
  import opened Strings
  import opened Guids

  method SegmentListToGuidBytes(segments: seq<seq<byte>>) returns (out: seq<byte>)
    ensures out == Flatten(segments)
  {
    out := [];
    for i := 0 to |segments|
      invariant out == Flatten(segments[..i])
    {
      FlattenSnoc(segments[..i], segments[i]);
      assert segments[..i + 1] == segments[..i] + [segments[i]];
      out := out + segments[i];
    }
    assert segments[..|segments|] == segments;
  }

  lemma {:induction false} FlattenSnoc(segments: seq<seq<byte>>, last: seq<byte>)
    ensures Flatten(segments + [last]) == Flatten(segments) + last
  {
    if segments == [] {
      assert segments + [last] == [last] && Flatten([last]) == last + Flatten([]);
    } else {
      assert (segments + [last])[1..] == segments[1..] + [last];
      FlattenSnoc(segments[1..], last);
    }
  }

  /** An empty string gives no bytes; the segments of any other are indexed without a check. */
  method StringToBytes(s: string) returns (bytes: seq<byte>)
    requires s == "" || |Split(s, '-')| >= 3
    ensures bytes == GuidStringToBytes(s)
    ensures IsGuidString(s) ==> bytes == MemoryImage(GuidOf(s))
  {
    if s == "" { return []; }
    var segments := GuidStringToSegmentList(s);
    bytes := SegmentListToGuidBytes(segments);
    if IsGuidString(s) {
      RepresentationsAgree(s);
    }
  }

  function HexParts(segments: seq<seq<byte>>): (parts: seq<string>)
    ensures |parts| == |segments| && forall i :: 0 <= i < |segments| ==> parts[i] == ToHex(segments[i])
  {
    seq(|segments|, i requires 0 <= i < |segments| => ToHex(segments[i]))
  }

  lemma NextSegment(segments: seq<seq<byte>>, last: seq<byte>)
    ensures Join(HexParts(segments + [last]), "-") ==
            if segments == [] then ToHex(last) else Join(HexParts(segments), "-") + "-" + ToHex(last)
  {
    assert HexParts(segments + [last]) == HexParts(segments) + [ToHex(last)];
    JoinSnoc(HexParts(segments), ToHex(last), "-");
  }

  method MakeGuidString(segments: seq<seq<byte>>) returns (out: string)
    ensures out == Join(HexParts(segments), "-")
  {
    out := "";
    for i := 0 to |segments|
      invariant out == Join(HexParts(segments[..i]), "-")
    {
      if i > 0 {
        out := out + "-";
      }
      NextSegment(segments[..i], segments[i]);
      assert segments[..i + 1] == segments[..i] + [segments[i]];
      out := out + ToHex(segments[i]);
    }
    assert segments[..|segments|] == segments;
  }

  /** The part of a byte array that starts at a position, as far as the array reaches. */
  function Mid(bytes: seq<byte>, position: nat, length: nat): seq<byte> {
    if position >= |bytes| then []
    else if position + length >= |bytes| then bytes[position..]
    else bytes[position..position + length]
  }

  function DisplaySegments(bytes: seq<byte>): seq<seq<byte>> {
    [Reverse(Mid(bytes, 0, 4)), Reverse(Mid(bytes, 4, 2)), Reverse(Mid(bytes, 6, 2)), Mid(bytes, 8, 2),
        Mid(bytes, 10, 6)]
  }

  /** Of a shorter array the missing segments are empty, of a longer one the end is left out. */
  method DisplayValue(bytes: seq<byte>) returns (out: string)
    ensures out == Join(HexParts(DisplaySegments(bytes)), "-")
    ensures |bytes| == 16 ==> out == GuidToDisplayValue(bytes) && IsGuidString(out) && GuidStringToBytes(out) == bytes
    ensures |bytes| > 16 ==> out == GuidToDisplayValue(bytes[..16])
  {
    var segments := [Mid(bytes, 0, 4), Mid(bytes, 4, 2), Mid(bytes, 6, 2), Mid(bytes, 8, 2), Mid(bytes, 10, 6)];
    segments := segments[0 := Reverse(segments[0])];
    segments := segments[1 := Reverse(segments[1])];
    segments := segments[2 := Reverse(segments[2])];
    assert segments == DisplaySegments(bytes);
    out := MakeGuidString(segments);
    if |bytes| >= 16 {
      SixteenBytes(bytes);
      DisplayThenBytes(bytes[..16]);
      assert |bytes| == 16 ==> bytes[..16] == bytes;
    }
  }

  lemma SixteenBytes(bytes: seq<byte>)
    requires |bytes| >= 16
    ensures Join(HexParts(DisplaySegments(bytes)), "-") == GuidToDisplayValue(bytes[..16])
  {
    var b := bytes[..16];
    assert Mid(bytes, 0, 4) == b[0..4] && Mid(bytes, 4, 2) == b[4..6] && Mid(bytes, 6, 2) == b[6..8];
    assert Mid(bytes, 8, 2) == b[8..10] && Mid(bytes, 10, 6) == b[10..16];
    assert HexParts(DisplaySegments(bytes)) == DisplayParts(b);
  }
}
