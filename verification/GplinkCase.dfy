/** The letter case of policy names, character by character: in the gplink attribute and towards LDAP. */
module GplinkCase {
  import opened Primitives
  import opened Strings
  import opened GplinkLists
  import opened GplinkText
  import opened Gplinks

  // ---------------------------------------------------------------------------
  // The case of the gplink attribute.

  /**
   The part as it is printed, its equals sign at the given position. What is before the sign is in
   capitals if it is "dc", what is after it if the part is the same as the first; nothing else changes.
   */
  ghost predicate IsLinkPart(printed: string, part: string, first: string, sign: nat) {
    && sign < |part| && part[sign] == '=' && |printed| == |part|
    && forall i :: 0 <= i < |part| ==>
         printed[i] == if (i < sign && part[..sign] == "dc") || (i > sign && part == first) then ToUpperChar(part[i])
                       else part[i]
  }

  lemma PairParts(part: string) returns (sign: nat)
    requires IsPair(part)
    ensures sign < |part| && part[sign] == '='
    ensures Split(part, '=') == [part[..sign], part[sign + 1..]]
  {
    var fields := Split(part, '=');
    JoinedSplit(part, '=');
    JoinPair(fields, "=");
    sign := |fields[0]|;
    assert part == fields[0] + "=" + fields[1];
    assert part[..sign] == fields[0] && part[sign + 1..] == fields[1];
    assert fields == [fields[0], fields[1]];
  }

  lemma RdnCaseIsLinkPart(part: string, first: string) returns (sign: nat)
    requires IsPair(part)
    ensures IsLinkPart(RdnCase(part, first), part, first, sign)
  {
    sign := PairParts(part);
    assert part[..sign] + "=" + part[sign + 1..] == part;
  }

  lemma {:induction false} CaseRdnsParts(rdns: seq<string>, first: string)
    requires forall r :: r in rdns ==> IsPair(r)
    ensures CaseRdns(rdns, first).1 == None && |CaseRdns(rdns, first).0| == |rdns|
    ensures forall k :: 0 <= k < |rdns| ==> CaseRdns(rdns, first).0[k] == RdnCase(rdns[k], first)
  {
    if rdns != [] {
      assert rdns[0] in rdns;
      assert forall r :: r in rdns[1..] ==> r in rdns;
      CaseRdnsParts(rdns[1..], first);
    }
  }

  lemma SameMarks(a: string, b: string, c: char)
    requires ToLower(a) == ToLower(b) && IsMark(c)
    ensures c in a <==> c in b
  {
    MarksSurvive(a, c);
    MarksSurvive(b, c);
  }

  /** The parts of the printed name are the parts of the name in their printed case. */
  lemma SplitLinkCase(g: string)
    requires IsWellFormed(g)
    ensures Split(LinkCase(g), ',') == CaseRdns(Split(g, ','), Split(g, ',')[0]).0
  {
    var rdns := Split(g, ',');
    var first := rdns[0];
    var cased := CaseRdns(rdns, first).0;
    JoinedSplit(g, ',');
    CaseRdnsParts(rdns, first);
    forall p | p in cased ensures ',' !in p {
      var k :| 0 <= k < |cased| && cased[k] == p;
      RdnCaseLower(rdns[k], first);
      SameMarks(p, rdns[k], ',');
    }
    SplitJoined(cased, ',');
    assert [','] == ",";
  }

  lemma LinkCaseLength(g: string)
    requires IsWellFormed(g)
    ensures |LinkCase(g)| == |g| && ToLower(LinkCase(g)) == ToLower(g)
  {
    var rdns := Split(g, ',');
    JoinedSplit(g, ',');
    CaseRdnsLower(rdns, rdns[0]);
    SameLength(LinkCase(g), g);
    assert [','] == ",";
  }

  ghost predicate IsPrintedPart(printed: string, part: string, first: string) {
    exists sign :: IsLinkPart(printed, part, first, sign)
  }

  ghost predicate AreLinkParts(printed: seq<string>, parts: seq<string>) {
    && |printed| == |parts| > 0
    && forall k :: 0 <= k < |parts| ==> IsPrintedPart(printed[k], parts[k], parts[0])
  }

  /** A name all of whose parts are pairs is printed with as many parts, each in its printed case. */
  lemma LinkCaseParts(g: string)
    requires IsWellFormed(g)
    ensures |LinkCase(g)| == |g| && ToLower(LinkCase(g)) == ToLower(g)
    ensures AreLinkParts(Split(LinkCase(g), ','), Split(g, ','))
  {
    var rdns := Split(g, ',');
    var cased := CaseRdns(rdns, rdns[0]).0;
    LinkCaseLength(g);
    SplitLinkCase(g);
    CaseRdnsParts(rdns, rdns[0]);
    forall k | 0 <= k < |rdns| ensures IsPrintedPart(cased[k], rdns[k], rdns[0]) {
      var sign := RdnCaseIsLinkPart(rdns[k], rdns[0]);
    }
  }

  lemma SameLength(a: string, b: string)
    requires ToLower(a) == ToLower(b)
    ensures |a| == |b|
  {
    assert |ToLower(a)| == |a| && |ToLower(b)| == |b|;
  }

  lemma {:induction false} CaseRdnsStops(rdns: seq<string>, first: string, k: nat)
    requires k < |rdns| && !IsPair(rdns[k]) && forall j :: 0 <= j < k ==> IsPair(rdns[j])
    ensures CaseRdns(rdns, first).1 == Some(rdns[k])
  {
    if k > 0 {
      assert forall j :: 0 <= j < k - 1 ==> rdns[1..][j] == rdns[j + 1];
      CaseRdnsStops(rdns[1..], first, k - 1);
    }
  }

  /** Of a malformed name the first part that is not a pair is printed, as it is, and nothing else. */
  lemma FirstMalformedPart(g: string, k: nat)
    requires k < |Split(g, ',')| && !IsPair(Split(g, ',')[k])
    requires forall j :: 0 <= j < k ==> IsPair(Split(g, ',')[j])
    ensures LinkCase(g) == Split(g, ',')[k]
  {
    CaseRdnsStops(Split(g, ','), Split(g, ',')[0], k);
  }

  ghost function LinkText(prefix: string, name: string, option: string): string {
    "[" + prefix + name + ";" + option + "]"
  }

  lemma BodyIsLinkText(prefix: string, name: string, option: string)
    ensures "[" + (prefix + name + ";" + option) + "]" == LinkText(prefix, name, option)
  {
  }

  lemma AppendAssociates(before: string, body: string)
    ensures before + "[" + body + "]" == before + ("[" + body + "]")
  {
  }

  /** Each policy is written in brackets, after the prefix, with its option; the last one comes first. */
  lemma TextOfLinks(gpos: seq<string>, options: map<string, int32>)
    requires gpos != []
    ensures var option := if gpos[0] in options then options[gpos[0]] else 0;
            Print(Links(gpos, options))
            == Print(Links(gpos[1..], options)) + LinkText("LDAP://", LinkCase(gpos[0]), Number(option))
  {
    var g := gpos[0];
    var option := if g in options then options[g] else 0;
    BodyIsLinkText(LDAP_PREFIX, LinkCase(g), Number(option));
    AppendAssociates(Print(Links(gpos[1..], options)), Body(g, option));
  }

  // ---------------------------------------------------------------------------
  // The case towards LDAP.

  ghost predicate HasCapitals(given: string, part: string, sign: nat)
    requires sign < |part| && |given| == |part|
  {
    var twoValues := part[sign + 1..] == "system" || part[sign + 1..] == "policies";
    forall i :: 0 <= i < |part| ==>
      given[i] == if i < sign || (i == sign + 1 && twoValues) then ToUpperChar(part[i]) else part[i]
  }

  /** Behind the first part: the attribute is in capitals, two values have a capital, a malformed part is left alone. */
  ghost predicate IsDirectoryPart(given: string, part: string) {
    if !IsPair(part) then given == part
    else
      exists sign :: 0 <= sign < |part| && part[sign] == '=' && |given| == |part| && HasCapitals(given, part, sign)
  }

  lemma UpperAll(s: string)
    ensures |ToUpper(s)| == |s| && forall i :: 0 <= i < |s| ==> ToUpper(s)[i] == ToUpperChar(s[i])
  {
  }

  lemma DirectoryValueIs(value: string)
    ensures |DirectoryValue(value)| == |value|
    ensures var twoValues := value == "system" || value == "policies";
            forall i :: 0 <= i < |value| ==>
              DirectoryValue(value)[i] == if i == 0 && twoValues then ToUpperChar(value[i]) else value[i]
  {
  }

  lemma DirectoryRdnIs(part: string)
    ensures IsDirectoryPart(DirectoryRdn(part), part)
  {
    if IsPair(part) {
      var sign := PairParts(part);
      UpperAll(part[..sign]);
      DirectoryValueIs(part[sign + 1..]);
      assert part == part[..sign] + "=" + part[sign + 1..];
    }
  }

  lemma DirectoryPartLower(rdns: seq<string>, k: nat)
    requires k < |rdns|
    ensures ToLower(([ToUpper(rdns[0])] + DirectoryRdns(rdns[1..]))[k]) == ToLower(rdns[k])
  {
    DirectoryRdnLower(rdns[k]);
  }

  lemma SplitDirectoryCase(gpo: string)
    ensures Split(DirectoryCase(gpo), ',') == [ToUpper(Split(gpo, ',')[0])] + DirectoryRdns(Split(gpo, ',')[1..])
  {
    var rdns := Split(gpo, ',');
    var cased := [ToUpper(rdns[0])] + DirectoryRdns(rdns[1..]);
    JoinedSplit(gpo, ',');
    forall p | p in cased ensures ',' !in p {
      var k :| 0 <= k < |cased| && cased[k] == p;
      DirectoryPartLower(rdns, k);
      SameMarks(p, rdns[k], ',');
    }
    SplitJoined(cased, ',');
    assert [','] == ",";
  }

  /** Any name keeps its parts: the first is in capitals throughout, the others in the case given to LDAP. */
  lemma DirectoryCaseParts(gpo: string)
    ensures var given, parts := Split(DirectoryCase(gpo), ','), Split(gpo, ',');
            && |given| == |parts| && |given[0]| == |parts[0]|
            && (forall i :: 0 <= i < |parts[0]| ==> given[0][i] == ToUpperChar(parts[0][i]))
            && (forall k :: 1 <= k < |parts| ==> IsDirectoryPart(given[k], parts[k]))
  {
    var parts := Split(gpo, ',');
    SplitDirectoryCase(gpo);
    UpperAll(parts[0]);
    forall k | 1 <= k < |parts| ensures IsDirectoryPart(DirectoryRdn(parts[k]), parts[k]) {
      DirectoryRdnIs(parts[k]);
    }
  }
}
