/** The gplink attribute as text: parsing it, printing it back in its letter case, and what survives both. */
module GplinkText {
  import opened Primitives
  import opened Numbers
  import opened Strings
  import opened GplinkLists

  const LDAP_PREFIX := "LDAP://"

  function RemoveChar(s: string, c: char): string {
    if s == "" then "" else (if s[0] == c then "" else [s[0]]) + RemoveChar(s[1..], c)
  }

  function RemoveText(s: string, text: string): string
    requires text != ""
  {
    if s == "" then ""
    else if text <= s then RemoveText(s[|text|..], text)
    else [s[0]] + RemoveText(s[1..], text)
  }

  function Trim(s: string): string {
    if s != "" && IsSpace(s[0]) then Trim(s[1..])
    else if s != "" && IsSpace(s[|s| - 1]) then Trim(s[..|s| - 1])
    else s
  }

  /** Zero for anything that is not a number in range. */
  function ToInt(s: string): int32 {
    var t := Trim(s);
    var digits := if t != "" && (t[0] == '-' || t[0] == '+') then t[1..] else t;
    var scanned := ScanDigits(digits, Decimal, 0);
    var magnitude: int := scanned.0;
    var value := if t != "" && t[0] == '-' then -magnitude else magnitude;
    if digits == "" || scanned.1 != "" || value < -0x8000_0000 || value >= 0x8000_0000 then 0 else value
  }

  function Magnitude(n: int): nat {
    if n < 0 then -n else n
  }

  function Number(n: int32): string {
    if n < 0 then "-" + ToBase(Magnitude(n), Decimal) else ToBase(Magnitude(n), Decimal)
  }

  // ---------------------------------------------------------------------------
  // Parsing.

  function LdapToGpo(s: string): string {
    ToLower(RemoveText(s, LDAP_PREFIX))
  }

  function ParsePart(part: string, l: Links): Links {
    var fields := Split(part, ';');
    if part == "" || |fields| != 2 then l
    else
      var g := LdapToGpo(fields[0]);
      Links([g] + l.gpos, l.options[g := ToInt(fields[1])])
  }

  function ParseParts(parts: seq<string>, l: Links): Links {
    if parts == [] then l else ParseParts(parts[1..], ParsePart(parts[0], l))
  }

  function Parse(s: string): Links {
    if s == "" then NO_LINKS else ParseParts(Split(RemoveChar(s, '['), ']'), NO_LINKS)
  }

  // ---------------------------------------------------------------------------
  // Printing.

  predicate IsPair(rdn: string) {
    |Split(rdn, '=')| == 2
  }

  function RdnCase(rdn: string, first: string): string
    requires IsPair(rdn)
  {
    var attribute, value := Split(rdn, '=')[0], Split(rdn, '=')[1];
    (if attribute == "dc" then ToUpper(attribute) else attribute) + "=" +
    (if rdn == first then ToUpper(value) else value)
  }

  /** The parts in their printed case, or the first part that is not a pair. */
  function CaseRdns(rdns: seq<string>, first: string): (seq<string>, Option<string>) {
    if rdns == [] then ([], None)
    else if !IsPair(rdns[0]) then ([], Some(rdns[0]))
    else
      var rest := CaseRdns(rdns[1..], first);
      ([RdnCase(rdns[0], first)] + rest.0, rest.1)
  }

  function LinkCase(gpo: string): string {
    var rdns := Split(gpo, ',');
    var cased := CaseRdns(rdns, rdns[0]);
    if cased.1.Some? then cased.1.value else Join(cased.0, ",")
  }

  function OptionOf(options: map<string, int32>, g: string): int32 {
    if g in options then options[g] else 0
  }

  function Body(g: string, option: int32): string {
    LDAP_PREFIX + LinkCase(g) + ";" + Number(option)
  }

  /** The last listed policy is printed first. */
  function PrintList(gpos: seq<string>, options: map<string, int32>): string {
    if gpos == [] then ""
    else PrintList(gpos[1..], options) + "[" + Body(gpos[0], OptionOf(options, gpos[0])) + "]"
  }

  function Print(l: Links): string {
    PrintList(l.gpos, l.options)
  }

  // ---------------------------------------------------------------------------
  // Numbers survive.

  lemma NumberReadsBack(n: int32)
    ensures ToInt(Number(n)) == n
    ensures forall c :: c in Number(n) ==> c == '-' || '0' <= c <= '9'
  {
    var digits, s := ToBase(Magnitude(n), Decimal), Number(n);
    PrintedDigits(Magnitude(n), Decimal);
    ScanPrinted(Magnitude(n), Decimal, "");
    assert digits + "" == digits;
    DecimalDigits(digits);
    if n < 0 {
      assert s == "-" + digits && s[1..] == digits;
    } else {
      assert s == digits;
    }
    assert forall c :: c in s ==> c == '-' || '0' <= c <= '9';
    NothingToTrim(s);
  }

  lemma DecimalDigits(digits: string)
    requires forall c :: c in digits ==> IsDigit(c, Decimal) && IsPrintedDigit(c)
    ensures forall c :: c in digits ==> '0' <= c <= '9'
    ensures digits != "" ==> '0' <= digits[0] <= '9'
  {
    forall c | c in digits ensures '0' <= c <= '9' {
      OneDigit(c);
    }
    assert digits != "" ==> digits[0] in digits;
  }

  lemma OneDigit(c: char)
    requires DigitValue(c) < 10
    ensures '0' <= c <= '9'
  {
  }

  lemma NothingToTrim(s: string)
    requires forall c :: c in s ==> !IsSpace(c)
    ensures Trim(s) == s
  {
    if s != "" {
      assert s[0] in s && s[|s| - 1] in s;
    }
  }

  // ---------------------------------------------------------------------------
  // Letter case: printing changes nothing else, unless a part is malformed.

  lemma LowerAppend(a: string, b: string)
    ensures ToLower(a + b) == ToLower(a) + ToLower(b)
  {
  }

  lemma RdnCaseLower(rdn: string, first: string)
    requires IsPair(rdn)
    ensures ToLower(RdnCase(rdn, first)) == ToLower(rdn)
  {
    var fields := Split(rdn, '=');
    JoinedSplit(rdn, '=');
    JoinPair(fields, "=");
    assert "=" == ['='];
  }

  lemma {:induction false} CaseRdnsLower(rdns: seq<string>, first: string)
    requires forall r :: r in rdns ==> IsPair(r)
    ensures CaseRdns(rdns, first).1 == None && |CaseRdns(rdns, first).0| == |rdns|
    ensures ToLower(Join(CaseRdns(rdns, first).0, ",")) == ToLower(Join(rdns, ","))
  {
    if rdns != [] {
      var cased, rest := CaseRdns(rdns, first).0, CaseRdns(rdns[1..], first).0;
      RdnCaseLower(rdns[0], first);
      CaseRdnsLower(rdns[1..], first);
      assert cased[1..] == rest;
      if |rdns| > 1 {
        assert Join(cased, ",") == RdnCase(rdns[0], first) + "," + Join(rest, ",");
        LowerAppend(RdnCase(rdns[0], first) + ",", Join(rest, ","));
        LowerAppend(rdns[0] + ",", Join(rdns[1..], ","));
        LowerAppend(RdnCase(rdns[0], first), ",");
        LowerAppend(rdns[0], ",");
      }
    }
  }

  lemma {:induction false} CaseRdnsMalformed(rdns: seq<string>, first: string)
    ensures CaseRdns(rdns, first).1 == None <==> forall r :: r in rdns ==> IsPair(r)
    ensures CaseRdns(rdns, first).1.Some? ==> CaseRdns(rdns, first).1.value in rdns
  {
    if rdns != [] {
      assert rdns == [rdns[0]] + rdns[1..];
      if IsPair(rdns[0]) {
        CaseRdnsMalformed(rdns[1..], first);
      }
    }
  }

  predicate IsWellFormed(g: string) {
    forall r :: r in Split(g, ',') ==> IsPair(r)
  }

  /** Printing in link case and lowering again gives the name back exactly when every part is a pair or there is
      only one part: of a name with a malformed part among several, only that part is printed. */
  lemma LinkCaseExactly(g: string)
    requires IsLower(g)
    ensures ToLower(LinkCase(g)) == g <==> (IsWellFormed(g) || ',' !in g)
  {
    var rdns := Split(g, ',');
    JoinedSplit(g, ',');
    CaseRdnsMalformed(rdns, rdns[0]);
    if IsWellFormed(g) {
      CaseRdnsLower(rdns, rdns[0]);
    } else {
      var r := CaseRdns(rdns, rdns[0]).1.value;
      if ',' in g {
        MarksSurvive(r, ',');
      } else {
        SplitWhole(g, ',');
      }
    }
  }

  predicate IsMark(c: char) {
    !('A' <= c <= 'Z') && !('a' <= c <= 'z')
  }

  lemma MarksSurvive(s: string, c: char)
    requires IsMark(c)
    ensures c in s <==> c in ToLower(s)
  {
    if c in s {
      var i :| 0 <= i < |s| && s[i] == c;
      assert ToLower(s)[i] == c;
    }
    if c in ToLower(s) {
      var i :| 0 <= i < |s| && ToLower(s)[i] == c;
      assert s[i] == c;
    }
  }

  lemma {:induction false} PartsOf(s: string, separator: char, c: char)
    requires c !in s
    ensures forall p :: p in Split(s, separator) ==> c !in p
  {
    if s != "" {
      assert s == [s[0]] + s[1..];
      PartsOf(s[1..], separator, c);
    }
  }

  /** Printing a name introduces no delimiter. */
  lemma LinkCaseMarks(g: string, c: char)
    requires IsMark(c) && c !in g
    ensures c !in LinkCase(g)
  {
    var rdns := Split(g, ',');
    CaseRdnsMalformed(rdns, rdns[0]);
    PartsOf(g, ',', c);
    if IsWellFormed(g) {
      CaseRdnsLower(rdns, rdns[0]);
      JoinedSplit(g, ',');
      MarksSurvive(g, c);
      MarksSurvive(LinkCase(g), c);
    }
  }

  // ---------------------------------------------------------------------------
  // Taking the printed text apart again.

  /** The text occurs somewhere in s. */
  predicate Occurs(text: string, s: string) {
    text <= s || (s != "" && Occurs(text, s[1..]))
  }

  /** Removing all occurrences shortens the string exactly when there is one, and brings no new character. */
  lemma {:induction false} RemoveTextExactly(s: string, text: string, c: char)
    requires text != ""
    ensures RemoveText(s, text) == s <==> !Occurs(text, s)
    ensures |RemoveText(s, text)| <= |s| && (Occurs(text, s) ==> |RemoveText(s, text)| < |s|)
    ensures c !in s ==> c !in RemoveText(s, text)
    decreases |s|
  {
    if s != "" {
      if text <= s {
        RemoveTextExactly(s[|text|..], text, c);
      } else {
        RemoveTextExactly(s[1..], text, c);
        assert s == [s[0]] + s[1..];
      }
    }
  }

  /** What a printed name is read back as. */
  function ComesBackAs(g: string): string {
    ToLower(RemoveText(LinkCase(g), LDAP_PREFIX))
  }

  /** The name is printed whole, and what is printed does not itself hold the prefix that parsing removes. */
  ghost predicate Survives(g: string) {
    (IsWellFormed(g) || ',' !in g) && !Occurs(LDAP_PREFIX, LinkCase(g))
  }

  lemma ComesBackExactly(g: string)
    requires IsLower(g)
    ensures ComesBackAs(g) == g <==> Survives(g)
  {
    var printed := LinkCase(g);
    var read := RemoveText(printed, LDAP_PREFIX);
    RemoveTextExactly(printed, LDAP_PREFIX, ',');
    LinkCaseExactly(g);
    if !IsWellFormed(g) && ',' in g {
      MalformedIsPart(g);
      MarksSurvive(read, ',');
    }
  }

  /** Of a name with a malformed part, the part alone is printed. */
  lemma MalformedIsPart(g: string)
    requires !IsWellFormed(g)
    ensures ',' !in LinkCase(g)
  {
    var rdns := Split(g, ',');
    CaseRdnsMalformed(rdns, rdns[0]);
    JoinedSplit(g, ',');
  }

  lemma {:induction false} RemoveCharAppend(a: string, b: string, c: char)
    ensures RemoveChar(a + b, c) == RemoveChar(a, c) + RemoveChar(b, c)
  {
    if a == "" {
      assert a + b == b;
    } else {
      assert (a + b)[1..] == a[1..] + b;
      RemoveCharAppend(a[1..], b, c);
    }
  }

  lemma {:induction false} NoCharToRemove(s: string, c: char)
    requires c !in s
    ensures RemoveChar(s, c) == s
  {
    if s != "" {
      NoCharToRemove(s[1..], c);
    }
  }

  /** The delimiters of the attribute do not occur in the name. */
  predicate IsPlain(g: string) {
    '[' !in g && ']' !in g && ';' !in g
  }

  lemma BodyMarks(g: string, option: int32, c: char)
    requires c !in g && (c == '[' || c == ']')
    ensures c !in Body(g, option)
  {
    LinkCaseMarks(g, c);
    NumberReadsBack(option);
    NotInside(LDAP_PREFIX, LinkCase(g), ";", Number(option), c);
  }

  lemma NotInside(first: string, second: string, third: string, fourth: string, c: char)
    requires c !in first && c !in second && c !in third && c !in fourth
    ensures c !in first + second + third + fourth
  {
  }

  lemma BodyParses(g: string, option: int32, l: Links)
    requires IsPlain(g)
    ensures ParsePart(Body(g, option), l) ==
            Links([ComesBackAs(g)] + l.gpos, l.options[ComesBackAs(g) := option])
  {
    var head := LDAP_PREFIX + LinkCase(g);
    LinkCaseMarks(g, ';');
    NumberReadsBack(option);
    SplitFirst(head, Number(option), ';');
    SplitWhole(Number(option), ';');
    assert Body(g, option) == head + [';'] + Number(option);
    assert Split(Body(g, option), ';') == [head, Number(option)];
    assert head[|LDAP_PREFIX|..] == LinkCase(g) && LDAP_PREFIX <= head;
  }

  /** The printed parts without their brackets, in printed order. */
  function Bodies(gpos: seq<string>, options: map<string, int32>): seq<string> {
    if gpos == [] then []
    else Bodies(gpos[1..], options) + [Body(gpos[0], OptionOf(options, gpos[0]))]
  }

  ghost predicate AllPlain(gpos: seq<string>) {
    forall g :: g in gpos ==> IsPlain(g)
  }

  lemma {:induction false} BodiesAreClean(gpos: seq<string>, options: map<string, int32>)
    requires AllPlain(gpos)
    ensures forall b :: b in Bodies(gpos, options) ==> ']' !in b
  {
    if gpos != [] {
      assert gpos[0] in gpos;
      BodiesAreClean(gpos[1..], options);
      BodyMarks(gpos[0], OptionOf(options, gpos[0]), ']');
    }
  }

  lemma {:induction false} JoinClosed(parts: seq<string>, last: string)
    ensures Join(parts + [last] + [""], "]") == Join(parts + [""], "]") + last + "]"
  {
    var longer := parts + [last] + [""];
    if parts == [] {
      assert longer == [last, ""] && longer[1..] == [""];
    } else {
      assert longer[1..] == parts[1..] + [last] + [""];
      assert (parts + [""])[1..] == parts[1..] + [""];
      JoinClosed(parts[1..], last);
    }
  }

  /** Without the opening brackets, the text is the parts, each with its closing bracket. */
  lemma {:induction false} PrintedParts(gpos: seq<string>, options: map<string, int32>)
    requires AllPlain(gpos)
    ensures RemoveChar(PrintList(gpos, options), '[') == Join(Bodies(gpos, options) + [""], "]")
  {
    if gpos != [] {
      var before, body := PrintList(gpos[1..], options), Body(gpos[0], OptionOf(options, gpos[0]));
      assert gpos[0] in gpos;
      PrintedParts(gpos[1..], options);
      BodyMarks(gpos[0], OptionOf(options, gpos[0]), '[');
      OnePart(before, body);
      JoinClosed(Bodies(gpos[1..], options), body);
    }
  }

  lemma OnePart(before: string, body: string)
    requires '[' !in body
    ensures RemoveChar(before + "[" + body + "]", '[') == RemoveChar(before, '[') + body + "]"
  {
    assert RemoveChar("[", '[') == "" && RemoveChar("]", '[') == "]";
    FourParts(before, "[", body, "]", '[');
    NoCharToRemove(body, '[');
  }

  lemma FourParts(a: string, b: string, c: string, d: string, mark: char)
    ensures RemoveChar(a + b + c + d, mark) ==
            RemoveChar(a, mark) + RemoveChar(b, mark) + RemoveChar(c, mark) + RemoveChar(d, mark)
  {
    RemoveCharAppend(a + b + c, d, mark);
    RemoveCharAppend(a + b, c, mark);
    RemoveCharAppend(a, b, mark);
  }

  lemma {:induction false} ParsePartsSnoc(parts: seq<string>, last: string, l: Links)
    ensures ParseParts(parts + [last], l) == ParsePart(last, ParseParts(parts, l))
  {
    if parts == [] {
      assert parts + [last] == [last];
    } else {
      assert (parts + [last])[1..] == parts[1..] + [last];
      ParsePartsSnoc(parts[1..], last, ParsePart(parts[0], l));
    }
  }

  /** How a listed name comes back. */
  function Reread(gpos: seq<string>): (r: seq<string>)
    ensures |r| == |gpos| && forall i :: 0 <= i < |gpos| ==> r[i] == ComesBackAs(gpos[i])
  {
    seq(|gpos|, i requires 0 <= i < |gpos| => ComesBackAs(gpos[i]))
  }

  function OptionsOf(gpos: seq<string>, options: map<string, int32>): map<string, int32> {
    map g | g in gpos :: OptionOf(options, g)
  }

  lemma {:induction false} BodiesParse(gpos: seq<string>, options: map<string, int32>)
    requires AllPlain(gpos)
    ensures ParseParts(Bodies(gpos, options), NO_LINKS).gpos == Reread(gpos)
    ensures Reread(gpos) == gpos ==> ParseParts(Bodies(gpos, options), NO_LINKS).options == OptionsOf(gpos, options)
  {
    if gpos != [] {
      var option := OptionOf(options, gpos[0]);
      assert gpos[0] in gpos;
      BodiesParse(gpos[1..], options);
      ParsePartsSnoc(Bodies(gpos[1..], options), Body(gpos[0], option), NO_LINKS);
      BodyParses(gpos[0], option, ParseParts(Bodies(gpos[1..], options), NO_LINKS));
      RereadMore(gpos, options);
    }
  }

  lemma RereadMore(gpos: seq<string>, options: map<string, int32>)
    requires gpos != []
    ensures Reread(gpos) == [ComesBackAs(gpos[0])] + Reread(gpos[1..])
    ensures Reread(gpos) == gpos ==> Reread(gpos[1..]) == gpos[1..] && ComesBackAs(gpos[0]) == gpos[0]
    ensures OptionsOf(gpos[1..], options)[gpos[0] := OptionOf(options, gpos[0])] == OptionsOf(gpos, options)
  {
    HeadAndTail(gpos, Reread(gpos), Reread(gpos[1..]));
    OptionsMore(gpos, options);
  }

  lemma HeadAndTail(gpos: seq<string>, all: seq<string>, rest: seq<string>)
    requires |gpos| == |all| > 0 && |rest| == |all| - 1 && forall i :: 0 <= i < |rest| ==> rest[i] == all[i + 1]
    ensures all == [all[0]] + rest
    ensures all == gpos ==> rest == gpos[1..]
  {
  }

  lemma OptionsMore(gpos: seq<string>, options: map<string, int32>)
    requires gpos != []
    ensures OptionsOf(gpos[1..], options)[gpos[0] := OptionOf(options, gpos[0])] == OptionsOf(gpos, options)
  {
    assert gpos == [gpos[0]] + gpos[1..];
  }

  lemma PrintThenParse(l: Links)
    requires AllPlain(l.gpos)
    ensures Parse(Print(l)) == ParseParts(Bodies(l.gpos, l.options), NO_LINKS)
  {
    var bodies := Bodies(l.gpos, l.options);
    if l.gpos != [] {
      PrintedParts(l.gpos, l.options);
      BodiesAreClean(l.gpos, l.options);
      assert "]" == [']'];
      SplitJoined(bodies + [""], ']');
      ParsePartsSnoc(bodies, "", NO_LINKS);
      assert ParsePart("", ParseParts(bodies, NO_LINKS)) == ParseParts(bodies, NO_LINKS);
    }
  }

  /** Printing and parsing gives the same list and the same options, exactly when every listed name survives. */
  lemma RoundTripExactly(l: Links)
    requires Valid(l) && AllPlain(l.gpos)
    ensures Parse(Print(l)) == l <==> forall g :: g in l.gpos ==> Survives(g)
  {
    PrintThenParse(l);
    BodiesParse(l.gpos, l.options);
    RereadExactly(l.gpos);
    SameLinks(l, Parse(Print(l)), Reread(l.gpos));
  }

  lemma SameLinks(l: Links, parsed: Links, reread: seq<string>)
    requires Valid(l) && parsed.gpos == reread
    requires reread == l.gpos ==> parsed.options == OptionsOf(l.gpos, l.options)
    ensures parsed == l <==> reread == l.gpos
  {
    assert OptionsOf(l.gpos, l.options) == l.options;
  }

  lemma RereadExactly(gpos: seq<string>)
    requires forall g :: g in gpos ==> IsLower(g)
    ensures Reread(gpos) == gpos <==> forall g :: g in gpos ==> Survives(g)
  {
    forall g | g in gpos ensures ComesBackAs(g) == g <==> Survives(g) {
      ComesBackExactly(g);
    }
    if Reread(gpos) == gpos {
      forall g | g in gpos ensures Survives(g) {
        var i :| 0 <= i < |gpos| && gpos[i] == g;
        assert Reread(gpos)[i] == ComesBackAs(g);
      }
    } else {
      var i :| 0 <= i < |gpos| && Reread(gpos)[i] != gpos[i];
      assert gpos[i] in gpos && !Survives(gpos[i]);
    }
  }

  ghost predicate Prints(l: Links) {
    Valid(l) && forall g :: g in l.gpos ==> IsPlain(g) && Survives(g)
  }

  /** Two links print the same exactly when they list the same policies, in the same order, with the same options. */
  lemma SameTextExactly(a: Links, b: Links)
    requires Prints(a) && Prints(b)
    ensures Print(a) == Print(b) <==> a == b
  {
    RoundTripExactly(a);
    RoundTripExactly(b);
  }

  // ---------------------------------------------------------------------------
  // Parsing arbitrary text.

  /** Whatever the text, the parsed options speak of exactly the listed policies, named in lower case. */
  lemma ParsedIsValid(s: string)
    ensures Valid(Parse(s))
  {
    if s != "" {
      PartsKeepValid(Split(RemoveChar(s, '['), ']'), NO_LINKS);
    }
  }

  lemma {:induction false} PartsKeepValid(parts: seq<string>, l: Links)
    requires Valid(l)
    ensures Valid(ParseParts(parts, l))
    decreases |parts|
  {
    if parts != [] {
      var fields := Split(parts[0], ';');
      if parts[0] != "" && |fields| == 2 {
        LowerTwice(RemoveText(fields[0], LDAP_PREFIX));
      }
      PartsKeepValid(parts[1..], ParsePart(parts[0], l));
    }
  }

  // ---------------------------------------------------------------------------
  // Names that do not survive.

  /** Whether a link survives the round trip. */
  predicate ReadsBack(l: Links) {
    Parse(Print(l)) == l
  }

  /** One listed policy without options. */
  function Single(g: string): Links {
    Links([g], map[g := 0])
  }

  lemma SingleIsLost(g: string)
    requires IsLower(g) && IsPlain(g) && !Survives(g)
    ensures !ReadsBack(Single(g))
  {
    assert g in Single(g).gpos;
    RoundTripExactly(Single(g));
  }

  /** A second part that is no pair is all that is printed. */
  lemma MalformedPartIsLost(first: string, second: string)
    requires ',' !in first && ',' !in second && '=' !in second
    requires IsLower(first + "," + second) && IsPlain(first + "," + second)
    ensures !ReadsBack(Single(first + "," + second))
  {
    var g := first + "," + second;
    assert g == first + [','] + second && g[|first|] == ',';
    SplitFirst(first, second, ',');
    SplitWhole(second, ',');
    SplitWhole(second, '=');
    assert Split(g, ',')[1] == second && second in Split(g, ',');
    SingleIsLost(g);
  }

  /** Printing puts the first value in capitals, which can make it the prefix that parsing removes. */
  lemma PrefixInNameIsLost(attribute: string, value: string)
    requires ',' !in attribute && '=' !in attribute && ',' !in value && '=' !in value
    requires IsLower(attribute + "=" + value) && IsPlain(attribute + "=" + value) && LDAP_PREFIX <= ToUpper(value)
    ensures !ReadsBack(Single(attribute + "=" + value))
  {
    var g := attribute + "=" + value;
    assert g == attribute + ['='] + value;
    SplitWhole(g, ',');
    SplitFirst(attribute, value, '=');
    SplitWhole(value, '=');
    var head := (if attribute == "dc" then ToUpper(attribute) else attribute) + "=";
    OnePair(g);
    assert RdnCase(g, g) == head + ToUpper(value);
    OccursAfter(LDAP_PREFIX, head, ToUpper(value));
    SingleIsLost(g);
  }

  lemma {:induction false} OccursAfter(text: string, before: string, s: string)
    requires text <= s
    ensures Occurs(text, before + s)
  {
    if before == "" {
      assert before + s == s;
    } else {
      assert (before + s)[1..] == before[1..] + s;
      OccursAfter(text, before[1..], s);
    }
  }

  lemma OnePair(g: string)
    requires Split(g, ',') == [g] && IsPair(g)
    ensures LinkCase(g) == RdnCase(g, g)
  {
    var rest := CaseRdns([g][1..], g);
    assert [g][1..] == [] && rest == ([], None);
    assert CaseRdns([g], g) == ([RdnCase(g, g)] + [], None);
  }

  lemma LostShape(g: string, first: string, second: string)
    requires g == "cn=a,b" && first == "cn=a" && second == "b"
    ensures g == first + "," + second && IsLower(g) && IsPlain(g)
    ensures ',' !in first && ',' !in second && '=' !in second
  {
  }

  lemma PrefixShape(h: string, attribute: string, value: string)
    requires h == "cn=ldap://x" && attribute == "cn" && value == "ldap://x"
    ensures h == attribute + "=" + value && IsLower(h) && IsPlain(h)
    ensures ',' !in attribute && '=' !in attribute && ',' !in value && '=' !in value
    ensures LDAP_PREFIX <= ToUpper(value)
  {
    assert ToUpper(value)[..7] == LDAP_PREFIX;
  }

  /** For example. */
  lemma LostNames(g: string, h: string)
    requires g == "cn=a,b" && h == "cn=ldap://x"
    ensures !ReadsBack(Single(g)) && !ReadsBack(Single(h))
  {
    LostShape(g, g[..4], g[5..]);
    MalformedPartIsLost(g[..4], g[5..]);
    PrefixShape(h, h[..2], h[3..]);
    PrefixInNameIsLost(h[..2], h[3..]);
  }
}
