/** The loops of src/adldap/samba/sddl.c above the flag tables, proved against the functions of module Sddl. */
module SddlMethods {
  import opened Primitives
  import opened Aces
  import opened SidText
  import opened SddlFlags
  import opened SddlSids
  import opened Sddl

  method SddlEncodeSid(sid: Sid, domain: Sid) returns (s: string)
    ensures s == EncodeSid(sid, domain)
  {
    var inDomain := InDomain(domain, sid);
    var text := SidToString(sid);
    var rid := LastRid(sid);
    for i := 0 to |SID_CODES|
      invariant EncodeSidFrom(sid, domain, i) == EncodeSid(sid, domain)
    {
      var entry := SID_CODES[i];
      if entry.WellKnown? {
        if text == SidToString(entry.sid) { return entry.code; }
      } else if rid != 0 && inDomain && entry.rid == rid {
        return entry.code;
      }
    }
    return text;
  }

  /** Reads one SID and moves the cursor past it. */
  method SddlDecodeSid(sddl: string, domain: Sid) returns (r: Option<(Sid, string)>)
    ensures r == DecodeSid(sddl, domain)
  {
    if "S-" <= sddl {
      var len := SidSpan(sddl[2..]) + 2;
      if len < 5 { return None; }
      if sddl[len - 1] == 'D' && len < |sddl| && sddl[len] == ':' {
        len := len - 1;
      }
      var parsed := ParseSid(sddl[..len]);
      if parsed.None? || parsed.value.1 != "" { return None; }
      return Some((parsed.value.0, sddl[len..]));
    }
    var i := 0;
    while i < |SID_CODES| && !(SID_CODES[i].code <= sddl)
      invariant i <= |SID_CODES| && FindCode(sddl, i) == FindCode(sddl, 0)
    {
      i := i + 1;
    }
    if i == |SID_CODES| || |sddl| < 2 { return None; }
    var sid := SidOfCode(SID_CODES[i], domain);
    return if sid.None? then None else Some((sid.value, sddl[2..]));
  }

  /** Cuts the ACE text into six tokens at its first five semicolons. */
  method SplitTokens(str0: string) returns (tokens: Option<seq<string>>)
    ensures tokens == Tokens(str0, 5)
  {
    var str, read := str0, [];
    if Tokens(str0, 5).Some? {
      assert [] + Tokens(str0, 5).value == Tokens(str0, 5).value;
    }
    for i := 0 to 5
      invariant Tokens(str0, 5) == PrependTokens(read, Tokens(str, 5 - i))
    {
      var cut := Cut(str, ';');
      if cut.None? { return None; }
      TokensStep(read, cut.value.0, Tokens(cut.value.1, 4 - i));
      read := read + [cut.value.0];
      str := cut.value.1;
    }
    return Some(read + [str]);
  }

  ghost function PrependTokens(read: seq<string>, rest: Option<seq<string>>): Option<seq<string>> {
    if rest.None? then None else Some(read + rest.value)
  }

  lemma TokensStep(read: seq<string>, token: string, rest: Option<seq<string>>)
    ensures PrependTokens(read, if rest.None? then None else Some([token] + rest.value)) ==
            PrependTokens(read + [token], rest)
  {
    if rest.Some? {
      assert read + ([token] + rest.value) == read + [token] + rest.value;
    }
  }

  method PrintInOrder<T>(items: seq<T>, print_: T -> Option<string>) returns (text: Option<string>)
    ensures text == PrintItems(items, print_)
  {
    var printed := "";
    assert items[0..] == items;
    PrependNothing(PrintItems(items, print_));
    for i := 0 to |items|
      invariant PrintItems(items, print_) == Prepend(printed, PrintItems(items[i..], print_))
    {
      assert items[i..][0] == items[i] && items[i..][1..] == items[i + 1..];
      var item := print_(items[i]);
      if item.None? { return None; }
      PrependStep(printed, "(" + item.value + ")", PrintItems(items[i + 1..], print_));
      printed := printed + ("(" + item.value + ")");
    }
    assert printed + "" == printed;
    return Some(printed);
  }

  method SddlEncodeAcl(aces: seq<Ace>, flags: Mask, domain: Sid) returns (sddl: Option<string>)
    ensures sddl == EncodeAcl(aces, flags, domain)
  {
    var names := SddlFlagsToString(ACL_FLAGS, flags, false);
    var text := PrintInOrder(aces, ace => EncodeAce(ace, domain));
    return if names.None? || text.None? then None else Some(names.value + text.value);
  }

  lemma PrependNothing(rest: Option<string>)
    ensures Prepend("", rest) == rest
  {
    if rest.Some? { assert "" + rest.value == rest.value; }
  }

  ghost function Prepend(text: string, rest: Option<string>): Option<string> {
    if rest.None? then None else Some(text + rest.value)
  }

  lemma PrependStep(text: string, item: string, rest: Option<string>)
    ensures Prepend(text, if rest.None? then None else Some(item + rest.value)) == Prepend(text + item, rest)
  {
    if rest.Some? { assert text + (item + rest.value) == text + item + rest.value; }
  }

  /** Reads the ACEs one by one, moving the cursor past each closing parenthesis. */
  method SddlDecodeAces(sddl0: string, domain: Sid) returns (r: Option<(seq<Ace>, string)>)
    ensures r == DecodeAces(sddl0, domain)
  {
    ghost var parse := (text: string) => DecodeAce(text, domain);
    var sddl, aces := sddl0, [];
    while sddl != "" && sddl[0] == '('
      invariant ReadItems(sddl, aces, parse) == DecodeAces(sddl0, domain)
      decreases |sddl|
    {
      var cut := Cut(sddl[1..], ')');
      if cut.None? { return None; }
      var ace := DecodeAce(cut.value.0, domain);
      if ace.None? { return None; }
      aces := aces + [ace.value];
      sddl := cut.value.1;
    }
    return Some((aces, sddl));
  }

  method SddlDecode(sddl0: string, domain: Sid) returns (sd: Option<Descriptor>)
    ensures sd == Decode(sddl0, domain)
  {
    var sddl, read := sddl0, EMPTY;
    while sddl != ""
      invariant DecodeFrom(sddl, read, domain) == Decode(sddl0, domain)
      decreases |sddl|
    {
      var part := DecodePart(sddl, read, domain);
      if part.None? { return None; }
      read, sddl := part.value.0, part.value.1;
    }
    return Some(read);
  }
}
