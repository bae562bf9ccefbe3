/** The gplink object: its two fields, its mutators and its queries. */
module Gplinks {
  import opened Primitives
  import opened Strings
  import opened GplinkLists
  import opened GplinkText

  // ---------------------------------------------------------------------------
  // The case in which a name is given to LDAP.

  function DirectoryRdn(rdn: string): string {
    var fields := Split(rdn, '=');
    if |fields| != 2 then rdn
    else ToUpper(fields[0]) + "=" + DirectoryValue(fields[1])
  }

  function DirectoryValue(value: string): string {
    if value == "system" then "System" else if value == "policies" then "Policies" else value
  }

  function DirectoryRdns(rdns: seq<string>): (r: seq<string>)
    ensures |r| == |rdns| && forall i :: 0 <= i < |rdns| ==> r[i] == DirectoryRdn(rdns[i])
  {
    seq(|rdns|, i requires 0 <= i < |rdns| => DirectoryRdn(rdns[i]))
  }

  function DirectoryCase(gpo: string): string {
    var rdns := Split(gpo, ',');
    Join([ToUpper(rdns[0])] + DirectoryRdns(rdns[1..]), ",")
  }

  function DirectoryCases(gpos: seq<string>): (r: seq<string>)
    ensures |r| == |gpos| && forall i :: 0 <= i < |gpos| ==> r[i] == DirectoryCase(gpos[i])
  {
    seq(|gpos|, i requires 0 <= i < |gpos| => DirectoryCase(gpos[i]))
  }

  lemma DirectoryRdnLower(rdn: string)
    ensures ToLower(DirectoryRdn(rdn)) == ToLower(rdn)
  {
    var fields := Split(rdn, '=');
    JoinedSplit(rdn, '=');
    if |fields| == 2 {
      JoinPair(fields, "=");
      assert "=" == ['='];
      assert ToLower("System") == "system" == ToLower("system");
      assert ToLower("Policies") == "policies" == ToLower("policies");
      SameLowerJoin(ToUpper(fields[0]), fields[0], DirectoryValue(fields[1]), fields[1], "=");
    }
  }

  lemma SameLowerJoin(a: string, b: string, c: string, d: string, separator: string)
    requires ToLower(a) == ToLower(b) && ToLower(c) == ToLower(d)
    ensures ToLower(a + separator + c) == ToLower(b + separator + d)
  {
    LowerAppend(a + separator, c);
    LowerAppend(a, separator);
    LowerAppend(b + separator, d);
    LowerAppend(b, separator);
  }

  lemma {:induction false} SameLowerParts(a: seq<string>, b: seq<string>)
    requires |a| == |b| && forall i :: 0 <= i < |a| ==> ToLower(a[i]) == ToLower(b[i])
    ensures ToLower(Join(a, ",")) == ToLower(Join(b, ","))
  {
    if |a| > 1 {
      SameLowerParts(a[1..], b[1..]);
      SameLowerJoin(a[0], b[0], Join(a[1..], ","), Join(b[1..], ","), ",");
    }
  }

  /** The case given to LDAP differs from the listed name in case only, so it still names the same policy. */
  lemma DirectoryCaseLower(gpo: string)
    ensures ToLower(DirectoryCase(gpo)) == ToLower(gpo)
  {
    var rdns := Split(gpo, ',');
    var cased := [ToUpper(rdns[0])] + DirectoryRdns(rdns[1..]);
    JoinedSplit(gpo, ',');
    forall i | 0 <= i < |rdns| ensures ToLower(cased[i]) == ToLower(rdns[i]) {
      if i > 0 {
        assert cased[i] == DirectoryRdns(rdns[1..])[i - 1];
        DirectoryRdnLower(rdns[i]);
      }
    }
    SameLowerParts(cased, rdns);
    assert "," == [','];
  }

  function WithOptionSet(gpos: seq<string>, options: map<string, int32>, option: GplinkOption): seq<string> {
    if gpos == [] then []
    else
      var g := gpos[0];
      (if g in options && IsSet(options[g], option) then [g] else []) + WithOptionSet(gpos[1..], options, option)
  }

  lemma {:induction false} WithOptionSetSnoc(
      gpos: seq<string>, g: string, options: map<string, int32>, option: GplinkOption)
    ensures WithOptionSet(gpos + [g], options, option) ==
            WithOptionSet(gpos, options, option) + if g in options && IsSet(options[g], option) then [g] else []
  {
    if gpos == [] {
      assert gpos + [g] == [g];
    } else {
      assert (gpos + [g])[1..] == gpos[1..] + [g];
      WithOptionSetSnoc(gpos[1..], g, options, option);
    }
  }

  lemma NextName(l: Links, i: nat, option: GplinkOption)
    requires Valid(l) && i < |l.gpos|
    ensures DirectoryCases(WithOptionSet(l.gpos[..i + 1], l.options, option)) ==
            DirectoryCases(WithOptionSet(l.gpos[..i], l.options, option)) +
            if HasOption(l, DirectoryCase(l.gpos[i]), option) then [DirectoryCase(l.gpos[i])] else []
  {
    var g := l.gpos[i];
    assert g in l.gpos;
    DirectoryCaseLower(g);
    WithOptionSetSnoc(l.gpos[..i], g, l.options, option);
    assert l.gpos[..i + 1] == l.gpos[..i] + [g];
    var before := WithOptionSet(l.gpos[..i], l.options, option);
    assert DirectoryCases(before + [g]) == DirectoryCases(before) + [DirectoryCase(g)];
  }

  lemma PrintListSnoc(gpos: seq<string>, options: map<string, int32>, k: nat)
    requires k < |gpos|
    ensures PrintList(gpos[k..], options) ==
            PrintList(gpos[k + 1..], options) + "[" + Body(gpos[k], OptionOf(options, gpos[k])) + "]"
  {
    assert gpos[k..][1..] == gpos[k + 1..];
  }

  lemma CaseStep(done: seq<string>, rdns: seq<string>, first: string, i: nat)
    requires i < |rdns|
    ensures !IsPair(rdns[i]) ==> CaseRdns(rdns[i..], first).1 == Some(rdns[i])
    ensures IsPair(rdns[i]) ==>
              done + CaseRdns(rdns[i..], first).0 ==
              (done + [RdnCase(rdns[i], first)]) + CaseRdns(rdns[i + 1..], first).0 &&
              CaseRdns(rdns[i..], first).1 == CaseRdns(rdns[i + 1..], first).1
  {
    assert rdns[i..][1..] == rdns[i + 1..];
  }

  method GpoDnToGplinkCase(rdns: seq<string>) returns (text: string)
    requires rdns != []
    ensures var cased := CaseRdns(rdns, rdns[0]);
            text == if cased.1.Some? then cased.1.value else Join(cased.0, ",")
  {
    var rdnsCase, first := [], rdns[0];
    ghost var all := CaseRdns(rdns, first);
    assert rdns[0..] == rdns && [] + all.0 == all.0;
    for i := 0 to |rdns|
      invariant all.0 == rdnsCase + CaseRdns(rdns[i..], first).0
      invariant all.1 == CaseRdns(rdns[i..], first).1
    {
      CaseStep(rdnsCase, rdns, first, i);
      if !IsPair(rdns[i]) {
        return rdns[i];
      }
      rdnsCase := rdnsCase + [RdnCase(rdns[i], first)];
    }
    assert rdns[|rdns|..] == [] && rdnsCase + [] == rdnsCase;
    text := Join(rdnsCase, ",");
  }

  class Gplink {
    var gpoList: seq<string>
    var options: map<string, int32>

    ghost function State(): Links
      reads this
    {
      Links(gpoList, options)
    }

    constructor ()
      ensures State() == NO_LINKS
    {
      gpoList, options := [], map[];
    }

    constructor FromText(text: string)
      ensures State() == Parse(text)
      ensures Valid(State())
    {
      gpoList, options := [], map[];
      new;
      ParsedIsValid(text);
      if text == "" { return; }
      var parts := Split(RemoveChar(text, '['), ']');
      for k := 0 to |parts|
        invariant ParseParts(parts[k..], State()) == ParseParts(parts, NO_LINKS)
      {
        assert parts[k..][1..] == parts[k + 1..];
        var fields := Split(parts[k], ';');
        if parts[k] == "" || |fields| != 2 { continue; }
        var gpo := LdapToGpo(fields[0]);
        gpoList := [gpo] + gpoList;
        options := options[gpo := ToInt(fields[1])];
      }
    }

    method ToString() returns (text: string)
      ensures text == Print(State())
    {
      text := "";
      var k := |gpoList|;
      while k > 0
        invariant 0 <= k <= |gpoList|
        invariant text == PrintList(gpoList[k..], options)
      {
        k := k - 1;
        PrintListSnoc(gpoList, options, k);
        var name := GpoDnToGplinkCase(Split(gpoList[k], ','));
        text := text + "[" + (LDAP_PREFIX + name + ";" + Number(OptionOf(options, gpoList[k]))) + "]";
      }
      assert gpoList[0..] == gpoList;
    }

    predicate Contains(dn: string)
      reads this
    {
      ToLower(dn) in options
    }

    method GetGpoList() returns (names: seq<string>)
      ensures names == DirectoryCases(gpoList)
    {
      names := [];
      for i := 0 to |gpoList|
        invariant |names| == i && forall k :: 0 <= k < i ==> names[k] == DirectoryCase(gpoList[k])
      {
        names := names + [DirectoryCase(gpoList[i])];
      }
    }

    method Add(dn: string)
      modifies this
      ensures State() == Added(old(State()), dn)
    {
      if Contains(dn) { return; }
      gpoList := gpoList + [ToLower(dn)];
      options := options[ToLower(dn) := 0];
    }

    method Remove(dn: string)
      modifies this
      ensures State() == Removed(old(State()), dn)
    {
      if !Contains(dn) { return; }
      gpoList := Without(gpoList, ToLower(dn));
      options := options - {ToLower(dn)};
    }

    method MoveUp(dn: string)
      modifies this
      ensures State() == MovedUp(old(State()), dn)
    {
      if !Contains(dn) { return; }
      var i := IndexOf(gpoList, ToLower(dn));
      if i > 0 {
        gpoList := MoveItem(gpoList, i, i - 1);
      }
    }

    /** The guard has no lower bound: it is validity that rules out the position -1. */
    method MoveDown(dn: string)
      requires Valid(State())
      modifies this
      ensures State() == MovedDown(old(State()), dn)
    {
      if !Contains(dn) { return; }
      var i := IndexOf(gpoList, ToLower(dn));
      if i < |gpoList| - 1 {
        gpoList := MoveItem(gpoList, i, i + 1);
      }
    }

    method Move(fromOrder: int, toOrder: int)
      modifies this
      ensures State() == Moved(old(State()), fromOrder, toOrder)
    {
      if fromOrder > |gpoList| || toOrder > |gpoList| || fromOrder < 1 || toOrder < 1 { return; }
      gpoList := MoveItem(gpoList, fromOrder - 1, toOrder - 1);
    }

    method GetOption(dn: string, option: GplinkOption) returns (isSet: bool)
      ensures isSet == HasOption(State(), dn, option)
    {
      if !Contains(dn) { return false; }
      isSet := IsSet(options[ToLower(dn)], option);
    }

    method SetOption(dn: string, option: GplinkOption, value: bool)
      modifies this
      ensures State() == WithOption(old(State()), dn, option, value)
    {
      if !Contains(dn) { return; }
      options := options[ToLower(dn) := SetBit(options[ToLower(dn)], option, value)];
    }

    /** The comparison is of printed texts; between printable links it is equality of lists and options. */
    method Equals(other: Gplink) returns (same: bool)
      ensures same == (Print(State()) == Print(other.State()))
      ensures Prints(State()) && Prints(other.State()) ==> (same <==> State() == other.State())
    {
      var text := ToString();
      var otherText := other.ToString();
      same := text == otherText;
      if Prints(State()) && Prints(other.State()) {
        SameTextExactly(State(), other.State());
      }
    }

    /** The query goes by the directory case of each name, and still finds exactly the listed policies with the
        option. */
    method GpoDnList(option: GplinkOption) returns (names: seq<string>)
      requires Valid(State())
      ensures names == DirectoryCases(WithOptionSet(gpoList, options, option))
    {
      var all := GetGpoList();
      names := [];
      for i := 0 to |all|
        invariant names == DirectoryCases(WithOptionSet(gpoList[..i], options, option))
      {
        var isSet := GetOption(all[i], option);
        NextName(State(), i, option);
        if isSet {
          names := names + [all[i]];
        }
      }
      assert gpoList[..|all|] == gpoList;
    }
  }
}
