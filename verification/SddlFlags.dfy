/** Flags as letter codes: the tables of src/adldap/samba/sddl.c, their printer and their greedy parser. */
module SddlFlags {
  import opened Primitives

  type Name = s: string | s != "" witness "P"

  datatype FlagEntry = FlagEntry(name: Name, bits: Mask)

  type FlagMap = seq<FlagEntry>

  predicate IsUpper(c: char) {
    'A' <= c <= 'Z'
  }

  /** The first entry whose name starts the text. */
  function MapFlag(table: FlagMap, str: string): (r: Option<FlagEntry>)
    ensures r.Some? ==> r.value.name <= str
  {
    if table == [] then None
    else if table[0].name <= str then Some(table[0])
    else MapFlag(table[1..], str)
  }

  /** Reads names as long as they are known; returns all their bits and the text from the first unknown one. */
  function MapFlags(table: FlagMap, str: string, read: Mask): (r: (Mask, string))
    ensures |r.1| <= |str|
    decreases |str|
  {
    if str == "" || !IsUpper(str[0]) then (read, str)
    else
      var found := MapFlag(table, str);
      if found.None? then (read, str)
      else MapFlags(table, str[|found.value.name|..], read + found.value.bits)
  }

  function FindExact(table: FlagMap, flags: Mask): (r: Option<FlagEntry>)
    ensures r.Some? ==> r.value in table && r.value.bits == flags
  {
    if table == [] then None
    else if table[0].bits == flags then Some(table[0])
    else FindExact(table[1..], flags)
  }

  /** The names of the entries that meet the flags, and the flags that no entry accounts for. */
  function BitNames(table: FlagMap, flags: Mask): (string, Mask) {
    if table == [] then ("", flags)
    else if table[0].bits * flags != {} then
      var (names, left) := BitNames(table[1..], flags - table[0].bits);
      (table[0].name + names, left)
    else BitNames(table[1..], flags)
  }

  function FlagsToString(table: FlagMap, flags: Mask, checkAll: bool): Option<string> {
    var exact := FindExact(table, flags);
    if exact.Some? then Some(exact.value.name)
    else
      var (names, left) := BitNames(table, flags);
      if checkAll && left != {} then None else Some(names)
  }

  // ---------------------------------------------------------------------------
  // The loops of the source, proved against the functions above.

  method SddlMapFlag(table: FlagMap, str: string) returns (entry: Option<FlagEntry>)
    ensures entry == MapFlag(table, str)
  {
    assert table[0..] == table;
    for i := 0 to |table|
      invariant MapFlag(table[i..], str) == MapFlag(table, str)
    {
      if table[i].name <= str {
        return Some(table[i]);
      }
      assert table[i..][1..] == table[i + 1..];
    }
    return None;
  }

  method SddlMapFlags(table: FlagMap, str0: string) returns (flags: Mask, consumed: nat)
    ensures consumed <= |str0| && (flags, str0[consumed..]) == MapFlags(table, str0, {})
  {
    var str := str0;
    flags, consumed := {}, 0;
    while str != "" && IsUpper(str[0])
      invariant consumed <= |str0| && str == str0[consumed..]
      invariant MapFlags(table, str, flags) == MapFlags(table, str0, {})
      decreases |str|
    {
      var found := SddlMapFlag(table, str);
      if found.None? {
        break;
      }
      flags := flags + found.value.bits;
      consumed := consumed + |found.value.name|;
      str := str[|found.value.name|..];
    }
  }

  method SddlFlagsToString(table: FlagMap, flags0: Mask, checkAll: bool) returns (s: Option<string>)
    ensures s == FlagsToString(table, flags0, checkAll)
  {
    assert table[0..] == table;
    for i := 0 to |table|
      invariant FindExact(table[i..], flags0) == FindExact(table, flags0)
    {
      if table[i].bits == flags0 {
        return Some(table[i].name);
      }
      assert table[i..][1..] == table[i + 1..];
    }
    var flags, names := flags0, "";
    for i := 0 to |table|
      invariant names + BitNames(table[i..], flags).0 == BitNames(table, flags0).0
      invariant BitNames(table[i..], flags).1 == BitNames(table, flags0).1
    {
      assert table[i..][1..] == table[i + 1..];
      if flags * table[i].bits != {} {
        names := names + table[i].name;
        flags := flags - table[i].bits;
      }
    }
    assert table[|table|..] == [] && names + "" == names;
    return if checkAll && flags != {} then None else Some(names);
  }

  // ---------------------------------------------------------------------------
  // Printed flags read back.

  /** No name starts another one, every name is in capitals, and every entry is one bit. */
  ghost predicate IsLetterTable(table: FlagMap) {
    && (forall i, j :: 0 <= i < |table| && 0 <= j < |table| && i != j ==> !(table[i].name <= table[j].name))
    && (forall e :: e in table ==> IsUpper(e.name[0]))
    && (forall e :: e in table ==> IsOneBit(e.bits))
  }

  ghost predicate IsOneBit(bits: Mask) {
    exists b: Bit :: bits == {b}
  }

  ghost function AllBits(table: FlagMap): Mask {
    if table == [] then {} else table[0].bits + AllBits(table[1..])
  }

  lemma PrefixesCompare(a: string, b: string, s: string)
    requires a <= s && b <= s
    ensures a <= b || b <= a
  {
    if |a| <= |b| {
      assert a == s[..|a|] == b[..|a|];
    } else {
      assert b == s[..|b|] == a[..|b|];
    }
  }

  lemma {:induction false} MapFlagFinds(table: FlagMap, k: nat, rest: string)
    requires k < |table|
    requires forall i :: 0 <= i < k ==> !(table[i].name <= table[k].name) && !(table[k].name <= table[i].name)
    ensures MapFlag(table, table[k].name + rest) == Some(table[k])
  {
    var str := table[k].name + rest;
    assert table[k].name <= str;
    if k > 0 {
      if table[0].name <= str {
        PrefixesCompare(table[0].name, table[k].name, str);
      }
      assert forall i :: 0 <= i < k - 1 ==> table[1..][i] == table[i + 1];
      MapFlagFinds(table[1..], k - 1, rest);
    }
  }

  lemma MapFlagsStep(table: FlagMap, k: nat, rest: string, read: Mask)
    requires IsLetterTable(table) && k < |table|
    ensures MapFlags(table, table[k].name + rest, read) == MapFlags(table, rest, read + table[k].bits)
  {
    var str := table[k].name + rest;
    MapFlagFinds(table, k, rest);
    assert table[k] in table;
    assert str[0] == table[k].name[0];
    assert str[|table[k].name|..] == rest;
  }

  lemma {:induction false} ParseBitNames(table: FlagMap, i: nat, flags: Mask, rest: string, read: Mask)
    requires IsLetterTable(table) && i <= |table|
    ensures MapFlags(table, BitNames(table[i..], flags).0 + rest, read)
            == MapFlags(table, rest, read + flags * AllBits(table[i..]))
    ensures BitNames(table[i..], flags).1 == flags - AllBits(table[i..])
    decreases |table| - i
  {
    if i == |table| {
      assert "" + rest == rest;
      assert read + flags * {} == read;
    } else {
      var e, tail := table[i], table[i + 1..];
      assert table[i..][1..] == tail && e in table;
      var b :| e.bits == {b};
      OneBit(b, flags, read, AllBits(tail));
      if e.bits * flags != {} {
        var names := BitNames(tail, flags - e.bits).0;
        ParseBitNames(table, i + 1, flags - e.bits, rest, read + e.bits);
        MapFlagsStep(table, i, names + rest, read);
        assert e.name + names + rest == e.name + (names + rest);
      } else {
        ParseBitNames(table, i + 1, flags, rest, read);
      }
    }
  }

  lemma OneBit(b: Bit, flags: Mask, read: Mask, later: Mask)
    ensures {b} * flags != {} ==> read + {b} + (flags - {b}) * later == read + flags * ({b} + later)
    ensures {b} * flags == {} ==> flags * later == flags * ({b} + later) && flags - later == flags - ({b} + later)
    ensures flags - {b} - later == flags - ({b} + later)
  {
    assert b in flags ==> b in {b} * flags;
    assert {b} * flags == if b in flags then {b} else {};
  }

  /** Where the greedy parser stops: at anything that is not the start of a known name. */
  ghost predicate EndsFlags(table: FlagMap, rest: string) {
    rest == "" || !IsUpper(rest[0]) || MapFlag(table, rest).None?
  }

  /** What was printed is read back, up to the bits the table has names for, and nothing more is consumed. */
  lemma FlagsRoundTrip(table: FlagMap, flags: Mask, checkAll: bool, rest: string)
    requires IsLetterTable(table) && EndsFlags(table, rest) && FlagsToString(table, flags, checkAll).Some?
    ensures MapFlags(table, FlagsToString(table, flags, checkAll).value + rest, {}) == (flags * AllBits(table), rest)
    ensures checkAll ==> flags <= AllBits(table)
  {
    var exact := FindExact(table, flags);
    assert table[0..] == table;
    ParseBitNames(table, 0, flags, rest, {});
    if exact.Some? {
      var k :| 0 <= k < |table| && table[k] == exact.value;
      MapFlagsStep(table, k, rest, {});
      EntryWithin(table, k);
      assert flags * AllBits(table) == flags;
      assert {} + table[k].bits == flags;
    } else {
      assert {} + flags * AllBits(table) == flags * AllBits(table);
    }
  }

  /** A complete print, with nothing after it, reads back as it was. */
  lemma FlagsReadBack(table: FlagMap, flags: Mask, s: string)
    requires IsLetterTable(table) && FlagsToString(table, flags, true) == Some(s)
    ensures MapFlags(table, s, {}) == (flags, "")
  {
    FlagsRoundTrip(table, flags, true, "");
    assert s + "" == s;
    assert flags * AllBits(table) == flags;
  }

  lemma FlagsPrintable(table: FlagMap, flags: Mask, checkAll: bool)
    requires IsLetterTable(table) && (checkAll ==> flags <= AllBits(table))
    ensures FlagsToString(table, flags, checkAll).Some?
  {
    assert table[0..] == table;
    ParseBitNames(table, 0, flags, "", {});
  }

  /** A whole token is matched by its own entry, even when another name would also start with it. */
  lemma {:induction false} MapFlagWhole(table: FlagMap, k: nat)
    requires k < |table| && forall i :: 0 <= i < k ==> !(table[i].name <= table[k].name)
    ensures MapFlag(table, table[k].name) == Some(table[k])
  {
    if k > 0 {
      assert forall i :: 0 <= i < k - 1 ==> table[1..][i] == table[i + 1];
      MapFlagWhole(table[1..], k - 1);
    }
  }

  lemma {:induction false} EntryWithin(table: FlagMap, k: nat)
    requires k < |table|
    ensures table[k].bits <= AllBits(table)
  {
    if k > 0 {
      EntryWithin(table[1..], k - 1);
    }
  }
}
