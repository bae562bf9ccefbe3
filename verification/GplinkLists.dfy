/** The ordered list of linked policies with an option value for each, and what its mutators do to it. */
module GplinkLists {
  import opened Strings

  type int32 = x: int | -0x8000_0000 <= x < 0x8000_0000

  datatype GplinkOption = NoOption | Disabled | Enforced

  datatype Links = Links(gpos: seq<string>, options: map<string, int32>)

  const NO_LINKS := Links([], map[])

  predicate IsLower(s: string) {
    ToLower(s) == s
  }

  /** The options speak of exactly the listed policies, whose names are in lower case. */
  ghost predicate Valid(l: Links) {
    forall g :: (g in l.gpos <==> g in l.options) && (g in l.gpos ==> IsLower(g))
  }

  ghost predicate NoDuplicates(gpos: seq<string>) {
    forall i, j :: 0 <= i < j < |gpos| ==> gpos[i] != gpos[j]
  }

  // ---------------------------------------------------------------------------
  // Option values: the bits of a two's complement number.

  /** Division rounds down here, so this is the k-th bit of negative numbers too. */
  function BitAt(n: int, k: nat): bool
    decreases k
  {
    if k == 0 then n % 2 == 1 else BitAt(n / 2, k - 1)
  }

  function IsSet(n: int32, option: GplinkOption): bool {
    match option
    case NoOption => true
    case Disabled => BitAt(n, 0)
    case Enforced => BitAt(n, 1)
  }

  function SetBit(n: int32, option: GplinkOption, value: bool): int32 {
    if option == NoOption || IsSet(n, option) == value then n
    else
      var weight := if option == Disabled then 1 else 2;
      assert BitAt(n, 1) == (n / 2 % 2 == 1);
      if value then n + weight else n - weight
  }

  /** Setting an option gives its bit the value and leaves the other bits alone; the empty option has no bit. */
  lemma SetBitChangesOneBit(n: int32, option: GplinkOption, value: bool, k: nat)
    ensures BitAt(SetBit(n, option, value), k) ==
            if (option == Disabled && k == 0) || (option == Enforced && k == 1) then value else BitAt(n, k)
  {
    if k > 1 {
      HighBitsStay(n, option, value, k);
    } else {
      LowBits(n);
      LowBits(SetBit(n, option, value));
    }
  }

  lemma HighBitsStay(n: int32, option: GplinkOption, value: bool, k: nat)
    requires k > 1
    ensures BitAt(SetBit(n, option, value), k) == BitAt(n, k)
  {
    var m := SetBit(n, option, value);
    LowBits(n);
    assert m / 4 == n / 4;
    HighBits(n, k);
    HighBits(m, k);
  }

  lemma LowBits(n: int)
    ensures BitAt(n, 0) == (n % 4 == 1 || n % 4 == 3) && BitAt(n, 1) == (n % 4 >= 2)
  {
    assert BitAt(n, 1) == BitAt(n / 2, 0);
  }

  /** A link is disabled by the lowest bit of its option value and enforced by the next one; no option is always set. */
  lemma OptionBits(n: int32)
    ensures IsSet(n, Disabled) <==> n % 4 == 1 || n % 4 == 3
    ensures IsSet(n, Enforced) <==> n % 4 == 2 || n % 4 == 3
    ensures IsSet(n, NoOption)
  {
    LowBits(n);
  }

  lemma HighBits(n: int, k: nat)
    requires k > 1
    ensures BitAt(n, k) == BitAt(n / 4, k - 2)
  {
    assert n / 2 / 2 == n / 4;
    assert BitAt(n, k) == BitAt(n / 2, k - 1) == BitAt(n / 2 / 2, k - 2);
  }

  // ---------------------------------------------------------------------------
  // The operations.

  function Added(l: Links, dn: string): Links {
    var g := ToLower(dn);
    if g in l.options then l else Links(l.gpos + [g], l.options[g := 0])
  }

  function Without(gpos: seq<string>, g: string): (rest: seq<string>)
    ensures forall h :: h in rest <==> h in gpos && h != g
  {
    if gpos == [] then []
    else if gpos[0] == g then Without(gpos[1..], g)
    else [gpos[0]] + Without(gpos[1..], g)
  }

  function Removed(l: Links, dn: string): Links {
    var g := ToLower(dn);
    if g !in l.options then l else Links(Without(l.gpos, g), l.options - {g})
  }

  /** The first position of g, or -1. */
  function IndexOf(gpos: seq<string>, g: string): (i: int)
    ensures -1 <= i < |gpos| && (i < 0 <==> g !in gpos)
    ensures i >= 0 ==> gpos[i] == g && g !in gpos[..i]
  {
    if gpos == [] then -1
    else if gpos[0] == g then 0
    else
      var i := IndexOf(gpos[1..], g);
      if i < 0 then -1 else i + 1
  }

  function TakeOut(gpos: seq<string>, i: nat): seq<string>
    requires i < |gpos|
  {
    gpos[..i] + gpos[i + 1..]
  }

  function MoveItem(gpos: seq<string>, from: nat, to: nat): seq<string>
    requires from < |gpos| && to < |gpos|
  {
    var rest := TakeOut(gpos, from);
    rest[..to] + [gpos[from]] + rest[to..]
  }

  function MovedUp(l: Links, dn: string): Links {
    var i := IndexOf(l.gpos, ToLower(dn));
    if ToLower(dn) in l.options && i > 0 then l.(gpos := MoveItem(l.gpos, i, i - 1)) else l
  }

  function MovedDown(l: Links, dn: string): Links {
    var i := IndexOf(l.gpos, ToLower(dn));
    if ToLower(dn) in l.options && 0 <= i < |l.gpos| - 1 then l.(gpos := MoveItem(l.gpos, i, i + 1)) else l
  }

  function Moved(l: Links, fromOrder: int, toOrder: int): Links {
    if fromOrder > |l.gpos| || toOrder > |l.gpos| || fromOrder < 1 || toOrder < 1 then l
    else l.(gpos := MoveItem(l.gpos, fromOrder - 1, toOrder - 1))
  }

  function WithOption(l: Links, dn: string, option: GplinkOption, value: bool): Links {
    var g := ToLower(dn);
    if g !in l.options then l else l.(options := l.options[g := SetBit(l.options[g], option, value)])
  }

  function HasOption(l: Links, dn: string, option: GplinkOption): bool {
    var g := ToLower(dn);
    g in l.options && IsSet(l.options[g], option)
  }

  function Order(l: Links, dn: string): int {
    IndexOf(l.gpos, ToLower(dn)) + 1
  }

  /** Orders count from one, at the first occurrence; a policy that is not listed has order zero. */
  lemma OrderExactly(l: Links, dn: string, k: nat)
    requires k < |l.gpos|
    ensures Order(l, dn) == k + 1 <==> l.gpos[k] == ToLower(dn) && forall j :: 0 <= j < k ==> l.gpos[j] != ToLower(dn)
    ensures Order(l, dn) == 0 <==> ToLower(dn) !in l.gpos
  {
    NoneBefore(l.gpos, ToLower(dn));
  }

  lemma NoneBefore(gpos: seq<string>, g: string)
    ensures forall j :: 0 <= j < IndexOf(gpos, g) ==> gpos[j] != g
  {
    var i := IndexOf(gpos, g);
    forall j | 0 <= j < i ensures gpos[j] != g {
      assert gpos[..i][j] == gpos[j];
    }
  }

  // ---------------------------------------------------------------------------
  // Moving.

  /** A move is a permutation that puts the policy where it was asked and keeps the order of the others. */
  lemma MovePlaces(gpos: seq<string>, from: nat, to: nat)
    requires from < |gpos| && to < |gpos|
    ensures |MoveItem(gpos, from, to)| == |gpos| && MoveItem(gpos, from, to)[to] == gpos[from]
    ensures TakeOut(MoveItem(gpos, from, to), to) == TakeOut(gpos, from)
    ensures multiset(MoveItem(gpos, from, to)) == multiset(gpos)
  {
    var rest := TakeOut(gpos, from);
    TakenOut(gpos, from);
    Inserted(rest, to, gpos[from]);
  }

  lemma TakenOut(gpos: seq<string>, i: nat)
    requires i < |gpos|
    ensures multiset(gpos) == multiset(TakeOut(gpos, i)) + multiset{gpos[i]}
  {
    assert gpos == gpos[..i] + [gpos[i]] + gpos[i + 1..];
  }

  lemma Inserted(rest: seq<string>, i: nat, g: string)
    requires i <= |rest|
    ensures multiset(rest[..i] + [g] + rest[i..]) == multiset(rest) + multiset{g}
    ensures TakeOut(rest[..i] + [g] + rest[i..], i) == rest
  {
    assert rest == rest[..i] + rest[i..];
  }

  /** Moving back undoes a move. */
  lemma MoveBack(gpos: seq<string>, from: nat, to: nat)
    requires from < |gpos| && to < |gpos|
    ensures |MoveItem(gpos, from, to)| == |gpos| && MoveItem(MoveItem(gpos, from, to), to, from) == gpos
  {
    MovePlaces(gpos, from, to);
    var rest := TakeOut(gpos, from);
    assert rest[..from] == gpos[..from] && rest[from..] == gpos[from + 1..];
  }

  /** A move up that has a place to go takes the policy one place up, and moving down undoes it. */
  lemma MoveDownUndoesMoveUp(l: Links, dn: string)
    requires ToLower(dn) in l.options && Order(l, dn) > 1
    ensures Order(MovedUp(l, dn), dn) == Order(l, dn) - 1
    ensures MovedDown(MovedUp(l, dn), dn) == l
  {
    var g, i := ToLower(dn), IndexOf(l.gpos, ToLower(dn));
    var up := MoveItem(l.gpos, i, i - 1);
    MovePlaces(l.gpos, i, i - 1);
    assert up[..i - 1] == l.gpos[..i - 1];
    IndexIs(up, g, i - 1);
    MoveBack(l.gpos, i, i - 1);
  }

  /** Moving up undoes a move down, unless the policy is listed again right below. */
  lemma MoveUpUndoesMoveDown(l: Links, dn: string)
    requires ToLower(dn) in l.options && 1 <= Order(l, dn) < |l.gpos|
    requires l.gpos[Order(l, dn)] != ToLower(dn)
    ensures Order(MovedDown(l, dn), dn) == Order(l, dn) + 1
    ensures MovedUp(MovedDown(l, dn), dn) == l
  {
    var g, i := ToLower(dn), IndexOf(l.gpos, ToLower(dn));
    var down := MoveItem(l.gpos, i, i + 1);
    MovePlaces(l.gpos, i, i + 1);
    assert down[..i + 1] == l.gpos[..i] + [l.gpos[i + 1]];
    IndexIs(down, g, i + 1);
    MoveBack(l.gpos, i, i + 1);
  }

  lemma IndexIs(gpos: seq<string>, g: string, i: nat)
    requires i < |gpos| && gpos[i] == g && g !in gpos[..i]
    ensures IndexOf(gpos, g) == i
  {
    var j := IndexOf(gpos, g);
    assert g in gpos;
    assert forall k :: 0 <= k < i ==> gpos[k] in gpos[..i];
    assert forall k :: 0 <= k < j ==> gpos[k] in gpos[..j];
  }

  // ---------------------------------------------------------------------------
  // Whole runs.

  datatype Command =
    | Add(dn: string)
    | Remove(dn: string)
    | MoveUp(dn: string)
    | MoveDown(dn: string)
    | Move(fromOrder: int, toOrder: int)
    | SetOption(dn: string, option: GplinkOption, value: bool)

  function Apply(l: Links, c: Command): Links {
    match c
    case Add(dn) => Added(l, dn)
    case Remove(dn) => Removed(l, dn)
    case MoveUp(dn) => MovedUp(l, dn)
    case MoveDown(dn) => MovedDown(l, dn)
    case Move(fromOrder, toOrder) => Moved(l, fromOrder, toOrder)
    case SetOption(dn, option, value) => WithOption(l, dn, option, value)
  }

  function Run(l: Links, commands: seq<Command>): Links
    decreases |commands|
  {
    if commands == [] then l else Run(Apply(l, commands[0]), commands[1..])
  }

  /** Over any run the options speak of exactly the listed policies, and no policy gets listed twice. */
  lemma {:induction false} RunKeepsValid(l: Links, commands: seq<Command>)
    requires Valid(l)
    ensures Valid(Run(l, commands))
    ensures NoDuplicates(l.gpos) ==> NoDuplicates(Run(l, commands).gpos)
    decreases |commands|
  {
    if commands != [] {
      StepKeepsValid(l, commands[0]);
      if NoDuplicates(l.gpos) {
        StepKeepsUnique(l, commands[0]);
      }
      RunKeepsValid(Apply(l, commands[0]), commands[1..]);
    }
  }

  lemma StepKeepsValid(l: Links, c: Command)
    requires Valid(l)
    ensures Valid(Apply(l, c))
  {
    match c
    case Add(dn) => LowerTwice(dn);
    case Remove(dn) =>
    case SetOption(dn, option, value) =>
    case MoveUp(dn) => MoveStepPermutes(l, c);
    case MoveDown(dn) => MoveStepPermutes(l, c);
    case Move(fromOrder, toOrder) => MoveStepPermutes(l, c);
  }

  lemma MoveStepPermutes(l: Links, c: Command)
    requires c.MoveUp? || c.MoveDown? || c.Move?
    ensures Apply(l, c).options == l.options && multiset(Apply(l, c).gpos) == multiset(l.gpos)
    ensures forall g :: g in Apply(l, c).gpos <==> g in l.gpos
  {
    if Apply(l, c) != l {
      var from, to := MoveStepIs(l, c);
      MovePlaces(l.gpos, from, to);
      SameMembers(l.gpos, MoveItem(l.gpos, from, to));
    }
  }

  /** Each of the three commands, when it acts, moves one item. */
  lemma MoveStepIs(l: Links, c: Command) returns (from: nat, to: nat)
    requires (c.MoveUp? || c.MoveDown? || c.Move?) && Apply(l, c) != l
    ensures from < |l.gpos| && to < |l.gpos| && Apply(l, c) == l.(gpos := MoveItem(l.gpos, from, to))
    ensures from == if c.Move? then c.fromOrder - 1 else IndexOf(l.gpos, ToLower(c.dn))
  {
    match c
    case MoveUp(dn) => from, to := MoveUpIs(l, dn);
    case MoveDown(dn) => from, to := MoveDownIs(l, dn);
    case Move(fromOrder, toOrder) => from, to := fromOrder - 1, toOrder - 1;
  }

  lemma MoveUpIs(l: Links, dn: string) returns (from: nat, to: nat)
    requires MovedUp(l, dn) != l
    ensures from < |l.gpos| && to < |l.gpos| && MovedUp(l, dn) == l.(gpos := MoveItem(l.gpos, from, to))
    ensures from == IndexOf(l.gpos, ToLower(dn))
  {
    from := IndexOf(l.gpos, ToLower(dn));
    to := from - 1;
  }

  lemma MoveDownIs(l: Links, dn: string) returns (from: nat, to: nat)
    requires MovedDown(l, dn) != l
    ensures from < |l.gpos| && to < |l.gpos| && MovedDown(l, dn) == l.(gpos := MoveItem(l.gpos, from, to))
    ensures from == IndexOf(l.gpos, ToLower(dn))
  {
    from := IndexOf(l.gpos, ToLower(dn));
    to := from + 1;
  }

  lemma SameMembers(a: seq<string>, b: seq<string>)
    requires multiset(a) == multiset(b)
    ensures forall g :: g in a <==> g in b
  {
    assert forall g :: (g in a <==> g in multiset(a)) && (g in b <==> g in multiset(b));
  }

  lemma StepKeepsUnique(l: Links, c: Command)
    requires Valid(l) && NoDuplicates(l.gpos)
    ensures NoDuplicates(Apply(l, c).gpos)
  {
    match c
    case Add(dn) =>
    case Remove(dn) => WithoutUnique(l.gpos, ToLower(dn));
    case SetOption(dn, option, value) =>
    case MoveUp(dn) => MoveStepPermutes(l, c); UniqueIsMultiset(l.gpos, Apply(l, c).gpos);
    case MoveDown(dn) => MoveStepPermutes(l, c); UniqueIsMultiset(l.gpos, Apply(l, c).gpos);
    case Move(fromOrder, toOrder) => MoveStepPermutes(l, c); UniqueIsMultiset(l.gpos, Apply(l, c).gpos);
  }

  lemma {:induction false} WithoutUnique(gpos: seq<string>, g: string)
    requires NoDuplicates(gpos)
    ensures NoDuplicates(Without(gpos, g))
  {
    if gpos != [] {
      WithoutUnique(gpos[1..], g);
      assert gpos[0] !in gpos[1..];
    }
  }

  lemma UniqueIsMultiset(a: seq<string>, b: seq<string>)
    requires NoDuplicates(a) && multiset(a) == multiset(b)
    ensures NoDuplicates(b)
  {
    forall g ensures multiset(b)[g] <= 1 {
      UniqueCounts(a, g);
    }
    forall i, j | 0 <= i < j < |b| ensures b[i] != b[j] {
      CountedOnce(b, i, j);
    }
  }

  lemma CountedOnce(b: seq<string>, i: nat, j: nat)
    requires i < j < |b| && multiset(b)[b[i]] <= 1
    ensures b[i] != b[j]
  {
    assert b == b[..j] + [b[j]] + b[j + 1..];
    assert b[..j][i] == b[i];
    assert multiset(b[..j])[b[i]] >= 1;
  }

  lemma {:induction false} UniqueCounts(a: seq<string>, g: string)
    requires NoDuplicates(a)
    ensures multiset(a)[g] <= 1
  {
    if a != [] {
      assert a == [a[0]] + a[1..];
      UniqueCounts(a[1..], g);
    }
  }

  lemma LowerTwice(s: string)
    ensures IsLower(ToLower(s))
  {
  }

  // ---------------------------------------------------------------------------
  // What a run leaves alone.

  /** The listed policies that belong to a set, in their order. */
  function Restrict(gpos: seq<string>, keep: set<string>): seq<string> {
    if gpos == [] then []
    else (if gpos[0] in keep then [gpos[0]] else []) + Restrict(gpos[1..], keep)
  }

  /** The policy that a command acts on, given by name or by order. */
  function Target(l: Links, c: Command): string
    requires Apply(l, c) != l
  {
    match c
    case Move(fromOrder, toOrder) => l.gpos[fromOrder - 1]
    case _ => ToLower(c.dn)
  }

  ghost predicate Avoids(l: Links, commands: seq<Command>, keep: set<string>)
    decreases |commands|
  {
    commands == [] ||
    ((Apply(l, commands[0]) == l || Target(l, commands[0]) !in keep) &&
     Avoids(Apply(l, commands[0]), commands[1..], keep))
  }

  /** A run keeps the listing, the order and the option values of every set of policies that it does not act on. */
  lemma {:induction false} RunKeepsOthers(l: Links, commands: seq<Command>, keep: set<string>)
    requires Avoids(l, commands, keep)
    ensures Restrict(Run(l, commands).gpos, keep) == Restrict(l.gpos, keep)
    ensures forall g :: g in keep && g in l.options ==>
                          g in Run(l, commands).options && Run(l, commands).options[g] == l.options[g]
    ensures forall g :: g in keep && g in Run(l, commands).options ==> g in l.options
    decreases |commands|
  {
    if commands != [] {
      if Apply(l, commands[0]) != l {
        StepKeepsOthers(l, commands[0], keep);
        StepKeepsOtherOptions(l, commands[0], keep);
      }
      RunKeepsOthers(Apply(l, commands[0]), commands[1..], keep);
    }
  }

  lemma StepKeepsOtherOptions(l: Links, c: Command, keep: set<string>)
    requires Apply(l, c) != l && Target(l, c) !in keep
    ensures forall g :: g in keep && g in l.options ==>
            g in Apply(l, c).options && Apply(l, c).options[g] == l.options[g]
    ensures forall g :: g in keep && g in Apply(l, c).options ==> g in l.options
  {
  }

  lemma StepKeepsOthers(l: Links, c: Command, keep: set<string>)
    requires Apply(l, c) != l && Target(l, c) !in keep
    ensures Restrict(Apply(l, c).gpos, keep) == Restrict(l.gpos, keep)
  {
    match c
    case Add(dn) =>
      RestrictInserted(l.gpos, |l.gpos|, ToLower(dn), keep);
      assert l.gpos[..|l.gpos|] + [ToLower(dn)] + l.gpos[|l.gpos|..] == Added(l, dn).gpos;
    case Remove(dn) => RestrictWithout(l.gpos, ToLower(dn), keep);
    case SetOption(dn, option, value) =>
    case _ =>
      var from, to := MoveStepIs(l, c);
      RestrictMoved(l.gpos, from, to, keep);
  }

  lemma RestrictMoved(gpos: seq<string>, from: nat, to: nat, keep: set<string>)
    requires from < |gpos| && to < |gpos| && gpos[from] !in keep
    ensures Restrict(MoveItem(gpos, from, to), keep) == Restrict(gpos, keep)
  {
    var rest := TakeOut(gpos, from);
    RestrictInserted(rest, to, gpos[from], keep);
    RestrictInserted(rest, from, gpos[from], keep);
    assert rest[..from] + [gpos[from]] + rest[from..] == gpos;
  }

  lemma {:induction false} RestrictInserted(gpos: seq<string>, i: nat, g: string, keep: set<string>)
    requires i <= |gpos| && g !in keep
    ensures Restrict(gpos[..i] + [g] + gpos[i..], keep) == Restrict(gpos, keep)
  {
    var longer := gpos[..i] + [g] + gpos[i..];
    if i == 0 {
      assert longer[1..] == gpos;
    } else {
      assert longer[1..] == gpos[1..][..i - 1] + [g] + gpos[1..][i - 1..];
      RestrictInserted(gpos[1..], i - 1, g, keep);
    }
  }

  lemma {:induction false} RestrictWithout(gpos: seq<string>, g: string, keep: set<string>)
    requires g !in keep
    ensures Restrict(Without(gpos, g), keep) == Restrict(gpos, keep)
  {
    if gpos != [] {
      RestrictWithout(gpos[1..], g, keep);
      if gpos[0] != g {
        assert Without(gpos, g)[1..] == Without(gpos[1..], g);
      }
    }
  }

  /** Removing a policy that was just added leaves no trace, and adding it twice is adding it once. */
  lemma AddThenRemove(l: Links, dn: string)
    requires Valid(l)
    ensures Added(Added(l, dn), dn) == Added(l, dn)
    ensures ToLower(dn) !in l.options ==> Removed(Added(l, dn), dn) == l
  {
    var g := ToLower(dn);
    if g !in l.options {
      WithoutLast(l.gpos, g);
      assert l.options[g := 0] - {g} == l.options;
    }
  }

  lemma {:induction false} WithoutLast(gpos: seq<string>, g: string)
    requires g !in gpos
    ensures Without(gpos + [g], g) == gpos
  {
    if gpos != [] {
      assert (gpos + [g])[1..] == gpos[1..] + [g];
      WithoutLast(gpos[1..], g);
    }
  }

  /** An option reads back as it was set; the other option, and other policies, read as before. */
  lemma OptionReadsBack(l: Links, dn: string, option: GplinkOption, value: bool, dn2: string, option2: GplinkOption)
    requires ToLower(dn) in l.options && option != NoOption
    ensures var after := WithOption(l, dn, option, value);
            HasOption(after, dn2, option2) ==
            if ToLower(dn2) == ToLower(dn) && option2 == option then value else HasOption(l, dn2, option2)
  {
    var n := l.options[ToLower(dn)];
    SetBitChangesOneBit(n, option, value, 0);
    SetBitChangesOneBit(n, option, value, 1);
  }
}
