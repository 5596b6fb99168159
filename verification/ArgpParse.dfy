/** Turning a tree of option groups into the two tables that getopt reads, and finding the group
    that an option returned by getopt belongs to (argp-parse.c, with flags 0). */
module ArgpParse {
  import opened Common

  /** arg and optional: whether the option takes an argument, and may go without; alias and doc are
      flags. */
  datatype Opt = Opt(name: Option<string>, key: int, arg: bool, optional: bool, alias: bool, doc: bool)

  /** options is None for a null pointer; the children are an array that a null argp ends. */
  datatype Argp = Argp(options: Option<seq<Opt>>, parser: bool, children: Children)
  datatype Children = Nil | Cons(argp: Argp, rest: Children)

  const USER: int := 0x100_0000   // 1 << USER_BITS
  const MAXGROUPS: nat := 127

  predicate IsShort(o: Opt) { !o.doc && 32 <= o.key < 127 }

  // ----- What an option contributes

  /** The most recent option that is not an alias. */
  function Real(opts: seq<Opt>, i: nat): Opt
    requires i < |opts|
  {
    if i == 0 || !opts[i].alias then opts[i] else Real(opts, i - 1)
  }

  predicate HasShort(opts: seq<Opt>, i: nat)
    requires i < |opts|
  {
    !Real(opts, i).doc && IsShort(opts[i])
  }

  predicate HasLong(opts: seq<Opt>, i: nat)
    requires i < |opts|
  {
    !Real(opts, i).doc && opts[i].name.Some?
  }

  function ArgOf(base: Opt): HasArg {
    if !base.arg then NoArgument else if base.optional then OptionalArgument else RequiredArgument
  }

  function Colons(h: HasArg): string {
    match h case NoArgument => "" case RequiredArgument => ":" case OptionalArgument => "::"
  }

  function ShortCode(opts: seq<Opt>, i: nat): (s: string)
    requires i < |opts|
    ensures |s| <= 3
  {
    if HasShort(opts, i) then [opts[i].key as char] + Colons(ArgOf(Real(opts, i))) else ""
  }

  /** What the first n options put into the short options. */
  function ShortCodes(opts: seq<Opt>, n: nat): (s: string)
    requires n <= |opts|
    ensures |s| <= 3 * n
  {
    if n == 0 then "" else ShortCodes(opts, n - 1) + ShortCode(opts, n - 1)
  }

  function KeyOf(opts: seq<Opt>, i: nat): int
    requires i < |opts|
  {
    if opts[i].key != 0 then opts[i].key else Real(opts, i).key
  }

  /** The value of a 32-bit int. */
  function Int32(x: int): int {
    var low := x % 0x1_0000_0000;
    if low >= 0x8000_0000 then low - 0x1_0000_0000 else low
  }

  /** A key, with the number of its group in the high bits. */
  function Pack(key: int, group: nat): int { Int32(key % USER + (group + 1) * USER) }

  function LongCode(opts: seq<Opt>, i: nat, group: nat): LongOption
    requires i < |opts| && opts[i].name.Some?
  {
    var base := Real(opts, i);
    LongOption(opts[i].name.value, ArgOf(base), None, Pack(KeyOf(opts, i), group))
  }

  /** Option j is the nearest at or before i that is no alias; or the first. */
  predicate IsOrigin(opts: seq<Opt>, i: nat, j: nat) {
    j <= i < |opts| && (forall k :: j < k <= i ==> opts[k].alias) && (j == 0 || !opts[j].alias)
  }

  lemma {:induction false} OriginOf(opts: seq<Opt>, i: nat) returns (j: nat)
    requires i < |opts|
    ensures IsOrigin(opts, i, j)
  {
    if i == 0 || !opts[i].alias { j := i; } else { j := OriginOf(opts, i - 1); }
  }

  lemma {:induction false} OriginReal(opts: seq<Opt>, i: nat, j: nat)
    requires IsOrigin(opts, i, j)
    ensures Real(opts, i) == opts[j]
  {
    if j < i { OriginReal(opts, i - 1, j); }
  }

  /** What an option writes, by the fields of the option that it is an alias of, or its own: its
      character, if it has a printable one, with a colon for an argument and two for an optional one; and
      its name, with that option's key if it has none.  What belongs to documentation writes nothing. */
  lemma OptionWrites(opts: seq<Opt>, i: nat, j: nat, group: nat)
    requires IsOrigin(opts, i, j)
    ensures var (own, o) := (opts[i], opts[j]);
      && (HasShort(opts, i) <==> !o.doc && !own.doc && ' ' as int <= own.key <= '~' as int)
      && (HasLong(opts, i) <==> !o.doc && own.name.Some?)
      && ShortCode(opts, i) ==
         (if o.doc || own.doc || own.key < ' ' as int || own.key > '~' as int then ""
          else [own.key as char] + (if o.arg && o.optional then "::" else if o.arg then ":" else ""))
      && (own.name.Some? ==> LongCode(opts, i, group) == Entry(own, o, group))
  {
    OriginReal(opts, i, j);
  }

  function Entry(own: Opt, o: Opt, group: nat): LongOption
    requires own.name.Some?
  {
    LongOption(own.name.value,
               if o.arg && o.optional then OptionalArgument else if o.arg then RequiredArgument else NoArgument, None,
               Pack(if own.key == 0 then o.key else own.key, group))
  }

  predicate Has(longs: seq<LongOption>, name: string) { exists i :: 0 <= i < |longs| && longs[i].name == name }

  /** The long options after the first n options of a group. */
  function LongCodes(longs: seq<LongOption>, opts: seq<Opt>, n: nat, group: nat): (r: seq<LongOption>)
    requires n <= |opts|
    ensures |longs| <= |r| <= |longs| + n && longs <= r
  {
    if n == 0 then longs else
      var r := LongCodes(longs, opts, n - 1, group);
      if HasLong(opts, n - 1) && !Has(r, opts[n - 1].name.value) then r + [LongCode(opts, n - 1, group)] else r
  }

  // ----- The tables

  /** shortEnd and childInputs are offsets into the short options and into the slots for the inputs
      of children. */
  datatype Group = Group(argp: Argp, shortEnd: nat, childInputs: nat)

  /** inputs counts the slots that are taken. */
  datatype Tables = Tables(shorts: string, longs: seq<LongOption>, groups: seq<Group>, inputs: nat)

  function Options(a: Argp): seq<Opt> { match a.options case None => [] case Some(o) => o }

  function Kids(cs: Children): nat { match cs case Nil => 0 case Cons(_, rest) => 1 + Kids(rest) }

  predicate HasGroup(a: Argp) { a.options.Some? || a.parser }

  function Enter(a: Argp, t: Tables): Tables {
    var o := Options(a);
    var shorts := t.shorts + ShortCodes(o, |o|);
    Tables(shorts, LongCodes(t.longs, o, |o|, |t.groups|), t.groups + [Group(a, |shorts|, t.inputs)],
           t.inputs + Kids(a.children))
  }

  function Convert(a: Argp, t: Tables): Tables { ConvertAll(a.children, if HasGroup(a) then Enter(a, t) else t) }

  function ConvertAll(cs: Children, t: Tables): Tables {
    match cs case Nil => t case Cons(a, rest) => ConvertAll(rest, Convert(a, t))
  }

  /** The argps that become groups, in preorder. */
  function Preorder(a: Argp): seq<Argp> { (if HasGroup(a) then [a] else []) + PreorderAll(a.children) }

  function PreorderAll(cs: Children): seq<Argp> {
    match cs case Nil => [] case Cons(a, rest) => Preorder(a) + PreorderAll(rest)
  }

  /** The argp b is a, or in the tree below it. */
  predicate InTree(b: Argp, a: Argp) { b == a || InTrees(b, a.children) }

  predicate InTrees(b: Argp, cs: Children) {
    match cs case Nil => false case Cons(a, rest) => InTree(b, a) || InTrees(b, rest)
  }

  /** The groups are just the argps of the tree with options or a parser. */
  lemma {:induction false} GroupsExactly(a: Argp, b: Argp)
    ensures b in Preorder(a) <==> InTree(b, a) && (b.options != None || b.parser)
  {
    GroupsBelow(a.children, b);
  }

  lemma {:induction false} GroupsBelow(cs: Children, b: Argp)
    ensures b in PreorderAll(cs) <==> InTrees(b, cs) && (b.options != None || b.parser)
  {
    match cs
    case Nil =>
    case Cons(a, rest) =>
      GroupsExactly(a, b);
      GroupsBelow(rest, b);
  }

  function EnterAll(s: seq<Argp>, t: Tables): Tables {
    if s == [] then t else Enter(s[|s| - 1], EnterAll(s[..|s| - 1], t))
  }

  lemma {:induction false} EnterAppend(s: seq<Argp>, r: seq<Argp>, t: Tables)
    ensures EnterAll(s + r, t) == EnterAll(r, EnterAll(s, t))
  {
    if r == [] {
      assert s + r == s;
    } else {
      assert (s + r)[..|s + r| - 1] == s + r[..|r| - 1];
      EnterAppend(s, r[..|r| - 1], t);
    }
  }

  /** The recursion over the tree enters the groups in preorder. */
  lemma {:induction false} ConvertIsPreorder(a: Argp, t: Tables)
    ensures Convert(a, t) == EnterAll(Preorder(a), t)
  {
    var own := if HasGroup(a) then [a] else [];
    assert own[..0] == [];
    ConvertAllIsPreorder(a.children, EnterAll(own, t));
    EnterAppend(own, PreorderAll(a.children), t);
  }

  lemma {:induction false} ConvertAllIsPreorder(cs: Children, t: Tables)
    ensures ConvertAll(cs, t) == EnterAll(PreorderAll(cs), t)
  {
    match cs
    case Nil =>
    case Cons(a, rest) =>
      ConvertIsPreorder(a, t);
      ConvertAllIsPreorder(rest, Convert(a, t));
      EnterAppend(Preorder(a), PreorderAll(rest), t);
  }

  function Empty(): Tables { Tables("", [], [], 0) }

  // ----- Short options

  predicate IsShortOption(opts: seq<Opt>, i: nat, c: char)
    requires i < |opts|
  {
    HasShort(opts, i) && opts[i].key == c as int
  }

  /** One of the first n options has the short key c. */
  ghost predicate ShortIn(opts: seq<Opt>, n: nat, c: char)
    requires n <= |opts|
  {
    exists i: nat :: i < n && IsShortOption(opts, i, c)
  }

  ghost predicate DeclaresShort(a: Argp, c: char) { ShortIn(Options(a), |Options(a)|, c) }

  lemma ShortInStep(opts: seq<Opt>, n: nat, c: char)
    requires 0 < n <= |opts|
    ensures ShortIn(opts, n, c) <==> ShortIn(opts, n - 1, c) || IsShortOption(opts, n - 1, c)
  {}

  /** A short option of a takes an argument. */
  ghost predicate TakesArgument(a: Argp) { ArgumentIn(Options(a), |Options(a)|) }

  ghost predicate ArgumentIn(opts: seq<Opt>, n: nat)
    requires n <= |opts|
  {
    exists i: nat :: i < n && HasShort(opts, i) && Real(opts, i).arg
  }

  lemma ArgumentInStep(opts: seq<Opt>, n: nat)
    requires 0 < n <= |opts|
    ensures ArgumentIn(opts, n) <==> ArgumentIn(opts, n - 1) || (HasShort(opts, n - 1) && Real(opts, n - 1).arg)
  {}

  /** The short options of a contain the character c. */
  predicate Writes(a: Argp, c: char) { c in ShortCodes(Options(a), |Options(a)|) }

  lemma {:induction false} ShortCodesHold(opts: seq<Opt>, n: nat, c: char)
    requires n <= |opts|
    ensures c in ShortCodes(opts, n) <==> ShortIn(opts, n, c) || (c == ':' && ArgumentIn(opts, n))
  {
    hide ShortIn, ArgumentIn, ShortCode, Real, HasShort;
    if n == 0 {
      NoneIn(opts, c);
    } else {
      ShortCodesHold(opts, n - 1, c);
      ShortInStep(opts, n, c);
      ArgumentInStep(opts, n);
      ShortCodeHolds(opts, n - 1, c);
    }
  }

  lemma NoneIn(opts: seq<Opt>, c: char)
    ensures !ShortIn(opts, 0, c) && !ArgumentIn(opts, 0)
  {}

  lemma ShortCodeHolds(opts: seq<Opt>, i: nat, c: char)
    requires i < |opts|
    ensures c in ShortCode(opts, i)
      <==> IsShortOption(opts, i, c) || (c == ':' && HasShort(opts, i) && Real(opts, i).arg)
  {
    hide Real;
    if HasShort(opts, i) {
      var r := ShortCode(opts, i);
      assert r[0] == opts[i].key as char;
      if Real(opts, i).arg { assert r[1] == ':'; }
    }
  }

  /** Apart from its short keys, an argp writes the colons of those that take an argument. */
  lemma WritesExactly(a: Argp, c: char)
    ensures Writes(a, c) <==> DeclaresShort(a, c) || (c == ':' && TakesArgument(a))
  {
    ShortCodesHold(Options(a), |Options(a)|, c);
  }

  /** The first group whose short options end behind index k. */
  function GroupAt(groups: seq<Group>, k: nat, g: nat): (r: nat)
    requires g <= |groups|
    ensures g <= r <= |groups|
    decreases |groups| - g
  {
    if g == |groups| || groups[g].shortEnd > k then g else GroupAt(groups, k, g + 1)
  }

  lemma {:induction false} GroupAtIs(groups: seq<Group>, k: nat, g: nat, r: nat)
    requires g <= r < |groups| && groups[r].shortEnd > k
    requires forall i :: g <= i < r ==> groups[i].shortEnd <= k
    ensures GroupAt(groups, k, g) == r
    decreases r - g
  {
    if g < r { GroupAtIs(groups, k, g + 1, r); }
  }

  /** The groups of a table are those entered, and their ends are inside the short options. */
  lemma {:induction false} GroupsEntered(s: seq<Argp>)
    ensures var t := EnterAll(s, Empty());
      |t.groups| == |s| && forall i :: 0 <= i < |s| ==> t.groups[i].argp == s[i] && t.groups[i].shortEnd <= |t.shorts|
  {
    if s != [] { GroupsEntered(s[..|s| - 1]); }
  }

  ghost predicate FirstShort(s: seq<Argp>, c: char, g: nat) {
    g < |s| && DeclaresShort(s[g], c) && forall i :: 0 <= i < g ==> !DeclaresShort(s[i], c)
  }

  ghost predicate FirstWrites(s: seq<Argp>, c: char, g: nat) {
    g < |s| && Writes(s[g], c) && forall i :: 0 <= i < g ==> !Writes(s[i], c)
  }

  /** The search for a character ends at the first group that wrote it. */
  ghost predicate Leads(s: seq<Argp>, t: Tables, c: char) {
    match IndexOf(t.shorts, c)
    case None => forall i :: 0 <= i < |s| ==> !Writes(s[i], c)
    case Some(k) => FirstWrites(s, c, GroupAt(t.groups, k, 0))
  }

  lemma {:induction false} CharacterDispatch(s: seq<Argp>, c: char)
    ensures Leads(s, EnterAll(s, Empty()), c)
  {
    hide Leads, Enter;
    if s == [] {
      NothingLeads(c);
    } else {
      var n := |s| - 1;
      CharacterDispatch(s[..n], c);
      GroupsEntered(s[..n]);
      EnterShort(s[..n], s[n], EnterAll(s[..n], Empty()), c);
      assert s == s[..n] + [s[n]];
    }
  }

  lemma NothingLeads(c: char)
    ensures Leads([], Empty(), c)
  {}

  lemma EnterShort(s: seq<Argp>, a: Argp, t: Tables, c: char)
    requires |t.groups| == |s| && forall i :: 0 <= i < |s| ==> t.groups[i].shortEnd <= |t.shorts|
    requires Leads(s, t, c)
    ensures Leads(s + [a], Enter(a, t), c)
  {
    hide Writes, Enter;
    match IndexOf(t.shorts, c)
    case Some(k) => EnterFound(a, t, c, k);
    case None => EnterLost(a, t, c);
  }

  /** A character found stays where it is. */
  lemma EnterFound(a: Argp, t: Tables, c: char, k: nat)
    requires IndexOf(t.shorts, c) == Some(k) && GroupAt(t.groups, k, 0) < |t.groups|
    ensures var u := Enter(a, t); IndexOf(u.shorts, c) == Some(k) && GroupAt(u.groups, k, 0) == GroupAt(t.groups, k, 0)
  {
    hide IndexOf, GroupAt, ShortCodes, LongCodes;
    var u := Enter(a, t);
    assert u.shorts[..k] == t.shorts[..k];
    IndexIs(u.shorts, c, k);
    GroupAtSame(t.groups, u.groups, k, 0);
  }

  /** A character not found before is found in the new group, if at all. */
  lemma EnterLost(a: Argp, t: Tables, c: char)
    requires IndexOf(t.shorts, c) == None
    requires forall i :: 0 <= i < |t.groups| ==> t.groups[i].shortEnd <= |t.shorts|
    ensures var u := Enter(a, t);
      match IndexOf(u.shorts, c)
      case None => !Writes(a, c)
      case Some(k) => Writes(a, c) && GroupAt(u.groups, k, 0) == |t.groups|
  {
    hide IndexOf, GroupAt, ShortCodes, LongCodes;
    var u, w := Enter(a, t), ShortCodes(Options(a), |Options(a)|);
    match IndexOf(u.shorts, c)
    case None =>
      assert forall j :: 0 <= j < |w| ==> u.shorts[|t.shorts| + j] == w[j];
    case Some(k) =>
      assert k >= |t.shorts| && w[k - |t.shorts|] == c;
      GroupAtIs(u.groups, k, 0, |t.groups|);
  }

  /** A short option leads to the first group that declares it, and is in the table only if one does. */
  lemma ShortDispatch(s: seq<Argp>, c: char)
    requires c != ':'
    ensures var t := EnterAll(s, Empty());
      match IndexOf(t.shorts, c)
      case None => forall i :: 0 <= i < |s| ==> !DeclaresShort(s[i], c)
      case Some(k) => FirstShort(s, c, GroupAt(t.groups, k, 0))
  {
    hide DeclaresShort, Writes;
    CharacterDispatch(s, c);
    forall i | 0 <= i < |s| ensures Writes(s[i], c) == DeclaresShort(s[i], c) {
      WritesExactly(s[i], c);
    }
  }

  lemma {:induction false} GroupAtSame(groups: seq<Group>, more: seq<Group>, k: nat, g: nat)
    requires g <= |groups| && groups <= more && GroupAt(groups, k, g) < |groups|
    ensures GroupAt(more, k, g) == GroupAt(groups, k, g)
    decreases |groups| - g
  {
    if g < |groups| && groups[g].shortEnd <= k { GroupAtSame(groups, more, k, g + 1); }
  }

  // ----- Long options

  /** Option i is the first of these that has the long name. */
  ghost predicate FirstLong(opts: seq<Opt>, name: string, i: nat) {
    && i < |opts| && HasLong(opts, i) && opts[i].name == Some(name)
    && forall j :: 0 <= j < i && HasLong(opts, j) ==> opts[j].name != Some(name)
  }

  ghost predicate DeclaresLong(a: Argp, name: string) {
    exists i :: 0 <= i < |Options(a)| && HasLong(Options(a), i) && Options(a)[i].name == Some(name)
  }

  /** The long option `name` of groups s is option i of group g: no other one comes before it. */
  ghost predicate OwnsLong(s: seq<Argp>, name: string, g: nat, i: nat) {
    && g < |s| && FirstLong(Options(s[g]), name, i)
    && forall h :: 0 <= h < g ==> !DeclaresLong(s[h], name)
  }

  predicate NamesDistinct(longs: seq<LongOption>) {
    forall i, j :: 0 <= i < j < |longs| ==> longs[i].name != longs[j].name
  }

  /** Entry e is the first declaration of its name among groups s. */
  ghost predicate Owned(s: seq<Argp>, e: LongOption) {
    exists g: nat, i: nat :: OwnsLong(s, e.name, g, i) && e == LongCode(Options(s[g]), i, g)
  }

  /** What the first n options of a group add to a table without repetition. */
  lemma {:induction false} LongCodesHold(longs: seq<LongOption>, opts: seq<Opt>, n: nat, group: nat)
    requires n <= |opts| && NamesDistinct(longs)
    ensures var r := LongCodes(longs, opts, n, group);
      && NamesDistinct(r)
      && (forall i :: 0 <= i < n && HasLong(opts, i) ==> Has(r, opts[i].name.value))
      && (forall k :: |longs| <= k < |r| ==> !Has(longs, r[k].name) && AddedBy(r[k], opts, n, group))
  {
    if n > 0 {
      LongCodesHold(longs, opts, n - 1, group);
      var r, r' := LongCodes(longs, opts, n - 1, group), LongCodes(longs, opts, n, group);
      forall k | |longs| <= k < |r| ensures AddedBy(r[k], opts, n, group) {
        assert AddedBy(r[k], opts, n - 1, group);
      }
      forall i | 0 <= i < n && HasLong(opts, i) ensures Has(r', opts[i].name.value) {
        if i == n - 1 && !Has(r, opts[i].name.value) {
          assert r'[|r|].name == opts[i].name.value;
        } else {
          HasMore(r, r', opts[i].name.value);
        }
      }
      if |r'| > |r| {
        assert AddedBy(r'[|r|], opts, n, group) by {
          assert FirstLong(opts, r'[|r|].name, n - 1);
        }
        if Has(longs, r'[|r|].name) { HasMore(longs, r, r'[|r|].name); }
      }
    }
  }

  lemma HasMore(longs: seq<LongOption>, more: seq<LongOption>, name: string)
    requires longs <= more && Has(longs, name)
    ensures Has(more, name)
  {
    var i :| 0 <= i < |longs| && longs[i].name == name;
    assert more[i].name == name;
  }

  ghost predicate AddedBy(e: LongOption, opts: seq<Opt>, n: nat, group: nat)
    requires n <= |opts|
  {
    exists i: nat :: i < n && FirstLong(opts, e.name, i) && e == LongCode(opts, i, group)
  }

  /** The table has every long name that a group declares. */
  ghost predicate Complete(s: seq<Argp>, longs: seq<LongOption>) {
    forall g, name :: 0 <= g < |s| && DeclaresLong(s[g], name) ==> Has(longs, name)
  }

  /** The table of long options holds every declared name once, as its first declaration. */
  lemma {:induction false} LongTable(s: seq<Argp>)
    ensures var t := EnterAll(s, Empty());
      && NamesDistinct(t.longs) && (forall k :: 0 <= k < |t.longs| ==> Owned(s, t.longs[k])) && Complete(s, t.longs)
  {
    if s != [] {
      var n := |s| - 1;
      LongTable(s[..n]);
      GroupsEntered(s[..n]);
      EnterLong(s, EnterAll(s[..n], Empty()).longs);
    }
  }

  lemma EnterLong(s: seq<Argp>, longs: seq<LongOption>)
    requires s != [] && NamesDistinct(longs) && Complete(s[..|s| - 1], longs)
    requires forall k :: 0 <= k < |longs| ==> Owned(s[..|s| - 1], longs[k])
    ensures var n := |s| - 1;
      var r := LongCodes(longs, Options(s[n]), |Options(s[n])|, n);
      && NamesDistinct(r) && (forall k :: 0 <= k < |r| ==> Owned(s, r[k])) && Complete(s, r)
  {
    var n := |s| - 1;
    var o := Options(s[n]);
    LongCodesHold(longs, o, |o|, n);
    var r := LongCodes(longs, o, |o|, n);
    forall k | 0 <= k < |r| ensures Owned(s, r[k]) {
      if k < |longs| {
        OwnedMore(s, longs[k]);
      } else {
        OwnedLast(s, longs, r[k]);
      }
    }
    CompleteMore(s, o, longs, r);
  }

  lemma CompleteMore(s: seq<Argp>, o: seq<Opt>, longs: seq<LongOption>, r: seq<LongOption>)
    requires s != [] && o == Options(s[|s| - 1]) && longs <= r && Complete(s[..|s| - 1], longs)
    requires forall i :: 0 <= i < |o| && HasLong(o, i) ==> Has(r, o[i].name.value)
    ensures Complete(s, r)
  {
    var n := |s| - 1;
    forall g, name | 0 <= g < |s| && DeclaresLong(s[g], name) ensures Has(r, name) {
      if g < n {
        assert s[..n][g] == s[g];
        HasMore(longs, r, name);
      }
    }
  }

  lemma OwnedMore(s: seq<Argp>, e: LongOption)
    requires s != [] && Owned(s[..|s| - 1], e)
    ensures Owned(s, e)
  {
    var g: nat, i: nat :| OwnsLong(s[..|s| - 1], e.name, g, i) && e == LongCode(Options(s[..|s| - 1][g]), i, g);
    assert OwnsLong(s, e.name, g, i);
  }

  lemma OwnedLast(s: seq<Argp>, longs: seq<LongOption>, e: LongOption)
    requires s != [] && AddedBy(e, Options(s[|s| - 1]), |Options(s[|s| - 1])|, |s| - 1) && !Has(longs, e.name)
    requires Complete(s[..|s| - 1], longs)
    ensures Owned(s, e)
  {
    var o := Options(s[|s| - 1]);
    var i: nat :| i < |o| && FirstLong(o, e.name, i) && e == LongCode(o, i, |s| - 1);
    forall h | 0 <= h < |s| - 1 ensures !DeclaresLong(s[h], e.name) {
      assert s[..|s| - 1][h] == s[h];
    }
    assert OwnsLong(s, e.name, |s| - 1, i);
  }

  // ----- Delivery

  /** (opt << GROUP_BITS) >> GROUP_BITS, for a 32-bit int. */
  function SignExtended(opt: int): int {
    var low := opt % USER;
    if low >= USER / 2 then low - USER else low
  }

  /** The parts of a packed value: the group number plus one, as a signed byte, and the key's low bits. */
  lemma PackParts(key: int, group: nat)
    ensures var v, high := Pack(key, group), (group + 1) % 0x100;
      && v % USER == key % USER
      && v / USER == if high < 0x80 then high else high - 0x100
  {
    var q, high := (group + 1) / 0x100, (group + 1) % 0x100;
    assert key % USER + (group + 1) * USER == (key % USER + high * USER) + q * 0x1_0000_0000;
    Int32Wraps(key % USER + high * USER, q);
  }

  lemma Int32Wraps(x: nat, q: nat)
    requires x < 0x1_0000_0000
    ensures Int32(x + q * 0x1_0000_0000) == if x < 0x8000_0000 then x else x - 0x1_0000_0000
  {}

  /** Outside: an index that is no group's.  Rejected: an error of getopt.  NoOption: an argument, or
      the end of the options. */
  datatype Delivery = Unknown | Delivered(group: nat, key: int) | Outside | Rejected | NoOption

  /** Where an option that getopt returns goes: the group and the key handed to its parser. */
  function Deliver(t: Tables, opt: int): Delivery {
    var group := opt / USER;
    if group != 0 then
      if 1 <= group <= |t.groups| then Delivered(group - 1, SignExtended(opt)) else Outside
    else match IndexOf(t.shorts, (opt % 0x100) as char)
      case None => Unknown
      case Some(k) =>
        if GroupAt(t.groups, k, 0) < |t.groups| then Delivered(GroupAt(t.groups, k, 0), opt) else Unknown
  }

  /** A value without a group number goes to a group exactly if that is the first one to have
      written the character. */
  lemma CharacterDelivered(s: seq<Argp>, opt: int, g: nat)
    requires 0 <= opt < USER
    ensures Deliver(EnterAll(s, Empty()), opt) == Delivered(g, opt) <==> FirstWrites(s, (opt % 0x100) as char, g)
  {
    hide Writes;
    CharacterDispatch(s, (opt % 0x100) as char);
    GroupsEntered(s);
  }

  /** Short options other than the colon go, unchanged, to the first group that declares them. */
  lemma ShortDelivered(s: seq<Argp>, c: char, g: nat)
    requires c as int < 0x100 && c != ':'
    ensures Deliver(EnterAll(s, Empty()), c as int) == Delivered(g, c as int) <==> FirstShort(s, c, g)
  {
    hide DeclaresShort, Writes, Deliver, EnterAll;
    CharacterDelivered(s, c as int, g);
    forall h | 0 <= h < |s| ensures Writes(s[h], c) == DeclaresShort(s[h], c) {
      WritesExactly(s[h], c);
    }
  }

  lemma KeyIsPrintable(a: Argp, c: char)
    requires DeclaresShort(a, c)
    ensures 32 <= c as int < 127
  {}

  /** Delivery of the option with this key of group g is right: for every key of 24 signed bits of
      the first 127 groups; and of every 256th group, whose number is lost, for the keys that also
      reach it as characters. */
  ghost predicate Reaches(s: seq<Argp>, g: nat, key: int) {
    || (g < MAXGROUPS && -USER / 2 <= key < USER / 2)
    || (g % 0x100 == 0xff && 0 <= key < USER && FirstWrites(s, (key % 0x100) as char, g))
  }

  lemma PackedDelivered(s: seq<Argp>, g: nat, key: int)
    requires g < |s|
    ensures Deliver(EnterAll(s, Empty()), Pack(key, g)) == Delivered(g, key) <==> Reaches(s, g, key)
  {
    hide FirstWrites, EnterAll, Pack, Deliver, SignExtended;
    var t := EnterAll(s, Empty());
    PackParts(key, g);
    GroupsEntered(s);
    if g % 0x100 == 0xff {
      CharacterDelivered(s, key % USER, g);
      KeyUnchanged(t, key % USER);
    } else {
      NumberDelivered(t, Pack(key, g), g, key);
    }
  }

  lemma KeyUnchanged(t: Tables, opt: int)
    requires 0 <= opt < USER
    ensures Deliver(t, opt).Delivered? ==> Deliver(t, opt).key == opt
  {}

  /** A value with a group number. */
  lemma NumberDelivered(t: Tables, v: int, g: nat, key: int)
    requires g < |t.groups| && v / USER != 0 && v % USER == key % USER
    ensures Deliver(t, v) == Delivered(g, key) <==> v / USER == g + 1 && -USER / 2 <= key < USER / 2
  {
    hide IndexOf, GroupAt;
    SignKept(v, key);
  }

  lemma SignKept(v: int, key: int)
    requires v % USER == key % USER
    ensures SignExtended(v) == key <==> -USER / 2 <= key < USER / 2
  {}

  /** Every entry of the table of long options stands for the first declaration i of its name, in group g;
      the argument is declared there, or with the option j that it is an alias of.  It is delivered to that
      group with the key declared there exactly if the key and the group number allow it. */
  lemma LongDelivered(s: seq<Argp>, k: nat) returns (g: nat, i: nat, j: nat)
    requires k < |EnterAll(s, Empty()).longs|
    ensures var t := EnterAll(s, Empty());
      && g < |s| && j <= i < |Options(s[g])|
      && OwnsLong(s, t.longs[k].name, g, i) && IsOrigin(Options(s[g]), i, j)
      && var (own, o) := (Options(s[g])[i], Options(s[g])[j]);
        var key := if own.key == 0 then o.key else own.key;
        && t.longs[k] == Entry(own, o, g)
        && (Deliver(t, t.longs[k].val) == Delivered(g, key) <==> Reaches(s, g, key))
  {
    hide Deliver, Reaches, FirstWrites;
    LongTable(s);
    var e := EnterAll(s, Empty()).longs[k];
    g, i :| OwnsLong(s, e.name, g, i) && e == LongCode(Options(s[g]), i, g);
    j := OriginOf(Options(s[g]), i);
    OptionWrites(Options(s[g]), i, j, g);
    hide Real, EnterAll, IsOrigin;
    var (own, o) := (Options(s[g])[i], Options(s[g])[j]);
    PackedDelivered(s, g, if own.key == 0 then o.key else own.key);
  }

  /** A key of 25 bits comes back with another sign. */
  lemma WideKeyFails()
    ensures var a := Argp(Some([Opt(Some("wide"), 0x80_0000, false, false, false, false)]), true, Nil);
      var t := EnterAll(Preorder(a), Empty());
      |t.longs| == 1 && Deliver(t, t.longs[0].val) == Delivered(0, -0x80_0000)
  {
    var o := [Opt(Some("wide"), 0x80_0000, false, false, false, false)];
    var a := Argp(Some(o), true, Nil);
    assert Preorder(a) == [a] && [a][..0] == [];
    assert LongCodes([], o, 0, 0) == [];
    PackParts(0x80_0000, 0);
  }

  /** n groups without options, and one more. */
  function Crowd(n: nat, last: Argp): Children {
    if n == 0 then Cons(last, Nil) else Cons(Argp(None, true, Nil), Crowd(n - 1, last))
  }

  lemma {:induction false} CrowdGroups(n: nat, last: Argp)
    requires Preorder(last) == [last]
    ensures var s := PreorderAll(Crowd(n, last));
      |s| == n + 1 && s[n] == last && forall g :: 0 <= g < n ==> Options(s[g]) == []
  {
    if n > 0 { CrowdGroups(n - 1, last); }
  }

  function FarTree(): Argp {
    Argp(None, false, Crowd(127, Argp(Some([Opt(Some("far"), 'f' as int, false, false, false, false)]), true, Nil)))
  }

  /** The long option of the 128th group leads to an index that is no group's. */
  lemma FarGroupFails()
    ensures var s := Preorder(FarTree());
      var t := EnterAll(s, Empty());
      && |s| == 128 && |t.longs| == 1 && t.longs[0].name == "far" && OwnsLong(s, "far", 127, 0)
      && Deliver(t, t.longs[0].val) == Outside
  {
    var last := Argp(Some([Opt(Some("far"), 'f' as int, false, false, false, false)]), true, Nil);
    assert Preorder(last) == [last];
    CrowdGroups(127, last);
    hide Crowd, EnterAll, Deliver, OwnsLong;
    var s := PreorderAll(Crowd(127, last));
    assert Preorder(FarTree()) == [] + s == s;
    FarTable(s);
  }

  lemma FarTable(s: seq<Argp>)
    requires |s| == 128 && Options(s[127]) == [Opt(Some("far"), 'f' as int, false, false, false, false)]
    requires forall g :: 0 <= g < 127 ==> Options(s[g]) == []
    ensures var t := EnterAll(s, Empty());
      && |t.longs| == 1 && t.longs[0].name == "far" && OwnsLong(s, "far", 127, 0)
      && Deliver(t, t.longs[0].val) == Outside
  {
    var t := EnterAll(s, Empty());
    LongTable(s);
    FarOnly(s);
    hide EnterAll, Deliver;
    assert DeclaresLong(s[127], "far") by { assert HasLong(Options(s[127]), 0); }
    assert Has(t.longs, "far");
    var g, i, _ := LongDelivered(s, 0);
    assert g == 127 && i == 0;
    if |t.longs| > 1 { var _, _, _ := LongDelivered(s, 1); }
    PackParts('f' as int, 127);
    FarOutside(t, t.longs[0].val);
  }

  lemma FarOutside(t: Tables, v: int)
    requires v / USER < 0
    ensures Deliver(t, v) == Outside
  {}

  /** Every entry is that of the only option. */
  lemma FarOnly(s: seq<Argp>)
    requires |s| == 128 && Options(s[127]) == [Opt(Some("far"), 'f' as int, false, false, false, false)]
    requires forall g :: 0 <= g < 127 ==> Options(s[g]) == []
    ensures OwnsLong(s, "far", 127, 0)
    ensures forall name, g: nat, i: nat :: OwnsLong(s, name, g, i) ==> name == "far" && g == 127 && i == 0
  {
    assert HasLong(Options(s[127]), 0);
  }

  lemma EnterSlots(a: Argp, t: Tables)
    ensures var u := Enter(a, t);
      && |u.groups| == |t.groups| + 1 && u.groups[..|t.groups|] == t.groups
      && u.groups[|t.groups|].childInputs == t.inputs && u.inputs == t.inputs + Kids(a.children)
  {
    hide ShortCodes, LongCodes;
  }

  /** Each group has its own slots for the inputs of its children. */
  lemma {:induction false} SlotsApart(s: seq<Argp>)
    ensures var t := EnterAll(s, Empty());
      && |t.groups| == |s|
      && (forall g :: 0 <= g < |s| ==> t.groups[g].childInputs + Kids(s[g].children) <= t.inputs)
      && forall g, h :: 0 <= g < h < |s| ==> t.groups[g].childInputs + Kids(s[g].children) <= t.groups[h].childInputs
  {
    hide Enter;
    if s != [] {
      var n := |s| - 1;
      SlotsApart(s[..n]);
      EnterSlots(s[n], EnterAll(s[..n], Empty()));
      assert forall g :: 0 <= g < n ==> s[..n][g] == s[g];
    }
  }

  // ----- Sizes

  function CountOpts(a: Argp): nat { |Options(a)| + CountAll(a.children) }
  function CountAll(cs: Children): nat { match cs case Nil => 0 case Cons(a, rest) => CountOpts(a) + CountAll(rest) }

  function CountInputs(a: Argp): nat { Kids(a.children) + InputsAll(a.children) }
  function InputsAll(cs: Children): nat {
    match cs case Nil => 0 case Cons(a, rest) => CountInputs(a) + InputsAll(rest)
  }

  class ParserSizes {
    var shortLen: nat
    var longLen: nat
    var numGroups: nat
    var numChildInputs: nat

    constructor ()
      ensures shortLen == 1 && longLen == 0 && numGroups == 0 && numChildInputs == 0
    {
      shortLen, longLen, numGroups, numChildInputs := 1, 0, 0, 0;
    }

    method CalcSizes(a: Argp)
      modifies this
      ensures shortLen == old(shortLen) + 3 * CountOpts(a) && longLen == old(longLen) + CountOpts(a)
      ensures numGroups == old(numGroups) + |Preorder(a)|
      ensures numChildInputs == old(numChildInputs) + CountInputs(a)
      decreases a
    {
      if HasGroup(a) {
        numGroups := numGroups + 1;
        if a.options.Some? {
          shortLen := shortLen + |a.options.value| * 3;
          longLen := longLen + |a.options.value|;
        }
      }
      ghost var own := if HasGroup(a) then 1 else 0;
      var child := a.children;
      while child.Cons?
        invariant child == a.children || child < a.children
        invariant shortLen + 3 * CountAll(child) == old(shortLen) + 3 * CountOpts(a)
        invariant longLen + CountAll(child) == old(longLen) + CountOpts(a)
        invariant numGroups + |PreorderAll(child)| == old(numGroups) + |Preorder(a)|
        invariant numChildInputs + Kids(child) + InputsAll(child) == old(numChildInputs) + CountInputs(a)
        decreases child
      {
        CalcSizes(child.argp);
        numChildInputs := numChildInputs + 1;
        child := child.rest;
      }
    }
  }

  // ----- The parser's tables in memory

  /** The tables after the first n options of a group. */
  function After(opts: seq<Opt>, n: nat, group: nat, t: Tables): Tables
    requires n <= |opts|
  {
    t.(shorts := t.shorts + ShortCodes(opts, n), longs := LongCodes(t.longs, opts, n, group))
  }

  lemma AfterNone(opts: seq<Opt>, group: nat, t: Tables)
    ensures After(opts, 0, group, t) == t
  {
    assert t.shorts + "" == t.shorts;
  }

  class Parser {
    const shortOpts: array<char>
    /** None is the entry without a name that ends the table. */
    const longOpts: array<Option<LongOption>>
    const groups: array<Group>
    /** How many slots there are for the inputs of children. */
    const childInputs: nat
    /** The cursors of the conversion. */
    var shortEnd: nat
    var longEnd: nat
    var egroup: nat
    var childInputsEnd: nat

    /** The tables filled so far are t, and both are terminated. */
    ghost predicate Holds(t: Tables)
      reads this, shortOpts, longOpts, groups
    {
      && shortEnd < shortOpts.Length && longEnd < longOpts.Length && egroup <= groups.Length
      && shortOpts[..shortEnd] == t.shorts && shortOpts[shortEnd] == '\0'
      && |t.longs| == longEnd && (forall i :: 0 <= i < longEnd ==> longOpts[i] == Some(t.longs[i]))
      && longOpts[longEnd] == None
      && groups[..egroup] == t.groups
      && childInputsEnd == t.inputs <= childInputs
    }

    /** There is room for so many more options, groups and inputs of children. */
    ghost predicate Room(options: nat, more: nat, inputs: nat)
      reads this
    {
      && shortEnd + 3 * options < shortOpts.Length && longEnd + options < longOpts.Length
      && egroup + more <= groups.Length && childInputsEnd + inputs <= childInputs
    }

    constructor (sizes: ParserSizes)
      ensures shortOpts.Length == sizes.shortLen + 1 && longOpts.Length == sizes.longLen + 1
      ensures groups.Length == sizes.numGroups + 1 && childInputs == sizes.numChildInputs && Holds(Empty())
      ensures fresh(shortOpts) && fresh(longOpts) && fresh(groups)
    {
      shortOpts := new char[sizes.shortLen + 1](_ => '\0');
      longOpts := new Option<LongOption>[sizes.longLen + 1](_ => None);
      groups := new Group[sizes.numGroups + 1](_ => Group(Argp(None, false, Nil), 0, 0));
      childInputs := sizes.numChildInputs;
      shortEnd, longEnd, egroup, childInputsEnd := 0, 0, 0, 0;
    }

    /** Adds one character to the short options. */
    method PushShort(c: char, ghost t: Tables)
      requires Holds(t) && shortEnd + 1 < shortOpts.Length
      modifies this`shortEnd, shortOpts
      ensures Holds(t.(shorts := t.shorts + [c])) && shortEnd == old(shortEnd) + 1
    {
      shortOpts[shortEnd] := c;
      shortEnd := shortEnd + 1;
      shortOpts[shortEnd] := '\0';
    }

    method AddShort(opts: seq<Opt>, i: nat, base: Opt, ghost t: Tables)
      requires Holds(t) && i < |opts| && base == Real(opts, i) && shortEnd + 3 < shortOpts.Length
      modifies this`shortEnd, shortOpts
      ensures Holds(t.(shorts := t.shorts + ShortCode(opts, i))) && shortEnd <= old(shortEnd) + 3
    {
      if !base.doc && IsShort(opts[i]) {
        PushShort(opts[i].key as char, t);
        ghost var u := t.(shorts := t.shorts + [opts[i].key as char]);
        if base.arg {
          PushShort(':', u);
          if base.optional {
            PushShort(':', u.(shorts := u.shorts + ":"));
            assert (u.shorts + ":") + ":" == u.shorts + "::";
          }
        }
        assert u.shorts + Colons(ArgOf(base)) == t.shorts + ShortCode(opts, i);
      }
    }

    /** The index of the entry with a name, or None. */
    method FindLongOption(name: string, ghost t: Tables) returns (found: bool)
      requires Holds(t)
      ensures found <==> Has(t.longs, name)
    {
      var l := 0;
      while longOpts[l].Some?
        invariant l <= longEnd && forall i :: 0 <= i < l ==> t.longs[i].name != name
        decreases longEnd - l
      {
        if longOpts[l].value.name == name {
          assert t.longs[l].name == name;
          return true;
        }
        l := l + 1;
      }
      return false;
    }

    method AddLong(opts: seq<Opt>, i: nat, base: Opt, group: nat, ghost t: Tables)
      requires Holds(t) && i < |opts| && base == Real(opts, i) && longEnd + 1 < longOpts.Length
      modifies this`longEnd, longOpts
      ensures longEnd <= old(longEnd) + 1
      ensures Holds(t.(longs := if HasLong(opts, i) && !Has(t.longs, opts[i].name.value)
                                then t.longs + [LongCode(opts, i, group)] else t.longs))
    {
      if base.doc || opts[i].name.None? { return; }
      var found := FindLongOption(opts[i].name.value, t);
      if !found {
        longOpts[longEnd] := Some(LongCode(opts, i, group));
        longEnd := longEnd + 1;
        longOpts[longEnd] := None;
      }
    }

    /** Adds the options of one argp. */
    method AddOptions(opts: seq<Opt>, group: nat, ghost t: Tables)
      requires Holds(t) && shortEnd + 3 * |opts| < shortOpts.Length && longEnd + |opts| < longOpts.Length
      modifies this`shortEnd, shortOpts, this`longEnd, longOpts
      ensures shortEnd <= old(shortEnd) + 3 * |opts| && longEnd <= old(longEnd) + |opts|
      ensures Holds(After(opts, |opts|, group, t))
    {
      hide After;
      AfterNone(opts, group, t);
      if opts == [] { return; }
      var base := opts[0];
      for i := 0 to |opts|
        invariant shortEnd <= old(shortEnd) + 3 * i && longEnd <= old(longEnd) + i
        invariant i > 0 ==> base == Real(opts, i - 1)
        invariant i == 0 ==> base == opts[0]
        invariant Holds(After(opts, i, group, t))
      {
        if !opts[i].alias { base := opts[i]; }
        AddOption(opts, i, base, group, t);
      }
    }

    method AddOption(opts: seq<Opt>, i: nat, base: Opt, group: nat, ghost t: Tables)
      requires i < |opts| && base == Real(opts, i) && shortEnd + 3 < shortOpts.Length && longEnd + 1 < longOpts.Length
      requires Holds(After(opts, i, group, t))
      modifies this`shortEnd, shortOpts, this`longEnd, longOpts
      ensures shortEnd <= old(shortEnd) + 3 && longEnd <= old(longEnd) + 1
      ensures Holds(After(opts, i + 1, group, t))
    {
      ghost var u := After(opts, i, group, t);
      AddShort(opts, i, base, u);
      assert u.shorts + ShortCode(opts, i) == t.shorts + ShortCodes(opts, i + 1);
      AddLong(opts, i, base, group, u.(shorts := u.shorts + ShortCode(opts, i)));
    }

    /** Converts the options of an argp and of its children. */
    method ConvertOptions(a: Argp, ghost t: Tables)
      requires Holds(t) && Room(CountOpts(a), |Preorder(a)|, CountInputs(a))
      modifies this, shortOpts, longOpts, groups
      ensures Holds(Convert(a, t)) && egroup == old(egroup) + |Preorder(a)|
      ensures shortEnd <= old(shortEnd) + 3 * CountOpts(a) && longEnd <= old(longEnd) + CountOpts(a)
      ensures childInputsEnd <= old(childInputsEnd) + CountInputs(a)
      decreases a
    {
      ghost var u := t;
      if HasGroup(a) {
        AddGroup(a, t);
        u := Enter(a, t);
      }
      ghost var own := if HasGroup(a) then 1 else 0;
      var children := a.children;
      while children.Cons?
        invariant children == a.children || children < a.children
        invariant Holds(u) && ConvertAll(children, u) == Convert(a, t)
        invariant egroup + |PreorderAll(children)| == old(egroup) + |Preorder(a)|
        invariant shortEnd + 3 * CountAll(children) <= old(shortEnd) + 3 * CountOpts(a)
        invariant longEnd + CountAll(children) <= old(longEnd) + CountOpts(a)
        invariant childInputsEnd + InputsAll(children) <= old(childInputsEnd) + CountInputs(a)
        decreases children
      {
        ConvertOptions(children.argp, u);
        u := Convert(children.argp, u);
        children := children.rest;
      }
    }

    /** Fills the next group. */
    method AddGroup(a: Argp, ghost t: Tables)
      requires Holds(t) && Room(|Options(a)|, 1, Kids(a.children))
      modifies this, shortOpts, longOpts, groups
      ensures Holds(Enter(a, t)) && egroup == old(egroup) + 1
      ensures shortEnd <= old(shortEnd) + 3 * |Options(a)| && longEnd <= old(longEnd) + |Options(a)|
      ensures childInputsEnd == old(childInputsEnd) + Kids(a.children)
    {
      AddOptions(Options(a), egroup, t);
      groups[egroup] := Group(a, shortEnd, childInputsEnd);
      egroup := egroup + 1;
      var children := a.children;
      while children.Cons?
        invariant childInputsEnd + Kids(children) == old(childInputsEnd) + Kids(a.children)
        invariant Holds(Enter(a, t).(inputs := childInputsEnd))
        decreases children
      {
        childInputsEnd := childInputsEnd + 1;
        children := children.rest;
      }
    }

    /** The table of long options as getopt goes through it, up to the entry without a name. */
    method LongOptions(ghost t: Tables) returns (r: seq<LongOption>)
      requires Holds(t)
      ensures r == t.longs
    {
      r := [];
      while longOpts[|r|].Some?
        invariant |r| <= longEnd && r == t.longs[..|r|]
        decreases longEnd - |r|
      {
        r := r + [longOpts[|r|].value];
      }
    }

    /** Finds the group of an option that getopt returned, and the key to hand to its parser. */
    method ParseOpt(opt: int, ghost t: Tables) returns (r: Delivery)
      requires Holds(t)
      ensures r == Deliver(t, opt)
    {
      var groupKey := opt / USER;
      if groupKey != 0 {
        return if 1 <= groupKey <= egroup then Delivered(groupKey - 1, SignExtended(opt)) else Outside;
      }
      var shortIndex := FindShort((opt % 0x100) as char, t);
      if shortIndex.None? { return Unknown; }
      var group := 0;
      while group < egroup && groups[group].shortEnd <= shortIndex.value
        invariant group <= egroup
        invariant GroupAt(t.groups, shortIndex.value, group) == GroupAt(t.groups, shortIndex.value, 0)
      {
        assert groups[..egroup][group] == groups[group];
        group := group + 1;
      }
      if group < egroup {
        assert groups[..egroup][group] == groups[group];
        return Delivered(group, opt);
      }
      return Unknown;
    }

    /** strchr on the short options. */
    method FindShort(c: char, ghost t: Tables) returns (r: Option<nat>)
      requires Holds(t)
      ensures r == IndexOf(t.shorts, c)
    {
      var i := 0;
      while i < shortEnd
        invariant i <= shortEnd && c !in t.shorts[..i]
      {
        assert t.shorts[i] == shortOpts[i];
        if shortOpts[i] == c {
          IndexIs(t.shorts, c, i);
          return Some(i);
        }
        i := i + 1;
      }
      assert t.shorts[..i] == t.shorts;
      return None;
    }
  }

  /** The tables of a tree, in storage of the calculated sizes. */
  method Prepare(a: Argp) returns (p: Parser)
    ensures fresh(p) && p.Holds(EnterAll(Preorder(a), Empty()))
  {
    var sizes := new ParserSizes();
    sizes.CalcSizes(a);
    p := new Parser(sizes);
    p.ConvertOptions(a, Empty());
    ConvertIsPreorder(a, Empty());
  }
}
