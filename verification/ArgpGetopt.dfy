/** getopt reading the tables that argp made: which options come back to the group that declares
    them, with the argument that was declared (argp-parse.c and getopt.c together, with flags 0). */
module ArgpGetopt {
  import opened Common
  import opened GetoptScan
  import opened GetoptAnswers
  import opened ArgpParse
  import Getopt

  // ----- The short options as a row of keys

  datatype Code = Code(c: char, arg: HasArg)

  /** The short keys among the first n options. */
  function OptionCodes(opts: seq<Opt>, n: nat): seq<Code>
    requires n <= |opts|
  {
    if n == 0 then [] else
      var r := OptionCodes(opts, n - 1);
      if HasShort(opts, n - 1) then r + [Code(opts[n - 1].key as char, ArgOf(Real(opts, n - 1)))] else r
  }

  /** The short keys of a row of groups. */
  function CodesOf(s: seq<Argp>): seq<Code> {
    if s == [] then [] else
      var o := Options(s[|s| - 1]);
      CodesOf(s[..|s| - 1]) + OptionCodes(o, |o|)
  }

  function Spell(codes: seq<Code>): string {
    if codes == [] then "" else [codes[0].c] + Colons(codes[0].arg) + Spell(codes[1..])
  }

  lemma {:induction false} SpellAppend(x: seq<Code>, y: seq<Code>)
    ensures Spell(x + y) == Spell(x) + Spell(y)
  {
    if x == [] {
      assert x + y == y;
    } else {
      assert (x + y)[1..] == x[1..] + y;
      SpellAppend(x[1..], y);
    }
  }

  lemma SpellOne(k: Code)
    ensures Spell([k]) == [k.c] + Colons(k.arg)
  {
    assert Spell([k][1..]) == "";
  }

  lemma {:induction false} SpellOptions(opts: seq<Opt>, n: nat)
    requires n <= |opts|
    ensures Spell(OptionCodes(opts, n)) == ShortCodes(opts, n)
  {
    if n > 0 {
      SpellOptions(opts, n - 1);
      if HasShort(opts, n - 1) {
        var k := Code(opts[n - 1].key as char, ArgOf(Real(opts, n - 1)));
        SpellAppend(OptionCodes(opts, n - 1), [k]);
        SpellOne(k);
      }
    }
  }

  /** The string of short options spells the keys. */
  lemma {:induction false} SpellAll(s: seq<Argp>)
    ensures Spell(CodesOf(s)) == EnterAll(s, Empty()).shorts
  {
    if s != [] {
      var n := |s| - 1;
      var o := Options(s[n]);
      SpellAll(s[..n]);
      SpellOptions(o, |o|);
      SpellAppend(CodesOf(s[..n]), OptionCodes(o, |o|));
    }
  }

  function FirstCode(codes: seq<Code>, c: char): (r: Option<nat>)
    ensures match r
      case None => forall k :: 0 <= k < |codes| ==> codes[k].c != c
      case Some(j) => j < |codes| && codes[j].c == c && forall k :: 0 <= k < j ==> codes[k].c != c
  {
    if codes == [] then None else if codes[0].c == c then Some(0)
    else match FirstCode(codes[1..], c)
      case None =>
        assert forall k :: 0 < k < |codes| ==> codes[k] == codes[1..][k - 1];
        None
      case Some(j) =>
        assert forall k :: 0 < k < |codes| ==> codes[k] == codes[1..][k - 1];
        Some(j + 1)
  }

  lemma FirstCodeIs(codes: seq<Code>, c: char, j: nat)
    requires j < |codes| && codes[j].c == c && forall k :: 0 <= k < j ==> codes[k].c != c
    ensures FirstCode(codes, c) == Some(j)
  {}

  // ----- Who declares a key

  ghost predicate FirstIn(opts: seq<Opt>, n: nat, c: char, i: nat)
    requires n <= |opts|
  {
    i < n && IsShortOption(opts, i, c) && forall k: nat :: k < i ==> !IsShortOption(opts, k, c)
  }

  /** Option i of group g is the first, in preorder, with the short key c. */
  ghost predicate OwnsShort(s: seq<Argp>, c: char, g: nat, i: nat) {
    FirstShort(s, c, g) && FirstIn(Options(s[g]), |Options(s[g])|, c, i)
  }

  /** The first code of a key is its first option's. */
  lemma {:induction false} OptionCodesFirst(opts: seq<Opt>, n: nat, c: char)
    requires n <= |opts|
    ensures match FirstCode(OptionCodes(opts, n), c)
      case None => !ShortIn(opts, n, c)
      case Some(j) => exists i: nat :: FirstIn(opts, n, c, i) && OptionCodes(opts, n)[j].arg == ArgOf(Real(opts, i))
  {
    hide IsShortOption, HasShort, Real, FirstCode;
    if n > 0 {
      OptionCodesFirst(opts, n - 1, c);
      OptionCodesStep(opts, n, c);
      match FirstCode(OptionCodes(opts, n - 1), c)
      case Some(j) =>
        var i: nat :| FirstIn(opts, n - 1, c, i) && OptionCodes(opts, n - 1)[j].arg == ArgOf(Real(opts, i));
        assert FirstIn(opts, n, c, i);
      case None =>
        if IsShortOption(opts, n - 1, c) { assert FirstIn(opts, n, c, n - 1); }
    }
  }

  lemma OptionCodesStep(opts: seq<Opt>, n: nat, c: char)
    requires 0 < n <= |opts|
    ensures var r, r' := OptionCodes(opts, n - 1), OptionCodes(opts, n);
      match FirstCode(r, c)
      case Some(j) => FirstCode(r', c) == Some(j) && r'[j] == r[j]
      case None =>
        if IsShortOption(opts, n - 1, c)
        then FirstCode(r', c) == Some(|r|) && r'[|r|].arg == ArgOf(Real(opts, n - 1))
        else FirstCode(r', c) == None
  {
    hide Real;
    var r, r' := OptionCodes(opts, n - 1), OptionCodes(opts, n);
    match FirstCode(r, c)
    case Some(j) => FirstCodeIs(r', c, j);
    case None => if IsShortOption(opts, n - 1, c) { FirstCodeIs(r', c, |r|); }
  }

  lemma FirstCodeAppend(x: seq<Code>, y: seq<Code>, c: char)
    ensures match FirstCode(x, c)
      case Some(j) => FirstCode(x + y, c) == Some(j)
      case None => FirstCode(x + y, c) == match FirstCode(y, c) case None => None case Some(j) => Some(|x| + j)
  {
    hide FirstCode;
    match FirstCode(x, c)
    case Some(j) => FirstCodeIs(x + y, c, j);
    case None =>
      match FirstCode(y, c)
      case None =>
      case Some(j) => FirstCodeIs(x + y, c, |x| + j);
  }

  /** The first option that declares the key c has this argument. */
  ghost predicate Declared(s: seq<Argp>, c: char, arg: HasArg) {
    exists g: nat, i: nat :: OwnsShort(s, c, g, i) && arg == ArgOf(Real(Options(s[g]), i))
  }

  ghost predicate Undeclared(s: seq<Argp>, c: char) { forall g :: 0 <= g < |s| ==> !DeclaresShort(s[g], c) }

  lemma DeclaredMore(s: seq<Argp>, c: char, arg: HasArg)
    requires s != [] && Declared(s[..|s| - 1], c, arg)
    ensures Declared(s, c, arg)
  {
    hide Real, IsShortOption, DeclaresShort;
    var g: nat, i: nat :| OwnsShort(s[..|s| - 1], c, g, i) && arg == ArgOf(Real(Options(s[..|s| - 1][g]), i));
    assert OwnsShort(s, c, g, i);
  }

  lemma DeclaredLast(s: seq<Argp>, c: char, i: nat)
    requires s != [] && Undeclared(s[..|s| - 1], c)
    requires var o := Options(s[|s| - 1]); FirstIn(o, |o|, c, i)
    ensures Declared(s, c, ArgOf(Real(Options(s[|s| - 1]), i)))
  {
    DeclaredIn(s[|s| - 1], c, i);
    hide Real, IsShortOption, DeclaresShort;
    forall h | 0 <= h < |s| - 1 ensures !DeclaresShort(s[h], c) { assert s[..|s| - 1][h] == s[h]; }
    assert OwnsShort(s, c, |s| - 1, i);
  }

  /** The first code of a key is that of the first option that declares it, in preorder. */
  lemma {:induction false} CodesFirst(s: seq<Argp>, c: char)
    ensures match FirstCode(CodesOf(s), c)
      case None => Undeclared(s, c)
      case Some(j) => Declared(s, c, CodesOf(s)[j].arg)
  {
    hide FirstCode, Declared, FirstIn, DeclaresShort;
    if s != [] {
      var n := |s| - 1;
      var o := Options(s[n]);
      CodesFirst(s[..n], c);
      OptionCodesFirst(o, |o|, c);
      FirstCodeAppend(CodesOf(s[..n]), OptionCodes(o, |o|), c);
      if FirstCode(CodesOf(s[..n]), c).Some? {
        DeclaredMore(s, c, CodesOf(s[..n])[FirstCode(CodesOf(s[..n]), c).value].arg);
      } else {
        CodesLast(s, c);
      }
    }
  }

  lemma CodesLast(s: seq<Argp>, c: char)
    requires s != [] && Undeclared(s[..|s| - 1], c)
    ensures var o := Options(s[|s| - 1]);
      match FirstCode(OptionCodes(o, |o|), c)
      case None => Undeclared(s, c)
      case Some(j) => Declared(s, c, OptionCodes(o, |o|)[j].arg)
  {
    var o := Options(s[|s| - 1]);
    OptionCodesFirst(o, |o|, c);
    match FirstCode(OptionCodes(o, |o|), c)
    case None =>
      hide ShortIn;
      forall h | 0 <= h < |s| ensures !DeclaresShort(s[h], c) {
        if h < |s| - 1 { assert s[..|s| - 1][h] == s[h]; }
      }
    case Some(j) =>
      hide FirstCode, IsShortOption, Declared, Real;
      var i: nat :| FirstIn(o, |o|, c, i) && OptionCodes(o, |o|)[j].arg == ArgOf(Real(o, i));
      DeclaredLast(s, c, i);
  }

  lemma DeclaredIn(a: Argp, c: char, i: nat)
    requires FirstIn(Options(a), |Options(a)|, c, i)
    ensures DeclaresShort(a, c)
  {}

  lemma OwnedOnce(s: seq<Argp>, c: char, g: nat, i: nat, g': nat, i': nat)
    requires OwnsShort(s, c, g, i) && OwnsShort(s, c, g', i')
    ensures g == g' && i == i'
  {
    hide DeclaresShort, IsShortOption;
  }

  // ----- What getopt sees of the keys

  predicate Stripping(codes: seq<Code>) { codes != [] && (codes[0].c == '-' || codes[0].c == '+') }

  /** getopt takes a leading '-' or '+' for itself. */
  function Seen(codes: seq<Code>): seq<Code> { if Stripping(codes) then codes[1..] else codes }

  /** It leaves the colons of that key. */
  function Lead(codes: seq<Code>): string { if Stripping(codes) then Colons(codes[0].arg) else "" }

  lemma StrippedSpell(codes: seq<Code>)
    ensures Getopt.Stripped(Spell(codes)) == Lead(codes) + Spell(Seen(codes))
  {}

  /** What getopt sees starts with a colon. */
  predicate LeadsColon(codes: seq<Code>) {
    if Stripping(codes) then !codes[0].arg.NoArgument? || (|codes| > 1 && codes[1].c == ':')
    else codes != [] && codes[0].c == ':'
  }

  lemma LeadsColonExactly(codes: seq<Code>)
    ensures LeadsColon(codes) <==> CharAt(Getopt.Stripped(Spell(codes)), 0, ':')
  {
    StrippedSpell(codes);
    if Stripping(codes) && |codes| > 1 { assert codes[1..][0] == codes[1]; }
  }

  /** How many colons stand behind key j: its own, and those of keys that are colons. */
  function ColonsAt(codes: seq<Code>, j: nat): nat
    requires j < |codes|
    decreases |codes| - j
  {
    |Colons(codes[j].arg)| + if j + 1 < |codes| && codes[j + 1].c == ':' then 1 + ColonsAt(codes, j + 1) else 0
  }

  /** getopt takes key j to have this argument. */
  predicate Asks(codes: seq<Code>, j: nat, arg: HasArg)
    requires j < |codes|
  {
    match arg
    case NoArgument =>
      ColonsAt(codes, j) == 0 && !(codes[j].c == 'W' && j + 1 < |codes| && codes[j + 1].c == ';')
    case RequiredArgument => ColonsAt(codes, j) == 1
    case OptionalArgument => ColonsAt(codes, j) >= 2
  }

  /** The string behind the character of key j. */
  function Tail(codes: seq<Code>, j: nat): string
    requires j < |codes|
  {
    Colons(codes[j].arg) + Spell(codes[j + 1..])
  }

  lemma TailNext(codes: seq<Code>, j: nat)
    requires j < |codes|
    ensures Tail(codes, j) == Colons(codes[j].arg) +
              if j + 1 < |codes| then [codes[j + 1].c] + Tail(codes, j + 1) else ""
  {
    if j + 1 < |codes| {
      assert codes[j + 1..][0] == codes[j + 1] && codes[j + 1..][1..] == codes[j + 2..];
    }
  }

  lemma ColonsSpelled(codes: seq<Code>, j: nat)
    requires j < |codes|
    ensures ColonsAt(codes, j) >= 1 <==> CharAt(Tail(codes, j), 0, ':')
    ensures ColonsAt(codes, j) >= 2 <==> CharAt(Tail(codes, j), 1, ':') && CharAt(Tail(codes, j), 0, ':')
    ensures ColonsAt(codes, j) == 0 ==>
      (CharAt(Tail(codes, j), 0, ';') <==> j + 1 < |codes| && codes[j + 1].c == ';')
  {
    hide Tail;
    TailNext(codes, j);
    if j + 1 < |codes| { TailNext(codes, j + 1); }
  }

  /** Without keys that are colons or semicolons, getopt takes every key as it was declared. */
  lemma PlainAsks(codes: seq<Code>, j: nat)
    requires j < |codes| && (j + 1 < |codes| ==> codes[j + 1].c != ':' && codes[j + 1].c != ';')
    ensures Asks(codes, j, codes[j].arg)
  {}

  lemma {:induction false} SpellHolds(codes: seq<Code>, c: char)
    requires c != ':'
    ensures c in Spell(codes) ==> FirstCode(codes, c).Some?
  {
    if codes != [] { SpellHolds(codes[1..], c); }
  }

  lemma {:induction false} SpellAt(codes: seq<Code>, j: nat)
    requires j < |codes|
    ensures Spell(codes) == Spell(codes[..j]) + [codes[j].c] + Tail(codes, j)
  {
    if j == 0 {
      assert codes[..0] == [];
    } else {
      SpellAt(codes[1..], j - 1);
      assert codes[..j][1..] == codes[1..][..j - 1] && codes[1..][j..] == codes[j + 1..];
      Grouped([codes[0].c] + Colons(codes[0].arg), Spell(codes[..j][1..]), [codes[j].c], Tail(codes, j));
    }
  }

  lemma Grouped(w: string, x: string, y: string, z: string)
    ensures w + (x + y + z) == (w + x) + y + z
  {}

  /** The search for a key's character ends at its first code. */
  lemma FindCode(lead: string, codes: seq<Code>, c: char)
    requires c != ':' && c !in lead
    ensures match FirstCode(codes, c)
      case None => IndexOf(lead + Spell(codes), c) == None
      case Some(j) =>
        var k := |lead + Spell(codes[..j])|;
        IndexOf(lead + Spell(codes), c) == Some(k) && (lead + Spell(codes))[k + 1..] == Tail(codes, j)
  {
    hide FirstCode, Spell, IndexOf, Tail;
    match FirstCode(codes, c)
    case None => SpellHolds(codes, c);
    case Some(j) =>
      SpellAt(codes, j);
      FirstMissing(codes[..j], c);
      SpellHolds(codes[..j], c);
      FoundBehind(lead + Spell(codes[..j]), c, Tail(codes, j), lead + Spell(codes));
  }

  lemma FoundBehind(w: string, c: char, tail: string, o: string)
    requires c !in w && o == w + [c] + tail
    ensures IndexOf(o, c) == Some(|w|) && o[|w| + 1..] == tail
  {
    assert o[..|w|] == w;
    IndexIs(o, c, |w|);
  }

  lemma FirstMissing(codes: seq<Code>, c: char)
    requires forall k :: 0 <= k < |codes| ==> codes[k].c != c
    ensures FirstCode(codes, c) == None
  {}

  // ----- Reading and delivering a short option

  /** The settings that getopt works with. */
  function SettingsOf(t: Tables, posix: bool): (cfg: Config)
    ensures cfg.optstring == Getopt.Stripped(t.shorts) && cfg.longopts == Some(t.longs) && !cfg.longOnly
  {
    Getopt.Interface(t.shorts, Some(t.longs), false, posix).Settings()
  }

  /** What the parser does with a value of getopt, and with optopt, which it has set to -1 before. */
  function Dispatch(t: Tables, ret: int, optopt: int): Delivery {
    if ret == -1 then NoOption
    else if ret == Question() && optopt != -1 then Rejected
    else if ret == 1 then NoOption
    else Deliver(t, ret)
  }

  /** Where one option went, with which argument, and what getopt passed. */
  datatype Handled = Handled(to: Delivery, optarg: Option<string>, rest: Option<string>, passed: nat)

  function Handle(t: Tables, d: Decoded): Handled {
    Handled(Dispatch(t, d.ret, Stored(d.optopt)), d.optarg, d.rest, d.passed)
  }

  /** The character c of an element, with `more` behind it in the element and `after` behind that. */
  function Reading(s: seq<Argp>, posix: bool, elem: string, c: char, more: string, after: seq<string>): Handled
    requires |elem| >= 2
  {
    var t := EnterAll(s, Empty());
    Handle(t, Decode(SettingsOf(t, posix), elem, [c] + more, after))
  }

  /** What a key with this argument asks for: the rest of the element, or the next one, or nothing. */
  function Asked(arg: HasArg, to: Delivery, more: string, after: seq<string>): Handled {
    match arg
    case NoArgument => Handled(to, None, Some(more), if more == "" then 1 else 0)
    case OptionalArgument => Handled(to, if more == "" then None else Some(more), None, 1)
    case RequiredArgument =>
      if more != "" then Handled(to, Some(more), None, 1)
      else if after == [] then Handled(Rejected, None, None, 1)
      else Handled(to, Some(after[0]), None, 2)
  }

  /** Whatever it stands in and is followed by, c is read with this argument and delivered to group g. */
  ghost predicate ReadAs(s: seq<Argp>, posix: bool, c: char, g: nat, arg: HasArg) {
    forall elem: string, more, after :: |elem| >= 2 && elem[1] != '-' ==>
      Reading(s, posix, elem, c, more, after) == Asked(arg, Delivered(g, c as int), more, after)
  }

  /** The table allows it: getopt does not keep the character for itself, sees a key for it with just
      the colons of this argument behind it, and does not take a missing argument for an option. */
  predicate Clear(codes: seq<Code>, c: char, arg: HasArg) {
    && c != ':' && c != ';'
    && (arg.RequiredArgument? ==> !LeadsColon(codes))
    && match FirstCode(Seen(codes), c) case None => false case Some(j) => Asks(Seen(codes), j, arg)
  }

  /** How getopt reads a character that the option string has, from what is behind it there. */
  function DecodeTail(cfg: Config, c: char, tail: string, more: string, after: seq<string>): Decoded {
    if c == 'W' && CharAt(tail, 0, ';') then DecodeW(cfg, more, after)
    else if !CharAt(tail, 0, ':') then Decoded(c as int, None, Some(more), if more == "" then 1 else 0, None, None)
    else if CharAt(tail, 1, ':') then Decoded(c as int, if more == "" then None else Some(more), None, 1, None, None)
    else if more != "" then Decoded(c as int, Some(more), None, 1, None, None)
    else if after == [] then Decoded(Missing(cfg), None, None, 1, Some(c as int), None)
    else Decoded(c as int, Some(after[0]), None, 2, None, None)
  }

  lemma ShortByTail(cfg: Config, c: char, k: nat, more: string, after: seq<string>)
    requires IndexOf(cfg.optstring, c) == Some(k) && c != ':' && c != ';'
    ensures DecodeShort(cfg, [c] + more, after) == DecodeTail(cfg, c, cfg.optstring[k + 1..], more, after)
  {
    hide IndexOf, DecodeW;
    assert ([c] + more)[1..] == more;
  }

  lemma ShortRefused(cfg: Config, c: char, more: string, after: seq<string>)
    requires c == ':' || c == ';' || IndexOf(cfg.optstring, c) == None
    ensures DecodeShort(cfg, [c] + more, after) ==
              Decoded(Question(), None, Some(more), if more == "" then 1 else 0, Some(c as int), None)
  {
    hide IndexOf;
    assert ([c] + more)[1..] == more;
  }

  /** Where the option string that getopt sees has the character c, and what is behind it there. */
  lemma FindSeen(s: seq<Argp>, c: char)
    requires c != ':'
    ensures var o, codes := Getopt.Stripped(EnterAll(s, Empty()).shorts), Seen(CodesOf(s));
      match FirstCode(codes, c)
      case None => IndexOf(o, c) == None
      case Some(j) =>
        IndexOf(o, c).Some? && var k := IndexOf(o, c).value; k < |o| && o[k + 1..] == Tail(codes, j)
  {
    SpellAll(s);
    StrippedSpell(CodesOf(s));
    hide EnterAll, Spell, FirstCode, IndexOf, Tail;
    FindCode(Lead(CodesOf(s)), Seen(CodesOf(s)), c);
  }

  /** What getopt makes of c with these tables. */
  function DecodeCode(cfg: Config, codes: seq<Code>, c: char, more: string, after: seq<string>): Decoded {
    match FirstCode(codes, c)
    case None => Decoded(Question(), None, Some(more), if more == "" then 1 else 0, Some(c as int), None)
    case Some(j) => DecodeTail(cfg, c, Tail(codes, j), more, after)
  }

  lemma ShortByCode(s: seq<Argp>, posix: bool, c: char, more: string, after: seq<string>)
    requires c != ':' && c != ';'
    ensures var cfg := SettingsOf(EnterAll(s, Empty()), posix);
      DecodeShort(cfg, [c] + more, after) == DecodeCode(cfg, Seen(CodesOf(s)), c, more, after)
  {
    FindSeen(s, c);
    hide EnterAll, FirstCode, IndexOf, DecodeShort, DecodeCode, Tail, CodesOf, Seen, Getopt.Stripped;
    ShortBySeen(SettingsOf(EnterAll(s, Empty()), posix), Seen(CodesOf(s)), c, more, after);
  }

  lemma ShortBySeen(cfg: Config, codes: seq<Code>, c: char, more: string, after: seq<string>)
    requires c != ':' && c != ';'
    requires match FirstCode(codes, c)
      case None => IndexOf(cfg.optstring, c) == None
      case Some(j) =>
        && IndexOf(cfg.optstring, c).Some?
        && cfg.optstring[IndexOf(cfg.optstring, c).value + 1..] == Tail(codes, j)
    ensures DecodeShort(cfg, [c] + more, after) == DecodeCode(cfg, codes, c, more, after)
  {
    hide FirstCode, IndexOf, DecodeShort, DecodeTail, Tail;
    match IndexOf(cfg.optstring, c)
    case None => ShortRefused(cfg, c, more, after);
    case Some(k) => ShortByTail(cfg, c, k, more, after);
  }

  lemma ReadingShort(s: seq<Argp>, posix: bool, elem: string, c: char, more: string, after: seq<string>)
    requires |elem| >= 2 && elem[1] != '-'
    ensures var t := EnterAll(s, Empty());
      Reading(s, posix, elem, c, more, after) == Handle(t, DecodeShort(SettingsOf(t, posix), [c] + more, after))
  {
    hide EnterAll, DecodeShort, Dispatch, SettingsOf;
  }

  /** A character that getopt does not take for an option is an error. */
  lemma NoKey(s: seq<Argp>, posix: bool, elem: string, c: char, more: string, after: seq<string>)
    requires |elem| >= 2 && elem[1] != '-'
    requires c == ':' || c == ';' || FirstCode(Seen(CodesOf(s)), c) == None
    ensures Reading(s, posix, elem, c, more, after).to == Rejected
  {
    ReadingShort(s, posix, elem, c, more, after);
    if c != ':' { FindSeen(s, c); }
    hide EnterAll, DecodeShort, SettingsOf, FirstCode, CodesOf, Seen, IndexOf, Deliver;
    ShortRefused(SettingsOf(EnterAll(s, Empty()), posix), c, more, after);
  }

  /** The fields of a reading, apart from where it goes. */
  predicate SameFields(d: Decoded, h: Handled) { d.optarg == h.optarg && d.rest == h.rest && d.passed == h.passed }

  /** Three readings tell what argument getopt takes a key to have. */
  lemma TailKinds(cfg: Config, codes: seq<Code>, j: nat, arg: HasArg, to: Delivery)
    requires j < |codes| && cfg.longopts.Some?
    requires var c, tail := codes[j].c, Tail(codes, j);
      && SameFields(DecodeTail(cfg, c, tail, "", [""]), Asked(arg, to, "", [""]))
      && SameFields(DecodeTail(cfg, c, tail, "x", []), Asked(arg, to, "x", []))
      && SameFields(DecodeTail(cfg, c, tail, "", []), Asked(arg, to, "", []))
    ensures Asks(codes, j, arg)
  {
    ColonsSpelled(codes, j);
    hide Tail, ColonsAt, Find, DecodeFound;
  }

  lemma TailAsked(cfg: Config, codes: seq<Code>, j: nat, arg: HasArg, more: string, after: seq<string>)
    requires j < |codes| && Asks(codes, j, arg)
    ensures var d, c := DecodeTail(cfg, codes[j].c, Tail(codes, j), more, after), codes[j].c as int;
      && SameFields(d, Asked(arg, Rejected, more, after)) && d.longind == None
      && if arg.RequiredArgument? && more == "" && after == [] then d.ret == Missing(cfg) && d.optopt == Some(c)
         else d.ret == c && d.optopt == None
  {
    ColonsSpelled(codes, j);
    hide Tail, ColonsAt, DecodeW;
  }

  /** One reading of a key that the table allows. */
  lemma ClearRead(s: seq<Argp>, posix: bool, elem: string, c: char, g: nat, arg: HasArg, more: string,
                  after: seq<string>)
    requires |elem| >= 2 && elem[1] != '-' && FirstShort(s, c, g) && Clear(CodesOf(s), c, arg)
    ensures Reading(s, posix, elem, c, more, after) == Asked(arg, Delivered(g, c as int), more, after)
  {
    var t, codes := EnterAll(s, Empty()), Seen(CodesOf(s));
    var cfg := SettingsOf(t, posix);
    KeyIsPrintable(s[g], c);
    LeadsColonExactly(CodesOf(s));
    SpellAll(s);
    hide EnterAll, CodesOf, Seen, Asks, DeclaresShort, DecodeShort, DecodeTail, Tail, Deliver, LeadsColon, SettingsOf,
         FirstCode, Spell, Getopt.Stripped;
    ReadingShort(s, posix, elem, c, more, after);
    ShortByCode(s, posix, c, more, after);
    TailAsked(cfg, codes, FirstCode(codes, c).value, arg, more, after);
    ShortDelivered(s, c, g);
  }

  /** The readings of a key that is read with this argument tell that the table allows it. */
  lemma ReadClear(s: seq<Argp>, posix: bool, c: char, g: nat, arg: HasArg)
    requires ReadAs(s, posix, c, g, arg)
    ensures FirstShort(s, c, g) && Clear(CodesOf(s), c, arg)
  {
    hide ReadAs, FirstCode, CodesOf, Seen, EnterAll, Asks, LeadsColon, FirstShort;
    ReadKey(s, posix, c, g, arg);
    ReadArgument(s, posix, c, g, arg);
    ReadGroup(s, posix, c, g, arg);
    if arg.RequiredArgument? { ReadMissing(s, posix, c, g); }
  }

  lemma ReadKey(s: seq<Argp>, posix: bool, c: char, g: nat, arg: HasArg)
    requires ReadAs(s, posix, c, g, arg)
    ensures c != ':' && c != ';' && FirstCode(Seen(CodesOf(s)), c).Some?
  {
    hide FirstCode, CodesOf, Seen, Reading;
    ReadOnce(s, posix, c, g, arg, "", [""]);
    if c == ':' || c == ';' || FirstCode(Seen(CodesOf(s)), c) == None { NoKey(s, posix, "-x", c, "", [""]); }
  }

  lemma ReadArgument(s: seq<Argp>, posix: bool, c: char, g: nat, arg: HasArg)
    requires ReadAs(s, posix, c, g, arg) && c != ':' && c != ';' && FirstCode(Seen(CodesOf(s)), c).Some?
    ensures Asks(Seen(CodesOf(s)), FirstCode(Seen(CodesOf(s)), c).value, arg)
  {
    hide ReadAs, CodesOf, Seen, EnterAll, SettingsOf, Reading, DecodeTail, Tail, Asks, Dispatch, Asked;
    ReadOnce(s, posix, c, g, arg, "", [""]);
    ReadOnce(s, posix, c, g, arg, "x", []);
    ReadOnce(s, posix, c, g, arg, "", []);
    var codes := Seen(CodesOf(s));
    hide FirstCode;
    TailKinds(SettingsOf(EnterAll(s, Empty()), posix), codes, FirstCode(codes, c).value, arg, Delivered(g, c as int));
  }

  lemma ReadGroup(s: seq<Argp>, posix: bool, c: char, g: nat, arg: HasArg)
    requires ReadAs(s, posix, c, g, arg) && c != ':' && c != ';'
    requires match FirstCode(Seen(CodesOf(s)), c) case None => false case Some(j) => Asks(Seen(CodesOf(s)), j, arg)
    ensures FirstShort(s, c, g)
  {
    CodePrintable(s, c);
    hide ReadAs, CodesOf, Seen, EnterAll, SettingsOf, Reading, DecodeTail, Tail, Asks, FirstShort, FirstCode, Deliver;
    var codes := Seen(CodesOf(s));
    ReadOnce(s, posix, c, g, arg, "", [""]);
    TailAsked(SettingsOf(EnterAll(s, Empty()), posix), codes, FirstCode(codes, c).value, arg, "", [""]);
    ShortDelivered(s, c, g);
  }

  lemma ReadMissing(s: seq<Argp>, posix: bool, c: char, g: nat)
    requires ReadAs(s, posix, c, g, RequiredArgument) && c != ':' && c != ';'
    requires match FirstCode(Seen(CodesOf(s)), c)
      case None => false
      case Some(j) => Asks(Seen(CodesOf(s)), j, RequiredArgument)
    ensures !LeadsColon(CodesOf(s))
  {
    LeadsColonExactly(CodesOf(s));
    SpellAll(s);
    hide ReadAs, CodesOf, Seen, EnterAll, SettingsOf, Reading, DecodeTail, Tail, Asks, FirstShort, FirstCode, Spell,
         LeadsColon, Getopt.Stripped;
    var codes, t := Seen(CodesOf(s)), EnterAll(s, Empty());
    ReadOnce(s, posix, c, g, RequiredArgument, "", []);
    TailAsked(SettingsOf(t, posix), codes, FirstCode(codes, c).value, RequiredArgument, "", []);
    NeverRejects(t, ':' as int);
  }

  lemma NeverRejects(t: Tables, opt: int)
    ensures Deliver(t, opt) != Rejected
  {}

  /** Short keys are printable. */
  lemma CodePrintable(s: seq<Argp>, c: char)
    requires FirstCode(Seen(CodesOf(s)), c).Some?
    ensures 32 <= c as int < 127
  {
    CodesFirst(s, c);
    hide CodesOf, Real, IsShortOption, DeclaresShort;
    var j := FirstCode(Seen(CodesOf(s)), c).value;
    assert exists k :: 0 <= k < |CodesOf(s)| && CodesOf(s)[k].c == c;
    hide FirstCode;
    var g: nat, i: nat :| OwnsShort(s, c, g, i);
    KeyIsPrintable(s[g], c);
  }

  lemma ReadOnce(s: seq<Argp>, posix: bool, c: char, g: nat, arg: HasArg, more: string, after: seq<string>)
    requires ReadAs(s, posix, c, g, arg)
    ensures Reading(s, posix, "-x", c, more, after) == Asked(arg, Delivered(g, c as int), more, after)
    ensures c != ':' && c != ';' ==>
      var t := EnterAll(s, Empty());
      var cfg := SettingsOf(t, posix);
      Handle(t, DecodeCode(cfg, Seen(CodesOf(s)), c, more, after)) == Asked(arg, Delivered(g, c as int), more, after)
  {
    hide Reading, EnterAll, SettingsOf, Seen, CodesOf, DecodeShort, DecodeCode, Handle;
    assert "-x"[1] != '-';
    ReadingShort(s, posix, "-x", c, more, after);
    if c != ':' && c != ';' { ShortByCode(s, posix, c, more, after); }
  }

  /** A character is read with an argument of this kind, and delivered to group g, if and only if g is
      the first group that declares it and the table allows it. */
  lemma ShortExactly(s: seq<Argp>, posix: bool, c: char, g: nat, arg: HasArg)
    ensures ReadAs(s, posix, c, g, arg) <==> FirstShort(s, c, g) && Clear(CodesOf(s), c, arg)
  {
    hide FirstShort, Clear, CodesOf;
    if ReadAs(s, posix, c, g, arg) { ReadClear(s, posix, c, g, arg); }
    hide Reading;
    if FirstShort(s, c, g) && Clear(CodesOf(s), c, arg) {
      forall elem: string, more, after | |elem| >= 2 && elem[1] != '-'
        ensures Reading(s, posix, elem, c, more, after) == Asked(arg, Delivered(g, c as int), more, after)
      {
        ClearRead(s, posix, elem, c, g, arg, more, after);
      }
    }
  }

  /** None of the keys means something else to getopt. */
  predicate PlainKeys(codes: seq<Code>) {
    !Stripping(codes) && forall k :: 0 <= k < |codes| ==> codes[k].c != ':' && codes[k].c != ';'
  }

  /** Then every short option comes back to the first group that declares it, with the argument that
      its first option there declares. */
  lemma PlainKeysRead(s: seq<Argp>, posix: bool, c: char, g: nat, i: nat)
    requires PlainKeys(CodesOf(s)) && OwnsShort(s, c, g, i)
    ensures ReadAs(s, posix, c, g, ArgOf(Real(Options(s[g]), i)))
  {
    var codes := CodesOf(s);
    OwnedCode(s, c, g, i);
    hide CodesOf, ReadAs, FirstCode, Real, DeclaresShort, IsShortOption;
    PlainAsks(codes, FirstCode(codes, c).value);
    ShortExactly(s, posix, c, g, ArgOf(Real(Options(s[g]), i)));
  }

  /** The first code of a declared key has the argument of the option that owns it. */
  lemma OwnedCode(s: seq<Argp>, c: char, g: nat, i: nat)
    requires OwnsShort(s, c, g, i)
    ensures FirstCode(CodesOf(s), c).Some?
    ensures CodesOf(s)[FirstCode(CodesOf(s), c).value].arg == ArgOf(Real(Options(s[g]), i))
  {
    CodesFirst(s, c);
    hide CodesOf, FirstCode, Real, IsShortOption, DeclaresShort;
    if FirstCode(CodesOf(s), c).Some? {
      var arg := CodesOf(s)[FirstCode(CodesOf(s), c).value].arg;
      var g': nat, i': nat :| OwnsShort(s, c, g', i') && arg == ArgOf(Real(Options(s[g']), i'));
      OwnedOnce(s, c, g, i, g', i');
    }
  }

  /** The first option that declares a short key is read as it was declared if and only if the table
      allows it. */
  lemma ShortRead(s: seq<Argp>, posix: bool, c: char, g: nat, i: nat)
    requires OwnsShort(s, c, g, i)
    ensures var arg := ArgOf(Real(Options(s[g]), i)); ReadAs(s, posix, c, g, arg) <==> Clear(CodesOf(s), c, arg)
  {
    hide ReadAs, Clear, CodesOf, Real, IsShortOption;
    ShortExactly(s, posix, c, g, ArgOf(Real(Options(s[g]), i)));
  }

  // ----- Keys that mean something else to getopt

  predicate IsPlain(o: Opt) { IsShort(o) && !o.alias }

  function Alone(o: seq<Opt>): seq<Argp> { [Argp(Some(o), true, Nil)] }

  function Key(c: char, arg: bool): Opt { Opt(None, c as int, arg, false, false, false) }

  /** Option i of a single group is the first with its key, and is not read as it was declared. */
  ghost predicate Misread(o: seq<Opt>, posix: bool, i: nat) {
    && i < |o| && IsPlain(o[i]) && OwnsShort(Alone(o), o[i].key as char, 0, i)
    && !ReadAs(Alone(o), posix, o[i].key as char, 0, ArgOf(o[i]))
  }

  function CodeOf(o: Opt): Code
    requires IsPlain(o)
  {
    Code(o.key as char, ArgOf(o))
  }

  lemma AloneCodes(o: seq<Opt>)
    requires |o| <= 2 && forall i :: 0 <= i < |o| ==> IsPlain(o[i])
    ensures |o| == 1 ==> CodesOf(Alone(o)) == [CodeOf(o[0])]
    ensures |o| == 2 ==> CodesOf(Alone(o)) == [CodeOf(o[0]), CodeOf(o[1])]
  {
    assert CodesOf(Alone(o)[..0]) == [];
    assert OptionCodes(o, 0) == [];
    if o != [] { assert OptionCodes(o, 1) == [CodeOf(o[0])]; }
  }

  lemma UnclearMisread(o: seq<Opt>, posix: bool, i: nat)
    requires i < |o| <= 2 && (forall k :: 0 <= k < |o| ==> IsPlain(o[k])) && (i == 1 ==> o[0].key != o[1].key)
    requires !Clear(CodesOf(Alone(o)), CodeOf(o[i]).c, ArgOf(o[i]))
    ensures Misread(o, posix, i)
  {
    hide Clear, CodesOf, ReadAs;
    var s, c := Alone(o), o[i].key as char;
    assert IsShortOption(o, i, c);
    assert OwnsShort(s, c, 0, i);
    ShortRead(s, posix, c, 0, i);
  }

  /** getopt calls a semicolon or a colon an invalid option. */
  lemma MarksMisread(posix: bool)
    ensures Misread([Key(';', false)], posix, 0) && Misread([Key(':', false)], posix, 0)
  {
    UnclearMisread([Key(';', false)], posix, 0);
    UnclearMisread([Key(':', false)], posix, 0);
  }

  /** It takes a leading '+' or '-' for an ordering. */
  lemma LeadingMisread(posix: bool)
    ensures Misread([Key('+', false)], posix, 0) && Misread([Key('-', false)], posix, 0)
  {
    AloneCodes([Key('+', false)]);
    AloneCodes([Key('-', false)]);
    UnclearMisread([Key('+', false)], posix, 0);
    UnclearMisread([Key('-', false)], posix, 0);
  }

  /** It reads -W as a long option when a semicolon follows, and takes an argument for an option that a
      colon follows. */
  lemma FollowedMisread(posix: bool)
    ensures Misread([Key('W', false), Key(';', false)], posix, 0)
    ensures Misread([Key('a', false), Key(':', false)], posix, 0)
  {
    AloneCodes([Key('W', false), Key(';', false)]);
    AloneCodes([Key('a', false), Key(':', false)]);
    UnclearMisread([Key('W', false), Key(';', false)], posix, 0);
    UnclearMisread([Key('a', false), Key(':', false)], posix, 0);
  }

  /** Behind a leading colon it answers ':' for a missing argument, which the parser takes for an option. */
  lemma MissingMisread(posix: bool)
    ensures Misread([Key(':', false), Key('a', true)], posix, 1)
  {
    AloneCodes([Key(':', false), Key('a', true)]);
    UnclearMisread([Key(':', false), Key('a', true)], posix, 1);
  }

  // ----- Long options

  function LongReading(s: seq<Argp>, posix: bool, text: string, after: seq<string>): Handled
    requires text != ""
  {
    var t := EnterAll(s, Empty());
    Handle(t, Decode(SettingsOf(t, posix), "--" + text, text, after))
  }

  function AskedLong(arg: HasArg, to: Delivery, value: Option<string>, after: seq<string>): Handled {
    if value.Some? then
      if arg.NoArgument? then Handled(Rejected, None, Some(""), 1) else Handled(to, value, Some(""), 1)
    else if arg.RequiredArgument? then
      if after == [] then Handled(Rejected, None, Some(""), 1) else Handled(to, Some(after[0]), Some(""), 2)
    else Handled(to, None, Some(""), 1)
  }

  /** Its name can be typed, and whatever follows it, the entry p of the table is read with the argument
      it has there and delivered to group g with this key. */
  ghost predicate LongReadAs(s: seq<Argp>, posix: bool, p: LongOption, g: nat, key: int) {
    && p.name != ""
    && forall value, after ::
      LongReading(s, posix, LongText(p.name, value), after) == AskedLong(p.hasArg, Delivered(g, key), value, after)
  }

  lemma {:induction false} NameSame(x: string, y: string)
    requires '=' in x
    ensures NameOf(x + y) == NameOf(x) && |NameOf(x)| < |x|
  {
    if x[0] != '=' {
      assert (x + y)[1..] == x[1..] + y;
      NameSame(x[1..], y);
    }
  }

  lemma FindEntry(longs: seq<LongOption>, k: nat)
    requires k < |longs| && NamesDistinct(longs)
    ensures Find(longs[k].name, longs, false, 0) == Found(k)
  {
    FindExactly(longs[k].name, longs, false, 0, Found(k));
  }

  lemma DecodeEntry(cfg: Config, k: nat, value: Option<string>, after: seq<string>)
    requires cfg.longopts.Some? && !cfg.longOnly && k < |cfg.longopts.value| && NamesDistinct(cfg.longopts.value)
    requires '=' !in cfg.longopts.value[k].name && LongText(cfg.longopts.value[k].name, value) != ""
    ensures var text := LongText(cfg.longopts.value[k].name, value);
      Decode(cfg, "--" + text, text, after) == DecodeFound(cfg, cfg.longopts.value[k], k, text, 1, after, false)
  {
    var text := LongText(cfg.longopts.value[k].name, value);
    assert ("--" + text)[1] == '-';
    NameWhole(cfg.longopts.value[k].name, value);
    FindEntry(cfg.longopts.value, k);
    hide Find, NameOf, DecodeFound, LongText;
  }

  /** A packed value that leads back to its group is neither -1 nor 1. */
  lemma ValueDelivered(s: seq<Argp>, g: nat, key: int)
    requires g < |s|
    ensures var v := Pack(key, g);
      && (Dispatch(EnterAll(s, Empty()), v, -1) == Delivered(g, key) <==> ArgpParse.Reaches(s, g, key))
      && (ArgpParse.Reaches(s, g, key) ==> v != -1)
  {
    hide EnterAll, Deliver, Pack, ArgpParse.Reaches;
    PackedDelivered(s, g, key);
    if ArgpParse.Reaches(s, g, key) { ReachesOption(s, g, key); }
  }

  lemma ReachesOption(s: seq<Argp>, g: nat, key: int)
    requires ArgpParse.Reaches(s, g, key)
    ensures Pack(key, g) != -1 && Pack(key, g) != 1
  {
    hide Pack, FirstWrites;
    PackParts(key, g);
    if g < MAXGROUPS {
      assert (g + 1) % 0x100 == g + 1;
    } else if key == 1 {
      NoSuchCharacter(s, g);
    }
  }

  lemma NoSuchCharacter(s: seq<Argp>, g: nat)
    ensures !FirstWrites(s, 1 as char, g)
  {
    hide Writes, DeclaresShort;
    if g < |s| {
      WritesExactly(s[g], 1 as char);
      if DeclaresShort(s[g], 1 as char) { KeyIsPrintable(s[g], 1 as char); }
    }
  }

  /** One reading of an entry whose name has no '='. */
  lemma EntryRead(s: seq<Argp>, posix: bool, k: nat, value: Option<string>, after: seq<string>)
    requires var t := EnterAll(s, Empty());
      k < |t.longs| && '=' !in t.longs[k].name && LongText(t.longs[k].name, value) != "" && t.longs[k].flag == None
    ensures var t := EnterAll(s, Empty());
      var p := t.longs[k];
      LongReading(s, posix, LongText(p.name, value), after) ==
        if value.None? && p.hasArg.RequiredArgument? && after == []
        then Handled(Dispatch(t, Missing(SettingsOf(t, posix)), p.val), None, Some(""), 1)
        else if value.Some? && p.hasArg.NoArgument? then Handled(Dispatch(t, Question(), p.val), None, Some(""), 1)
        else AskedLong(p.hasArg, Dispatch(t, p.val, -1), value, after)
  {
    var t := EnterAll(s, Empty());
    var p, text := t.longs[k], LongText(t.longs[k].name, value);
    LongTable(s);
    DecodeEntry(SettingsOf(t, posix), k, value, after);
    NameWhole(p.name, value);
    hide EnterAll, Decode, NameOf, Dispatch, SettingsOf;
    match value
    case None =>
    case Some(v) => assert text[|p.name| + 1..] == v;
  }

  /** A name with '=' is not read as declared. */
  lemma SplitName(s: seq<Argp>, posix: bool, p: LongOption, g: nat, key: int)
    requires '=' in p.name
    ensures !LongReadAs(s, posix, p, g, key)
  {
    var t := EnterAll(s, Empty());
    var cfg := SettingsOf(t, posix);
    NameSame(p.name, "");
    NameSame(p.name, "=v");
    assert p.name + "" == p.name && p.name + "=" + "v" == p.name + "=v";
    if LongReadAs(s, posix, p, g, key) {
      assert LongReading(s, posix, LongText(p.name, None), [""]) ==
        AskedLong(p.hasArg, Delivered(g, key), None, [""]);
      assert LongReading(s, posix, LongText(p.name, Some("v")), [""]) ==
        AskedLong(p.hasArg, Delivered(g, key), Some("v"), [""]);
      SplitRefused(t, cfg, p.name, p.name + "=v", [""]);
      assert false;
    }
  }

  /** A text with '=' in it passes one element, and takes no argument or what is behind the first '='. */
  lemma SplitRefused(t: Tables, cfg: Config, x: string, y: string, after: seq<string>)
    requires cfg.longopts.Some? && !cfg.longOnly && NameOf(x) == NameOf(y) && |NameOf(x)| < |x| && |NameOf(y)| < |y|
    ensures var d, e := Decode(cfg, "--" + x, x, after), Decode(cfg, "--" + y, y, after);
      && d.passed == e.passed == 1
      && (d.optarg == None <==> e.optarg == None)
      && (d.optarg == None ==> d == e)
      && (d.optarg.Some? ==> d.optarg == Some(x[|NameOf(x)| + 1..]))
  {
    assert ("--" + x)[1] == '-' && ("--" + y)[1] == '-';
    hide Find, NameOf;
  }

  /** An entry of the table is read and delivered as its first declaration says if and only if its name
      has no '=', its key and group number allow it, and a missing argument is not taken for an
      option. */
  lemma LongRead(s: seq<Argp>, posix: bool, k: nat) returns (g: nat, i: nat, j: nat)
    requires k < |EnterAll(s, Empty()).longs|
    ensures var p := EnterAll(s, Empty()).longs[k];
      && g < |s| && j <= i < |Options(s[g])|
      && OwnsLong(s, p.name, g, i) && IsOrigin(Options(s[g]), i, j)
      && var (own, o) := (Options(s[g])[i], Options(s[g])[j]);
        var key := if own.key == 0 then o.key else own.key;
        && p == Entry(own, o, g)
        && (LongReadAs(s, posix, p, g, key) <==>
              && p.name != "" && '=' !in p.name && ArgpParse.Reaches(s, g, key)
              && (p.hasArg.RequiredArgument? ==> !LeadsColon(CodesOf(s))))
  {
    hide IsOrigin, OwnsLong, LongReadAs, EnterAll, ArgpParse.Reaches, Deliver, LeadsColon, CodesOf, Pack;
    g, i, j := LongDelivered(s, k);
    var p, own, o := EnterAll(s, Empty()).longs[k], Options(s[g])[i], Options(s[g])[j];
    var key := if own.key == 0 then o.key else own.key;
    if p.name == "" {
      Nameless(s, posix, p, g, key);
    } else if '=' in p.name {
      SplitName(s, posix, p, g, key);
    } else {
      WholeName(s, posix, k, g, key);
    }
  }

  lemma Nameless(s: seq<Argp>, posix: bool, p: LongOption, g: nat, key: int)
    requires p.name == ""
    ensures !LongReadAs(s, posix, p, g, key)
  {}

  lemma MissingValue(s: seq<Argp>, posix: bool, v: int)
    requires v != -1
    ensures var t := EnterAll(s, Empty());
      Dispatch(t, Missing(SettingsOf(t, posix)), v) == Rejected <==> !LeadsColon(CodesOf(s))
  {
    LeadsColonExactly(CodesOf(s));
    SpellAll(s);
    hide EnterAll, Spell, Getopt.Stripped, LeadsColon, Deliver;
    NeverRejects(EnterAll(s, Empty()), ':' as int);
  }

  lemma WholeName(s: seq<Argp>, posix: bool, k: nat, g: nat, key: int)
    requires g < |s| && k < |EnterAll(s, Empty()).longs|
    requires var p := EnterAll(s, Empty()).longs[k];
      p.name != "" && '=' !in p.name && p.flag == None && p.val == Pack(key, g)
    ensures var p := EnterAll(s, Empty()).longs[k];
      LongReadAs(s, posix, p, g, key) <==>
        ArgpParse.Reaches(s, g, key) && (p.hasArg.RequiredArgument? ==> !LeadsColon(CodesOf(s)))
  {
    var p := EnterAll(s, Empty()).longs[k];
    ValueDelivered(s, g, key);
    hide EnterAll, Pack, ArgpParse.Reaches, LongReading, CodesOf, LeadsColon, SettingsOf, Dispatch;
    if ArgpParse.Reaches(s, g, key) { MissingValue(s, posix, p.val); }
    if LongReadAs(s, posix, p, g, key) {
      ReadsBack(s, posix, k, g, key);
    } else {
      var value, after :|
        LongReading(s, posix, LongText(p.name, value), after) != AskedLong(p.hasArg, Delivered(g, key), value, after);
      EntryRead(s, posix, k, value, after);
      if ArgpParse.Reaches(s, g, key) { Refused(s, p.val); }
    }
  }

  lemma Refused(s: seq<Argp>, v: int)
    requires v != -1
    ensures Dispatch(EnterAll(s, Empty()), Question(), v) == Rejected
  {}

  lemma ReadsBack(s: seq<Argp>, posix: bool, k: nat, g: nat, key: int)
    requires g < |s| && k < |EnterAll(s, Empty()).longs|
    requires var p := EnterAll(s, Empty()).longs[k];
      '=' !in p.name && p.flag == None && p.val == Pack(key, g) && LongReadAs(s, posix, p, g, key)
    ensures var p := EnterAll(s, Empty()).longs[k];
      ArgpParse.Reaches(s, g, key) && (p.hasArg.RequiredArgument? ==> !LeadsColon(CodesOf(s)))
  {
    var p := EnterAll(s, Empty()).longs[k];
    ValueDelivered(s, g, key);
    hide EnterAll, Pack, ArgpParse.Reaches, CodesOf, LeadsColon, SettingsOf, Dispatch, LongReading;
    EntryRead(s, posix, k, None, [""]);
    EntryRead(s, posix, k, None, []);
    assert LongReading(s, posix, LongText(p.name, None), [""]) == AskedLong(p.hasArg, Delivered(g, key), None, [""]);
    assert LongReading(s, posix, LongText(p.name, None), []) == AskedLong(p.hasArg, Delivered(g, key), None, []);
    if p.hasArg.RequiredArgument? && ArgpParse.Reaches(s, g, key) { MissingValue(s, posix, p.val); }
  }

  // ----- One step of the parser

  /** Calls getopt on the prepared tables and hands the option to its group.  The scan sc of the
      original vector makes one call. */
  method ParseNext(p: Parser, d: Getopt.GetoptData, argv: array<string>, posix: bool, ghost t: Tables,
                   ghost a: seq<string>, ghost sc: Scan)
    returns (to: Delivery)
    requires p.Holds(t) && argv.Length > 0 && d.Ready(argv, SettingsOf(t, posix), a, sc)
    modifies d, argv
    ensures p.Holds(t)
    ensures var c := Call(SettingsOf(t, posix), a, sc);
      && to == (match c.ret
                case End => NoOption
                case Value(v) =>
                  if v == -1 || v == 1 then NoOption
                  else if v == '?' as int && c.optopt.Some? && c.optopt.value != -1 then Rejected
                  else Deliver(t, v))
      && d.optarg == c.optarg
      && (c.ret.End? ==> d.Finished(argv, a, c.scan))
      && (c.ret.Value? && c.scan.pos <= |a| ==> d.Ready(argv, SettingsOf(t, posix), a, c.scan))
  {
    hide Call, Deliver;
    var shorts := p.shortOpts[..p.shortEnd];
    var longs := p.LongOptions(t);
    d.optopt := -1;
    var ret, _ := d.GetoptInternalR(argv, Getopt.Interface(shorts, Some(longs), false, posix), a, sc);
    if ret.End? || ret.v == -1 { return NoOption; }
    if ret.v == Question() && d.optopt != -1 { return Rejected; }
    if ret.v == 1 { return NoOption; }
    to := p.ParseOpt(ret.v, t);
  }
}
