/** The help list of a tree of option groups (argp-help.c), and its agreement with the parser on
    which group owns a short option. */
module ArgpHelp {
  import opened Common
  import opened ArgpGetopt
  import opened ArgpAnswers
  import opened ArgpParse

  /** An option with its aliases, and the argp it comes from: an entry of the help list, but for
      the place of its letters. */
  datatype Item = Item(opts: seq<Opt>, argp: Argp)

  predicate Declares(opts: seq<Opt>, n: nat, c: char)
    requires n <= |opts|
  {
    exists i :: 0 <= i < n && IsShort(opts[i]) && opts[i].key == c as int
  }

  function Letter(o: Opt): char
    requires IsShort(o)
  {
    o.key as char
  }

  predicate NoRepeats(s: string) { forall i, j :: 0 <= i < j < |s| ==> s[i] != s[j] }

  // ----- The letters of entries

  /** The letters of the first n options that are not among those seen, each one once. */
  function Kept(opts: seq<Opt>, n: nat, seen: string): (r: string)
    requires n <= |opts|
    ensures |r| <= n
  {
    if n == 0 then "" else
      var r := Kept(opts, n - 1, seen);
      var o := opts[n - 1];
      if IsShort(o) && Letter(o) !in seen && Letter(o) !in r then r + [Letter(o)] else r
  }

  lemma {:induction false} KeptHolds(opts: seq<Opt>, n: nat, seen: string, c: char)
    requires n <= |opts|
    ensures c in Kept(opts, n, seen) <==> c !in seen && Declares(opts, n, c)
  {
    if n > 0 {
      KeptHolds(opts, n - 1, seen, c);
      DeclaresStep(opts, n, c);
    }
  }

  lemma DeclaresStep(opts: seq<Opt>, n: nat, c: char)
    requires 0 < n <= |opts|
    ensures Declares(opts, n, c) <==> Declares(opts, n - 1, c) || (IsShort(opts[n - 1]) && Letter(opts[n - 1]) == c)
  {}

  lemma {:induction false} KeptOnce(opts: seq<Opt>, n: nat, seen: string)
    requires n <= |opts| && NoRepeats(seen)
    ensures NoRepeats(seen + Kept(opts, n, seen))
  {
    if n > 0 {
      KeptOnce(opts, n - 1, seen);
      var r, r' := Kept(opts, n - 1, seen), Kept(opts, n, seen);
      if r' != r { OneMore(seen + r, Letter(opts[n - 1])); assert seen + r' == (seen + r) + [Letter(opts[n - 1])]; }
    } else {
      assert seen + "" == seen;
    }
  }

  lemma OneMore(s: string, c: char)
    requires NoRepeats(s) && c !in s
    ensures NoRepeats(s + [c])
  {}

  lemma {:induction false} KeptPrefix(opts: seq<Opt>, m: nat, n: nat, seen: string)
    requires m <= n <= |opts|
    ensures Kept(opts, m, seen) <= Kept(opts, n, seen)
  {
    if m < n { KeptPrefix(opts, m, n - 1, seen); }
  }

  /** The letters of a list of entries: those of each one that no entry before it has. */
  function Letters(items: seq<Item>): string {
    if items == [] then "" else
      var before := Letters(items[..|items| - 1]);
      var o := items[|items| - 1].opts;
      before + Kept(o, |o|, before)
  }

  lemma LettersMore(items: seq<Item>, x: Item)
    ensures Letters(items + [x]) == Letters(items) + Kept(x.opts, |x.opts|, Letters(items))
  {
    assert (items + [x])[..|items|] == items;
  }

  /** Each letter occurs exactly once. */
  lemma {:induction false} LettersOnce(items: seq<Item>)
    ensures NoRepeats(Letters(items))
  {
    if items != [] {
      var n := |items| - 1;
      LettersOnce(items[..n]);
      KeptOnce(items[n].opts, |items[n].opts|, Letters(items[..n]));
    }
  }

  predicate Has(items: seq<Item>, i: nat, c: char)
    requires i < |items|
  {
    Declares(items[i].opts, |items[i].opts|, c)
  }

  /** A letter is in the list exactly if some entry declares it. */
  lemma {:induction false} LettersHold(items: seq<Item>, c: char)
    ensures c in Letters(items) <==> exists i: nat :: i < |items| && Has(items, i, c)
  {
    if items != [] {
      var n := |items| - 1;
      LettersHold(items[..n], c);
      KeptHolds(items[n].opts, |items[n].opts|, Letters(items[..n]), c);
      assert forall i: nat :: i < n ==> Has(items[..n], i, c) == Has(items, i, c);
      assert Has(items, n, c) == Declares(items[n].opts, |items[n].opts|, c);
    }
  }

  /** The letters that entry i shows: those that it declares and no entry before it does. */
  function Shown(items: seq<Item>, i: nat): string
    requires i < |items|
  {
    Kept(items[i].opts, |items[i].opts|, Letters(items[..i]))
  }

  lemma ShownExactly(items: seq<Item>, i: nat, c: char)
    requires i < |items|
    ensures c in Shown(items, i) <==> Has(items, i, c) && forall j: nat :: j < i ==> !Has(items, j, c)
  {
    KeptHolds(items[i].opts, |items[i].opts|, Letters(items[..i]), c);
    LettersHold(items[..i], c);
    assert forall j: nat :: j < i ==> Has(items[..i], j, c) == Has(items, j, c);
  }

  /** The letters of entry i stand in the list where those of the entries before it end. */
  lemma {:induction false} ShownAt(items: seq<Item>, i: nat)
    requires i < |items|
    ensures Letters(items[..i]) + Shown(items, i) <= Letters(items)
  {
    var n := |items| - 1;
    if i < n {
      ShownAt(items[..n], i);
      assert items[..n][..i] == items[..i];
    }
  }

  // ----- The entries of a tree

  /** The first n options, each with the aliases that follow it. */
  function Runs(opts: seq<Opt>, n: nat, a: Argp): seq<Item>
    requires n <= |opts|
  {
    if n == 0 then [] else
      var r, o := Runs(opts, n - 1, a), opts[n - 1];
      if o.alias && r != [] then r[..|r| - 1] + [Item(r[|r| - 1].opts + [o], a)] else r + [Item([o], a)]
  }

  function Own(a: Argp): seq<Item> { Runs(Options(a), |Options(a)|, a) }

  function ItemsOf(a: Argp): seq<Item> { Own(a) + ItemsAll(a.children) }

  function ItemsAll(cs: Children): seq<Item> {
    match cs case Nil => [] case Cons(a, rest) => ItemsOf(a) + ItemsAll(rest)
  }

  /** The options of an argp do not start with an alias. */
  predicate Headed(a: Argp) { Options(a) != [] ==> !Options(a)[0].alias }

  predicate TreeHeaded(a: Argp) { Headed(a) && AllHeaded(a.children) }
  predicate AllHeaded(cs: Children) { match cs case Nil => true case Cons(a, rest) => TreeHeaded(a) && AllHeaded(rest) }

  lemma {:induction false} KeptSame(opts: seq<Opt>, more: seq<Opt>, n: nat, seen: string)
    requires n <= |opts| && opts <= more
    ensures Kept(more, n, seen) == Kept(opts, n, seen)
  {
    if n > 0 { KeptSame(opts, more, n - 1, seen); }
  }

  /** One more alias for the last entry: its letter, if it is new. */
  lemma LettersAlias(items: seq<Item>, x: Item, o: Opt)
    ensures var s := Letters(items + [x]);
      Letters(items + [Item(x.opts + [o], x.argp)]) == if IsShort(o) && Letter(o) !in s then s + [Letter(o)] else s
  {
    var before, more := Letters(items), x.opts + [o];
    var r := Kept(x.opts, |x.opts|, before);
    LettersMore(items, x);
    LettersMore(items, Item(more, x.argp));
    KeptSame(x.opts, more, |x.opts|, before);
    assert more[|x.opts|] == o && |more| == |x.opts| + 1;
    KeptLast(more, before, r);
  }

  lemma KeptLast(opts: seq<Opt>, before: string, r: string)
    requires opts != [] && r == Kept(opts, |opts| - 1, before)
    ensures var o := opts[|opts| - 1];
      before + Kept(opts, |opts|, before) ==
        if IsShort(o) && Letter(o) !in before + r then (before + r) + [Letter(o)] else before + r
  {
    var o := opts[|opts| - 1];
    if IsShort(o) { assert (before + r) + [Letter(o)] == before + (r + [Letter(o)]); }
  }

  lemma RunsHead(opts: seq<Opt>, n: nat, a: Argp)
    requires n < |opts| && !opts[n].alias
    ensures Runs(opts, n + 1, a) == Runs(opts, n, a) + [Item([opts[n]], a)] && [] + [opts[n]] == [opts[n]]
  {}

  lemma RunsAlias(opts: seq<Opt>, n: nat, a: Argp, before: seq<Item>, x: Item)
    requires n < |opts| && opts[n].alias && Runs(opts, n, a) == before + [x]
    ensures Runs(opts, n + 1, a) == before + [Item(x.opts + [opts[n]], a)]
  {
    assert (before + [x])[..|before|] == before;
  }

  predicate StartsAt(items: seq<Item>, starts: seq<nat>, i: nat)
    requires i < |items| == |starts|
  {
    starts[i] == |Letters(items[..i])|
  }

  /** Every entry's letters start where those of the entries before it end. */
  predicate AllStart(items: seq<Item>, starts: seq<nat>) {
    |starts| == |items| && forall i: nat :: i < |items| ==> StartsAt(items, starts, i)
  }

  lemma StartsMore(items: seq<Item>, starts: seq<nat>, x: Item)
    requires AllStart(items, starts)
    ensures AllStart(items + [x], starts + [|Letters(items)|])
  {
    var more, starts' := items + [x], starts + [|Letters(items)|];
    forall i: nat | i < |more| ensures StartsAt(more, starts', i) {
      if i < |items| { assert StartsAt(items, starts, i); }
      assert more[..i] == items[..i];
    }
  }

  lemma StartsSame(items: seq<Item>, x: Item, y: Item, starts: seq<nat>)
    requires AllStart(items + [x], starts)
    ensures AllStart(items + [y], starts)
  {
    forall i: nat | i < |starts| ensures StartsAt(items + [y], starts, i) {
      assert StartsAt(items + [x], starts, i);
      assert (items + [y])[..i] == (items + [x])[..i];
    }
  }

  class Hol {
    var items: seq<Item>
    /** Where the letters of each entry start. */
    var starts: seq<nat>
    var shortOptions: string

    ghost predicate Exact()
      reads this
    {
      AllStart(items, starts) && shortOptions == Letters(items)
    }

    constructor ()
      ensures items == [] && starts == [] && shortOptions == ""
    {
      items, starts, shortOptions := [], [], "";
    }

    /** Adds an entry without options yet. */
    method AddEntry(a: Argp)
      requires Exact()
      modifies this`items, this`starts
      ensures Exact() && items == old(items) + [Item([], a)]
    {
      LettersMore(items, Item([], a));
      StartsMore(items, starts, Item([], a));
      starts := starts + [|shortOptions|];
      items := items + [Item([], a)];
    }

    /** Adds option o to the last entry. */
    method AddOption(o: Opt, ghost before: seq<Item>, x: Item)
      requires Exact() && items == before + [x]
      modifies this`items, this`shortOptions
      ensures Exact() && items == before + [Item(x.opts + [o], x.argp)]
    {
      LettersAlias(before, x, o);
      StartsSame(before, x, Item(x.opts + [o], x.argp), starts);
      if IsShort(o) && Letter(o) !in shortOptions {
        shortOptions := shortOptions + [Letter(o)];
      }
      items := items[..|items| - 1] + [Item(x.opts + [o], x.argp)];
    }

    /** The entries of one argp. */
    method Make(a: Argp)
      requires items == [] && starts == [] && shortOptions == "" && Headed(a)
      modifies this
      ensures Exact() && items == Own(a)
    {
      var opts := Options(a);
      var o := 0;
      while o < |opts|
        invariant o <= |opts| && Exact() && items == Runs(opts, o, a)
        invariant o < |opts| ==> !opts[o].alias
      {
        o := MakeEntry(opts, o, a);
      }
    }

    /** Makes the entry of the option at index `from` and the aliases that follow it. */
    method MakeEntry(opts: seq<Opt>, from: nat, a: Argp) returns (o: nat)
      requires from < |opts| && Exact() && items == Runs(opts, from, a) && !opts[from].alias
      modifies this
      ensures from < o <= |opts| && Exact() && items == Runs(opts, o, a) && (o < |opts| ==> !opts[o].alias)
    {
      ghost var before := items;
      RunsHead(opts, from, a);
      AddEntry(a);
      AddOption(opts[from], before, Item([], a));
      o := AddAliases(opts, from + 1, a, before, Item([opts[from]], a));
    }

    method AddAliases(opts: seq<Opt>, from: nat, a: Argp, ghost before: seq<Item>, x0: Item) returns (o: nat)
      requires from <= |opts| && Exact() && Runs(opts, from, a) == before + [x0] == items && x0.argp == a
      modifies this`items, this`shortOptions
      ensures from <= o <= |opts| && Exact() && items == Runs(opts, o, a) && (o < |opts| ==> !opts[o].alias)
    {
      hide Runs, Letters, AllStart;
      o := from;
      var x := x0;
      while o < |opts| && opts[o].alias
        invariant from <= o <= |opts| && Exact() && x.argp == a
        invariant items == before + [x] && Runs(opts, o, a) == before + [x]
      {
        RunsAlias(opts, o, a, before, x);
        AddOption(opts[o], before, x);
        x := Item(x.opts + [opts[o]], a);
        o := o + 1;
      }
    }

    /** The letters that the greedy scan of entry i finds. */
    method ShortIterate(i: nat) returns (found: string)
      requires Exact() && i < |items|
      ensures found == Shown(items, i)
    {
      var opts, so := items[i].opts, starts[i];
      ghost var seen := Letters(items[..i]);
      found := "";
      assert StartsAt(items, starts, i);
      for n := 0 to |opts|
        invariant found == Kept(opts, n, seen) && so == |seen| + |found|
      {
        ScanStep(items, i, n);
        if IsShort(opts[n]) && so < |shortOptions| && shortOptions[so] == Letter(opts[n]) {
          found := found + [Letter(opts[n])];
          so := so + 1;
        }
      }
    }

    /** Appends the entries of another list, whose letters give way to those of this one. */
    method Append(more: Hol)
      requires Exact() && more.Exact() && more != this
      modifies this
      ensures Exact() && items == old(items) + more.items
    {
      if more.items == [] {
        assert items + [] == items;
      } else if items == [] {
        assert [] + more.items == more.items;
        items, starts, shortOptions := more.items, more.starts, more.shortOptions;
      } else {
        var own := shortOptions;
        ghost var first := items;
        var moreSo := 0;
        for left := 0 to |more.items|
          invariant Exact() && items == first + more.items[..left]
          invariant moreSo == |Letters(more.items[..left])|
          invariant shortOptions == own + Without(Letters(more.items[..left]), own)
        {
          moreSo := AppendEntry(more, left, own, moreSo);
          assert more.items[..left + 1] == more.items[..left] + [more.items[left]];
        }
        assert more.items[..|more.items|] == more.items;
      }
    }

    /** Appends entry `left` of another list. */
    method AppendEntry(more: Hol, left: nat, own: string, from: nat) returns (moreSo: nat)
      requires Exact() && more.Exact() && more != this && left < |more.items| && from == |Letters(more.items[..left])|
      requires shortOptions == own + Without(Letters(more.items[..left]), own)
      modifies this
      ensures Exact() && items == old(items) + [more.items[left]]
      ensures moreSo == |Letters(more.items[..left + 1])|
      ensures shortOptions == own + Without(Letters(more.items[..left + 1]), own)
    {
      hide Letters, AllStart, Without;
      var e := more.items[left];
      ghost var before, seen := items, Letters(more.items[..left]);
      AddEntry(e.argp);
      moreSo := from;
      assert e.opts[..0] == [] && seen + "" == seen;
      for n := 0 to |e.opts|
        invariant Exact() && items == before + [Item(e.opts[..n], e.argp)]
        invariant moreSo == |seen + Kept(e.opts, n, seen)|
        invariant shortOptions == own + Without(seen + Kept(e.opts, n, seen), own)
      {
        moreSo := AppendOption(more, left, n, own, moreSo, before);
      }
      LettersStep(more.items, left);
      assert e.opts[..|e.opts|] == e.opts;
    }

    /** Appends option n of that entry, if its letter comes next in the other list. */
    method AppendOption(more: Hol, left: nat, n: nat, own: string, from: nat, ghost before: seq<Item>)
      returns (moreSo: nat)
      requires Exact() && more.Exact() && more != this && left < |more.items| && n < |more.items[left].opts|
      requires items == before + [Item(more.items[left].opts[..n], more.items[left].argp)]
      requires var s := MoreLetters(more.items, left, n); from == |s| && shortOptions == own + Without(s, own)
      modifies this`items, this`shortOptions
      ensures Exact() && items == before + [Item(more.items[left].opts[..n + 1], more.items[left].argp)]
      ensures var s := MoreLetters(more.items, left, n + 1); moreSo == |s| && shortOptions == own + Without(s, own)
    {
      hide Letters, AllStart, Without, Kept;
      var e := more.items[left];
      var o := e.opts[n];
      AppendFacts(before, e, n, starts, MoreLetters(more.items, left, n), own);
      MoreStep(more.items, left, n);
      moreSo := from;
      if IsShort(o) && moreSo < |more.shortOptions| && more.shortOptions[moreSo] == Letter(o) {
        if Letter(o) !in own { shortOptions := shortOptions + [Letter(o)]; }
        moreSo := moreSo + 1;
      }
      items := items[..|items| - 1] + [Item(e.opts[..n + 1], e.argp)];
    }
  }

  /** One more option of an appended entry, after letters s of the other list: its letter is new if
      neither list has it. */
  lemma AppendFacts(before: seq<Item>, e: Item, n: nat, starts: seq<nat>, s: string, own: string)
    requires n < |e.opts| && AllStart(before + [Item(e.opts[..n], e.argp)], starts)
    requires Letters(before + [Item(e.opts[..n], e.argp)]) == own + Without(s, own)
    ensures AllStart(before + [Item(e.opts[..n + 1], e.argp)], starts)
    ensures var o, all, next := e.opts[n], own + Without(s, own), Letters(before + [Item(e.opts[..n + 1], e.argp)]);
      if IsShort(o) && Letter(o) !in s then
        && next == own + Without(s + [Letter(o)], own)
        && next == if Letter(o) in own then all else all + [Letter(o)]
      else next == all
  {
    ExtendItem(before, e, n, starts);
    if IsShort(e.opts[n]) { WithoutStep(s, own, Letter(e.opts[n])); }
  }

  /** One more option for the last entry. */
  lemma ExtendItem(before: seq<Item>, e: Item, n: nat, starts: seq<nat>)
    requires n < |e.opts| && AllStart(before + [Item(e.opts[..n], e.argp)], starts)
    ensures AllStart(before + [Item(e.opts[..n + 1], e.argp)], starts)
    ensures var s, o := Letters(before + [Item(e.opts[..n], e.argp)]), e.opts[n];
      Letters(before + [Item(e.opts[..n + 1], e.argp)]) == if IsShort(o) && Letter(o) !in s then s + [Letter(o)] else s
  {
    var x := Item(e.opts[..n], e.argp);
    assert e.opts[..n + 1] == e.opts[..n] + [e.opts[n]];
    LettersAlias(before, x, e.opts[n]);
    StartsSame(before, x, Item(e.opts[..n + 1], e.argp), starts);
  }

  /** The letters of the entries before entry i, and of its first n options. */
  function MoreLetters(items: seq<Item>, i: nat, n: nat): string
    requires i < |items| && n <= |items[i].opts|
  {
    Letters(items[..i]) + Kept(items[i].opts, n, Letters(items[..i]))
  }

  lemma MoreStep(items: seq<Item>, i: nat, n: nat)
    requires i < |items| && n < |items[i].opts|
    ensures var s, o := MoreLetters(items, i, n), items[i].opts[n];
      && MoreLetters(items, i, n + 1) == (if IsShort(o) && Letter(o) !in s then s + [Letter(o)] else s)
      && (IsShort(o) ==> (|s| < |Letters(items)| && Letters(items)[|s|] == Letter(o) <==> Letter(o) !in s))
  {
    ScanStep(items, i, n);
    var seen, o := Letters(items[..i]), items[i].opts[n];
    var r := Kept(items[i].opts, n, seen);
    if IsShort(o) { assert seen + (r + [Letter(o)]) == (seen + r) + [Letter(o)]; }
  }

  lemma LettersStep(items: seq<Item>, i: nat)
    requires i < |items|
    ensures Letters(items[..i + 1]) == MoreLetters(items, i, |items[i].opts|)
  {
    assert items[..i + 1] == items[..i] + [items[i]];
    LettersMore(items[..i], items[i]);
  }

  lemma WithoutStep(s: string, h: string, c: char)
    ensures Without(s + [c], h) == if c in h then Without(s, h) else Without(s, h) + [c]
    ensures c in h + Without(s, h) <==> c in h || c in s
    ensures h + (Without(s, h) + [c]) == (h + Without(s, h)) + [c]
  {
    assert (s + [c])[..|s|] == s;
    WithoutHolds(s, h, c);
  }

  lemma {:induction false} WithoutHolds(s: string, h: string, c: char)
    ensures c in Without(s, h) <==> c in s && c !in h
  {
    if s != "" {
      WithoutHolds(s[..|s| - 1], h, c);
      assert s == s[..|s| - 1] + [s[|s| - 1]];
    }
  }

  /** The characters of s that are not in h. */
  function Without(s: string, h: string): string {
    if s == "" then "" else
      var r := Without(s[..|s| - 1], h);
      if s[|s| - 1] in h then r else r + [s[|s| - 1]]
  }

  /** The next letter of the list is that of the next option exactly if the option shows it. */
  lemma ScanStep(items: seq<Item>, i: nat, n: nat)
    requires i < |items| && n < |items[i].opts|
    ensures var o, seen, s := items[i].opts[n], Letters(items[..i]), Letters(items);
      var r := Kept(items[i].opts, n, seen);
      IsShort(o) ==> (|seen + r| < |s| && s[|seen + r|] == Letter(o) <==> Letter(o) !in seen && Letter(o) !in r)
  {
    var opts, seen, s := items[i].opts, Letters(items[..i]), Letters(items);
    var r, r' := Kept(opts, n, seen), Kept(opts, n + 1, seen);
    ShownAt(items, i);
    KeptPrefix(opts, n, |opts|, seen);
    KeptPrefix(opts, n + 1, |opts|, seen);
    LettersOnce(items);
    assert seen + r <= s && seen + r' <= s;
    if IsShort(opts[n]) && Letter(opts[n]) in seen + r {
      var k :| 0 <= k < |seen + r| && (seen + r)[k] == Letter(opts[n]);
      assert s[k] == Letter(opts[n]);
    }
  }

  /** The list of all levels of a tree. */
  method ArgpHol(a: Argp) returns (hol: Hol)
    requires TreeHeaded(a)
    ensures fresh(hol) && hol.Exact() && hol.items == ItemsOf(a)
    decreases a
  {
    hol := new Hol();
    hol.Make(a);
    var child := a.children;
    ghost var goal := ItemsOf(a);
    while child.Cons?
      invariant child == a.children || child < a.children
      invariant fresh(hol) && hol.Exact() && AllHeaded(child) && ToCome(hol.items, child, goal)
      decreases child
    {
      var more := ArgpHol(child.argp);
      ChildItems(hol.items, child, goal);
      hol.Append(more);
      child := child.rest;
    }
    assert hol.items + [] == hol.items;
  }

  /** The entries of these children complete the list. */
  ghost predicate ToCome(items: seq<Item>, child: Children, goal: seq<Item>) { items + ItemsAll(child) == goal }

  lemma ChildItems(items: seq<Item>, child: Children, goal: seq<Item>)
    requires child.Cons? && ToCome(items, child, goal)
    ensures ToCome(items + ItemsOf(child.argp), child.rest, goal)
  {
    assert items + (ItemsOf(child.argp) + ItemsAll(child.rest)) == (items + ItemsOf(child.argp)) + ItemsAll(child.rest);
  }

  // ----- Agreement with the parser

  /** The entries of a row of argps. */
  function RowItems(s: seq<Argp>): seq<Item> { if s == [] then [] else Own(s[0]) + RowItems(s[1..]) }

  lemma {:induction false} RowAppend(s: seq<Argp>, r: seq<Argp>)
    ensures RowItems(s + r) == RowItems(s) + RowItems(r)
  {
    if s == [] {
      assert s + r == r;
    } else {
      assert (s + r)[1..] == s[1..] + r;
      RowAppend(s[1..], r);
    }
  }

  /** The help list goes through the tree in the order of the parser's groups. */
  lemma {:induction false} ItemsInPreorder(a: Argp)
    ensures ItemsOf(a) == RowItems(Preorder(a))
  {
    AllInPreorder(a.children);
    var own := if HasGroup(a) then [a] else [];
    RowAppend(own, PreorderAll(a.children));
    assert RowItems([a]) == Own(a) + RowItems([]);
  }

  lemma {:induction false} AllInPreorder(cs: Children)
    ensures ItemsAll(cs) == RowItems(PreorderAll(cs))
  {
    match cs
    case Nil =>
    case Cons(a, rest) =>
      ItemsInPreorder(a);
      AllInPreorder(rest);
      RowAppend(Preorder(a), PreorderAll(rest));
  }

  lemma {:induction false} RunsCarry(opts: seq<Opt>, n: nat, a: Argp)
    requires n <= |opts|
    ensures forall i :: 0 <= i < |Runs(opts, n, a)| ==> Runs(opts, n, a)[i].argp == a
  {
    if n > 0 { RunsCarry(opts, n - 1, a); }
  }

  /** The entries made of the first n options have their letters. */
  lemma {:induction false} RunsHold(opts: seq<Opt>, n: nat, a: Argp, c: char)
    requires n <= |opts|
    ensures Declares(opts, n, c) <==> SomeHas(Runs(opts, n, a), c)
  {
    hide Declares, SomeHas;
    if n == 0 {
      NoneDeclared(opts, c);
    } else {
      RunsHold(opts, n - 1, a, c);
      var r, o := Runs(opts, n - 1, a), opts[n - 1];
      DeclaresStep(opts, n, c);
      if o.alias && r != [] {
        AliasHas(r, o, a, c);
      } else {
        AloneHas(r, o, a, c);
      }
    }
  }

  lemma NoneDeclared(opts: seq<Opt>, c: char)
    ensures !Declares(opts, 0, c) && !SomeHas([], c)
  {}

  lemma AloneHas(r: seq<Item>, o: Opt, a: Argp, c: char)
    ensures SomeHas(r + [Item([o], a)], c) <==> SomeHas(r, c) || (IsShort(o) && Letter(o) == c)
  {
    hide SomeHas;
    SomeHasLast(r, Item([o], a), c);
    DeclaresMore([], o, c);
    NoneDeclared([], c);
    assert [] + [o] == [o];
  }

  /** An alias joins the last entry. */
  lemma AliasHas(r: seq<Item>, o: Opt, a: Argp, c: char)
    requires r != []
    ensures var m := |r| - 1;
      SomeHas(r[..m] + [Item(r[m].opts + [o], a)], c) <==> SomeHas(r, c) || (IsShort(o) && Letter(o) == c)
  {
    hide SomeHas, Declares;
    var m := |r| - 1;
    SomeHasLast(r[..m], Item(r[m].opts + [o], a), c);
    assert r == r[..m] + [r[m]];
    SomeHasLast(r[..m], r[m], c);
    DeclaresMore(r[m].opts, o, c);
  }

  ghost predicate SomeHas(items: seq<Item>, c: char) { exists i: nat :: i < |items| && Has(items, i, c) }

  lemma SomeHasLast(items: seq<Item>, x: Item, c: char)
    ensures SomeHas(items + [x], c) <==> SomeHas(items, c) || Declares(x.opts, |x.opts|, c)
  {
    var more := items + [x];
    assert forall i: nat :: i < |items| ==> Has(more, i, c) == Has(items, i, c);
    assert Has(more, |items|, c) == Declares(x.opts, |x.opts|, c);
  }

  lemma DeclaresMore(opts: seq<Opt>, o: Opt, c: char)
    ensures Declares(opts + [o], |opts| + 1, c) <==> Declares(opts, |opts|, c) || (IsShort(o) && Letter(o) == c)
  {
    DeclaresStep(opts + [o], |opts| + 1, c);
    assert forall i :: 0 <= i < |opts| ==> (opts + [o])[i] == opts[i];
  }

  /** Entry i is the first with the letter c. */
  ghost predicate FirstEntry(items: seq<Item>, i: nat, c: char) {
    i < |items| && Has(items, i, c) && forall j: nat :: j < i ==> !Has(items, j, c)
  }

  /** Entry i of a row is one of those that the argp in place g contributes. */
  ghost predicate MadeAt(s: seq<Argp>, g: nat, i: nat) {
    g < |s| && |RowItems(s[..g])| <= i < |RowItems(s[..g])| + |Own(s[g])|
  }

  /** The entries of a row carry the argp that they are made of. */
  lemma {:induction false} MadeOf(s: seq<Argp>, g: nat, i: nat)
    requires MadeAt(s, g, i)
    ensures i < |RowItems(s)| && RowItems(s)[i].argp == s[g]
  {
    assert s == s[..g] + [s[g]] + s[g + 1..];
    RowAppend(s[..g], [s[g]]);
    RowAppend(s[..g] + [s[g]], s[g + 1..]);
    assert RowItems([s[g]]) == Own(s[g]) + RowItems([]);
    RunsCarry(Options(s[g]), |Options(s[g])|, s[g]);
  }

  lemma MadeBehind(s: seq<Argp>, g: nat, i: nat)
    requires s != [] && MadeAt(s[1..], g, i)
    ensures MadeAt(s, g + 1, i + |Own(s[0])|)
  {
    assert s[..g + 1][1..] == s[1..][..g];
  }

  /** One of the options of a has the short key c, for the help list: there, an alias of an option
      that is documentation only counts too. */
  predicate HasLetter(a: Argp, c: char) { Declares(Options(a), |Options(a)|, c) }

  /** The first entry that has a letter is made in the place of the first argp that has it. */
  lemma {:induction false} PlaceOf(s: seq<Argp>, i: nat, c: char) returns (g: nat)
    requires FirstEntry(RowItems(s), i, c)
    ensures MadeAt(s, g, i) && HasLetter(s[g], c) && forall h :: 0 <= h < g ==> !HasLetter(s[h], c)
    decreases |s|
  {
    var own, rest := Own(s[0]), RowItems(s[1..]);
    hide FirstEntry, SomeHas, Has, Own, HasLetter;
    RunsHold(Options(s[0]), |Options(s[0])|, s[0], c);
    if SomeHas(own, c) {
      FirstInOwn(own, rest, i, c);
      g := 0;
    } else {
      FirstInRest(own, rest, i, c);
      g := PlaceOf(s[1..], i - |own|, c);
      MadeBehind(s, g, i - |own|);
      g := g + 1;
    }
  }

  lemma FirstInOwn(own: seq<Item>, rest: seq<Item>, i: nat, c: char)
    requires FirstEntry(own + rest, i, c) && SomeHas(own, c)
    ensures i < |own|
  {
    var k: nat :| k < |own| && Has(own, k, c);
    assert Has(own + rest, k, c);
  }

  lemma FirstInRest(own: seq<Item>, rest: seq<Item>, i: nat, c: char)
    requires FirstEntry(own + rest, i, c) && !SomeHas(own, c)
    ensures |own| <= i && FirstEntry(rest, i - |own|, c) && (own + rest)[i] == rest[i - |own|]
  {
    forall k: nat | k < |own| ensures !Has(own + rest, k, c) {
      assert Has(own, k, c) == Has(own + rest, k, c);
    }
    forall j: nat | j < i - |own| ensures !Has(rest, j, c) {
      assert Has(own + rest, |own| + j, c) == Has(rest, j, c);
    }
  }

  /** What the parser takes for a short option is one for the help list. */
  lemma ShortHasLetter(a: Argp, c: char)
    requires !HasLetter(a, c)
    ensures !DeclaresShort(a, c)
  {
    assert forall i :: 0 <= i < |Options(a)| && IsShortOption(Options(a), i, c) ==> IsShort(Options(a)[i]);
  }

  /** Where no group before it has the letter, a group is the first to declare it if it does at all. */
  lemma FirstHere(s: seq<Argp>, g: nat, c: char)
    requires g < |s| && forall h :: 0 <= h < g ==> !HasLetter(s[h], c)
    ensures FirstShort(s, c, g) <==> DeclaresShort(s[g], c)
  {
    hide HasLetter, DeclaresShort;
    forall h | 0 <= h < g ensures !DeclaresShort(s[h], c) { ShortHasLetter(s[h], c); }
  }

  lemma ShownHasOptions(items: seq<Item>, i: nat, c: char)
    requires i < |items| && c in Shown(items, i)
    ensures items[i].opts != []
  {}

  /** Entry q of the first n options of a group holds option j and the aliases that follow it. */
  ghost predicate RunAt(opts: seq<Opt>, n: nat, items: seq<Item>, q: nat, j: nat) {
    && n <= |opts| && q < |items| && items[q].opts != [] && j + |items[q].opts| <= n
    && items[q].opts == opts[j..j + |items[q].opts|]
    && forall m :: j <= m < j + |items[q].opts| ==> IsOrigin(opts, m, j)
  }

  lemma {:induction false} RunsAt(opts: seq<Opt>, n: nat, a: Argp, q: nat) returns (j: nat)
    requires n <= |opts| && q < |Runs(opts, n, a)|
    ensures RunAt(opts, n, Runs(opts, n, a), q, j)
    ensures q == |Runs(opts, n, a)| - 1 ==> j + |Runs(opts, n, a)[q].opts| == n
  {
    hide RunAt;
    var r, o := Runs(opts, n - 1, a), opts[n - 1];
    if q == |Runs(opts, n, a)| - 1 {
      if o.alias && r != [] {
        j := RunsAt(opts, n - 1, a, q);
        RunGrows(opts, n, r, q, j, a);
      } else {
        j := n - 1;
        RunBegins(opts, n, r, a);
      }
    } else {
      j := RunsAt(opts, n - 1, a, q);
      RunStays(opts, n, r, Runs(opts, n, a), q, j);
    }
  }

  lemma RunStays(opts: seq<Opt>, n: nat, r: seq<Item>, more: seq<Item>, q: nat, j: nat)
    requires 0 < n <= |opts| && RunAt(opts, n - 1, r, q, j) && q < |more| && more[q] == r[q]
    ensures RunAt(opts, n, more, q, j)
  {}

  lemma RunGrows(opts: seq<Opt>, n: nat, r: seq<Item>, q: nat, j: nat, a: Argp)
    requires 0 < n <= |opts| && opts[n - 1].alias && RunAt(opts, n - 1, r, q, j) && j + |r[q].opts| == n - 1
    requires q == |r| - 1
    ensures RunAt(opts, n, r[..q] + [Item(r[q].opts + [opts[n - 1]], a)], q, j)
  {
    assert IsOrigin(opts, n - 2, j);
    assert IsOrigin(opts, n - 1, j);
  }

  lemma RunBegins(opts: seq<Opt>, n: nat, r: seq<Item>, a: Argp)
    requires 0 < n <= |opts| && (opts[n - 1].alias ==> n == 1)
    ensures RunAt(opts, n, r + [Item([opts[n - 1]], a)], |r|, n - 1)
  {}

  /** The letters of an entry are those of an option of the group and its aliases; what the first of its
      options takes is what the option with the letter does. */
  lemma EntryOrigin(s: seq<Argp>, g: nat, i: nat, c: char) returns (m: nat, j: nat)
    requires MadeAt(s, g, i) && i < |RowItems(s)| && Has(RowItems(s), i, c)
    ensures var o := Options(s[g]);
      && RowItems(s)[i].opts != [] && IsOrigin(o, m, j) && o[j] == RowItems(s)[i].opts[0]
      && IsShort(o[m]) && o[m].key == c as int
  {
    var o := Options(s[g]);
    var q := i - |RowItems(s[..g])|;
    MadeItem(s, g, i);
    j := RunsAt(o, |o|, s[g], q);
    hide Runs, RowItems;
    var e := Runs(o, |o|, s[g])[q];
    var n :| 0 <= n < |e.opts| && IsShort(e.opts[n]) && e.opts[n].key == c as int;
    m := j + n;
    assert e.opts[n] == o[m] && e.opts[0] == o[j];
  }

  lemma MadeItem(s: seq<Argp>, g: nat, i: nat)
    requires MadeAt(s, g, i)
    ensures i < |RowItems(s)| && RowItems(s)[i] == Own(s[g])[i - |RowItems(s[..g])|]
  {
    assert s == s[..g] + [s[g]] + s[g + 1..];
    RowAppend(s[..g], [s[g]]);
    RowAppend(s[..g] + [s[g]], s[g + 1..]);
    assert RowItems([s[g]]) == Own(s[g]) + RowItems([]);
  }

  /** The entry of the help list that shows a short option is made in the place, in preorder, of a group
      such that the option, as it is typed, takes what the entry's first option is declared to take, and
      is delivered to that very group, if and only if the group hands the letter to getopt (it does not
      where the letter is an alias of a documentation entry) and the table allows it.  That option is the
      one that the letter is the key of, or that this one is an alias of. */
  lemma HelpAgrees(a: Argp, i: nat, c: char, posix: bool) returns (g: nat, m: nat, j: nat)
    requires i < |ItemsOf(a)| && c in Shown(ItemsOf(a), i)
    ensures MadeAt(Preorder(a), g, i) && ItemsOf(a)[i].argp == Preorder(a)[g] && ItemsOf(a)[i].opts != []
    ensures var s, shown, o := Preorder(a), ItemsOf(a)[i].opts[0], Options(Preorder(a)[g]);
      && IsOrigin(o, m, j) && o[j] == shown && IsShort(o[m]) && o[m].key == c as int
      && (ReadByFields(s, posix, c, g, shown) <==> DeclaresShort(s[g], c) && Clear(CodesOf(s), c, ArgOf(shown)))
  {
    ItemsInPreorder(a);
    ShownExactly(ItemsOf(a), i, c);
    ShownHasOptions(ItemsOf(a), i, c);
    hide HasLetter, DeclaresShort, ReadAs, ReadByFields, Clear, CodesOf, Preorder, ItemsOf, RowItems, Shown, Has,
         IsOrigin;
    g := PlaceOf(Preorder(a), i, c);
    MadeOf(Preorder(a), g, i);
    m, j := EntryOrigin(Preorder(a), g, i, c);
    FirstHere(Preorder(a), g, c);
    var shown := ItemsOf(a)[i].opts[0];
    ShortExactly(Preorder(a), posix, c, g, ArgOf(shown));
    FieldsRead(Preorder(a), posix, c, g, shown);
  }

  /** An entry that is documentation only, with the short option x as an alias. */
  function DocAlias(): seq<Opt> {
    [Opt(Some("d"), 0, false, false, false, true), Opt(None, 'x' as int, false, false, true, false)]
  }

  function DocTree(): Argp { Argp(Some(DocAlias()), true, Nil) }

  lemma DocItems()
    ensures ItemsOf(DocTree()) == [Item(DocAlias(), DocTree())]
  {
    var o, a := DocAlias(), DocTree();
    assert Runs(o, 1, a) == [Item([o[0]], a)];
    assert Runs(o, 1, a)[..0] == [] && [o[0]] + [o[1]] == o;
    assert Own(a) == Runs(o, 2, a);
  }

  lemma DocCodes()
    ensures Preorder(DocTree()) == [DocTree()] && CodesOf([DocTree()]) == []
  {
    assert CodesOf([DocTree()][..0]) == [];
    assert OptionCodes(DocAlias(), 1) == [];
    assert OptionCodes(DocAlias(), 2) == [];
  }

  /** The alias is shown, and getopt never sees it. */
  lemma DocAliasShown(posix: bool)
    ensures |ItemsOf(DocTree())| == 1 && 'x' in Shown(ItemsOf(DocTree()), 0)
    ensures Deliver(EnterAll(Preorder(DocTree()), Empty()), 'x' as int) == Unknown
    ensures forall g, arg :: !ReadAs(Preorder(DocTree()), posix, 'x', g, arg)
  {
    var s := [DocTree()];
    DocItems();
    DocCodes();
    SpellAll(s);
    assert Declares(DocAlias(), 2, 'x') by { assert IsShort(DocAlias()[1]); }
    ShownExactly(ItemsOf(DocTree()), 0, 'x');
    hide ReadAs, CodesOf, ItemsOf, EnterAll, Shown, DocTree, Preorder;
    forall g, arg ensures !ReadAs(s, posix, 'x', g, arg) { ShortExactly(s, posix, 'x', g, arg); }
  }
}
