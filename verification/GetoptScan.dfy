/** The scan of an argument vector, as mathematics: the elements are read from left to right, and
    non-options are set aside instead of being moved. */
module GetoptScan {
  import opened Common

  datatype Ordering = RequireOrder | Permute | ReturnInOrder

  /** optstring is what remains of the option string after its first '-' or '+'. */
  datatype Config = Config(ordering: Ordering, optstring: string, longopts: Option<seq<LongOption>>, longOnly: bool)

  /** How one call ends: -1, or a value. */
  datatype Return = End | Value(v: int)

  predicate NonOption(s: string) { |s| == 0 || s[0] != '-' || |s| == 1 }

  // ----- Long options

  function NameOf(rest: string): (name: string)
    ensures name <= rest && '=' !in name && (|name| < |rest| ==> rest[|name|] == '=')
  {
    if rest == "" || rest[0] == '=' then "" else [rest[0]] + NameOf(rest[1..])
  }

  datatype Lookup = NotFound | Ambiguous | Found(index: nat)

  /** Two options that an abbreviation need not tell apart. */
  predicate Alike(p: LongOption, q: LongOption) { p.hasArg == q.hasArg && p.flag == q.flag && p.val == q.val }

  /** An exact match wins.  Otherwise the first option that the name abbreviates does, unless some
      other one differs in more than its name, or could be meant by a single dash. */
  ghost predicate IsLookup(name: string, opts: seq<LongOption>, longOnly: bool, r: Lookup) {
    match r
    case Found(i) =>
      && i < |opts| && name <= opts[i].name
      && if opts[i].name == name then forall j :: 0 <= j < i ==> opts[j].name != name
         else
           && (forall j :: 0 <= j < |opts| ==> opts[j].name != name)
           && (forall j :: 0 <= j < i ==> !(name <= opts[j].name))
           && (forall j :: i < j < |opts| && name <= opts[j].name ==>
                 !longOnly && opts[i].hasArg == opts[j].hasArg && opts[i].flag == opts[j].flag &&
                 opts[i].val == opts[j].val)
    case NotFound => forall j :: 0 <= j < |opts| ==> !(name <= opts[j].name)
    case Ambiguous =>
      && (forall j :: 0 <= j < |opts| ==> opts[j].name != name)
      && exists i, j :: 0 <= i < j < |opts| && name <= opts[i].name && name <= opts[j].name &&
           (forall k :: 0 <= k < i ==> !(name <= opts[k].name)) &&
           (longOnly || opts[i].hasArg != opts[j].hasArg || opts[i].flag != opts[j].flag ||
            opts[i].val != opts[j].val)
  }

  /** The first abbreviation seen, and whether a later one was not alike. */
  datatype Search = Search(found: Option<nat>, ambiguous: bool)

  /** The search through the first n options. */
  function Searched(name: string, opts: seq<LongOption>, longOnly: bool, n: nat): (s: Search)
    requires n <= |opts|
    ensures s.found.Some? ==> s.found.value < n
  {
    if n == 0 then Search(None, false) else
      var s := Searched(name, opts, longOnly, n - 1);
      var p := opts[n - 1];
      if !(name <= p.name) then s
      else if s.found.None? then Search(Some(n - 1), false)
      else s.(ambiguous := s.ambiguous || longOnly || !Alike(opts[s.found.value], p))
  }

  lemma {:induction false} SearchedMeaning(name: string, opts: seq<LongOption>, longOnly: bool, n: nat)
    requires n <= |opts|
    ensures var s := Searched(name, opts, longOnly, n);
      match s.found
      case None => !s.ambiguous && forall j :: 0 <= j < n ==> !(name <= opts[j].name)
      case Some(i) =>
        && name <= opts[i].name && (forall j :: 0 <= j < i ==> !(name <= opts[j].name))
        && (s.ambiguous <==> exists j :: i < j < n && name <= opts[j].name && (longOnly || !Alike(opts[i], opts[j])))
  {
    if n > 0 { SearchedMeaning(name, opts, longOnly, n - 1); }
  }

  predicate NoExact(name: string, opts: seq<LongOption>, n: nat)
    requires n <= |opts|
  {
    forall j :: 0 <= j < n ==> opts[j].name != name
  }

  /** The search stops at the first exact match. */
  function Find(name: string, opts: seq<LongOption>, longOnly: bool, n: nat): Lookup
    requires n <= |opts|
    decreases |opts| - n
  {
    if n < |opts| then
      if opts[n].name == name then Found(n) else Find(name, opts, longOnly, n + 1)
    else
      var s := Searched(name, opts, longOnly, n);
      if s.found.None? then NotFound else if s.ambiguous then Ambiguous else Found(s.found.value)
  }

  /** The search finds what the rules for abbreviations ask for, and nothing else meets them. */
  lemma {:induction false} FindExactly(name: string, opts: seq<LongOption>, longOnly: bool, n: nat, r: Lookup)
    requires n <= |opts| && NoExact(name, opts, n)
    ensures r == Find(name, opts, longOnly, n) <==> IsLookup(name, opts, longOnly, r)
    decreases |opts| - n
  {
    if n < |opts| {
      if opts[n].name == name {
        ExactWins(name, opts, longOnly, n, r);
      } else {
        FindExactly(name, opts, longOnly, n + 1, r);
      }
    } else {
      NoExactDecides(name, opts, longOnly, r);
    }
  }

  lemma ExactWins(name: string, opts: seq<LongOption>, longOnly: bool, n: nat, r: Lookup)
    requires n < |opts| && NoExact(name, opts, n) && opts[n].name == name
    ensures r == Found(n) <==> IsLookup(name, opts, longOnly, r)
  {}

  lemma NoExactDecides(name: string, opts: seq<LongOption>, longOnly: bool, r: Lookup)
    requires NoExact(name, opts, |opts|)
    ensures r == Find(name, opts, longOnly, |opts|) <==> IsLookup(name, opts, longOnly, r)
  {
    SearchFollows(name, opts, longOnly);
    hide IsLookup, Find, NoExact;
    if IsLookup(name, opts, longOnly, r) { LookupOnce(name, opts, longOnly, r, Find(name, opts, longOnly, |opts|)); }
  }

  lemma SearchFollows(name: string, opts: seq<LongOption>, longOnly: bool)
    requires NoExact(name, opts, |opts|)
    ensures IsLookup(name, opts, longOnly, Find(name, opts, longOnly, |opts|))
  {
    SearchedMeaning(name, opts, longOnly, |opts|);
    hide Searched;
    var s := Searched(name, opts, longOnly, |opts|);
    if s.found.Some? && s.ambiguous {
      var i := s.found.value;
      var j :| i < j < |opts| && name <= opts[j].name && (longOnly || !Alike(opts[i], opts[j]));
    }
  }

  lemma LookupOnce(name: string, opts: seq<LongOption>, longOnly: bool, r: Lookup, q: Lookup)
    requires NoExact(name, opts, |opts|) && IsLookup(name, opts, longOnly, r) && IsLookup(name, opts, longOnly, q)
    ensures r == q
  {
    if r.Found? && q.Ambiguous? { FoundClear(name, opts, longOnly, r.index); }
    if q.Found? && r.Ambiguous? { FoundClear(name, opts, longOnly, q.index); }
  }

  lemma FoundClear(name: string, opts: seq<LongOption>, longOnly: bool, i: nat)
    requires NoExact(name, opts, |opts|) && IsLookup(name, opts, longOnly, Found(i))
    ensures !IsLookup(name, opts, longOnly, Ambiguous)
  {}

  // ----- One option

  predicate CharAt(s: string, i: nat, c: char) { i < |s| && s[i] == c }

  /** What one call makes of the current element: the value returned, optarg, what remains of the
      element (None where the source stores a null pointer), the elements passed, and optopt and
      the long option's index when they are set. */
  datatype Decoded = Decoded(ret: int, optarg: Option<string>, rest: Option<string>, passed: nat,
                             optopt: Option<int>, longind: Option<nat>)
  {
    predicate Remains() { rest.Some? && rest.value != "" }
  }

  function Question(): int { '?' as int }

  /** The value for a missing argument. */
  function Missing(cfg: Config): int { if CharAt(cfg.optstring, 0, ':') then ':' as int else '?' as int }

  /** A long option may start the element: by "--", or by "-" when longOnly and the element is not
      just a known short option. */
  predicate TriesLong(cfg: Config, elem: string)
    requires |elem| >= 2
  {
    cfg.longopts.Some? &&
    (elem[1] == '-' || (cfg.longOnly && (|elem| > 2 || IndexOf(cfg.optstring, elem[1]).None?)))
  }

  /** The long option p, meant by a text of `taken` elements; w says that it came behind -W, where
      optarg keeps the text, and optopt its old value, when there is something wrong. */
  function DecodeFound(cfg: Config, p: LongOption, index: nat, text: string, taken: nat, after: seq<string>,
                       w: bool): Decoded
    requires taken >= 1
  {
    var name := NameOf(text);
    var ret := if p.flag.Some? then 0 else p.val;
    var refused := Decoded(Question(), if w then Some(text) else None, Some(""), taken,
                           if w then None else Some(p.val), None);
    if |name| < |text| then
      if p.hasArg.NoArgument? then refused
      else Decoded(ret, Some(text[|name| + 1..]), Some(""), taken, None, Some(index))
    else if p.hasArg.RequiredArgument? then
      if taken > |after| then refused.(ret := Missing(cfg))
      else Decoded(ret, Some(after[taken - 1]), Some(""), taken + 1, None, Some(index))
    else Decoded(ret, None, Some(""), taken, None, Some(index))
  }

  /** "-W foo" for "--foo".  Without long options the text behind W is not passed; an ambiguous text
      makes the source pass one element too many. */
  function DecodeW(cfg: Config, more: string, after: seq<string>): Decoded {
    if cfg.longopts.None? then Decoded('W' as int, None, None, if more == "" then 1 else 0, None, None)
    else if more == "" && after == [] then Decoded(Missing(cfg), None, Some(""), 1, Some('W' as int), None)
    else
      var (text, taken) := if more != "" then (more, 1) else (after[0], 2);
      match Find(NameOf(text), cfg.longopts.value, cfg.longOnly, 0)
      case Ambiguous => Decoded(Question(), Some(text), Some(""), taken + 1, None, None)
      case NotFound => Decoded('W' as int, Some(text), None, taken, None, None)
      case Found(i) =>
        (FindExactly(NameOf(text), cfg.longopts.value, cfg.longOnly, 0, Found(i));
         DecodeFound(cfg, cfg.longopts.value[i], i, text, taken, after, true))
  }

  function DecodeShort(cfg: Config, rest: string, after: seq<string>): Decoded
    requires rest != ""
  {
    var c, more := rest[0], rest[1..];
    var end := if more == "" then 1 else 0;
    match IndexOf(cfg.optstring, c)
    case None => Decoded(Question(), None, Some(more), end, Some(c as int), None)
    case Some(i) =>
      if c == ':' || c == ';' then Decoded(Question(), None, Some(more), end, Some(c as int), None)
      else if c == 'W' && CharAt(cfg.optstring, i + 1, ';') then DecodeW(cfg, more, after)
      else if !CharAt(cfg.optstring, i + 1, ':') then Decoded(c as int, None, Some(more), end, None, None)
      else if CharAt(cfg.optstring, i + 2, ':') then
        Decoded(c as int, if more == "" then None else Some(more), None, 1, None, None)
      else if more != "" then Decoded(c as int, Some(more), None, 1, None, None)
      else if after == [] then Decoded(Missing(cfg), None, None, 1, Some(c as int), None)
      else Decoded(c as int, Some(after[0]), None, 2, None, None)
  }

  /** One option: `rest` remains of the element, and the elements `after` follow it. */
  function Decode(cfg: Config, elem: string, rest: string, after: seq<string>): Decoded
    requires |elem| >= 2 && rest != ""
  {
    if !TriesLong(cfg, elem) then DecodeShort(cfg, rest, after) else
      match Find(NameOf(rest), cfg.longopts.value, cfg.longOnly, 0)
      case Ambiguous => Decoded(Question(), None, Some(""), 1, Some(0), None)
      case Found(i) =>
        (FindExactly(NameOf(rest), cfg.longopts.value, cfg.longOnly, 0, Found(i));
         DecodeFound(cfg, cfg.longopts.value[i], i, rest, 1, after, false))
      case NotFound =>
        if !cfg.longOnly || elem[1] == '-' || IndexOf(cfg.optstring, rest[0]).None?
        then Decoded(Question(), None, Some(""), 1, Some(0), None)
        else DecodeShort(cfg, rest, after)
  }

  /** The option string does not ask for "-W foo" to be read as "--foo". */
  predicate NoConvenience(optstring: string) {
    match IndexOf(optstring, 'W') case None => true case Some(i) => !CharAt(optstring, i + 1, ';')
  }

  /** An element is passed exactly when nothing remains of it, and further elements only if there are
      any: both fail only for -W.  Otherwise a second element is passed only as the argument. */
  lemma DecodePasses(cfg: Config, elem: string, rest: string, after: seq<string>)
    requires |elem| >= 2 && rest != ""
    ensures var d := Decode(cfg, elem, rest, after);
      && (d.Remains() ==> d.passed == 0 && |d.rest.value| < |rest|)
      && d.passed <= |after| + 2
      && (NoConvenience(cfg.optstring) ==>
           && (d.passed == 0 <==> d.Remains()) && d.passed <= 2
           && (d.passed == 2 ==> after != [] && d.optarg == Some(after[0])))
  {
    hide IndexOf, Find, NameOf;
  }

  /** What remains of the element is read as short options. */
  predicate AsShort(cfg: Config, elem: string, rest: string)
    requires |elem| >= 2 && rest != ""
  {
    !TriesLong(cfg, elem) ||
    (cfg.longOnly && elem[1] != '-' && IndexOf(cfg.optstring, rest[0]).Some?
     && Find(NameOf(rest), cfg.longopts.value, true, 0) == NotFound)
  }

  /** The character stands for a long option: it is 'W', and the option string has "W;". */
  predicate StandsForLong(o: string, c: char) {
    c == 'W' && match IndexOf(o, c) case None => false case Some(i) => CharAt(o, i + 1, ';')
  }

  /** The long option p, which the text means, needs an argument; there is none in the text and no
      element is left. */
  predicate Lacks(p: LongOption, text: string, taken: nat, after: seq<string>) {
    p.hasArg.RequiredArgument? && |NameOf(text)| == |text| && taken > |after|
  }

  predicate LacksFound(cfg: Config, text: string, taken: nat, after: seq<string>)
    requires cfg.longopts.Some?
  {
    match Find(NameOf(text), cfg.longopts.value, cfg.longOnly, 0)
    case Found(j) =>
      (FindExactly(NameOf(text), cfg.longopts.value, cfg.longOnly, 0, Found(j));
       Lacks(cfg.longopts.value[j], text, taken, after))
    case _ => false
  }

  predicate LacksShort(cfg: Config, rest: string, after: seq<string>)
    requires rest != ""
  {
    match IndexOf(cfg.optstring, rest[0])
    case None => false
    case Some(i) =>
      if StandsForLong(cfg.optstring, rest[0]) then
        cfg.longopts.Some? &&
        if |rest| > 1 then LacksFound(cfg, rest[1..], 1, after)
        else after == [] || LacksFound(cfg, after[0], 2, after)
      else
        && rest[0] != ':' && rest[0] != ';' && CharAt(cfg.optstring, i + 1, ':') && !CharAt(cfg.optstring, i + 2, ':')
        && |rest| == 1 && after == []
  }

  /** The option that is read needs an argument, and nothing is left that could be it. */
  predicate Starves(cfg: Config, elem: string, rest: string, after: seq<string>)
    requires |elem| >= 2 && rest != ""
  {
    if AsShort(cfg, elem, rest) then LacksShort(cfg, rest, after) else LacksFound(cfg, rest, 1, after)
  }

  /** So one more element would be taken. */
  lemma StarvesExactly(cfg: Config, elem: string, rest: string, after: seq<string>)
    requires |elem| >= 2 && rest != ""
    ensures Starves(cfg, elem, rest, after) <==>
      Decode(cfg, elem, rest, after + [""]).passed > Decode(cfg, elem, rest, after).passed
  {
    hide IndexOf, Find, NameOf;
  }

  /** Only the elements passed matter, unless more of them are wanted. */
  lemma DecodeLocal(cfg: Config, elem: string, rest: string, after: seq<string>, other: seq<string>)
    requires |elem| >= 2 && rest != ""
    requires var n := Decode(cfg, elem, rest, after).passed;
      n > 0 ==> n - 1 <= |after| && n - 1 <= |other| && after[..n - 1] == other[..n - 1]
    requires Starves(cfg, elem, rest, after) ==> after == other
    ensures Decode(cfg, elem, rest, other) == Decode(cfg, elem, rest, after)
  {
    hide IndexOf, Find, NameOf;
    var n := Decode(cfg, elem, rest, after).passed;
    if n > 1 { assert after[0] == after[..n - 1][0] == other[..n - 1][0] == other[0]; }
    if n > 2 { assert after[1] == after[..n - 1][1] == other[..n - 1][1] == other[1]; }
  }

  /** An option that wants another element takes it when there is one. */
  lemma DecodeStarves(cfg: Config, elem: string, rest: string, after: seq<string>, more: seq<string>)
    requires |elem| >= 2 && rest != "" && Starves(cfg, elem, rest, after)
    ensures Decode(cfg, elem, rest, after).passed == |after| + 1 && !Decode(cfg, elem, rest, after).Remains()
    ensures more != [] ==> Decode(cfg, elem, rest, after + more).passed > |after| + 1
    ensures !Decode(cfg, elem, rest, after + more).Remains()
  {
    hide IndexOf, Find, NameOf;
  }

  // ----- The scan

  function AtMost(i: nat, bound: nat): nat { if i > bound then bound else i }

  /** pos elements of the vector are behind the scan, apart into options with their arguments and
      non-options; `rest` remains of the element at pos. */
  datatype Scan = Scan(pos: nat, rest: Option<string>, opts: seq<string>, nonopts: seq<string>)
  {
    predicate Within() { rest.Some? && rest.value != "" }
  }

  /** The first element at or after i that is not skipped as a non-option. */
  function Skip(a: seq<string>, i: nat): (j: nat)
    requires i <= |a|
    ensures i <= j <= |a| && (j < |a| ==> !NonOption(a[j]))
    ensures forall k :: i <= k < j ==> NonOption(a[k])
    decreases |a| - i
  {
    if i < |a| && NonOption(a[i]) then Skip(a, i + 1) else i
  }

  /** An element that holds options. */
  predicate OptionAt(a: seq<string>, i: nat) { i < |a| && !NonOption(a[i]) && a[i] != "--" }

  function InitialRest(cfg: Config, elem: string): (r: string)
    requires !NonOption(elem) && elem != "--"
    ensures r != ""
  {
    if cfg.longopts.Some? && elem[1] == '-' then elem[2..] else elem[1..]
  }

  /** What becomes of a scan that has come to element t.pos.  The flag says that the scan is over: at
      the end, behind "--", or before a non-option that stops it. */
  function Arrive(cfg: Config, a: seq<string>, t: Scan): (r: (Scan, bool))
    requires t.pos <= |a| && t.rest == None
    ensures r.0.pos <= |a|
    ensures !r.1 ==> r.0.pos < |a| && (NonOption(a[r.0.pos]) || a[r.0.pos] != "--")
  {
    var j := t.pos;
    if j == |a| then (t, true)
    else if a[j] == "--" then (Scan(|a|, None, t.opts + ["--"], t.nonopts + a[j + 1..]), true)
    else if NonOption(a[j]) then (t, cfg.ordering.RequireOrder?)
    else (t.(rest := Some(InitialRest(cfg, a[j]))), false)
  }

  /** Goes to the next option element, unless one is being read. */
  function Advance(cfg: Config, a: seq<string>, s: Scan): (r: (Scan, bool))
    requires s.pos <= |a|
    ensures r.0.pos <= |a|
    ensures !r.1 && !s.Within() ==> r.0.pos < |a| && (NonOption(a[r.0.pos]) || a[r.0.pos] != "--")
  {
    if s.Within() then (s, false) else
      var j := if cfg.ordering.Permute? then Skip(a, s.pos) else s.pos;
      Arrive(cfg, a, Scan(j, None, s.opts, s.nonopts + a[s.pos..j]))
  }

  /** One call: the new scan, the value returned, and optarg, optopt, longind. */
  datatype Called = Called(scan: Scan, ret: Return, optarg: Option<string>, optopt: Option<int>, longind: Option<nat>)

  /** The scan stands in the vector; the element it is reading is one that holds options. */
  predicate Sound(a: seq<string>, s: Scan) {
    s.pos <= |a| && (s.Within() ==> OptionAt(a, s.pos))
  }

  /** One call.  It can leave the vector, by one element. */
  function Call(cfg: Config, a: seq<string>, s: Scan): (c: Called)
    requires Sound(a, s)
    ensures c.scan.pos <= |a| + 1 && (c.scan.pos <= |a| ==> Sound(a, c.scan))
  {
    var (t, over) := Advance(cfg, a, s);
    if over then Called(t, End, None, None, None)
    else if !t.Within() then
      Called(Scan(t.pos + 1, None, t.opts + [a[t.pos]], t.nonopts), Value(1), Some(a[t.pos]), None, None)
    else
      var d := Decode(cfg, a[t.pos], t.rest.value, a[t.pos + 1..]);
      DecodePasses(cfg, a[t.pos], t.rest.value, a[t.pos + 1..]);
      var pos := t.pos + d.passed;
      Called(Scan(pos, d.rest, t.opts + a[t.pos..AtMost(pos, |a|)], t.nonopts),
             Value(d.ret), d.optarg, d.optopt, d.longind)
  }

  /** A call first advances, and then either ends, passes a non-option, or reads the element. */
  lemma CallSteps(cfg: Config, a: seq<string>, s: Scan)
    requires Sound(a, s)
    ensures var (t, over), c := Advance(cfg, a, s), Call(cfg, a, s);
      && (over ==> c == Called(t, End, None, None, None))
      && (!over ==> Sound(a, t) && t.pos < |a|)
      && (!over && t.Within() ==> c == Call(cfg, a, t))
      && (!over && !t.Within() ==>
           c == Called(Scan(t.pos + 1, None, t.opts + [a[t.pos]], t.nonopts), Value(1), Some(a[t.pos]), None, None))
  {
    hide Decode;
    var (t, over) := Advance(cfg, a, s);
    if t.Within() { assert Advance(cfg, a, t) == (t, false); }
  }

  // ----- Elements that can be read to their end

  /** getopt passes the character and goes on with the next one of the element: it is no option, or one
      without an argument. */
  predicate Flag(o: string, c: char) {
    match IndexOf(o, c)
    case None => true
    case Some(i) => c == ':' || c == ';' || (!CharAt(o, i + 1, ':') && !StandsForLong(o, c))
  }

  /** The reading of `rest` comes to a -W at index k that is to be read as a long option. */
  ghost predicate WAt(cfg: Config, elem: string, rest: string, k: nat)
    requires |elem| >= 2
  {
    && k < |rest| && StandsForLong(cfg.optstring, rest[k])
    && (forall j: nat :: j <= k ==> AsShort(cfg, elem, rest[j..]))
    && (forall j: nat :: j < k ==> Flag(cfg.optstring, rest[j]))
  }

  /** There are no long options, and a -W with text behind it in the element. */
  ghost predicate Stuck(cfg: Config, elem: string, rest: string)
    requires |elem| >= 2
  {
    cfg.longopts.None? && exists k: nat :: k + 1 < |rest| && WAt(cfg, elem, rest, k)
  }

  predicate Unclear(cfg: Config, text: string)
    requires cfg.longopts.Some?
  {
    Find(NameOf(text), cfg.longopts.value, cfg.longOnly, 0) == Ambiguous
  }

  /** There are long options, and the text of a -W is the end of the vector and an ambiguous
      abbreviation. */
  ghost predicate AmbiguousEnd(cfg: Config, elem: string, rest: string, after: seq<string>)
    requires |elem| >= 2
  {
    cfg.longopts.Some? && exists k: nat :: EndAt(cfg, elem, rest, after, k)
  }

  ghost predicate EndAt(cfg: Config, elem: string, rest: string, after: seq<string>, k: nat)
    requires |elem| >= 2 && cfg.longopts.Some?
  {
    && WAt(cfg, elem, rest, k)
    && if k + 1 < |rest| then after == [] && Unclear(cfg, rest[k + 1..]) else |after| == 1 && Unclear(cfg, after[0])
  }

  lemma WStep(cfg: Config, elem: string, rest: string, k: nat)
    requires |elem| >= 2 && rest != ""
    ensures WAt(cfg, elem, rest, k + 1) <==>
      AsShort(cfg, elem, rest) && Flag(cfg.optstring, rest[0]) && WAt(cfg, elem, rest[1..], k)
  {
    hide AsShort, Flag, StandsForLong;
    assert rest[0..] == rest;
    assert forall j: nat :: j < |rest| ==> rest[j..] == rest[j..];
    if WAt(cfg, elem, rest, k + 1) {
      forall j: nat | j <= k ensures AsShort(cfg, elem, rest[1..][j..]) { assert rest[1..][j..] == rest[j + 1..]; }
      forall j: nat | j < k ensures Flag(cfg.optstring, rest[1..][j]) { assert rest[1..][j] == rest[j + 1]; }
    }
    if AsShort(cfg, elem, rest) && Flag(cfg.optstring, rest[0]) && WAt(cfg, elem, rest[1..], k) {
      forall j: nat | j <= k + 1 ensures AsShort(cfg, elem, rest[j..]) {
        if j > 0 { assert rest[j..] == rest[1..][j - 1..]; }
      }
      forall j: nat | j < k + 1 ensures Flag(cfg.optstring, rest[j]) {
        if j > 0 { assert rest[j] == rest[1..][j - 1]; }
      }
    }
  }

  lemma WHere(cfg: Config, elem: string, rest: string)
    requires |elem| >= 2 && rest != ""
    ensures WAt(cfg, elem, rest, 0) <==> AsShort(cfg, elem, rest) && StandsForLong(cfg.optstring, rest[0])
  {
    assert rest[0..] == rest;
  }

  predicate EndHere(cfg: Config, rest: string, after: seq<string>)
    requires rest != "" && cfg.longopts.Some?
  {
    if |rest| > 1 then after == [] && Unclear(cfg, rest[1..]) else |after| == 1 && Unclear(cfg, after[0])
  }

  /** What one option does to the element, by these guards. */
  lemma DecodeGuards(cfg: Config, elem: string, rest: string, after: seq<string>)
    requires |elem| >= 2 && rest != ""
    ensures var d := Decode(cfg, elem, rest, after);
      && (d.Remains() <==> AsShort(cfg, elem, rest) && Flag(cfg.optstring, rest[0]) && |rest| > 1)
      && (d.Remains() ==> d.rest.value == rest[1..])
    ensures var d := Decode(cfg, elem, rest, after);
      var w := AsShort(cfg, elem, rest) && StandsForLong(cfg.optstring, rest[0]);
      !d.Remains() ==>
        && (d.passed == 0 <==> w && cfg.longopts.None? && |rest| > 1)
        && (d.passed > |after| + 1 <==> w && cfg.longopts.Some? && EndHere(cfg, rest, after))
  {
    hide IndexOf, Find, NameOf;
  }

  lemma StuckStep(cfg: Config, elem: string, rest: string)
    requires |elem| >= 2 && |rest| > 1 && AsShort(cfg, elem, rest) && Flag(cfg.optstring, rest[0])
    ensures Stuck(cfg, elem, rest) <==> Stuck(cfg, elem, rest[1..])
  {
    WHere(cfg, elem, rest);
    hide AsShort, WAt;
    if Stuck(cfg, elem, rest) {
      var k: nat :| k + 1 < |rest| && WAt(cfg, elem, rest, k);
      WStep(cfg, elem, rest, k - 1);
    }
    if Stuck(cfg, elem, rest[1..]) {
      var k: nat :| k + 1 < |rest[1..]| && WAt(cfg, elem, rest[1..], k);
      WStep(cfg, elem, rest, k);
      assert k + 1 + 1 < |rest|;
    }
  }

  lemma EndStep(cfg: Config, elem: string, rest: string, after: seq<string>)
    requires |elem| >= 2 && |rest| > 1 && AsShort(cfg, elem, rest) && Flag(cfg.optstring, rest[0])
    ensures AmbiguousEnd(cfg, elem, rest, after) <==> AmbiguousEnd(cfg, elem, rest[1..], after)
  {
    WHere(cfg, elem, rest);
    hide AsShort, WAt, Unclear;
    if AmbiguousEnd(cfg, elem, rest, after) {
      var k: nat :| EndAt(cfg, elem, rest, after, k);
      WStep(cfg, elem, rest, k - 1);
      if k + 1 < |rest| { assert rest[1..][k..] == rest[k + 1..]; }
      assert EndAt(cfg, elem, rest[1..], after, k - 1);
    }
    if AmbiguousEnd(cfg, elem, rest[1..], after) {
      var k: nat :| EndAt(cfg, elem, rest[1..], after, k);
      WStep(cfg, elem, rest, k);
      if k + 2 < |rest| { assert rest[1..][k + 1..] == rest[k + 2..]; }
      assert EndAt(cfg, elem, rest, after, k + 1);
    }
  }

  /** A -W here is the only one that matters; and without one, none is to come. */
  lemma GuardsHere(cfg: Config, elem: string, rest: string, after: seq<string>)
    requires |elem| >= 2 && rest != "" && (|rest| == 1 || !AsShort(cfg, elem, rest) || !Flag(cfg.optstring, rest[0]))
    ensures var w := AsShort(cfg, elem, rest) && StandsForLong(cfg.optstring, rest[0]);
      && (Stuck(cfg, elem, rest) <==> w && cfg.longopts.None? && |rest| > 1)
      && (AmbiguousEnd(cfg, elem, rest, after) <==> w && cfg.longopts.Some? && EndHere(cfg, rest, after))
  {
    WHere(cfg, elem, rest);
    forall k: nat | k > 0 ensures !WAt(cfg, elem, rest, k) {
      if WAt(cfg, elem, rest, k) { WStep(cfg, elem, rest, k - 1); }
    }
    hide AsShort, WAt, Unclear, Flag, StandsForLong;
    if cfg.longopts.Some? && EndHere(cfg, rest, after) && WAt(cfg, elem, rest, 0) {
      assert EndAt(cfg, elem, rest, after, 0);
    }
  }

  /** The guards for an element are those for what remains of it. */
  lemma GuardsStep(cfg: Config, elem: string, rest: string, after: seq<string>)
    requires |elem| >= 2 && rest != ""
    ensures var d := Decode(cfg, elem, rest, after);
      if d.Remains() then
        && (Stuck(cfg, elem, rest) <==> Stuck(cfg, elem, d.rest.value))
        && (AmbiguousEnd(cfg, elem, rest, after) <==> AmbiguousEnd(cfg, elem, d.rest.value, after))
      else
        && (Stuck(cfg, elem, rest) <==> d.passed == 0)
        && (AmbiguousEnd(cfg, elem, rest, after) <==> d.passed > |after| + 1)
  {
    hide Decode, AsShort, Flag, StandsForLong, Stuck, AmbiguousEnd, EndHere;
    DecodeGuards(cfg, elem, rest, after);
    if Decode(cfg, elem, rest, after).Remains() {
      StuckStep(cfg, elem, rest);
      EndStep(cfg, elem, rest, after);
    } else {
      GuardsHere(cfg, elem, rest, after);
    }
  }

  /** How many elements the options in element i take: more than one when the last one has a separate
      argument; none when a -W is stuck, and one too many at an ambiguous end. */
  function Extent(cfg: Config, a: seq<string>, i: nat, rest: string): (n: nat)
    requires OptionAt(a, i) && rest != ""
    ensures n == 0 <==> Stuck(cfg, a[i], rest)
    ensures i + n <= |a| + 1
    ensures i + n > |a| <==> AmbiguousEnd(cfg, a[i], rest, a[i + 1..])
    decreases |rest|
  {
    var d := Decode(cfg, a[i], rest, a[i + 1..]);
    DecodePasses(cfg, a[i], rest, a[i + 1..]);
    GuardsStep(cfg, a[i], rest, a[i + 1..]);
    if d.Remains() then Extent(cfg, a, i, d.rest.value) else d.passed
  }

  ghost predicate Passable(cfg: Config, a: seq<string>, i: nat, rest: string)
    requires OptionAt(a, i) && rest != ""
  {
    !Stuck(cfg, a[i], rest) && !AmbiguousEnd(cfg, a[i], rest, a[i + 1..])
  }

  /** From element i on, the scan passes every element that it reads, and stays in the vector. */
  ghost predicate Orderly(cfg: Config, a: seq<string>, i: nat)
    requires i <= |a|
    decreases |a| - i
  {
    i == |a| || a[i] == "--" ||
    if NonOption(a[i]) then cfg.ordering.RequireOrder? || Orderly(cfg, a, i + 1)
    else
      var rest := InitialRest(cfg, a[i]);
      Passable(cfg, a, i, rest) && Orderly(cfg, a, i + Extent(cfg, a, i, rest))
  }

  /** The same for a scan that can be within an element. */
  ghost predicate Fine(cfg: Config, a: seq<string>, s: Scan)
    requires Sound(a, s)
  {
    if s.Within() then
      Passable(cfg, a, s.pos, s.rest.value) && Orderly(cfg, a, s.pos + Extent(cfg, a, s.pos, s.rest.value))
    else Orderly(cfg, a, s.pos)
  }

  /** Without -W, every vector is read in order. */
  lemma {:induction false} ConveniencePasses(cfg: Config, a: seq<string>, i: nat)
    requires i <= |a| && NoConvenience(cfg.optstring)
    ensures Orderly(cfg, a, i)
    decreases |a| - i
  {
    if i < |a| && a[i] != "--" {
      if NonOption(a[i]) {
        ConveniencePasses(cfg, a, i + 1);
      } else {
        ElementPasses(cfg, a, i, InitialRest(cfg, a[i]));
        ConveniencePasses(cfg, a, i + Extent(cfg, a, i, InitialRest(cfg, a[i])));
      }
    }
  }

  lemma {:induction false} ElementPasses(cfg: Config, a: seq<string>, i: nat, rest: string)
    requires OptionAt(a, i) && rest != "" && NoConvenience(cfg.optstring)
    ensures Passable(cfg, a, i, rest)
    decreases |rest|
  {
    hide Decode, NoConvenience;
    var d := Decode(cfg, a[i], rest, a[i + 1..]);
    DecodePasses(cfg, a[i], rest, a[i + 1..]);
    GuardsStep(cfg, a[i], rest, a[i + 1..]);
    if d.Remains() { ElementPasses(cfg, a, i, d.rest.value); }
  }

  lemma {:induction false} SkipOrderly(cfg: Config, a: seq<string>, i: nat)
    requires i <= |a| && cfg.ordering.Permute?
    ensures Orderly(cfg, a, Skip(a, i)) == Orderly(cfg, a, i)
    decreases |a| - i
  {
    if i < |a| && NonOption(a[i]) { SkipOrderly(cfg, a, i + 1); }
  }

  /** Advancing keeps in order what is. */
  lemma AdvanceFine(cfg: Config, a: seq<string>, s: Scan)
    requires Sound(a, s) && !Advance(cfg, a, s).1
    ensures var t := Advance(cfg, a, s).0; Sound(a, t) && Fine(cfg, a, t) == Fine(cfg, a, s)
  {
    hide Passable, Extent;
    if !s.Within() && cfg.ordering.Permute? { SkipOrderly(cfg, a, s.pos); }
  }

  /** So does a call, and it makes progress. */
  lemma CallProgress(cfg: Config, a: seq<string>, s: Scan)
    requires Sound(a, s) && Fine(cfg, a, s) && Call(cfg, a, s).ret.Value?
    ensures var u := Call(cfg, a, s).scan;
      && u.pos <= |a| && Fine(cfg, a, u)
      && (s.pos < u.pos || (s.pos == u.pos && u.Within() && (s.Within() ==> |u.rest.value| < |s.rest.value|)))
  {
    hide Call, Passable, Extent;
    CallSteps(cfg, a, s);
    AdvanceFine(cfg, a, s);
    var t := Advance(cfg, a, s).0;
    if t.Within() { ReadsFine(cfg, a, t); }
  }

  lemma ReadsFine(cfg: Config, a: seq<string>, t: Scan)
    requires Sound(a, t) && Fine(cfg, a, t) && t.Within()
    ensures var u := Call(cfg, a, t).scan;
      && u.pos <= |a| && Fine(cfg, a, u)
      && (t.pos < u.pos || (t.pos == u.pos && u.Within() && |u.rest.value| < |t.rest.value|))
  {
    hide Decode, Orderly;
    DecodePasses(cfg, a[t.pos], t.rest.value, a[t.pos + 1..]);
  }

  // ----- Runs that end, and runs that do not

  /** Within n calls one returns -1, and none before it leaves the vector. */
  predicate EndsWithin(cfg: Config, a: seq<string>, s: Scan, n: nat)
    requires Sound(a, s)
    decreases n
  {
    var c := Call(cfg, a, s);
    n > 0 && (c.ret.End? || (c.scan.pos <= |a| && EndsWithin(cfg, a, c.scan, n - 1)))
  }

  lemma {:induction false} FineEnds(cfg: Config, a: seq<string>, s: Scan) returns (n: nat)
    requires Sound(a, s) && Fine(cfg, a, s)
    ensures EndsWithin(cfg, a, s, n)
    decreases |a| - s.pos, if s.Within() then 0 else 1, if s.Within() then |s.rest.value| else 0
  {
    hide Call, Fine;
    n := 0;
    if Call(cfg, a, s).ret.Value? {
      CallProgress(cfg, a, s);
      n := FineEnds(cfg, a, Call(cfg, a, s).scan);
    }
    n := n + 1;
  }

  /** The scan is not in order; an element that is not passed is not passed from its start either. */
  ghost predicate Lost(cfg: Config, a: seq<string>, s: Scan)
    requires Sound(a, s)
  {
    !Fine(cfg, a, s) &&
    (s.Within() && Extent(cfg, a, s.pos, s.rest.value) == 0 ==>
      Extent(cfg, a, s.pos, InitialRest(cfg, a[s.pos])) == 0)
  }

  lemma LostStays(cfg: Config, a: seq<string>, s: Scan)
    requires Sound(a, s) && Lost(cfg, a, s)
    ensures var c := Call(cfg, a, s); c.ret.Value? && (c.scan.pos <= |a| ==> Lost(cfg, a, c.scan))
  {
    hide Call, Passable, Extent;
    LostAdvances(cfg, a, s);
    CallSteps(cfg, a, s);
    var t := Advance(cfg, a, s).0;
    if t.Within() { LostReads(cfg, a, t); }
  }

  lemma LostAdvances(cfg: Config, a: seq<string>, s: Scan)
    requires Sound(a, s) && Lost(cfg, a, s)
    ensures var (t, over) := Advance(cfg, a, s);
      && !over && Sound(a, t) && Lost(cfg, a, t)
      && (!t.Within() ==> NonOption(a[t.pos]) && !Orderly(cfg, a, t.pos + 1))
  {
    hide Passable, Extent;
    if !s.Within() && cfg.ordering.Permute? { SkipOrderly(cfg, a, s.pos); }
  }

  lemma LostReads(cfg: Config, a: seq<string>, t: Scan)
    requires Sound(a, t) && Lost(cfg, a, t) && t.Within()
    ensures var c := Call(cfg, a, t); c.ret.Value? && (c.scan.pos <= |a| ==> Lost(cfg, a, c.scan))
  {
    hide Decode;
    DecodePasses(cfg, a[t.pos], t.rest.value, a[t.pos + 1..]);
  }

  lemma {:induction false} LostNeverEnds(cfg: Config, a: seq<string>, s: Scan, n: nat)
    requires Sound(a, s) && Lost(cfg, a, s)
    ensures !EndsWithin(cfg, a, s, n)
    decreases n
  {
    hide Call, Lost;
    if n > 0 {
      LostStays(cfg, a, s);
      if Call(cfg, a, s).scan.pos <= |a| { LostNeverEnds(cfg, a, Call(cfg, a, s).scan, n - 1); }
    }
  }

  /** A scan that starts at element i. */
  function Start(a: seq<string>, i: nat): Scan
    requires i <= |a|
  {
    Scan(i, None, a[..i], [])
  }

  /** Calls come to -1 if and only if the vector is read in order; otherwise they go on for ever, or
      read behind the end of the vector. */
  lemma EndsExactly(cfg: Config, a: seq<string>, i: nat)
    requires i <= |a|
    ensures (exists n: nat :: EndsWithin(cfg, a, Start(a, i), n)) <==> Orderly(cfg, a, i)
  {
    hide EndsWithin, Orderly;
    var s := Start(a, i);
    if Orderly(cfg, a, i) {
      var n := FineEnds(cfg, a, s);
    } else {
      forall n: nat ensures !EndsWithin(cfg, a, s, n) { LostNeverEnds(cfg, a, s, n); }
    }
  }

  /** Without long options, "-Wx" is read for ever. */
  lemma NeverPassed()
    ensures var cfg, a := Config(Permute, "W;", None, false), ["prog", "-Wx"]; !Orderly(cfg, a, 1)
  {
    var cfg, a := Config(Permute, "W;", None, false), ["prog", "-Wx"];
    assert InitialRest(cfg, a[1]) == "Wx";
    assert IndexOf("W;", 'W') == Some(0);
    assert Decode(cfg, a[1], "Wx", a[2..]).passed == 0;
  }

  /** An ambiguous "-W fo" passes one element too many, here one that is not there. */
  lemma PassedTooFar()
    ensures var opts := [LongOption("foo", NoArgument, None, 1), LongOption("fob", NoArgument, None, 2)];
      var cfg, a := Config(Permute, "W;", Some(opts), false), ["prog", "-W", "fo"]; !Orderly(cfg, a, 1)
  {
    var opts := [LongOption("foo", NoArgument, None, 1), LongOption("fob", NoArgument, None, 2)];
    var cfg, a := Config(Permute, "W;", Some(opts), false), ["prog", "-W", "fo"];
    assert NameOf("o") == "o" && NameOf("fo") == "fo";
    assert Find("fo", opts, false, 0) == Ambiguous by { FindExactly("fo", opts, false, 0, Ambiguous); }
    hide Find, NameOf;
    assert InitialRest(cfg, a[1]) == "W" && a[2..] == ["fo"];
    AmbiguousPassesThree(cfg, "fo");
  }

  lemma AmbiguousPassesThree(cfg: Config, text: string)
    requires cfg.optstring == "W;" && cfg.longopts.Some? && !cfg.longOnly && text != ""
    requires Find(NameOf(text), cfg.longopts.value, false, 0) == Ambiguous
    ensures Decode(cfg, "-W", "W", [text]).passed == 3
  {
    assert IndexOf("W;", 'W') == Some(0);
    hide Find, NameOf, IndexOf;
  }

  // ----- Whole runs

  /** What a call that does not return -1 tells its caller, who has put -1 into optopt before. */
  datatype Answer = Answer(ret: int, optarg: Option<string>, optopt: int, longind: Option<nat>)

  function Stored(optopt: Option<int>): int { if optopt.Some? then optopt.value else -1 }

  function AnswerOf(d: Decoded): Answer { Answer(d.ret, d.optarg, Stored(d.optopt), d.longind) }

  function Told(c: Called): Answer
    requires c.ret.Value?
  {
    Answer(c.ret.v, c.optarg, Stored(c.optopt), c.longind)
  }

  datatype Ran = Ran(scan: Scan, answers: seq<Answer>)

  /** Where calls lead, until one returns -1, and what they return before. */
  function Run(cfg: Config, a: seq<string>, s: Scan): (r: Ran)
    requires Sound(a, s) && Fine(cfg, a, s)
    ensures Sound(a, r.scan)
    decreases |a| - s.pos, if s.Within() then 0 else 1, if s.Within() then |s.rest.value| else 0
  {
    var c := Call(cfg, a, s);
    if c.ret.End? then Ran(c.scan, []) else
      CallProgress(cfg, a, s);
      var r := Run(cfg, a, c.scan);
      r.(answers := [Told(c)] + r.answers)
  }

  /** The option elements with their separate arguments and "--", the non-options, and what the
      options are told to be. */
  datatype Parts = Parts(opts: seq<string>, nonopts: seq<string>, answers: seq<Answer>)
  {
    function Behind(opts: seq<string>, answers: seq<Answer>): Parts {
      Parts(opts + this.opts, nonopts, answers + this.answers)
    }
  }

  function ElementAnswers(cfg: Config, a: seq<string>, i: nat, rest: string): seq<Answer>
    requires OptionAt(a, i) && rest != ""
    decreases |rest|
  {
    var d := Decode(cfg, a[i], rest, a[i + 1..]);
    DecodePasses(cfg, a[i], rest, a[i + 1..]);
    [AnswerOf(d)] + if d.Remains() then ElementAnswers(cfg, a, i, d.rest.value) else []
  }

  /** The parts of the vector from element i on. */
  function Partition(cfg: Config, a: seq<string>, i: nat): Parts
    requires i <= |a| && cfg.ordering.Permute? && Orderly(cfg, a, i)
    decreases |a| - i
  {
    if i == |a| then Parts([], [], [])
    else if a[i] == "--" then Parts(["--"], a[i + 1..], [])
    else if NonOption(a[i]) then
      var p := Partition(cfg, a, i + 1); p.(nonopts := [a[i]] + p.nonopts)
    else ElementParts(cfg, a, i, InitialRest(cfg, a[i]))
  }

  /** The parts of the vector from within the option element i on. */
  function ElementParts(cfg: Config, a: seq<string>, i: nat, rest: string): Parts
    requires OptionAt(a, i) && rest != "" && cfg.ordering.Permute?
    requires Passable(cfg, a, i, rest) && Orderly(cfg, a, i + Extent(cfg, a, i, rest))
    decreases |a| - i, 0
  {
    var j := i + Extent(cfg, a, i, rest);
    Partition(cfg, a, j).Behind(a[i..j], ElementAnswers(cfg, a, i, rest))
  }

  /** The parts from where a scan stands. */
  function Rest(cfg: Config, a: seq<string>, s: Scan): Parts
    requires Sound(a, s) && Fine(cfg, a, s) && cfg.ordering.Permute?
  {
    if s.Within() then ElementParts(cfg, a, s.pos, s.rest.value) else Partition(cfg, a, s.pos)
  }

  /** A whole run that permutes reads the vector to its end, and takes it apart into the option
      elements and the non-options, both in their original order. */
  lemma {:induction false} RunPartitions(cfg: Config, a: seq<string>, s: Scan)
    requires Sound(a, s) && Fine(cfg, a, s) && cfg.ordering.Permute?
    ensures var r, p := Run(cfg, a, s), Rest(cfg, a, s);
      && r.scan.pos == |a| && r.scan.opts == s.opts + p.opts && r.scan.nonopts == s.nonopts + p.nonopts
      && r.answers == p.answers
    decreases |a| - s.pos, if s.Within() then 0 else 1, if s.Within() then |s.rest.value| else 0
  {
    hide Call, Rest, Fine;
    var c := Call(cfg, a, s);
    if c.ret.End? {
      EndPartitions(cfg, a, s);
    } else {
      CallProgress(cfg, a, s);
      RunPartitions(cfg, a, c.scan);
      CallPartitions(cfg, a, s);
    }
  }

  /** The scan s has come to t without a call returning anything. */
  ghost predicate Reaches(cfg: Config, a: seq<string>, s: Scan, t: Scan) {
    && Sound(a, s) && Fine(cfg, a, s) && Sound(a, t) && Fine(cfg, a, t) && cfg.ordering.Permute?
    && var p, q := Rest(cfg, a, s), Rest(cfg, a, t);
      s.opts + p.opts == t.opts + q.opts && s.nonopts + p.nonopts == t.nonopts + q.nonopts && p.answers == q.answers
  }

  lemma SetsAside(cfg: Config, a: seq<string>, i: nat)
    requires i < |a| && NonOption(a[i]) && cfg.ordering.Permute? && Orderly(cfg, a, i)
    ensures Orderly(cfg, a, i + 1) && Skip(a, i) == Skip(a, i + 1)
    ensures var p := Partition(cfg, a, i + 1); Partition(cfg, a, i) == p.(nonopts := [a[i]] + p.nonopts)
  {
    hide ElementParts, Passable;
    assert a[i] != "--";
  }

  lemma {:induction false} SkipPartitions(cfg: Config, a: seq<string>, i: nat)
    requires i <= |a| && cfg.ordering.Permute? && Orderly(cfg, a, i)
    ensures Orderly(cfg, a, Skip(a, i))
    ensures var p := Partition(cfg, a, Skip(a, i)); Partition(cfg, a, i) == p.(nonopts := a[i..Skip(a, i)] + p.nonopts)
    decreases |a| - i
  {
    hide Partition, Orderly;
    SkipOrderly(cfg, a, i);
    var j := Skip(a, i);
    if i < |a| && NonOption(a[i]) {
      SetsAside(cfg, a, i);
      SkipPartitions(cfg, a, i + 1);
      assert a[i..j] + Partition(cfg, a, j).nonopts == [a[i]] + (a[i + 1..j] + Partition(cfg, a, j).nonopts);
    } else {
      assert a[i..j] + Partition(cfg, a, j).nonopts == Partition(cfg, a, j).nonopts;
    }
  }

  lemma Associates<T>(x: seq<T>, y: seq<T>, z: seq<T>)
    ensures x + (y + z) == (x + y) + z
  {}

  /** Skipping sets the non-options aside. */
  lemma SkipReaches(cfg: Config, a: seq<string>, s: Scan)
    requires Sound(a, s) && Fine(cfg, a, s) && cfg.ordering.Permute? && !s.Within()
    ensures var j := Skip(a, s.pos); Reaches(cfg, a, s, Scan(j, None, s.opts, s.nonopts + a[s.pos..j]))
  {
    hide Partition, Orderly;
    SkipPartitions(cfg, a, s.pos);
    var j := Skip(a, s.pos);
    Associates(s.nonopts, a[s.pos..j], Partition(cfg, a, j).nonopts);
  }

  lemma EndPartitions(cfg: Config, a: seq<string>, s: Scan)
    requires Sound(a, s) && Fine(cfg, a, s) && cfg.ordering.Permute? && Call(cfg, a, s).ret.End?
    ensures var t, p := Call(cfg, a, s).scan, Rest(cfg, a, s);
      t.pos == |a| && t.opts == s.opts + p.opts && t.nonopts == s.nonopts + p.nonopts && p.answers == []
  {
    hide Decode, Passable, Extent, ElementParts;
    CallSteps(cfg, a, s);
    SkipReaches(cfg, a, s);
    var j := Skip(a, s.pos);
    EndParts(cfg, a, j);
  }

  lemma EndParts(cfg: Config, a: seq<string>, j: nat)
    requires j <= |a| && cfg.ordering.Permute? && Orderly(cfg, a, j) && (j < |a| ==> a[j] == "--")
    ensures Partition(cfg, a, j) == if j == |a| then Parts([], [], []) else Parts(["--"], a[j + 1..], [])
  {}

  /** A call takes what it returns, and what it passes, off what is to come. */
  lemma CallPartitions(cfg: Config, a: seq<string>, s: Scan)
    requires Sound(a, s) && Fine(cfg, a, s) && cfg.ordering.Permute? && Call(cfg, a, s).ret.Value?
    requires var u := Call(cfg, a, s).scan; Sound(a, u) && Fine(cfg, a, u)
    ensures var c, p, q := Call(cfg, a, s), Rest(cfg, a, s), Rest(cfg, a, Call(cfg, a, s).scan);
      && s.opts + p.opts == c.scan.opts + q.opts && s.nonopts + p.nonopts == c.scan.nonopts + q.nonopts
      && p.answers == [Told(c)] + q.answers
  {
    hide Call, Rest, Fine, Decode;
    CallSteps(cfg, a, s);
    AdvancePartitions(cfg, a, s);
    DecodePartitions(cfg, a, Advance(cfg, a, s).0);
  }

  lemma AdvancePartitions(cfg: Config, a: seq<string>, s: Scan)
    requires Sound(a, s) && Fine(cfg, a, s) && cfg.ordering.Permute? && !Advance(cfg, a, s).1
    ensures var t := Advance(cfg, a, s).0; t.Within() && Reaches(cfg, a, s, t)
  {
    hide Passable, Extent, ElementParts;
    AdvanceFine(cfg, a, s);
    if !s.Within() {
      SkipReaches(cfg, a, s);
    }
  }

  /** Reading one more option of an element leaves the extent of the element, and the parts behind
      it, as they were. */
  lemma DecodePartitions(cfg: Config, a: seq<string>, t: Scan)
    requires Sound(a, t) && Fine(cfg, a, t) && cfg.ordering.Permute? && t.Within()
    requires var u := Call(cfg, a, t).scan; Sound(a, u) && Fine(cfg, a, u)
    ensures var c, p, q := Call(cfg, a, t), Rest(cfg, a, t), Rest(cfg, a, Call(cfg, a, t).scan);
      && c.ret.Value? && t.opts + p.opts == c.scan.opts + q.opts && t.nonopts == c.scan.nonopts
      && p.nonopts == q.nonopts && p.answers == [Told(c)] + q.answers
  {
    hide Decode, Orderly, Partition;
    var i := t.pos;
    var d := Decode(cfg, a[i], t.rest.value, a[i + 1..]);
    DecodePasses(cfg, a[i], t.rest.value, a[i + 1..]);
    var c := Call(cfg, a, t);
    assert c.scan == Scan(i + d.passed, d.rest, t.opts + a[i..AtMost(i + d.passed, |a|)], t.nonopts);
    assert Told(c) == AnswerOf(d);
    if d.Remains() {
      var p := Partition(cfg, a, i + Extent(cfg, a, i, t.rest.value));
      assert t.opts + a[i..i] == t.opts;
      Associates([AnswerOf(d)], ElementAnswers(cfg, a, i, d.rest.value), p.answers);
    } else {
      Associates(t.opts, a[i..c.scan.pos], Partition(cfg, a, c.scan.pos).opts);
    }
  }

  ghost predicate Permutes(p: Parts, s: seq<string>) { multiset(p.opts + p.nonopts) == multiset(s) }

  lemma PermutesMore(a: seq<string>, i: nat, j: nat, p: Parts, answers: seq<Answer>)
    requires i <= j <= |a| && Permutes(p, a[j..])
    ensures Permutes(p.Behind(a[i..j], answers), a[i..]) && Permutes(p.(nonopts := a[i..j] + p.nonopts), a[i..])
  {
    var x := a[i..j];
    assert a[i..] == x + a[j..];
    assert multiset((x + p.opts) + p.nonopts) == multiset(x) + multiset(p.opts) + multiset(p.nonopts);
    assert multiset(p.opts + (x + p.nonopts)) == multiset(p.opts) + multiset(x) + multiset(p.nonopts);
  }

  lemma PermutesBase(x: seq<string>, y: seq<string>, answers: seq<Answer>)
    ensures Permutes(Parts(x, y, answers), x + y)
  {}

  /** Nothing is lost or invented: the two parts together are the vector. */
  lemma {:induction false} PartitionPermutes(cfg: Config, a: seq<string>, i: nat)
    requires i <= |a| && cfg.ordering.Permute? && Orderly(cfg, a, i)
    ensures Permutes(Partition(cfg, a, i), a[i..])
    decreases |a| - i
  {
    hide Permutes, ElementAnswers;
    if i == |a| {
      PermutesBase([], [], []);
      assert a[i..] == [] + [];
    } else if a[i] == "--" {
      PermutesBase(["--"], a[i + 1..], []);
      assert a[i..] == ["--"] + a[i + 1..];
    } else if NonOption(a[i]) {
      PartitionPermutes(cfg, a, i + 1);
      PermutesMore(a, i, i + 1, Partition(cfg, a, i + 1), []);
      assert a[i..i + 1] == [a[i]];
    } else {
      var j := i + Extent(cfg, a, i, InitialRest(cfg, a[i]));
      PartitionPermutes(cfg, a, j);
      PermutesMore(a, i, j, Partition(cfg, a, j), ElementAnswers(cfg, a, i, InitialRest(cfg, a[i])));
    }
  }

  // ----- A second run

  /** The last option in element i would have taken one more element. */
  predicate ElementStarves(cfg: Config, a: seq<string>, i: nat, rest: string)
    requires OptionAt(a, i) && rest != ""
    decreases |rest|
  {
    var d := Decode(cfg, a[i], rest, a[i + 1..]);
    DecodePasses(cfg, a[i], rest, a[i + 1..]);
    if d.Remains() then ElementStarves(cfg, a, i, d.rest.value) else Starves(cfg, a[i], rest, a[i + 1..])
  }

  /** The last option of the vector lacks its argument. */
  predicate EndStarves(cfg: Config, a: seq<string>, i: nat)
    requires i <= |a| && cfg.ordering.Permute? && Orderly(cfg, a, i)
    decreases |a| - i
  {
    i < |a| && a[i] != "--" &&
    if NonOption(a[i]) then EndStarves(cfg, a, i + 1)
    else
      var rest := InitialRest(cfg, a[i]);
      ElementStarves(cfg, a, i, rest) || EndStarves(cfg, a, i + Extent(cfg, a, i, rest))
  }

  /** The scan comes to "--". */
  predicate Dashed(cfg: Config, a: seq<string>, i: nat)
    requires i <= |a| && cfg.ordering.Permute? && Orderly(cfg, a, i)
    decreases |a| - i
  {
    i < |a| &&
    (a[i] == "--" ||
     if NonOption(a[i]) then Dashed(cfg, a, i + 1) else Dashed(cfg, a, i + Extent(cfg, a, i, InitialRest(cfg, a[i]))))
  }

  predicate AllNonOptions(z: seq<string>) { forall k :: 0 <= k < |z| ==> NonOption(z[k]) }

  lemma {:induction false} NonOptionsOnly(cfg: Config, b: seq<string>, j: nat)
    requires j <= |b| && cfg.ordering.Permute? && AllNonOptions(b[j..])
    ensures Orderly(cfg, b, j) && Partition(cfg, b, j) == Parts([], b[j..], [])
    decreases |b| - j
  {
    hide ElementParts, Passable;
    if j < |b| {
      assert b[j..][0] == b[j] && b[j..] == [b[j]] + b[j + 1..];
      assert b[j..][1..] == b[j + 1..];
      NonOptionsOnly(cfg, b, j + 1);
    }
  }

  /** Without "--", what is set aside are non-options. */
  lemma {:induction false} SetAside(cfg: Config, a: seq<string>, i: nat)
    requires i <= |a| && cfg.ordering.Permute? && Orderly(cfg, a, i) && !Dashed(cfg, a, i)
    ensures AllNonOptions(Partition(cfg, a, i).nonopts)
    decreases |a| - i
  {
    hide ElementAnswers;
    if i < |a| {
      if NonOption(a[i]) {
        SetAside(cfg, a, i + 1);
      } else {
        SetAside(cfg, a, i + Extent(cfg, a, i, InitialRest(cfg, a[i])));
      }
    }
  }

  /** The same elements, elsewhere. */
  predicate Copied(a: seq<string>, i: nat, b: seq<string>, j: nat, n: nat) {
    i + n <= |a| && j + n <= |b| && a[i..i + n] == b[j..j + n]
  }

  lemma CopiedAfter(a: seq<string>, i: nat, b: seq<string>, j: nat, n: nat)
    requires Copied(a, i, b, j, n) && n > 0
    ensures a[i] == b[j] && a[i + 1..][..n - 1] == b[j + 1..][..n - 1]
  {
    assert a[i] == a[i..i + n][0] && b[j] == b[j..j + n][0];
    assert a[i + 1..][..n - 1] == a[i..i + n][1..] && b[j + 1..][..n - 1] == b[j..j + n][1..];
  }

  /** An element that is copied with all that it takes reads the same; unless its last option lacks
      its argument and something follows the copy. */
  lemma {:induction false} ElementAgain(cfg: Config, a: seq<string>, i: nat, rest: string, b: seq<string>, j: nat)
    requires OptionAt(a, i) && OptionAt(b, j) && rest != "" && Passable(cfg, a, i, rest)
    requires Copied(a, i, b, j, Extent(cfg, a, i, rest))
    requires ElementStarves(cfg, a, i, rest) ==> j + Extent(cfg, a, i, rest) == |b|
    ensures Extent(cfg, b, j, rest) == Extent(cfg, a, i, rest)
    ensures ElementAnswers(cfg, b, j, rest) == ElementAnswers(cfg, a, i, rest)
    decreases |rest|
  {
    hide Decode, Starves;
    var n := Extent(cfg, a, i, rest);
    var d := Decode(cfg, a[i], rest, a[i + 1..]);
    CopiedAfter(a, i, b, j, n);
    DecodePasses(cfg, a[i], rest, a[i + 1..]);
    if Starves(cfg, a[i], rest, a[i + 1..]) {
      DecodeStarves(cfg, a[i], rest, a[i + 1..], []);
      assert a[i + 1..] == a[i + 1..][..n - 1] && b[j + 1..] == b[j + 1..][..n - 1];
    }
    DecodeLocal(cfg, a[i], rest, a[i + 1..], b[j + 1..]);
    if d.Remains() { ElementAgain(cfg, a, i, d.rest.value, b, j); }
  }

  /** Then it takes more. */
  lemma {:induction false} ElementDiffers(cfg: Config, a: seq<string>, i: nat, rest: string, b: seq<string>, j: nat)
    requires OptionAt(a, i) && OptionAt(b, j) && rest != "" && Passable(cfg, a, i, rest)
    requires Copied(a, i, b, j, Extent(cfg, a, i, rest))
    requires ElementStarves(cfg, a, i, rest) && j + Extent(cfg, a, i, rest) < |b|
    ensures i + Extent(cfg, a, i, rest) == |a| && Extent(cfg, b, j, rest) > Extent(cfg, a, i, rest)
    decreases |rest|
  {
    hide Decode, Starves;
    var n := Extent(cfg, a, i, rest);
    var d := Decode(cfg, a[i], rest, a[i + 1..]);
    CopiedAfter(a, i, b, j, n);
    DecodePasses(cfg, a[i], rest, a[i + 1..]);
    if d.Remains() {
      if Starves(cfg, a[i], rest, a[i + 1..]) { DecodeStarves(cfg, a[i], rest, a[i + 1..], []); }
      DecodeLocal(cfg, a[i], rest, a[i + 1..], b[j + 1..]);
      ElementDiffers(cfg, a, i, d.rest.value, b, j);
    } else {
      var more := b[j + n..];
      assert a[i + 1..] == a[i + 1..][..n - 1] by { DecodeStarves(cfg, a[i], rest, a[i + 1..], []); }
      assert b[j + 1..] == a[i + 1..] + more;
      DecodeStarves(cfg, a[i], rest, a[i + 1..], more);
    }
  }

  lemma {:induction false} StarvesLast(cfg: Config, a: seq<string>, i: nat, rest: string)
    requires OptionAt(a, i) && rest != "" && Passable(cfg, a, i, rest) && ElementStarves(cfg, a, i, rest)
    ensures i + Extent(cfg, a, i, rest) == |a|
    decreases |rest|
  {
    hide Decode, Starves;
    var d := Decode(cfg, a[i], rest, a[i + 1..]);
    DecodePasses(cfg, a[i], rest, a[i + 1..]);
    GuardsStep(cfg, a[i], rest, a[i + 1..]);
    if d.Remains() {
      StarvesLast(cfg, a, i, d.rest.value);
    } else {
      DecodeStarves(cfg, a[i], rest, a[i + 1..], []);
    }
  }

  lemma {:induction false} StarvesUndashed(cfg: Config, a: seq<string>, i: nat)
    requires i <= |a| && cfg.ordering.Permute? && Orderly(cfg, a, i) && EndStarves(cfg, a, i)
    ensures !Dashed(cfg, a, i)
    decreases |a| - i
  {
    hide Extent, ElementStarves;
    if NonOption(a[i]) {
      StarvesUndashed(cfg, a, i + 1);
    } else {
      var rest := InitialRest(cfg, a[i]);
      if ElementStarves(cfg, a, i, rest) {
        StarvesLast(cfg, a, i, rest);
      } else {
        StarvesUndashed(cfg, a, i + Extent(cfg, a, i, rest));
      }
    }
  }

  lemma ElementRead(cfg: Config, b: seq<string>, i: nat)
    requires OptionAt(b, i) && cfg.ordering.Permute?
    ensures var rest := InitialRest(cfg, b[i]);
      Orderly(cfg, b, i) <==> Passable(cfg, b, i, rest) && Orderly(cfg, b, i + Extent(cfg, b, i, rest))
    ensures Orderly(cfg, b, i) ==> Partition(cfg, b, i) == ElementParts(cfg, b, i, InitialRest(cfg, b[i]))
  {
    hide Extent, ElementAnswers;
  }

  /** The options of element i and what follows them, behind `pre` and before z. */
  lemma Rearranged(cfg: Config, a: seq<string>, i: nat, pre: seq<string>, z: seq<string>)
    requires OptionAt(a, i) && cfg.ordering.Permute? && Orderly(cfg, a, i)
    ensures var j := i + Extent(cfg, a, i, InitialRest(cfg, a[i]));
      var b := pre + Partition(cfg, a, i).opts + z;
      && j <= |a| && Orderly(cfg, a, j)
      && b == (pre + a[i..j]) + Partition(cfg, a, j).opts + z
      && Copied(a, i, b, |pre|, j - i) && OptionAt(b, |pre|) && b[|pre|] == a[i]
      && Partition(cfg, a, i) == Partition(cfg, a, j).Behind(a[i..j], ElementAnswers(cfg, a, i, InitialRest(cfg, a[i])))
  {
    hide Extent, ElementAnswers, Orderly, Partition, Stuck, AmbiguousEnd, InitialRest;
    ElementRead(cfg, a, i);
    var j := i + Extent(cfg, a, i, InitialRest(cfg, a[i]));
    Inserted(a, i, j, pre, Partition(cfg, a, j).opts, z);
  }

  lemma Inserted(a: seq<string>, i: nat, j: nat, pre: seq<string>, o: seq<string>, z: seq<string>)
    requires i < j <= |a|
    ensures var b := pre + (a[i..j] + o) + z;
      b == (pre + a[i..j]) + o + z && Copied(a, i, b, |pre|, j - i) && |pre| < |b| && b[|pre|] == a[i]
  {
    var b := pre + (a[i..j] + o) + z;
    assert b == (pre + a[i..j]) + o + z;
    assert b[|pre|..|pre| + (j - i)] == a[i..j];
  }

  /** Reading the options of a vector again, before other non-options, gives the same once more. */
  lemma {:induction false} Again(cfg: Config, a: seq<string>, i: nat, pre: seq<string>, z: seq<string>)
    requires i <= |a| && cfg.ordering.Permute? && Orderly(cfg, a, i)
    requires Dashed(cfg, a, i) || AllNonOptions(z)
    requires EndStarves(cfg, a, i) ==> z == []
    ensures var p := Partition(cfg, a, i); var b := pre + p.opts + z;
      Orderly(cfg, b, |pre|) && Partition(cfg, b, |pre|) == Parts(p.opts, z, p.answers)
    decreases |a| - i
  {
    hide Extent, ElementStarves, ElementAnswers, AllNonOptions;
    var b := pre + Partition(cfg, a, i).opts + z;
    if i == |a| {
      assert b[|pre|..] == z;
      NonOptionsOnly(cfg, b, |pre|);
    } else if a[i] == "--" {
      assert b[|pre|] == "--" && b[|pre| + 1..] == z;
    } else if NonOption(a[i]) {
      Again(cfg, a, i + 1, pre, z);
    } else {
      AgainElement(cfg, a, i, pre, z);
    }
  }

  lemma {:induction false} AgainElement(cfg: Config, a: seq<string>, i: nat, pre: seq<string>, z: seq<string>)
    requires OptionAt(a, i) && cfg.ordering.Permute? && Orderly(cfg, a, i)
    requires Dashed(cfg, a, i) || AllNonOptions(z)
    requires EndStarves(cfg, a, i) ==> z == []
    ensures var p := Partition(cfg, a, i); var b := pre + p.opts + z;
      Orderly(cfg, b, |pre|) && Partition(cfg, b, |pre|) == Parts(p.opts, z, p.answers)
    decreases |a| - i, 0
  {
    hide Extent, ElementStarves, ElementAnswers, AllNonOptions, Orderly, Partition, Dashed, EndStarves, InitialRest;
    var j := i + Extent(cfg, a, i, InitialRest(cfg, a[i]));
    Rearranged(cfg, a, i, pre, z);
    ElementEnds(cfg, a, i);
    AgainHere(cfg, a, i, pre, z);
    Again(cfg, a, j, pre + a[i..j], z);
    var b, rest := pre + Partition(cfg, a, i).opts + z, InitialRest(cfg, a[i]);
    ElementRead(cfg, b, |pre|);
    assert b[|pre|..|pre| + (j - i)] == a[i..j];
  }

  lemma AgainHere(cfg: Config, a: seq<string>, i: nat, pre: seq<string>, z: seq<string>)
    requires OptionAt(a, i) && cfg.ordering.Permute? && Orderly(cfg, a, i) && (EndStarves(cfg, a, i) ==> z == [])
    ensures var b, rest := pre + Partition(cfg, a, i).opts + z, InitialRest(cfg, a[i]);
      && OptionAt(b, |pre|) && b[|pre|] == a[i] && Extent(cfg, b, |pre|, rest) == Extent(cfg, a, i, rest)
      && ElementAnswers(cfg, b, |pre|, rest) == ElementAnswers(cfg, a, i, rest)
  {
    ElementRead(cfg, a, i);
    hide Extent, ElementStarves, ElementAnswers, Copied, Orderly, Partition, EndStarves;
    var rest := InitialRest(cfg, a[i]);
    Rearranged(cfg, a, i, pre, z);
    ElementEnds(cfg, a, i);
    if ElementStarves(cfg, a, i, rest) {
      StarvesLast(cfg, a, i, rest);
      EndParts(cfg, a, |a|);
    }
    ElementAgain(cfg, a, i, rest, pre + Partition(cfg, a, i).opts + z, |pre|);
  }

  lemma ElementEnds(cfg: Config, a: seq<string>, i: nat)
    requires OptionAt(a, i) && cfg.ordering.Permute? && Orderly(cfg, a, i)
    ensures var rest := InitialRest(cfg, a[i]);
      var j := i + Extent(cfg, a, i, rest);
      && i < j <= |a| && Orderly(cfg, a, j) && Dashed(cfg, a, i) == Dashed(cfg, a, j)
      && EndStarves(cfg, a, i) == (ElementStarves(cfg, a, i, rest) || EndStarves(cfg, a, j))
  {
    hide ElementStarves;
  }

  /** A last option that lacks its argument takes the first of the non-options that follow. */
  lemma {:induction false} AgainDiffers(cfg: Config, a: seq<string>, i: nat, pre: seq<string>, z: seq<string>)
    requires i <= |a| && cfg.ordering.Permute? && Orderly(cfg, a, i) && EndStarves(cfg, a, i) && z != []
    ensures var p := Partition(cfg, a, i); var b := pre + p.opts + z;
      !(Orderly(cfg, b, |pre|) && |Partition(cfg, b, |pre|).opts| == |p.opts|)
    decreases |a| - i
  {
    hide Extent, ElementStarves, ElementAnswers, Copied;
    if NonOption(a[i]) {
      AgainDiffers(cfg, a, i + 1, pre, z);
    } else {
      var rest := InitialRest(cfg, a[i]);
      var j := i + Extent(cfg, a, i, rest);
      var b := pre + Partition(cfg, a, i).opts + z;
      Rearranged(cfg, a, i, pre, z);
      ElementRead(cfg, b, |pre|);
      if ElementStarves(cfg, a, i, rest) {
        StarvesLast(cfg, a, i, rest);
        ElementDiffers(cfg, a, i, rest, b, |pre|);
      } else {
        ElementAgain(cfg, a, i, rest, b, |pre|);
        AgainDiffers(cfg, a, j, pre + a[i..j], z);
      }
    }
  }

  /** The vector that a permuting run leaves. */
  function Permuted(cfg: Config, a: seq<string>): seq<string>
    requires a != [] && cfg.ordering.Permute? && Orderly(cfg, a, 1)
  {
    var p := Partition(cfg, a, 1); [a[0]] + p.opts + p.nonopts
  }

  /** A second run, over that vector, finds the same parts in the same places and returns the same
      values, unless the last option lacks its argument and there are non-options. */
  lemma SecondRun(cfg: Config, a: seq<string>)
    requires a != [] && cfg.ordering.Permute? && Orderly(cfg, a, 1)
    ensures var v, p := Permuted(cfg, a), Partition(cfg, a, 1);
      (Orderly(cfg, v, 1) && Partition(cfg, v, 1) == p) <==> !(EndStarves(cfg, a, 1) && p.nonopts != [])
  {
    hide Orderly, Partition, EndStarves, Dashed, AllNonOptions;
    var p := Partition(cfg, a, 1);
    if EndStarves(cfg, a, 1) && p.nonopts != [] {
      AgainDiffers(cfg, a, 1, [a[0]], p.nonopts);
    } else {
      if !Dashed(cfg, a, 1) { SetAside(cfg, a, 1); }
      Again(cfg, a, 1, [a[0]], p.nonopts);
    }
  }

  /** "prog foo -x", where x needs an argument, is left as "prog -x foo". */
  lemma SecondRunDiffers()
    ensures var cfg, a := Config(Permute, "x:", None, false), ["prog", "foo", "-x"];
      Orderly(cfg, a, 1) && EndStarves(cfg, a, 1) && Permuted(cfg, a) == ["prog", "-x", "foo"]
  {
    var cfg, a := Config(Permute, "x:", None, false), ["prog", "foo", "-x"];
    assert InitialRest(cfg, a[2]) == "x" && a[3..] == [];
    assert IndexOf("x:", 'x') == Some(0);
    assert Decode(cfg, a[2], "x", []).passed == 1 && Decode(cfg, a[2], "x", [""]).passed == 2;
    hide Decode;
    assert Extent(cfg, a, 2, "x") == 1 && Starves(cfg, a[2], "x", a[3..]) by { assert [] + [""] == [""]; }
    assert Orderly(cfg, a, 3) && Partition(cfg, a, 3) == Parts([], [], []);
    assert Orderly(cfg, a, 2) && Partition(cfg, a, 2).opts == a[2..3] && Partition(cfg, a, 2).nonopts == [];
  }
}
