/** getopt over an argument vector that it permutes in place, call by call. */
module Getopt {
  import opened Common
  import opened GetoptScan

  // ----- Exchanging two neighbouring segments

  /** The segments [b, m) and [m, t) of v, exchanged. */
  function Rotated(v: seq<string>, b: nat, m: nat, t: nat): (w: seq<string>)
    requires b <= m <= t <= |v|
    ensures |w| == |v|
  {
    v[..b] + v[m..t] + v[b..m] + v[t..]
  }

  /** The equally long segments from i and from j, swapped. */
  function Swapped(v: seq<string>, i: nat, j: nat, len: nat): (w: seq<string>)
    requires i + len <= j && j + len <= |v|
    ensures |w| == |v|
  {
    v[..i] + v[j..j + len] + v[i + len..j] + v[i..i + len] + v[j + len..]
  }

  /** The segments still to be exchanged are [b, m) and [m, t); doing so leads to goal. */
  ghost predicate RotatesTo(v: seq<string>, b: nat, m: nat, t: nat, goal: seq<string>) {
    b <= m <= t <= |v| && Rotated(v, b, m, t) == goal
  }

  ghost predicate SwapsTo(v: seq<string>, i: nat, j: nat, len: nat, w: seq<string>) {
    i + len <= j && j + len <= |v| == |w| && w == Swapped(v, i, j, len)
  }

  lemma SwapsParts(v: seq<string>, i: nat, j: nat, len: nat, w: seq<string>)
    requires SwapsTo(v, i, j, len, w)
    ensures w[..i] == v[..i] && w[i..i + len] == v[j..j + len] && w[i + len..j] == v[i + len..j]
    ensures w[j..j + len] == v[i..i + len] && w[j + len..] == v[j + len..]
  {
  }

  /** Swapping a short bottom segment with the far end of the top one puts it into its place. */
  lemma RotateBottom(v: seq<string>, b: nat, m: nat, t: nat, len: nat, w: seq<string>, goal: seq<string>)
    requires RotatesTo(v, b, m, t, goal) && len == m - b <= t - m && SwapsTo(v, b, t - len, len, w)
    ensures RotatesTo(w, b, m, t - len, goal)
  {
    hide Swapped;
    SwapsParts(v, b, t - len, len, w);
    assert w[t - len..] == w[t - len..t] + w[t..];
    assert v[m..t] == v[m..t - len] + v[t - len..t];
  }

  /** Swapping a short top segment with the near end of the bottom one puts it into its place. */
  lemma RotateTop(v: seq<string>, b: nat, m: nat, t: nat, len: nat, w: seq<string>, goal: seq<string>)
    requires RotatesTo(v, b, m, t, goal) && len == t - m <= m - b && SwapsTo(v, b, m, len, w)
    ensures RotatesTo(w, b + len, m, t, goal)
  {
    hide Swapped;
    SwapsParts(v, b, m, len, w);
    assert w[..b + len] == w[..b] + w[b..b + len];
    assert v[b..m] == v[b..b + len] + v[b + len..m];
  }

  lemma RotatesSomewhere(v: seq<string>, b: nat, m: nat, t: nat) returns (goal: seq<string>)
    requires b <= m <= t <= |v|
    ensures RotatesTo(v, b, m, t, goal) && goal == Rotated(v, b, m, t)
  {
    goal := Rotated(v, b, m, t);
  }

  lemma RotateNothing(v: seq<string>, b: nat, m: nat, t: nat, goal: seq<string>)
    requires RotatesTo(v, b, m, t, goal) && (b == m || m == t)
    ensures v == goal
  {
  }

  method SwapBottom(argv: array<string>, bottom: nat, middle: nat, top: nat, ghost goal: seq<string>)
    returns (top': nat)
    requires RotatesTo(argv[..], bottom, middle, top, goal) && bottom < middle && middle - bottom < top - middle
    modifies argv
    ensures middle < top' < top && RotatesTo(argv[..], bottom, middle, top', goal)
  {
    hide Rotated, Swapped;
    ghost var v := argv[..];
    var len := middle - bottom;
    SwapSegments(argv, bottom, top - len, len);
    RotateBottom(v, bottom, middle, top, len, argv[..], goal);
    top' := top - len;
  }

  method SwapTop(argv: array<string>, bottom: nat, middle: nat, top: nat, ghost goal: seq<string>)
    returns (bottom': nat)
    requires RotatesTo(argv[..], bottom, middle, top, goal) && middle < top && top - middle <= middle - bottom
    modifies argv
    ensures bottom < bottom' <= middle && RotatesTo(argv[..], bottom', middle, top, goal)
  {
    hide Rotated, Swapped;
    ghost var v := argv[..];
    var len := top - middle;
    SwapSegments(argv, bottom, middle, len);
    RotateTop(v, bottom, middle, top, len, argv[..], goal);
    bottom' := bottom + len;
  }

  method SwapSegments(argv: array<string>, i: nat, j: nat, len: nat)
    requires i + len <= j && j + len <= argv.Length
    modifies argv
    ensures SwapsTo(old(argv[..]), i, j, len, argv[..])
  {
    ghost var v := argv[..];
    for k := 0 to len
      invariant argv[..] == Swapped(v, i, j, k)
    {
      assert argv[..][i + k] == v[i + k] && argv[..][j + k] == v[j + k];
      argv[i + k], argv[j + k] := argv[j + k], argv[i + k];
      SwapMore(v, i, j, k);
    }
  }

  lemma SwapMore(v: seq<string>, i: nat, j: nat, k: nat)
    requires i + k + 1 <= j && j + k + 1 <= |v|
    ensures Swapped(v, i, j, k)[i + k := v[j + k]][j + k := v[i + k]] == Swapped(v, i, j, k + 1)
  {}

  // ----- The vector between calls

  /** v lies apart: options in [0, f) and [l, i), non-options in [f, l), and from i on the elements
      of a that no call has looked at. */
  predicate Apart(v: seq<string>, f: nat, l: nat, i: nat, a: seq<string>, opts: seq<string>, nonopts: seq<string>) {
    f <= l <= i <= |v| == |a| && v[..f] + v[l..i] == opts && v[f..l] == nonopts && v[i..] == a[i..]
  }

  lemma ApartRotated(v: seq<string>, f: nat, l: nat, i: nat, w: seq<string>, a: seq<string>, opts: seq<string>,
                     nonopts: seq<string>)
    requires Apart(v, f, l, i, a, opts, nonopts) && w == Rotated(v, f, l, i)
    ensures Apart(w, f + (i - l), i, i, a, opts, nonopts)
  {
    assert w[..f + (i - l)] == v[..f] + v[l..i];
    assert w[i..i] == [];
  }

  lemma ApartOptions(v: seq<string>, f: nat, l: nat, i: nat, n: nat, a: seq<string>, opts: seq<string>,
                     nonopts: seq<string>)
    requires Apart(v, f, l, i, a, opts, nonopts) && i + n <= |v|
    ensures Apart(v, f, l, i + n, a, opts + a[i..i + n], nonopts)
  {
    assert v[i..i + n] == v[i..][..n] && v[i + n..] == v[i..][n..];
    assert a[i..i + n] == a[i..][..n] && a[i + n..] == a[i..][n..];
    assert v[..f] + v[l..i + n] == (v[..f] + v[l..i]) + v[i..i + n];
  }

  lemma ApartNonOptions(v: seq<string>, f: nat, i: nat, j: nat, a: seq<string>, opts: seq<string>, nonopts: seq<string>)
    requires Apart(v, f, i, i, a, opts, nonopts) && i <= j <= |v|
    ensures Apart(v, f, j, j, a, opts, nonopts + a[i..j])
  {
    assert v[i..j] == v[i..][..j - i] && v[j..] == v[i..][j - i..];
    assert a[i..j] == a[i..][..j - i] && a[j..] == a[i..][j - i..];
    assert v[f..j] == v[f..i] + v[i..j];
    assert v[i..i] == v[j..j];
  }

  /** Two ways of describing a vector without non-options. */
  lemma ApartEmpty(v: seq<string>, f: nat, i: nat, a: seq<string>, opts: seq<string>, nonopts: seq<string>)
    requires Apart(v, f, f, i, a, opts, nonopts)
    ensures nonopts == [] && Apart(v, i, i, i, a, opts, nonopts)
  {
    assert v[..f] + v[f..i] == v[..i] + v[i..i];
  }

  lemma ApartWhole(v: seq<string>, f: nat, i: nat, a: seq<string>, opts: seq<string>, nonopts: seq<string>)
    requires Apart(v, f, i, i, a, opts, nonopts)
    ensures f == |opts| && v == opts + nonopts + a[i..]
  {
    assert v[..f] + v[i..i] == v[..f];
    assert v == v[..f] + v[f..i] + v[i..];
  }

  lemma ApartSees(v: seq<string>, f: nat, l: nat, i: nat, k: nat, a: seq<string>, opts: seq<string>,
                  nonopts: seq<string>)
    requires Apart(v, f, l, i, a, opts, nonopts) && i <= k < |v|
    ensures v[k] == a[k]
  {
    assert v[k] == v[i..][k - i] && a[k] == a[i..][k - i];
  }

  lemma ApartAfter(v: seq<string>, f: nat, l: nat, i: nat, a: seq<string>, opts: seq<string>, nonopts: seq<string>)
    requires Apart(v, f, l, i, a, opts, nonopts) && i < |v|
    ensures v[i + 1..] == a[i + 1..] && |a| == |v|
  {
    assert v[i + 1..] == v[i..][1..] && a[i + 1..] == a[i..][1..];
  }

  // ----- Calls

  function Stripped(optstring: string): string {
    if optstring != "" && optstring[0] in ['-', '+'] then optstring[1..] else optstring
  }

  function OrderingOf(optstring: string, posixlyCorrect: bool): Ordering {
    if CharAt(optstring, 0, '-') then ReturnInOrder
    else if CharAt(optstring, 0, '+') || posixlyCorrect then RequireOrder
    else Permute
  }

  /** What stays the same from call to call. */
  datatype Interface = Interface(optstring: string, longopts: Option<seq<LongOption>>, longOnly: bool,
                                 posixlyCorrect: bool)
  {
    function Settings(): Config {
      Config(OrderingOf(optstring, posixlyCorrect), Stripped(optstring), longopts, longOnly)
    }
  }

  /** Where the name in an element ends. */
  method NameEnd(rest: string) returns (n: nat)
    ensures n == |NameOf(rest)| && rest[..n] == NameOf(rest)
  {
    n := 0;
    while n < |rest| && rest[n] != '='
      invariant n <= |rest| && forall k :: 0 <= k < n ==> rest[k] != '='
    {
      n := n + 1;
    }
    NameEnds(rest, n);
  }

  lemma {:induction false} NameEnds(rest: string, n: nat)
    requires n <= |rest| && (forall k :: 0 <= k < n ==> rest[k] != '=') && (n < |rest| ==> rest[n] == '=')
    ensures NameOf(rest) == rest[..n]
  {
    if n > 0 {
      NameEnds(rest[1..], n - 1);
      assert rest[..n] == [rest[0]] + rest[1..][..n - 1];
    }
  }

  /** The search of the table of long options for a name. */
  method FindLong(name: string, opts: seq<LongOption>, longOnly: bool) returns (r: Lookup)
    ensures r == Find(name, opts, longOnly, 0)
    ensures IsLookup(name, opts, longOnly, r)
  {
    var found: Option<nat>, exact, ambiguous := None, false, false;
    var i := 0;
    while i < |opts|
      invariant i <= |opts| && NoExact(name, opts, i)
      invariant Find(name, opts, longOnly, i) == Find(name, opts, longOnly, 0)
      invariant !exact && (found.None? ==> !ambiguous)
      invariant Searched(name, opts, longOnly, i) == Search(found, ambiguous)
    {
      var p := opts[i];
      if name <= p.name {
        if |name| == |p.name| {
          found := Some(i);
          exact := true;
          break;
        } else if found.None? {
          found := Some(i);
        } else if ambiguous {
        } else if longOnly || !Alike(opts[found.value], p) {
          ambiguous := true;
        }
      }
      i := i + 1;
    }
    r := if ambiguous && !exact then Ambiguous else if found.Some? then Found(found.value) else NotFound;
    FindExactly(name, opts, longOnly, 0, r);
  }

  class GetoptData {
    var optind: nat
    var initialized: bool
    var nextchar: Option<string>
    var ordering: Ordering
    var firstNonopt: nat
    var lastNonopt: nat
    var optarg: Option<string>
    var optopt: int

    constructor ()
      ensures optind == 1 && !initialized
    {
      optind, initialized, nextchar, ordering := 1, false, None, Permute;
      firstNonopt, lastNonopt, optarg, optopt := 0, 0, None, Question();
    }

    predicate InElement()
      reads this
    {
      nextchar.Some? && nextchar.value != ""
    }

    ghost predicate Lies(v: seq<string>, a: seq<string>, opts: seq<string>, nonopts: seq<string>)
      reads this
    {
      Apart(v, firstNonopt, lastNonopt, AtMost(optind, |v|), a, opts, nonopts)
    }

    method Exchange(argv: array<string>)
      requires firstNonopt <= lastNonopt <= optind <= argv.Length
      modifies argv, this`firstNonopt, this`lastNonopt
      ensures argv[..] == old(Rotated(argv[..], firstNonopt, lastNonopt, optind))
      ensures firstNonopt == old(firstNonopt + (optind - lastNonopt)) && lastNonopt == optind
    {
      hide Swapped;
      var bottom: nat, middle: nat, top: nat := firstNonopt, lastNonopt, optind;
      ghost var goal := RotatesSomewhere(argv[..], bottom, middle, top);
      while top > middle && middle > bottom
        invariant RotatesTo(argv[..], bottom, middle, top, goal)
        invariant firstNonopt == old(firstNonopt) && lastNonopt == old(lastNonopt)
        decreases top - bottom
      {
        if top - middle > middle - bottom {
          top := SwapBottom(argv, bottom, middle, top, goal);
        } else {
          bottom := SwapTop(argv, bottom, middle, top, goal);
        }
      }
      RotateNothing(argv[..], bottom, middle, top, goal);
      firstNonopt := firstNonopt + (optind - lastNonopt);
      lastNonopt := optind;
    }

    method Initialize(optstring: string, posixlyCorrect: bool) returns (rest: string)
      modifies this`firstNonopt, this`lastNonopt, this`nextchar, this`ordering
      ensures firstNonopt == lastNonopt == optind && nextchar == None
      ensures ordering == OrderingOf(optstring, posixlyCorrect) && rest == Stripped(optstring)
    {
      firstNonopt, lastNonopt := optind, optind;
      nextchar := None;
      rest := optstring;
      if CharAt(optstring, 0, '-') {
        ordering := ReturnInOrder;
        rest := optstring[1..];
      } else if CharAt(optstring, 0, '+') {
        ordering := RequireOrder;
        rest := optstring[1..];
      } else if posixlyCorrect {
        ordering := RequireOrder;
      } else {
        ordering := Permute;
      }
    }

    /** Moves the options read since the last non-options in front of them, and passes more
        non-options. */
    method SkipNonOptions(argv: array<string>, ghost a: seq<string>, ghost opts: seq<string>,
                          ghost nonopts: seq<string>)
      requires optind <= argv.Length && Lies(argv[..], a, opts, nonopts)
      modifies argv, this`firstNonopt, this`lastNonopt, this`optind
      ensures lastNonopt == optind == Skip(a, old(optind))
      ensures Lies(argv[..], a, opts, nonopts + a[old(optind)..optind])
    {
      ghost var i := optind;
      if firstNonopt != lastNonopt && lastNonopt != optind {
        ghost var v, f, l := argv[..], firstNonopt, lastNonopt;
        Exchange(argv);
        ApartRotated(v, f, l, optind, argv[..], a, opts, nonopts);
      } else if lastNonopt != optind {
        ApartEmpty(argv[..], firstNonopt, optind, a, opts, nonopts);
        firstNonopt := optind;
      }
      assert Apart(argv[..], firstNonopt, i, i, a, opts, nonopts);
      while optind < argv.Length && NonOption(argv[optind])
        invariant i <= optind <= argv.Length && Skip(a, optind) == Skip(a, i)
        invariant Apart(argv[..], firstNonopt, i, i, a, opts, nonopts)
        decreases argv.Length - optind
      {
        ApartSees(argv[..], firstNonopt, i, i, optind, a, opts, nonopts);
        optind := optind + 1;
      }
      if optind < argv.Length { ApartSees(argv[..], firstNonopt, i, i, optind, a, opts, nonopts); }
      ApartNonOptions(argv[..], firstNonopt, i, optind, a, opts, nonopts);
      lastNonopt := optind;
    }

    /** Passes "--" like an option, and everything behind it like non-options. */
    method TakeDashes(argv: array<string>, ghost a: seq<string>, ghost opts: seq<string>, ghost nonopts: seq<string>)
      requires Lies(argv[..], a, opts, nonopts) && (firstNonopt == lastNonopt || lastNonopt == optind)
      requires optind < argv.Length && argv[optind] == "--"
      modifies argv, this`firstNonopt, this`lastNonopt, this`optind
      ensures lastNonopt == optind == argv.Length
      ensures Lies(argv[..], a, opts + ["--"], nonopts + a[old(optind) + 1..])
    {
      ghost var i := optind + 1;
      ApartSees(argv[..], firstNonopt, lastNonopt, optind, optind, a, opts, nonopts);
      ApartOptions(argv[..], firstNonopt, lastNonopt, optind, 1, a, opts, nonopts);
      assert a[optind..i] == ["--"];
      optind := optind + 1;
      if firstNonopt != lastNonopt && lastNonopt != optind {
        ghost var v, f, l := argv[..], firstNonopt, lastNonopt;
        Exchange(argv);
        ApartRotated(v, f, l, optind, argv[..], a, opts + ["--"], nonopts);
      } else if firstNonopt == lastNonopt {
        ApartEmpty(argv[..], firstNonopt, optind, a, opts + ["--"], nonopts);
        firstNonopt := optind;
      }
      ApartNonOptions(argv[..], firstNonopt, i, argv.Length, a, opts + ["--"], nonopts);
      assert a[i..argv.Length] == a[i..];
      lastNonopt := argv.Length;
      optind := argv.Length;
    }

    /** This call has read what d says. */
    ghost predicate Reads(d: Decoded, from: nat, optoptBefore: int)
      reads this
    {
      && optind == from + d.passed && nextchar == d.rest && optarg == d.optarg
      && optopt == if d.optopt.Some? then d.optopt.value else optoptBefore
    }

    function MissingValue(cfg: Config): int { if CharAt(cfg.optstring, 0, ':') then ':' as int else Question() }

    /** Reads the long option p, which the text means that the `taken` elements from `from` on hold;
        nameEnd is where its name ends.  w: it came behind -W. */
    method ReadFound(argv: array<string>, cfg: Config, p: LongOption, index: nat, text: string, nameEnd: nat, w: bool,
                     ghost from: nat, ghost taken: nat)
      returns (ret: int, longind: Option<nat>)
      requires from < argv.Length && taken >= 1 && optind == from + taken <= argv.Length
      requires nameEnd == |NameOf(text)| && optarg == if w then Some(text) else None
      modifies this`optind, this`nextchar, this`optarg, this`optopt
      ensures var d := DecodeFound(cfg, p, index, text, taken, argv[from + 1..], w);
        ret == d.ret && longind == d.longind && Reads(d, from, old(optopt))
    {
      hide NameOf;
      nextchar := Some("");
      if nameEnd < |text| {
        if p.hasArg.NoArgument? {
          if !w { optopt := p.val; }
          return Question(), None;
        }
        optarg := Some(text[nameEnd + 1..]);
      } else if p.hasArg.RequiredArgument? {
        if optind >= argv.Length {
          if !w { optopt := p.val; }
          return MissingValue(cfg), None;
        }
        optarg := Some(argv[optind]);
        optind := optind + 1;
      } else {
        optarg := None;
      }
      longind := Some(index);
      ret := if p.flag.Some? then 0 else p.val;
    }

    /** Reads what follows the 'W' of an option -W, in the element at `from`, as a long option. */
    method ReadW(argv: array<string>, cfg: Config, ghost from: nat) returns (ret: int, longind: Option<nat>)
      requires from < argv.Length && nextchar.Some? && optarg.None?
      requires optind == if nextchar.value == "" then from + 1 else from
      modifies this`optind, this`nextchar, this`optarg, this`optopt
      ensures var d := DecodeW(cfg, old(nextchar.value), argv[from + 1..]);
        ret == d.ret && longind == d.longind && Reads(d, from, old(optopt))
    {
      hide NameOf, Find, IsLookup, DecodeFound;
      if cfg.longopts.None? {
        nextchar := None;
        return 'W' as int, None;
      }
      if nextchar.value != "" {
        optarg := nextchar;
        optind := optind + 1;
      } else if optind == argv.Length {
        optopt := 'W' as int;
        return MissingValue(cfg), None;
      } else {
        optarg := Some(argv[optind]);
        optind := optind + 1;
      }
      nextchar := optarg;
      var text := optarg.value;
      var nameEnd := NameEnd(text);
      var r := FindLong(text[..nameEnd], cfg.longopts.value, cfg.longOnly);
      match r
      case Ambiguous =>
        nextchar := Some("");
        optind := optind + 1;
        return Question(), None;
      case Found(i) =>
        FindExactly(text[..nameEnd], cfg.longopts.value, cfg.longOnly, 0, r);
        ret, longind := ReadFound(argv, cfg, cfg.longopts.value[i], i, text, nameEnd, true, from, optind - from);
      case NotFound =>
        nextchar := None;
        return 'W' as int, None;
    }

    /** Reads the next short option of the current element. */
    method ReadShort(argv: array<string>, cfg: Config) returns (c: int, longind: Option<nat>)
      requires optind < argv.Length && InElement() && optarg.None?
      modifies this`optind, this`nextchar, this`optarg, this`optopt
      ensures var d := DecodeShort(cfg, old(nextchar.value), argv[old(optind) + 1..]);
        c == d.ret && longind == d.longind && Reads(d, old(optind), old(optopt))
    {
      hide IndexOf, DecodeW;
      ghost var from := optind;
      var first := nextchar.value[0];
      var temp := IndexOf(cfg.optstring, first);
      c := first as int;
      longind := None;
      nextchar := Some(nextchar.value[1..]);
      if nextchar.value == "" {
        optind := optind + 1;
      }
      if temp.None? || first == ':' || first == ';' {
        optopt := c;
        return Question(), None;
      }
      if first == 'W' && CharAt(cfg.optstring, temp.value + 1, ';') {
        c, longind := ReadW(argv, cfg, from);
        return;
      }
      if CharAt(cfg.optstring, temp.value + 1, ':') {
        if CharAt(cfg.optstring, temp.value + 2, ':') {
          if nextchar.value != "" {
            optarg := nextchar;
            optind := optind + 1;
          } else {
            optarg := None;
          }
          nextchar := None;
        } else {
          if nextchar.value != "" {
            optarg := nextchar;
            optind := optind + 1;
          } else if optind == argv.Length {
            optopt := c;
            c := MissingValue(cfg);
          } else {
            optarg := Some(argv[optind]);
            optind := optind + 1;
          }
          nextchar := None;
        }
      }
    }

    /** Reads what is next in the current element, as a long option or as a short one. */
    method Read(argv: array<string>, cfg: Config) returns (ret: int, longind: Option<nat>)
      requires optind < argv.Length && |argv[optind]| >= 2 && InElement() && optarg.None?
      modifies this`optind, this`nextchar, this`optarg, this`optopt
      ensures var d := Decode(cfg, argv[old(optind)], old(nextchar.value), argv[old(optind) + 1..]);
        ret == d.ret && longind == d.longind && Reads(d, old(optind), old(optopt))
    {
      hide NameOf, Find, IsLookup, DecodeFound, DecodeShort, IndexOf;
      longind := None;
      if TriesLong(cfg, argv[optind]) {
        var text := nextchar.value;
        var nameEnd := NameEnd(text);
        var r := FindLong(text[..nameEnd], cfg.longopts.value, cfg.longOnly);
        if r.Ambiguous? {
          nextchar := Some("");
          optind := optind + 1;
          optopt := 0;
          return Question(), None;
        }
        if r.Found? {
          FindExactly(text[..nameEnd], cfg.longopts.value, cfg.longOnly, 0, r);
          optind := optind + 1;
          var p := cfg.longopts.value[r.index];
          ret, longind := ReadFound(argv, cfg, p, r.index, text, nameEnd, false, optind - 1, 1);
          return;
        }
        if !cfg.longOnly || argv[optind][1] == '-' || IndexOf(cfg.optstring, nextchar.value[0]).None? {
          nextchar := Some("");
          optind := optind + 1;
          optopt := 0;
          return Question(), None;
        }
      }
      ret, longind := ReadShort(argv, cfg);
    }

    /** Between calls, the vector and the fields say where the scan s of the original vector stands,
        which can be behind the end of it. */
    ghost predicate Between(argv: array<string>, a: seq<string>, s: Scan)
      reads this, argv
    {
      && argv.Length == |a| && 1 <= optind == s.pos && Lies(argv[..], a, s.opts, s.nonopts)
      && InElement() == s.Within() && (s.Within() ==> nextchar == s.rest)
      && (ordering.Permute? || firstNonopt == lastNonopt)
    }

    /** After -1, the vector holds the options, the non-options, and what was not scanned; optind is
        at the first element that is not an option. */
    ghost predicate Finished(argv: array<string>, a: seq<string>, s: Scan)
      reads this, argv
    {
      s.pos <= |a| && argv[..] == s.opts + s.nonopts + a[s.pos..] && optind == |s.opts|
    }

    /** Ends the scan, or starts the element at optind. */
    method ArriveAt(argv: array<string>, cfg: Config, ghost a: seq<string>, ghost t: Scan) returns (over: bool)
      requires Lies(argv[..], a, t.opts, t.nonopts) && 1 <= optind == t.pos <= argv.Length
      requires t.rest == None && !InElement()
      requires cfg.ordering == ordering
      requires if ordering.Permute? then lastNonopt == optind else firstNonopt == lastNonopt
      modifies argv, this`firstNonopt, this`lastNonopt, this`optind, this`nextchar
      ensures over == Arrive(cfg, a, t).1
      ensures if over then Finished(argv, a, Arrive(cfg, a, t).0) else Between(argv, a, Arrive(cfg, a, t).0)
    {
      if optind < argv.Length { ApartSees(argv[..], firstNonopt, lastNonopt, optind, optind, a, t.opts, t.nonopts); }
      ghost var u := t;
      if optind < argv.Length && argv[optind] == "--" {
        u := Arrive(cfg, a, t).0;
        TakeDashes(argv, a, t.opts, t.nonopts);
      }
      if optind == argv.Length {
        Whole(argv, a, u.opts, u.nonopts);
        if firstNonopt != lastNonopt { optind := firstNonopt; }
        return true;
      }
      if NonOption(argv[optind]) {
        if ordering.RequireOrder? { Whole(argv, a, u.opts, u.nonopts); }
        return ordering.RequireOrder?;
      }
      nextchar := Some(InitialRest(cfg, argv[optind]));
      return false;
    }

    /** The vector as a whole, once the scan has come to an end. */
    lemma Whole(argv: array<string>, a: seq<string>, opts: seq<string>, nonopts: seq<string>)
      requires optind <= argv.Length && Lies(argv[..], a, opts, nonopts)
      requires lastNonopt == optind || firstNonopt == lastNonopt
      ensures argv[..] == opts + nonopts + a[optind..]
      ensures |opts| == if firstNonopt != lastNonopt then firstNonopt else optind
    {
      if firstNonopt == lastNonopt {
        ApartEmpty(argv[..], firstNonopt, optind, a, opts, nonopts);
        ApartWhole(argv[..], optind, optind, a, opts, nonopts);
      } else {
        ApartWhole(argv[..], firstNonopt, optind, a, opts, nonopts);
      }
    }

    /** Goes to the next option element, unless one is being read. */
    method AdvanceElement(argv: array<string>, cfg: Config, ghost a: seq<string>, ghost s: Scan)
      returns (over: bool)
      requires Between(argv, a, s) && Sound(a, s) && cfg.ordering == ordering
      modifies argv, this`firstNonopt, this`lastNonopt, this`optind, this`nextchar
      ensures over == Advance(cfg, a, s).1
      ensures if over then Finished(argv, a, Advance(cfg, a, s).0) else Between(argv, a, Advance(cfg, a, s).0)
    {
      if InElement() { return false; }
      lastNonopt := AtMost(lastNonopt, optind);
      firstNonopt := AtMost(firstNonopt, optind);
      ghost var t := Scan(optind, None, s.opts, s.nonopts + a[optind..optind]);
      assert t.nonopts == s.nonopts;
      if ordering.Permute? {
        t := Scan(Skip(a, optind), None, s.opts, s.nonopts + a[optind..Skip(a, optind)]);
        SkipNonOptions(argv, a, s.opts, s.nonopts);
      }
      over := ArriveAt(argv, cfg, a, t);
    }

    /** The state of a first call, or of a later one. */
    ghost predicate Ready(argv: array<string>, cfg: Config, a: seq<string>, s: Scan)
      reads this, argv
    {
      if optind == 0 || !initialized then
        a == argv[..] && optind <= |a| && |a| > 0 && s == Start(a, if optind == 0 then 1 else optind)
      else Between(argv, a, s) && Sound(a, s) && ordering == cfg.ordering
    }

    /** Starts a scan, unless this is a later call of one. */
    method Prepare(argv: array<string>, face: Interface, ghost a: seq<string>, ghost s: Scan) returns (cfg: Config)
      requires Ready(argv, face.Settings(), a, s)
      modifies this`optarg, this`optind, this`initialized, this`firstNonopt, this`lastNonopt, this`nextchar,
        this`ordering
      ensures optarg == None && initialized && cfg == face.Settings() && ordering == cfg.ordering
      ensures Between(argv, a, s) && Sound(a, s)
    {
      optarg := None;
      var optstring := Stripped(face.optstring);
      if optind == 0 || !initialized {
        if optind == 0 { optind := 1; }
        optstring := Initialize(face.optstring, face.posixlyCorrect);
        initialized := true;
        assert argv[..][..optind] + argv[..][optind..optind] == a[..optind];
      }
      cfg := Config(ordering, optstring, face.longopts, face.longOnly);
    }

    /** Describes the non-option at optind to the caller and passes it. */
    method PassNonOption(argv: array<string>, ghost a: seq<string>, ghost t: Scan)
      requires Between(argv, a, t) && !t.Within() && t.pos < |a|
      modifies this`optind, this`optarg
      ensures Between(argv, a, Scan(t.pos + 1, None, t.opts + [a[t.pos]], t.nonopts)) && optarg == Some(a[t.pos])
    {
      ApartSees(argv[..], firstNonopt, lastNonopt, optind, optind, a, t.opts, t.nonopts);
      ApartOptions(argv[..], firstNonopt, lastNonopt, optind, 1, a, t.opts, t.nonopts);
      assert a[optind..optind + 1] == [a[optind]];
      optarg := Some(argv[optind]);
      optind := optind + 1;
    }

    /** Reads the element at optind, which the scan t has reached. */
    method ReadElement(argv: array<string>, cfg: Config, ghost a: seq<string>, ghost t: Scan)
      returns (ret: Return, longind: Option<nat>)
      requires Between(argv, a, t) && Sound(a, t) && t.Within() && optarg == None
      modifies this`optind, this`nextchar, this`optarg, this`optopt
      ensures var c := Call(cfg, a, t);
        && c.ret.Value? && ret == c.ret && longind == c.longind && optarg == c.optarg && Between(argv, a, c.scan)
        && optopt == if c.optopt.Some? then c.optopt.value else old(optopt)
    {
      hide Decode, Apart;
      ghost var v, i := argv[..], optind;
      ApartSees(v, firstNonopt, lastNonopt, i, i, a, t.opts, t.nonopts);
      ApartAfter(v, firstNonopt, lastNonopt, i, a, t.opts, t.nonopts);
      DecodePasses(cfg, a[i], t.rest.value, a[i + 1..]);
      var value;
      value, longind := Read(argv, cfg);
      ret := Value(value);
      ApartOptions(v, firstNonopt, lastNonopt, i, AtMost(optind, |v|) - i, a, t.opts, t.nonopts);
    }

    /** What a call for the scan s of a leaves behind. */
    ghost predicate Answers(argv: array<string>, a: seq<string>, c: Called, optoptBefore: int)
      reads this, argv
    {
      && optarg == c.optarg && optopt == (if c.optopt.Some? then c.optopt.value else optoptBefore)
      && if c.ret.End? then Finished(argv, a, c.scan) else Between(argv, a, c.scan)
    }

    /** A call, once the scan has been started. */
    method Continue(argv: array<string>, cfg: Config, ghost a: seq<string>, ghost s: Scan)
      returns (ret: Return, longind: Option<nat>)
      requires Between(argv, a, s) && Sound(a, s) && cfg.ordering == ordering && optarg == None
      modifies argv, this`firstNonopt, this`lastNonopt, this`optind, this`nextchar, this`optarg, this`optopt
      ensures var c := Call(cfg, a, s);
        ret == c.ret && longind == c.longind && Answers(argv, a, c, old(optopt))
    {
      hide Call, Apart, Advance;
      ghost var t := Advance(cfg, a, s).0;
      CallSteps(cfg, a, s);
      var over := AdvanceElement(argv, cfg, a, s);
      if over { return End, None; }
      if !InElement() {
        PassNonOption(argv, a, t);
        return Value(1), None;
      }
      ret, longind := ReadElement(argv, cfg, a, t);
    }

    /** One call, for the scan s of the original vector a.  It can leave the scan behind the end of the
        vector; a later call would then read what is not there, and is not described. */
    method GetoptInternalR(argv: array<string>, face: Interface, ghost a: seq<string>, ghost s: Scan)
      returns (ret: Return, longind: Option<nat>)
      requires argv.Length > 0 ==> Ready(argv, face.Settings(), a, s)
      modifies this, argv
      ensures argv.Length == 0 ==> ret.End? && unchanged(this)
      ensures argv.Length > 0 ==> var c := Call(face.Settings(), a, s);
        && ret == c.ret && longind == c.longind && Answers(argv, a, c, old(optopt))
        && (ret.Value? ==> optind == c.scan.pos > 0 && initialized)
        && (ret.Value? && c.scan.pos <= |a| ==> Ready(argv, face.Settings(), a, c.scan))
    {
      hide Advance, Call;
      longind := None;
      if argv.Length < 1 { return End, None; }
      var cfg := Prepare(argv, face, a, s);
      ret, longind := Continue(argv, cfg, a, s);
    }
  }

  // ----- Whole runs

  /** What is left of the element being read. */
  function Left(s: Scan): nat { if s.Within() then |s.rest.value| else 0 }

  lemma RunStep(cfg: Config, a: seq<string>, s: Scan)
    requires Sound(a, s) && Fine(cfg, a, s)
    ensures var c, r := Call(cfg, a, s), Run(cfg, a, s);
      && (c.ret.End? ==> r == Ran(c.scan, []))
      && (c.ret.Value? ==>
           && c.scan.pos <= |a| && Fine(cfg, a, c.scan)
           && r == Ran(Run(cfg, a, c.scan).scan, [Told(c)] + Run(cfg, a, c.scan).answers)
           && (s.pos < c.scan.pos ||
               (s.pos == c.scan.pos && c.scan.Within() && (s.Within() ==> Left(c.scan) < Left(s)))))
  {
    hide Fine;
    if Call(cfg, a, s).ret.Value? { CallProgress(cfg, a, s); }
  }

  /** A caller's step: it sets optopt, as argp does, calls, and notes what it is told; None for -1. */
  method ReadOne(d: GetoptData, argv: array<string>, face: Interface, ghost a: seq<string>, ghost s: Scan)
    returns (r: Option<Answer>)
    requires argv.Length > 0 && d.Ready(argv, face.Settings(), a, s)
    requires Sound(a, s) && Fine(face.Settings(), a, s)
    modifies d, argv
    ensures var c := Call(face.Settings(), a, s);
      && (c.ret.End? ==> r == None && d.Finished(argv, a, c.scan))
      && (c.ret.Value? ==> r == Some(Told(c)) && (c.scan.pos <= |a| ==> d.Ready(argv, face.Settings(), a, c.scan)))
  {
    hide Call, Fine;
    d.optopt := -1;
    var ret, longind := d.GetoptInternalR(argv, face, a, s);
    r := if ret.End? then None else Some(Answer(ret.v, d.optarg, d.optopt, longind));
  }

  /** A caller that goes on until -1, and touches neither the vector nor optind: what it is told. */
  method ReadAll(d: GetoptData, argv: array<string>, face: Interface) returns (got: seq<Answer>)
    requires !d.initialized && d.optind == 1 && argv.Length > 0 && Orderly(face.Settings(), argv[..], 1)
    modifies d, argv
    ensures var a := old(argv[..]);
      var r := Run(face.Settings(), a, Start(a, 1));
      d.Finished(argv, a, r.scan) && got == r.answers
  {
    ghost var a, cfg := argv[..], face.Settings();
    ghost var s := Start(a, 1);
    ghost var goal := Run(cfg, a, s);
    assert d.Ready(argv, cfg, a, s);
    hide Call, Fine, Run, Orderly, GetoptData.Ready, GetoptData.Finished;
    got := [];
    var next := ReadOne(d, argv, face, a, s);
    RunStep(cfg, a, s);
    while next.Some?
      invariant argv.Length > 0 && Sound(a, s) && Fine(cfg, a, s) && ToCome(got, Run(cfg, a, s), goal)
      invariant var c := Call(cfg, a, s);
        && (c.ret.End? ==> next == None && d.Finished(argv, a, c.scan))
        && (c.ret.Value? ==> next == Some(Told(c)) && (c.scan.pos <= |a| ==> d.Ready(argv, cfg, a, c.scan)))
      decreases |a| - s.pos, if s.Within() then 0 else 1, Left(s)
    {
      RunStep(cfg, a, s);
      ghost var c := Call(cfg, a, s);
      CallsCome(got, Told(c), Run(cfg, a, c.scan), goal);
      got := got + [next.value];
      s := c.scan;
      next := ReadOne(d, argv, face, a, s);
    }
    RunStep(cfg, a, s);
  }

  /** What was told so far, and the rest of a run, are the whole run. */
  ghost predicate ToCome(got: seq<Answer>, rest: Ran, goal: Ran) {
    got + rest.answers == goal.answers && rest.scan == goal.scan
  }

  lemma CallsCome(got: seq<Answer>, told: Answer, rest: Ran, goal: Ran)
    requires ToCome(got, Ran(rest.scan, [told] + rest.answers), goal)
    ensures ToCome(got + [told], rest, goal)
  {
    assert got + ([told] + rest.answers) == (got + [told]) + rest.answers;
  }

  /** When it permutes, such a caller finds the option elements with their arguments and "--" in
      front, the non-options from optind on, both in their original order. */
  method ReadPermuting(d: GetoptData, argv: array<string>, face: Interface) returns (got: seq<Answer>)
    requires !d.initialized && d.optind == 1 && argv.Length > 0 && Orderly(face.Settings(), argv[..], 1)
    requires face.Settings().ordering.Permute?
    modifies d, argv
    ensures var a := old(argv[..]);
      var p := Partition(face.Settings(), a, 1);
      argv[..] == [a[0]] + p.opts + p.nonopts && d.optind == 1 + |p.opts| && multiset(argv[..]) == multiset(a)
      && got == p.answers
  {
    ghost var a := argv[..];
    RunPermutes(face.Settings(), a);
    got := ReadAll(d, argv, face);
  }

  /** A whole run that permutes: what it leaves is a permutation, options first. */
  lemma RunPermutes(cfg: Config, a: seq<string>)
    requires a != [] && cfg.ordering.Permute? && Orderly(cfg, a, 1)
    ensures var r, p := Run(cfg, a, Start(a, 1)), Partition(cfg, a, 1);
      var t, v := r.scan, Permuted(cfg, a);
      && t.pos == |a| && |t.opts| == 1 + |p.opts| && t.opts + t.nonopts + a[t.pos..] == v && multiset(v) == multiset(a)
      && r.answers == p.answers
  {
    hide Orderly, Partition, Permutes, Run;
    RunPartitions(cfg, a, Start(a, 1));
    PartitionPermutes(cfg, a, 1);
    Together(a, Partition(cfg, a, 1));
  }

  lemma Together(a: seq<string>, p: Parts)
    requires a != [] && Permutes(p, a[1..])
    ensures a[..1] == [a[0]] && [] + p.nonopts == p.nonopts && multiset([a[0]] + p.opts + p.nonopts) == multiset(a)
    ensures a[..1] + p.opts + p.nonopts + a[|a|..] == [a[0]] + p.opts + p.nonopts
  {
    assert a == [a[0]] + a[1..];
    assert [a[0]] + p.opts + p.nonopts == [a[0]] + (p.opts + p.nonopts);
  }
}
