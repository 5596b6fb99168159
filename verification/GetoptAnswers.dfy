/** What getopt answers, read off what was typed: the texts of long options with and without a value,
    the marks behind a character in the option string, and whole command lines. */
module GetoptAnswers {
  import opened Common
  import opened GetoptScan
  import Getopt

  // ----- What is typed

  /** What is typed behind "--" for a long option. */
  function LongText(name: string, value: Option<string>): (text: string)
    ensures name != "" ==> text != ""
  {
    match value case None => name case Some(v) => name + "=" + v
  }

  lemma NameWhole(name: string, value: Option<string>)
    requires '=' !in name
    ensures NameOf(LongText(name, value)) == name
    ensures value.Some? ==> LongText(name, value)[|name| + 1..] == value.value
  {
    var text := LongText(name, value);
    assert text[..|name|] == name;
    Getopt.NameEnds(text, |name|);
  }

  /** Every text is typed so, in one way. */
  lemma TextSplits(text: string) returns (name: string, value: Option<string>)
    ensures '=' !in name && text == LongText(name, value)
    ensures forall n, v :: '=' !in n && text == LongText(n, v) ==> n == name && v == value
  {
    name := NameOf(text);
    value := if |name| == |text| then None else Some(text[|name| + 1..]);
    forall n, v | '=' !in n && text == LongText(n, v) ensures n == name && v == value { NameWhole(n, v); }
  }

  /** What stands behind the first c in an option string. */
  function Marks(o: string, c: char): Option<string> {
    if o == "" then None else if o[0] == c then Some(o[1..]) else Marks(o[1..], c)
  }

  lemma {:induction false} MarksAt(o: string, c: char)
    ensures match IndexOf(o, c) case None => Marks(o, c) == None case Some(i) => Marks(o, c) == Some(o[i + 1..])
  {
    if o != "" && o[0] != c {
      MarksAt(o[1..], c);
      if IndexOf(o[1..], c).Some? { assert o[1..][IndexOf(o[1..], c).value + 1..] == o[IndexOf(o, c).value + 1..]; }
    }
  }

  // ----- Long options

  /** The answer for a missing argument. */
  function NoValue(cfg: Config): int { if ":" <= cfg.optstring then ':' as int else '?' as int }

  /** The long option number i, p, typed with this value or none: a flag's answer is 0.  An option
      without argument refuses a value; one that requires it takes the next element. */
  function LongAnswer(cfg: Config, p: LongOption, i: nat, value: Option<string>, after: seq<string>): Decoded {
    var ret := match p.flag case Some(_) => 0 case None => p.val;
    match (value, p.hasArg)
    case (Some(_), NoArgument) => Decoded('?' as int, None, Some(""), 1, Some(p.val), None)
    case (Some(v), _) => Decoded(ret, Some(v), Some(""), 1, None, Some(i))
    case (None, RequiredArgument) =>
      if after == [] then Decoded(NoValue(cfg), None, Some(""), 1, Some(p.val), None)
      else Decoded(ret, Some(after[0]), Some(""), 2, None, Some(i))
    case (None, _) => Decoded(ret, None, Some(""), 1, None, Some(i))
  }

  /** A text that means no long option passes its element, with optopt 0. */
  function Refusal(): Decoded { Decoded('?' as int, None, Some(""), 1, Some(0), None) }

  /** The element is tried as a long option. */
  predicate LongFirst(cfg: Config, elem: string)
    requires |elem| >= 2
  {
    cfg.longopts.Some? && (elem[1] == '-' || (cfg.longOnly && (|elem| > 2 || elem[1] !in cfg.optstring)))
  }

  /** What one call answers for a text behind "--", or behind "-" with longOnly, by the rules for
      abbreviations.  A text behind "-" that means none is short options if its first one is known. */
  lemma LongAnswers(cfg: Config, elem: string, name: string, value: Option<string>, after: seq<string>, r: Lookup)
    requires |elem| >= 2 && LongFirst(cfg, elem) && '=' !in name && LongText(name, value) != ""
    requires IsLookup(name, cfg.longopts.value, cfg.longOnly, r)
    ensures var text := LongText(name, value);
      Decode(cfg, elem, text, after) ==
        match r
        case Found(i) => LongAnswer(cfg, cfg.longopts.value[i], i, value, after)
        case Ambiguous => Refusal()
        case NotFound =>
          if cfg.longOnly && elem[1] != '-' && text[0] in cfg.optstring then DecodeShort(cfg, text, after)
          else Refusal()
  {
    NameWhole(name, value);
    FindExactly(name, cfg.longopts.value, cfg.longOnly, 0, r);
    if r.Found? { FoundAnswers(cfg, cfg.longopts.value[r.index], r.index, name, value, after); }
    hide Find, NameOf, LongText, DecodeShort, DecodeFound, LongAnswer, IndexOf, IsLookup;
  }

  lemma FoundAnswers(cfg: Config, p: LongOption, i: nat, name: string, value: Option<string>, after: seq<string>)
    requires '=' !in name
    ensures DecodeFound(cfg, p, i, LongText(name, value), 1, after, false) == LongAnswer(cfg, p, i, value, after)
  {
    NameWhole(name, value);
    hide NameOf;
  }

  /** The same behind -W, where `before` elements of `after` hold the text. */
  lemma FoundBehindW(cfg: Config, p: LongOption, i: nat, name: string, value: Option<string>, after: seq<string>,
                     before: nat)
    requires '=' !in name && before <= |after|
    ensures var d := LongAnswer(cfg, p, i, value, after[before..]);
      var text := LongText(name, value);
      DecodeFound(cfg, p, i, text, before + 1, after, true) ==
        if d.longind.Some? then d.(passed := d.passed + before)
        else Decoded(d.ret, Some(text), Some(""), 1 + before, None, None)
  {
    NameWhole(name, value);
    hide NameOf;
    if before < |after| { assert after[before..][0] == after[before]; }
  }

  /** Every other element is read as short options. */
  lemma ShortOtherwise(cfg: Config, elem: string, rest: string, after: seq<string>)
    requires |elem| >= 2 && rest != "" && !LongFirst(cfg, elem)
    ensures Decode(cfg, elem, rest, after) == DecodeShort(cfg, rest, after)
  {
    hide Find, DecodeShort, IndexOf;
  }

  /** An abbreviation is answered like the full name. */
  lemma AbbreviationAnswers(cfg: Config, name: string, value: Option<string>, after: seq<string>, i: nat)
    requires cfg.longopts.Some? && IsLookup(name, cfg.longopts.value, cfg.longOnly, Found(i))
    requires '=' !in cfg.longopts.value[i].name && LongText(name, value) != ""
    ensures var full := cfg.longopts.value[i].name;
      && LongText(full, value) != ""
      && Decode(cfg, "--" + LongText(name, value), LongText(name, value), after) ==
         Decode(cfg, "--" + LongText(full, value), LongText(full, value), after)
  {
    var full := cfg.longopts.value[i].name;
    assert '=' !in name;
    hide Decode, LongText;
    AbbreviationFinds(cfg, name, i);
    LongTextFull(name, full, value);
    Dashes(LongText(name, value));
    Dashes(LongText(full, value));
    LongAnswers(cfg, "--" + LongText(name, value), name, value, after, Found(i));
    LongAnswers(cfg, "--" + LongText(full, value), full, value, after, Found(i));
  }

  lemma Dashes(text: string)
    ensures |"--" + text| >= 2 && ("--" + text)[1] == '-'
  {}

  lemma LongTextFull(name: string, full: string, value: Option<string>)
    requires name <= full && LongText(name, value) != ""
    ensures LongText(full, value) != ""
  {}

  lemma AbbreviationFinds(cfg: Config, name: string, i: nat)
    requires cfg.longopts.Some? && IsLookup(name, cfg.longopts.value, cfg.longOnly, Found(i))
    ensures IsLookup(cfg.longopts.value[i].name, cfg.longopts.value, cfg.longOnly, Found(i))
  {
    var opts := cfg.longopts.value;
    if opts[i].name != name {
      forall j | 0 <= j < i ensures opts[j].name != opts[i].name { assert !(name <= opts[j].name); }
    }
  }

  // ----- Short options

  function Invalid(c: char, more: string): Decoded {
    Decoded('?' as int, None, Some(more), if more == "" then 1 else 0, Some(c as int), None)
  }

  /** What one call answers for the character c, with `more` behind it in the element: by the colons
      behind it in the option string it takes nothing, the rest of the element if there is any, or
      that or the next element. */
  function ShortAnswer(cfg: Config, c: char, more: string, after: seq<string>): Decoded {
    match Marks(cfg.optstring, c)
    case None => Invalid(c, more)
    case Some(marks) =>
      if c == ':' || c == ';' then Invalid(c, more)
      else if "::" <= marks then Decoded(c as int, if more == "" then None else Some(more), None, 1, None, None)
      else if ":" <= marks then
        if more != "" then Decoded(c as int, Some(more), None, 1, None, None)
        else if after != [] then Decoded(c as int, Some(after[0]), None, 2, None, None)
        else Decoded(NoValue(cfg), None, None, 1, Some(c as int), None)
      else Decoded(c as int, None, Some(more), if more == "" then 1 else 0, None, None)
  }

  /** The character is 'W', and a semicolon follows it in the option string. */
  predicate IsW(o: string, c: char) { c == 'W' && Marks(o, c).Some? && ";" <= Marks(o, c).value }

  lemma MarksSeen(o: string, c: char)
    requires IndexOf(o, c).Some?
    ensures Marks(o, c).Some?
    ensures CharAt(o, IndexOf(o, c).value + 1, ':') <==> ":" <= Marks(o, c).value
    ensures CharAt(o, IndexOf(o, c).value + 1, ';') <==> ";" <= Marks(o, c).value
    ensures CharAt(o, IndexOf(o, c).value + 1, ':') && CharAt(o, IndexOf(o, c).value + 2, ':') <==>
      "::" <= Marks(o, c).value
  {
    MarksAt(o, c);
    hide IndexOf, Marks;
  }

  lemma ShortAnswers(cfg: Config, c: char, more: string, after: seq<string>)
    requires !IsW(cfg.optstring, c)
    ensures DecodeShort(cfg, [c] + more, after) == ShortAnswer(cfg, c, more, after)
  {
    assert ([c] + more)[1..] == more;
    MarksAt(cfg.optstring, c);
    if IndexOf(cfg.optstring, c).Some? { MarksSeen(cfg.optstring, c); }
    hide IndexOf, Marks, DecodeW;
  }

  // ----- -W

  /** "-Wfoo" and "-W foo" are answered like "--foo", when it means an option with what it needs; the
      text counts as one more element passed if it is one.  What is wrong is answered with the text in
      optarg: as "--foo", but for optopt; and 'W' if the text means no option. */
  lemma WAnswers(cfg: Config, more: string, after: seq<string>, name: string, value: Option<string>, r: Lookup)
    requires IsW(cfg.optstring, 'W') && cfg.longopts.Some? && (more != "" || after != []) && '=' !in name
    requires LongText(name, value) == (if more != "" then more else after[0])
    requires IsLookup(name, cfg.longopts.value, cfg.longOnly, r)
    ensures var (text, behind, n) := if more != "" then (more, after, 0) else (after[0], after[1..], 1);
      DecodeShort(cfg, ['W'] + more, after) ==
        match r
        case Found(i) =>
          var d := LongAnswer(cfg, cfg.longopts.value[i], i, value, behind);
          if d.longind.Some? then d.(passed := d.passed + n)
          else Decoded(d.ret, Some(text), Some(""), 1 + n, None, None)
        case NotFound => Decoded('W' as int, Some(text), None, 1 + n, None, None)
        case Ambiguous => Decoded('?' as int, Some(text), Some(""), 2 + n, None, None)
  {
    hide DecodeShort, DecodeW, LongAnswer, LongText, IsLookup, IsW;
    ReadsW(cfg, more, after);
    WText(cfg, more, after, name, value, r);
  }

  lemma ReadsW(cfg: Config, more: string, after: seq<string>)
    requires IsW(cfg.optstring, 'W')
    ensures DecodeShort(cfg, ['W'] + more, after) == DecodeW(cfg, more, after)
  {
    assert (['W'] + more)[1..] == more;
    MarksAt(cfg.optstring, 'W');
    MarksSeen(cfg.optstring, 'W');
    hide IndexOf, Marks, DecodeW;
  }

  lemma WText(cfg: Config, more: string, after: seq<string>, name: string, value: Option<string>, r: Lookup)
    requires cfg.longopts.Some? && (more != "" || after != []) && '=' !in name
    requires LongText(name, value) == (if more != "" then more else after[0])
    requires IsLookup(name, cfg.longopts.value, cfg.longOnly, r)
    ensures var (text, behind, n) := if more != "" then (more, after, 0) else (after[0], after[1..], 1);
      DecodeW(cfg, more, after) ==
        match r
        case Found(i) =>
          var d := LongAnswer(cfg, cfg.longopts.value[i], i, value, behind);
          if d.longind.Some? then d.(passed := d.passed + n)
          else Decoded(d.ret, Some(text), Some(""), 1 + n, None, None)
        case NotFound => Decoded('W' as int, Some(text), None, 1 + n, None, None)
        case Ambiguous => Decoded('?' as int, Some(text), Some(""), 2 + n, None, None)
  {
    NameWhole(name, value);
    FindExactly(name, cfg.longopts.value, cfg.longOnly, 0, r);
    hide Find, NameOf, DecodeFound, LongAnswer, LongText;
    if r.Found? {
      FoundBehindW(cfg, cfg.longopts.value[r.index], r.index, name, value, after, if more != "" then 0 else 1);
      assert after[0..] == after;
    }
    hide IsLookup;
  }

  /** Without a text, it lacks its argument; without long options, it is 'W' and the text is left. */
  lemma WAlone(cfg: Config, more: string, after: seq<string>)
    requires IsW(cfg.optstring, 'W') && (cfg.longopts.None? || (more == "" && after == []))
    ensures DecodeShort(cfg, ['W'] + more, after) ==
      if cfg.longopts.None? then Decoded('W' as int, None, None, if more == "" then 1 else 0, None, None)
      else Decoded(NoValue(cfg), None, Some(""), 1, Some('W' as int), None)
  {
    ReadsW(cfg, more, after);
    hide Find, NameOf, DecodeShort, IsW;
  }

  // ----- Calls

  /** The first character of the option string, or POSIXLY_CORRECT, say what is done with non-options;
      neither '-' nor '+' is an option there. */
  lemma SettingsAnswer(face: Getopt.Interface)
    ensures var (cfg, o) := (face.Settings(), face.optstring);
      && cfg.optstring == (if "-" <= o || "+" <= o then o[1..] else o)
      && cfg.ordering == (if "-" <= o then ReturnInOrder
                          else if "+" <= o || face.posixlyCorrect then RequireOrder else Permute)
  {}

  /** An element that is no option. */
  predicate Operand(x: string) { x == "" || x == "-" || x[0] != '-' }

  /** Where a permuting scan stops; the others stop at once. */
  predicate StopsAt(cfg: Config, a: seq<string>, i: nat, j: nat) {
    && i <= j <= |a|
    && if cfg.ordering.Permute? then (forall k :: i <= k < j ==> Operand(a[k])) && (j < |a| ==> !Operand(a[j]))
       else i == j
  }

  /** What a call makes of the element where it stops: -1 at the end of the vector, behind "--", and at
      a non-option that stops it; the value 1 at another non-option; else the first option, which stands
      behind one dash, or two if there are long options. */
  lemma CallAnswers(cfg: Config, a: seq<string>, s: Scan, j: nat)
    requires Sound(a, s) && !s.Within() && StopsAt(cfg, a, s.pos, j)
    ensures var c := Call(cfg, a, s);
      var aside := s.nonopts + a[s.pos..j];
      if j == |a| then c == Called(Scan(j, None, s.opts, aside), End, None, None, None)
      else if a[j] == "--" then
        c == Called(Scan(|a|, None, s.opts + ["--"], aside + a[j + 1..]), End, None, None, None)
      else if Operand(a[j]) then
        if cfg.ordering.RequireOrder? then c == Called(Scan(j, None, s.opts, aside), End, None, None, None)
        else c == Called(Scan(j + 1, None, s.opts + [a[j]], aside), Value(1), Some(a[j]), None, None)
      else
        var text := if cfg.longopts.Some? && "--" <= a[j] then a[j][2..] else a[j][1..];
        text != "" && c == Call(cfg, a, Scan(j, Some(text), s.opts, aside))
  {
    hide Decode;
    if cfg.ordering.Permute? { SkipStops(a, s.pos, j); }
    hide Skip, StopsAt;
    assert Advance(cfg, a, s) == Arrive(cfg, a, Scan(j, None, s.opts, s.nonopts + a[s.pos..j]));
  }

  lemma {:induction false} SkipStops(a: seq<string>, i: nat, j: nat)
    requires i <= j <= |a| && (forall k :: i <= k < j ==> Operand(a[k])) && (j < |a| ==> !Operand(a[j]))
    ensures Skip(a, i) == j
    decreases j - i
  {
    if i < j { SkipStops(a, i + 1, j); }
  }

  // ----- Whole command lines

  /** What a user means by an element or two: an argument of the program; some short options without
      argument and one more in the same element; or the long option number i, by this name.  A value
      is in the same element or apart. */
  datatype Request =
    | Argument(text: string)
    | Short(flags: string, c: char, value: Option<string>, apart: bool)
    | Long(i: nat, name: string, value: Option<string>, apart: bool)

  function Elements(r: Request): (e: seq<string>)
    ensures e != []
  {
    match r
    case Argument(text) => [text]
    case Short(flags, c, value, apart) => WithValue("-" + flags + [c], "", value, apart)
    case Long(_, name, value, apart) => WithValue("--" + name, "=", value, apart)
  }

  function WithValue(element: string, mark: string, value: Option<string>, apart: bool): (e: seq<string>)
    ensures e != []
  {
    match value
    case None => [element]
    case Some(v) => if apart then [element, v] else [element + mark + v]
  }

  /** The option string has c as a short option, with this kind of argument. */
  predicate Knows(o: string, c: char, kind: HasArg) {
    c != '-' && c != ':' && c != ';' && !IsW(o, c) &&
    match Marks(o, c)
    case None => false
    case Some(marks) =>
      match kind
      case NoArgument => !(":" <= marks)
      case RequiredArgument => ":" <= marks && !("::" <= marks)
      case OptionalArgument => "::" <= marks
  }

  /** An option of this kind can have the value, there. */
  predicate Fits(kind: HasArg, value: Option<string>, apart: bool) {
    match kind
    case NoArgument => value == None
    case RequiredArgument => value.Some?
    case OptionalArgument => value == None || !apart
  }

  /** The settings know the options meant, and the values are where they can be. */
  ghost predicate Meant(cfg: Config, r: Request) {
    match r
    case Argument(text) => Operand(text)
    case Short(flags, c, value, apart) =>
      && (forall f :: f in flags ==> Knows(cfg.optstring, f, NoArgument))
      && (value.Some? && !apart ==> value.value != "")
      && exists kind :: Knows(cfg.optstring, c, kind) && Fits(kind, value, apart)
    case Long(i, name, value, apart) =>
      && name != "" && '=' !in name && cfg.longopts.Some?
      && IsLookup(name, cfg.longopts.value, false, Found(i)) && Fits(cfg.longopts.value[i].hasArg, value, apart)
  }

  function FlagAnswers(flags: string): seq<Answer> {
    seq(|flags|, j requires 0 <= j < |flags| => Answer(flags[j] as int, None, -1, None))
  }

  /** What the caller is to be told. */
  function ToldOf(cfg: Config, r: Request): seq<Answer>
    requires r.Long? ==> cfg.longopts.Some? && r.i < |cfg.longopts.value|
  {
    match r
    case Argument(_) => []
    case Short(flags, c, value, _) => FlagAnswers(flags) + [Answer(c as int, value, -1, None)]
    case Long(i, _, value, _) =>
      var p := cfg.longopts.value[i];
      [Answer(if p.flag.Some? then 0 else p.val, value, -1, Some(i))]
  }

  ghost predicate AllMeant(cfg: Config, rs: seq<Request>) { forall r :: r in rs ==> Meant(cfg, r) }

  /** The command line, and what is to become of it: the elements of the options, the arguments, and
      what the caller is told. */
  function Line(rs: seq<Request>): seq<string> { if rs == [] then [] else Elements(rs[0]) + Line(rs[1..]) }

  function Intended(cfg: Config, rs: seq<Request>): Parts
    requires forall r :: r in rs && r.Long? ==> cfg.longopts.Some? && r.i < |cfg.longopts.value|
  {
    if rs == [] then Parts([], [], []) else
      var p := Intended(cfg, rs[1..]);
      if rs[0].Argument? then p.(nonopts := [rs[0].text] + p.nonopts)
      else p.Behind(Elements(rs[0]), ToldOf(cfg, rs[0]))
  }

  /** What one option makes of an element that it ends. */
  lemma OptionEnds(cfg: Config, a: seq<string>, k: nat, rest: string, d: Decoded)
    requires OptionAt(a, k) && rest != "" && d == Decode(cfg, a[k], rest, a[k + 1..])
    requires !d.Remains() && 0 < d.passed <= |a| - k
    ensures Passable(cfg, a, k, rest) && Extent(cfg, a, k, rest) == d.passed
    ensures ElementAnswers(cfg, a, k, rest) == [AnswerOf(d)]
  {
    hide Decode, Stuck, AmbiguousEnd;
    GuardsStep(cfg, a[k], rest, a[k + 1..]);
  }

  lemma OptionGoesOn(cfg: Config, a: seq<string>, k: nat, rest: string, d: Decoded)
    requires OptionAt(a, k) && rest != "" && d == Decode(cfg, a[k], rest, a[k + 1..]) && d.Remains()
    requires Passable(cfg, a, k, d.rest.value)
    ensures Passable(cfg, a, k, rest) && Extent(cfg, a, k, rest) == Extent(cfg, a, k, d.rest.value)
    ensures ElementAnswers(cfg, a, k, rest) == [AnswerOf(d)] + ElementAnswers(cfg, a, k, d.rest.value)
  {
    hide Decode, Stuck, AmbiguousEnd;
    GuardsStep(cfg, a[k], rest, a[k + 1..]);
  }

  /** The last option of the element, with its value. */
  lemma LastReads(cfg: Config, a: seq<string>, k: nat, c: char, value: Option<string>, apart: bool, kind: HasArg)
    requires OptionAt(a, k) && a[k][1] != '-' && !cfg.longOnly && Knows(cfg.optstring, c, kind)
    requires Fits(kind, value, apart) && (value.Some? && !apart ==> value.value != "")
    requires value.Some? && apart ==> k + 1 < |a| && a[k + 1] == value.value
    ensures var rest := [c] + if value.Some? && !apart then value.value else "";
      && Passable(cfg, a, k, rest)
      && Extent(cfg, a, k, rest) == (if value.Some? && apart then 2 else 1)
      && ElementAnswers(cfg, a, k, rest) == [Answer(c as int, value, -1, None)]
  {
    var more := if value.Some? && !apart then value.value else "";
    ShortOtherwise(cfg, a[k], [c] + more, a[k + 1..]);
    ShortAnswers(cfg, c, more, a[k + 1..]);
    hide Decode, DecodeShort, Marks, IsW;
    OptionEnds(cfg, a, k, [c] + more, Decode(cfg, a[k], [c] + more, a[k + 1..]));
  }

  lemma {:induction false} ClusterReads(cfg: Config, a: seq<string>, k: nat, flags: string, c: char,
                                        value: Option<string>, apart: bool, kind: HasArg)
    requires OptionAt(a, k) && a[k][1] != '-' && !cfg.longOnly && Knows(cfg.optstring, c, kind)
    requires forall f :: f in flags ==> Knows(cfg.optstring, f, NoArgument)
    requires Fits(kind, value, apart) && (value.Some? && !apart ==> value.value != "")
    requires value.Some? && apart ==> k + 1 < |a| && a[k + 1] == value.value
    ensures var rest := flags + [c] + if value.Some? && !apart then value.value else "";
      && Passable(cfg, a, k, rest)
      && Extent(cfg, a, k, rest) == (if value.Some? && apart then 2 else 1)
      && ElementAnswers(cfg, a, k, rest) == FlagAnswers(flags) + [Answer(c as int, value, -1, None)]
  {
    hide Knows, Passable, Extent, ElementAnswers, Decode;
    var behind := [c] + if value.Some? && !apart then value.value else "";
    if flags == "" {
      LastReads(cfg, a, k, c, value, apart, kind);
      assert flags + [c] + (if value.Some? && !apart then value.value else "") == behind;
      assert FlagAnswers(flags) + [Answer(c as int, value, -1, None)] == [Answer(c as int, value, -1, None)];
    } else {
      ClusterReads(cfg, a, k, flags[1..], c, value, apart, kind);
      var more := flags[1..] + [c] + if value.Some? && !apart then value.value else "";
      assert flags + [c] + (if value.Some? && !apart then value.value else "") == [flags[0]] + more;
      FlagReads(cfg, a, k, flags[0], more);
      assert FlagAnswers(flags) == [Answer(flags[0] as int, None, -1, None)] + FlagAnswers(flags[1..]);
    }
  }

  lemma FlagReads(cfg: Config, a: seq<string>, k: nat, f: char, more: string)
    requires OptionAt(a, k) && a[k][1] != '-' && !cfg.longOnly && Knows(cfg.optstring, f, NoArgument) && more != ""
    requires Passable(cfg, a, k, more)
    ensures Passable(cfg, a, k, [f] + more) && Extent(cfg, a, k, [f] + more) == Extent(cfg, a, k, more)
    ensures ElementAnswers(cfg, a, k, [f] + more) ==
            [Answer(f as int, None, -1, None)] + ElementAnswers(cfg, a, k, more)
  {
    ShortOtherwise(cfg, a[k], [f] + more, a[k + 1..]);
    ShortAnswers(cfg, f, more, a[k + 1..]);
    hide Decode, DecodeShort, Marks, IsW, Passable, Extent, ElementAnswers;
    OptionGoesOn(cfg, a, k, [f] + more, Decode(cfg, a[k], [f] + more, a[k + 1..]));
  }

  lemma LongReads(cfg: Config, a: seq<string>, k: nat, r: Request)
    requires !cfg.longOnly && r.Long? && Meant(cfg, r) && k + |Elements(r)| <= |a|
    requires a[k..k + |Elements(r)|] == Elements(r)
    ensures OptionAt(a, k) && Passable(cfg, a, k, InitialRest(cfg, a[k]))
    ensures Extent(cfg, a, k, InitialRest(cfg, a[k])) == |Elements(r)|
    ensures ElementAnswers(cfg, a, k, InitialRest(cfg, a[k])) == ToldOf(cfg, r)
  {
    assert r.i < |cfg.longopts.value|;
    hide IsLookup, Passable, Extent, ElementAnswers, Decode;
    assert a[k..k + |Elements(r)|][0] == a[k];
    if |Elements(r)| == 2 { assert a[k..k + 2][1] == a[k + 1..][0]; }
    var typed := if r.apart then None else r.value;
    assert a[k] == "--" + LongText(r.name, typed);
    var text := LongText(r.name, typed);
    assert a[k][2..] == text;
    LongAnswers(cfg, a[k], r.name, typed, a[k + 1..], Found(r.i));
    OptionEnds(cfg, a, k, text, Decode(cfg, a[k], text, a[k + 1..]));
  }

  lemma ShortReads(cfg: Config, a: seq<string>, k: nat, r: Request)
    requires !cfg.longOnly && r.Short? && Meant(cfg, r) && k + |Elements(r)| <= |a|
    requires a[k..k + |Elements(r)|] == Elements(r)
    ensures OptionAt(a, k) && Passable(cfg, a, k, InitialRest(cfg, a[k]))
    ensures Extent(cfg, a, k, InitialRest(cfg, a[k])) == |Elements(r)|
    ensures ElementAnswers(cfg, a, k, InitialRest(cfg, a[k])) == ToldOf(cfg, r)
  {
    hide Passable, Extent, ElementAnswers, Marks, IsW;
    assert a[k..k + |Elements(r)|][0] == a[k];
    if |Elements(r)| == 2 { assert a[k..k + 2][1] == a[k + 1]; }
    var more := if r.value.Some? && !r.apart then r.value.value else "";
    assert a[k] == "-" + (r.flags + [r.c] + more);
    assert a[k][1] != '-' by {
      assert a[k][1] == (r.flags + [r.c] + more)[0];
      if r.flags != "" { assert r.flags[0] in r.flags; }
    }
    var kind :| Knows(cfg.optstring, r.c, kind) && Fits(kind, r.value, r.apart);
    hide Knows;
    assert InitialRest(cfg, a[k]) == r.flags + [r.c] + more;
    ClusterReads(cfg, a, k, r.flags, r.c, r.value, r.apart, kind);
  }

  /** A command line that is spelled for some requests is read in order, and comes apart into just the
      options and the arguments that were meant; the caller is told just the requests. */
  lemma {:induction false} LineRead(cfg: Config, rs: seq<Request>, a: seq<string>, k: nat)
    requires cfg.ordering.Permute? && !cfg.longOnly && AllMeant(cfg, rs) && k <= |a| && a[k..] == Line(rs)
    ensures forall r :: r in rs && r.Long? ==> cfg.longopts.Some? && r.i < |cfg.longopts.value|
    ensures Orderly(cfg, a, k) && Partition(cfg, a, k) == Intended(cfg, rs)
  {
    hide Meant, Elements, Passable, Extent, ElementAnswers, InitialRest;
    MeantIndex(cfg, rs);
    if rs != [] {
      var r, n := rs[0], |Elements(rs[0])|;
      assert r in rs;
      assert a[k..][..n] == Elements(r) && a[k..][n..] == Line(rs[1..]);
      assert a[k..k + n] == Elements(r) && a[k + n..] == Line(rs[1..]);
      LineRead(cfg, rs[1..], a, k + n);
      match r
      case Argument(text) => ArgumentReads(cfg, a, k, r);
      case Short(_, _, _, _) => ShortReads(cfg, a, k, r);
      case Long(_, _, _, _) => LongReads(cfg, a, k, r);
    }
  }

  lemma MeantIndex(cfg: Config, rs: seq<Request>)
    requires AllMeant(cfg, rs)
    ensures forall r :: r in rs && r.Long? ==> cfg.longopts.Some? && r.i < |cfg.longopts.value|
  {}

  lemma ArgumentReads(cfg: Config, a: seq<string>, k: nat, r: Request)
    requires r.Argument? && Meant(cfg, r) && k + |Elements(r)| <= |a| && a[k..k + |Elements(r)|] == Elements(r)
    ensures |Elements(r)| == 1 && a[k] == r.text != "--" && NonOption(a[k])
  {
    assert a[k] == a[k..k + 1][0];
  }
}
