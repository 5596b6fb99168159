/** What the parser makes of what is typed, said by the fields that the programmer declared, and of
    what nobody declared (argp-parse.c and getopt.c together). */
module ArgpAnswers {
  import opened Common
  import opened GetoptScan
  import opened GetoptAnswers
  import opened ArgpParse
  import opened ArgpGetopt

  // ----- Short options

  /** By the fields of an option, what its character takes: nothing without `arg`, whatever follows;
      with it, the rest of the element, and the next element only if the argument is not optional. */
  function Takes(o: Opt, to: Delivery, more: string, after: seq<string>): Handled {
    if !o.arg then Handled(to, None, Some(more), if more == "" then 1 else 0)
    else if more != "" then Handled(to, Some(more), None, 1)
    else if o.optional then Handled(to, None, None, 1)
    else if after != [] then Handled(to, Some(after[0]), None, 2)
    else Handled(Rejected, None, None, 1)
  }

  ghost predicate ReadByFields(s: seq<Argp>, posix: bool, c: char, g: nat, o: Opt) {
    forall elem: string, more, after :: |elem| >= 2 && elem[1] != '-' ==>
      Reading(s, posix, elem, c, more, after) == Takes(o, Delivered(g, c as int), more, after)
  }

  lemma FieldsRead(s: seq<Argp>, posix: bool, c: char, g: nat, o: Opt)
    ensures ReadByFields(s, posix, c, g, o) <==> ReadAs(s, posix, c, g, ArgOf(o))
  {
    hide Reading;
    forall to, more, after ensures Takes(o, to, more, after) == Asked(ArgOf(o), to, more, after) {}
  }

  /** The first option that declares a short key, or the one it is an alias of, says what the key takes,
      always if the keys are plain, and otherwise exactly if the table allows it. */
  lemma ShortFields(s: seq<Argp>, posix: bool, c: char, g: nat, i: nat, j: nat)
    requires OwnsShort(s, c, g, i) && IsOrigin(Options(s[g]), i, j)
    ensures var o := Options(s[g])[j];
      && (PlainKeys(CodesOf(s)) ==> ReadByFields(s, posix, c, g, o))
      && (ReadByFields(s, posix, c, g, o) <==> Clear(CodesOf(s), c, ArgOf(o)))
  {
    var o := Options(s[g])[j];
    OriginReal(Options(s[g]), i, j);
    hide CodesOf, Real, IsShortOption, DeclaresShort, Clear, PlainKeys, FirstShort;
    ShortRead(s, posix, c, g, i);
    if PlainKeys(CodesOf(s)) { PlainKeysRead(s, posix, c, g, i); }
    hide ReadByFields, ReadAs;
    FieldsRead(s, posix, c, g, o);
  }

  /** A character that no group declares is an error, and takes nothing. */
  lemma UnknownShort(s: seq<Argp>, posix: bool, elem: string, c: char, more: string, after: seq<string>)
    requires |elem| >= 2 && elem[1] != '-' && Undeclared(s, c)
    ensures Reading(s, posix, elem, c, more, after) == Handled(Rejected, None, Some(more), if more == "" then 1 else 0)
  {
    UndeclaredCode(s, c);
    var t := EnterAll(s, Empty());
    ReadingShort(s, posix, elem, c, more, after);
    if c != ':' { FindSeen(s, c); }
    hide EnterAll, DecodeShort, SettingsOf, FirstCode, CodesOf, Seen, IndexOf, Deliver, Undeclared;
    ShortRefused(SettingsOf(t, posix), c, more, after);
  }

  lemma UndeclaredCode(s: seq<Argp>, c: char)
    requires Undeclared(s, c)
    ensures FirstCode(Seen(CodesOf(s)), c) == None
  {
    CodesFirst(s, c);
    hide CodesOf, DeclaresShort;
    if FirstCode(CodesOf(s), c).Some? { UndeclaredClash(s, c, CodesOf(s)[FirstCode(CodesOf(s), c).value].arg); }
  }

  lemma UndeclaredClash(s: seq<Argp>, c: char, arg: HasArg)
    requires Undeclared(s, c)
    ensures !Declared(s, c, arg)
  {}

  // ----- Long options

  /** The same for a long option, typed with a value behind '=' or without one. */
  function TakesLong(o: Opt, to: Delivery, value: Option<string>, after: seq<string>): Handled {
    match value
    case Some(v) => if o.arg then Handled(to, Some(v), Some(""), 1) else Handled(Rejected, None, Some(""), 1)
    case None =>
      if !o.arg || o.optional then Handled(to, None, Some(""), 1)
      else if after != [] then Handled(to, Some(after[0]), Some(""), 2)
      else Handled(Rejected, None, Some(""), 1)
  }

  ghost predicate LongReadByFields(s: seq<Argp>, posix: bool, name: string, g: nat, key: int, o: Opt) {
    && name != ""
    && forall value, after ::
      LongReading(s, posix, LongText(name, value), after) == TakesLong(o, Delivered(g, key), value, after)
  }

  /** Every entry of the long table is the name of an option i of group g, the first with that name in
      preorder; the option, or the one it is an alias of, says what the name takes, and with which key it
      is delivered, exactly if the name has no '=', key and group fit, and a missing argument is not
      taken for an option. */
  lemma LongFields(s: seq<Argp>, posix: bool, k: nat) returns (g: nat, i: nat, j: nat)
    requires k < |EnterAll(s, Empty()).longs|
    ensures var name := EnterAll(s, Empty()).longs[k].name;
      && OwnsLong(s, name, g, i) && IsOrigin(Options(s[g]), i, j)
      && var (own, o) := (Options(s[g])[i], Options(s[g])[j]);
        var key := if own.key == 0 then o.key else own.key;
        LongReadByFields(s, posix, name, g, key, o) <==>
          && name != "" && '=' !in name && ArgpParse.Reaches(s, g, key)
          && (o.arg && !o.optional ==> !LeadsColon(CodesOf(s)))
  {
    g, i, j := LongRead(s, posix, k);
    hide EnterAll, CodesOf, LeadsColon, Real, KeyOf, ArgpParse.Reaches, LongReading, OwnsLong, LongText;
    var p, o := EnterAll(s, Empty()).longs[k], Options(s[g])[j];
    forall to, value, after ensures TakesLong(o, to, value, after) == AskedLong(p.hasArg, to, value, after) {}
  }

  /** A text behind "--" that means no entry of the table, or does not tell apart what it could mean, is
      an error, and passes its element alone. */
  lemma UnknownLong(s: seq<Argp>, posix: bool, name: string, value: Option<string>, after: seq<string>, r: Lookup)
    requires '=' !in name && LongText(name, value) != ""
    requires !r.Found? && IsLookup(name, EnterAll(s, Empty()).longs, false, r)
    ensures LongReading(s, posix, LongText(name, value), after) == Handled(Rejected, None, Some(""), 1)
  {
    var t, text := EnterAll(s, Empty()), LongText(name, value);
    Dashes(text);
    LongAnswers(SettingsOf(t, posix), "--" + text, name, value, after, r);
    hide EnterAll, Decode, IsLookup, Deliver, LongText, SettingsOf;
  }

  /** An abbreviation goes where the full name does. */
  lemma AbbreviatedLong(s: seq<Argp>, posix: bool, name: string, value: Option<string>, after: seq<string>, k: nat)
    requires var longs := EnterAll(s, Empty()).longs;
      IsLookup(name, longs, false, Found(k)) && '=' !in longs[k].name && LongText(name, value) != ""
    ensures var full := EnterAll(s, Empty()).longs[k].name;
      && LongText(full, value) != ""
      && LongReading(s, posix, LongText(name, value), after) == LongReading(s, posix, LongText(full, value), after)
  {
    AbbreviationAnswers(SettingsOf(EnterAll(s, Empty()), posix), name, value, after, k);
    hide EnterAll, Decode, IsLookup, Deliver, LongText, SettingsOf;
  }
}
