/** The iterator over the arguments of a radiotap header (Csi/radiotap.c, without overrides). */
module Radiotap {
  import opened Common
  import opened Machine
  import opened RadiotapHeader
  import opened RadiotapTour

  lemma NextBit(i: nat)
    ensures (i + 1) % 32 == if i % 32 == EXT then 0 else i % 32 + 1
  {}

  function Listed(vns: Option<seq<Namespace>>): seq<Namespace> { match vns case None => [] case Some(v) => v }

  lemma TakenEntry(t: seq<AlignSize>, radiotap: bool, b: nat, i: nat, at: nat)
    requires b < RADIOTAP_NAMESPACE && EntryOf(t, radiotap, b, i).Take?
    ensures i < |t| && EntryOf(t, radiotap, b, i) == Take(t[i].align, t[i].size) && t[i].align > 0
    ensures PowerOfTwo(t[i].align) ==> OnBoundary(Aligned(at, t[i].align), t[i].align)
  {}

  class Iterator {
    const radiotapTable: seq<AlignSize>
    var rtheader: seq<Byte>
    var vns: Option<seq<Namespace>>
    var current: Current
    var arg: nat
    /** None before a vendor namespace has been seen: the source leaves it uninitialised. */
    var nextNsData: Option<nat>
    var nextBitmap: nat
    var thisArg: nat
    var thisArgIndex: nat
    var thisArgSize: nat
    var isRadiotapNs: bool
    var maxLength: nat
    var argIndex: nat
    var shifter: nat
    var resetOnExt: bool
    /** The present word that shifter comes from. */
    ghost var word: nat
    /** The last present word. */
    ghost var last: nat
    /** How many bits have been shifted out. */
    ghost var bit: nat
    /** The arguments that are still to be returned, and the end. */
    ghost var ahead: (seq<Argument>, Status)

    constructor ()
      ensures radiotapTable == RadiotapSizes()
    {
      radiotapTable := RadiotapSizes();
      rtheader, vns, current, maxLength := [], None, Unknown, 0;
    }

    function Table(): seq<AlignSize>
      reads `current
    {
      TableOf(radiotapTable, current)
    }

    ghost function Head(): Header
      reads `vns, `rtheader, `maxLength
    {
      Header(radiotapTable, Listed(vns), rtheader, maxLength)
    }

    /** Where the walk is. */
    ghost function Here(): Spot
      requires bit <= argIndex
      reads this
    {
      Spot(word, bit, argIndex - bit, arg, current, nextNsData)
    }

    /** The fields that stand for the present words agree. */
    ghost predicate Sound()
      reads `rtheader, `maxLength, `word, `last, `nextBitmap, `shifter, `argIndex, `bit
    {
      && maxLength <= |rtheader| && HEADER_SIZE + 4 * word <= |rtheader|
      && Last(rtheader, maxLength, word) == Some(last)
      && nextBitmap == HEADER_SIZE + 4 * word
      && shifter == Shifted(Present(rtheader, word), bit)
      && bit == argIndex % 32
    }

    /** A namespace mark of this word has been passed. */
    ghost predicate Marked()
      requires Sound()
      reads `rtheader, `maxLength, `word, `last, `nextBitmap, `shifter, `argIndex, `bit
    {
      || (bit > RADIOTAP_NAMESPACE && Bit(Present(rtheader, word), RADIOTAP_NAMESPACE))
      || (bit > VENDOR_NAMESPACE && Bit(Present(rtheader, word), VENDOR_NAMESPACE))
    }

    lemma Stands()
      requires Sound()
      ensures Head().Has(Here()) && bit <= argIndex && bit == argIndex % 32 < 32
    {}

    ghost predicate Valid()
      reads this
    {
      && Sound() && (resetOnExt <==> Marked()) && ahead == Tour(Head(), Here())
      && (current.Radiotap? ==> isRadiotapNs) && (current.Vendor? ==> !isRadiotapNs)
    }

    /** Moves behind the present words, if they end inside the header. */
    method SkipPresent() returns (inside: bool)
      requires HEADER_SIZE <= |rtheader| && maxLength <= |rtheader| && arg == HEADER_SIZE
      requires Bit(Present(rtheader, 0), EXT)
      modifies this`arg
      ensures inside == Last(rtheader, maxLength, 0).Some?
      ensures inside ==> arg == HEADER_SIZE + 4 * Last(rtheader, maxLength, 0).value
    {
      if arg + 4 > maxLength { return false; }
      ghost var k := 1;
      while Bit(Le32(rtheader, arg), EXT)
        invariant arg == 4 + 4 * k && arg + 4 <= maxLength
        invariant Last(rtheader, maxLength, k) == Last(rtheader, maxLength, 0)
        decreases maxLength - arg
      {
        arg := arg + 4;
        if arg + 4 > maxLength { return false; }
        k := k + 1;
      }
      arg := arg + 4;
      return true;
    }

    /** The state at the first bit of a header, still without regard to further present words. */
    method Start(header: seq<Byte>, vendors: Option<seq<Namespace>>)
      requires HEADER_SIZE <= |header|
      modifies this
      ensures rtheader == header && maxLength == Le16(header, 2) && word == 0 && argIndex == bit == 0
      ensures shifter == Present(header, 0) && arg == HEADER_SIZE && nextBitmap == HEADER_SIZE
      ensures current == Radiotap && !resetOnExt && vns == vendors && isRadiotapNs && nextNsData == None
    {
      rtheader := header;
      maxLength := Le16(header, 2);
      argIndex := 0;
      shifter := Le32(header, 4);
      arg := HEADER_SIZE;
      StartNamespace(vendors);
    }

    method StartNamespace(vendors: Option<seq<Namespace>>)
      modifies this`resetOnExt, this`nextBitmap, this`vns, this`current, this`isRadiotapNs, this`word, this`bit,
        this`nextNsData
      ensures !resetOnExt && nextBitmap == HEADER_SIZE && vns == vendors && current == Radiotap && isRadiotapNs
      ensures word == 0 && bit == 0 && nextNsData == None
    {
      resetOnExt := false;
      nextBitmap := 4;
      nextBitmap := nextBitmap + 4;
      vns := vendors;
      current := Radiotap;
      isRadiotapNs := true;
      word := 0;
      bit := 0;
      nextNsData := None;
    }

    /** Ready to read the header's bytes: 0 (Ok) or -EINVAL. */
    method Init(header: seq<Byte>, length: int, vendors: Option<seq<Namespace>>) returns (r: Status)
      requires length <= |header|
      modifies this
      ensures r == if Acceptable(header, length) then Ok else Invalid
      ensures r == Ok ==>
        && Valid() && rtheader == header && maxLength == Le16(header, 2) && word == 0 && argIndex == 0
        && arg == DataStart(header, maxLength) && thisArg == arg
        && current == Radiotap && !resetOnExt && vns == vendors && isRadiotapNs && nextNsData == None
        && Head() == Header(radiotapTable, Listed(vendors), header, maxLength) && Here() == Begin(header, maxLength)
    {
      hide Tour, Present;
      if length < HEADER_SIZE { return Invalid; }
      if header[0] != 0 { return Invalid; }
      if length < Le16(header, 2) { return Invalid; }
      Start(header, vendors);
      if Bit(shifter, EXT) {
        var inside := SkipPresent();
        if !inside { return Invalid; }
      }
      thisArg := arg;
      last := Last(header, maxLength, 0).value;
      ahead := Tour(Head(), Here());
      return Ok;
    }

    /** The first registered namespace with these numbers. */
    method FindNs(oui: nat, subns: Byte)
      modifies this`current
      ensures match current
        case Vendor(ns) =>
          vns.Some? && Names(ns, oui, subns) && exists i ::
            && 0 <= i < |vns.value| && vns.value[i] == ns
            && forall j :: 0 <= j < i ==> !Names(vns.value[j], oui, subns)
        case Unknown => vns.Some? ==> forall j :: 0 <= j < |vns.value| ==> !Names(vns.value[j], oui, subns)
        case Radiotap => false
      ensures current == Registered(Listed(vns), oui, subns)
    {
      current := Unknown;
      if vns.None? { return; }
      var i := 0;
      while i < |vns.value|
        invariant i <= |vns.value| && current == Unknown
        invariant forall j :: 0 <= j < i ==> !Names(vns.value[j], oui, subns)
      {
        if vns.value[i].oui == oui && vns.value[i].subns == subns {
          current := Vendor(vns.value[i]);
          break;
        }
        i := i + 1;
      }
      RegisteredFirst(vns.value, oui, subns, i);
    }

    /** Moves on to the next bit of the present word. */
    method NextEntry()
      requires Sound() && bit < EXT
      modifies this`shifter, this`argIndex, this`bit
      ensures Sound() && argIndex == old(argIndex) + 1 && bit == old(bit) + 1
      ensures Marked() == (old(Marked()) || (old(bit) in {RADIOTAP_NAMESPACE, VENDOR_NAMESPACE} &&
                                             Bit(Present(rtheader, word), old(bit))))
    {
      hide Last, Bit;
      NextBit(argIndex);
      shifter := shifter / 2;
      argIndex := argIndex + 1;
      bit := bit + 1;
    }

    /** Moves on to the next present word. */
    method NextWord()
      requires Sound() && bit == EXT && Bit(Present(rtheader, word), EXT)
      modifies this`shifter, this`argIndex, this`bit, this`nextBitmap, this`word, this`resetOnExt
      ensures Sound() && word == old(word) + 1 && !resetOnExt && bit == 0
      ensures argIndex == if old(resetOnExt) then 0 else old(argIndex) + 1
      ensures nextBitmap <= maxLength
    {
      hide Last;
      NextBit(argIndex);
      LastStep(rtheader, maxLength, word, last);
      shifter := Le32(rtheader, nextBitmap);
      nextBitmap := nextBitmap + 4;
      word := word + 1;
      bit := 0;
      if resetOnExt { argIndex := 0; } else { argIndex := argIndex + 1; }
      resetOnExt := false;
    }

    /** What a round of the walk, or a call, does when `before` was ahead: it goes on, returns the first
        argument, or ends as it must. */
    ghost predicate Outcome(before: (seq<Argument>, Status), r: Option<Status>)
      reads this
    {
      match r
      case None => ahead == before
      case Some(Ok) => before.0 != [] && This() == before.0[0] && ahead == (before.0[1..], before.1)
      case Some(status) => before == ([], status)
    }

    /** Data that is skipped because its layout is unknown. */
    method GiveUp() returns (r: Option<Status>)
      requires Valid() && bit < RADIOTAP_NAMESPACE && Bit(Present(rtheader, word), bit)
      requires EntryOf(Table(), current.Radiotap?, bit, argIndex) == Skip
      modifies this`arg, this`current, this`shifter, this`argIndex, this`bit
      ensures r == if nextNsData.None? then Some(Unset) else None
      ensures Outcome(old(ahead), r) && (r == None ==> Valid() && Further(word, old(bit)))
    {
      hide Last, Tour, Bit, Sound, Marked, Present;
      Stands();
      TourField(Head(), Here());
      if nextNsData.None? { return Some(Unset); }
      arg := nextNsData.value;
      current := Unknown;
      NextEntry();
      return None;
    }

    /** The head of a vendor namespace: its data is an argument of its own if nobody registered it. */
    method EnterVendor(size: nat) returns (inside: bool, size': nat)
      requires maxLength <= |rtheader| && size == 6
      modifies this`current, this`nextNsData
      ensures inside == (arg + size <= maxLength)
      ensures inside ==>
        && current == Registered(Listed(vns), Oui(rtheader, arg), rtheader[arg + 3])
        && nextNsData == Some(arg + size + Le16(rtheader, arg + 4))
        && size' == if current == Unknown then size + Le16(rtheader, arg + 4) else size
    {
      if arg + size > maxLength { return false, size; }
      var oui := rtheader[arg] as int * 0x1_0000 + rtheader[arg + 1] as int * 0x100 + rtheader[arg + 2] as int;
      var subns := rtheader[arg + 3];
      FindNs(oui, subns);
      var vnslen := Le16(rtheader, arg + 4);
      nextNsData := Some(arg + size + vnslen);
      inside := true;
      size' := if current == Unknown then size + vnslen else size;
    }

    /** The argument just returned lies inside the header, and where its table asks for. */
    ghost predicate Returned()
      reads this
    {
      && thisArg + thisArgSize == arg <= maxLength && argIndex > 0 && bit > 0 && isRadiotapNs == current.Radiotap?
      && if bit - 1 == VENDOR_NAMESPACE then thisArgIndex == VENDOR_NAMESPACE && OnBoundary(thisArg, 2)
         else
           && thisArgIndex == argIndex - 1 < |Table()|
           && var e := Table()[thisArgIndex];
             thisArgSize == e.size && (PowerOfTwo(e.align) ==> OnBoundary(thisArg, e.align))
    }

    /** Accounts for alignment padding. */
    method SkipPadding(align: nat)
      requires 0 < align < 16
      modifies this`arg
      ensures arg == Aligned(old(arg), align)
    {
      var pad := Pad(arg, align);
      if pad > 0 { arg := arg + (align - pad); }
    }

    /** Records the entry at arg for the caller, and moves behind it. */
    method Record(size: nat) returns (inside: bool)
      modifies this`arg, this`thisArg, this`thisArgIndex, this`thisArgSize
      ensures thisArgIndex == argIndex && thisArg == old(arg) && thisArgSize == size && arg == old(arg) + size
      ensures inside == (arg <= maxLength)
    {
      thisArgIndex := argIndex;
      thisArg := arg;
      thisArgSize := size;
      arg := arg + size;
      return arg <= maxLength;
    }

    /** Aligns and records an entry of fixed size. */
    method PlaceField(align: nat, size: nat) returns (inside: bool)
      requires 0 < align < 16
      modifies this`arg, this`thisArg, this`thisArgIndex, this`thisArgSize
      ensures thisArgIndex == argIndex && thisArgSize == size && arg == thisArg + size && inside == (arg <= maxLength)
      ensures thisArg == Aligned(old(arg), align)
    {
      SkipPadding(align);
      inside := Record(size);
    }

    /** The argument that this_arg describes. */
    function This(): Argument
      reads this
    {
      Argument(thisArgIndex, thisArg, thisArgSize)
    }

    /** The walk has moved on. */
    ghost predicate Further(k: nat, b: nat)
      reads this
    {
      word == k + 1 || (word == k && bit > b)
    }

    /** What a round leaves for the next one. */
    ghost predicate Goes(r: Option<Status>, k: nat, b: nat)
      reads this
    {
      && (r in {None, Some(Ok)} ==> Valid() && Further(k, b))
      && (r == Some(Ok) ==> Returned())
    }

    /** Takes a field that the table knows. */
    method TakeField(align: nat, size: nat) returns (r: Status)
      requires Valid() && bit < RADIOTAP_NAMESPACE && Bit(Present(rtheader, word), bit)
      requires EntryOf(Table(), current.Radiotap?, bit, argIndex) == Take(align, size)
      modifies this`arg, this`thisArg, this`thisArgIndex, this`thisArgSize, this`shifter, this`argIndex, this`bit,
        this`ahead
      ensures r in {Ok, Invalid} && Goes(Some(r), word, old(bit)) && Outcome(old(ahead), Some(r))
    {
      hide Last, Tour, EntryOf, Aligned, Bit, PowerOfTwo, OnBoundary, Sound, Marked, Present;
      Stands();
      ghost var hd, sp := Head(), Here();
      TakenEntry(Table(), current.Radiotap?, bit, argIndex, arg);
      TourTakes(hd, sp, align, size);
      var inside := PlaceField(align, size);
      if !inside { return Invalid; }
      NextEntry();
      assert Head() == hd && Here() == sp.(b := sp.b + 1, at := arg);
      ahead := (ahead.0[1..], ahead.1);
      return Ok;
    }

    /** Aligns and records the head of a vendor namespace. */
    method RecordVendor() returns (inside: bool)
      requires maxLength <= |rtheader|
      modifies this`arg, this`current, this`nextNsData, this`thisArg, this`thisArgIndex, this`thisArgSize
      ensures var a := RoundUp(old(arg), 2);
        if a + 6 > maxLength then !inside
        else
          && current == Registered(Listed(vns), Oui(rtheader, a), rtheader[a + 3])
          && nextNsData == Some(a + 6 + Le16(rtheader, a + 4))
          && thisArg == a && thisArgSize == (if current == Unknown then nextNsData.value - a else 6)
          && arg == a + thisArgSize && inside == (arg <= maxLength)
    {
      hide Registered, Oui, Le16;
      SkipPadding(2);
      var size;
      inside, size := EnterVendor(6);
      if inside { inside := Record(size); }
    }

    /** Takes the head of a vendor namespace. */
    method TakeVendor() returns (r: Option<Status>)
      requires Valid() && bit == VENDOR_NAMESPACE && Bit(Present(rtheader, word), bit)
      modifies this`arg, this`current, this`nextNsData, this`thisArg, this`thisArgIndex, this`thisArgSize,
        this`shifter, this`argIndex, this`bit, this`resetOnExt, this`isRadiotapNs, this`ahead
      ensures r in {None, Some(Ok), Some(Invalid)} && Goes(r, word, old(bit)) && Outcome(old(ahead), r)
    {
      hide Last, Tour, Registered, Bit, Sound, Marked, Present, Shifted, Oui, Le16;
      Stands();
      TourVendor(Head(), Here());
      var inside := RecordVendor();
      if !inside { return Some(Invalid); }
      LeaveVendor();
      if current != Unknown { return None; }
      ahead := (ahead.0[1..], ahead.1);
      return Some(Ok);
    }

    method LeaveVendor()
      requires Sound() && bit == VENDOR_NAMESPACE && Bit(Present(rtheader, word), bit)
      modifies this`thisArgIndex, this`shifter, this`argIndex, this`bit, this`resetOnExt, this`isRadiotapNs
      ensures Sound() && argIndex == old(argIndex) + 1 && bit == old(bit) + 1 && thisArgIndex == VENDOR_NAMESPACE
      ensures resetOnExt && Marked() && !isRadiotapNs
    {
      hide Last;
      resetOnExt := true;
      isRadiotapNs := false;
      thisArgIndex := VENDOR_NAMESPACE;
      NextEntry();
    }

    /** Goes back to the radiotap namespace. */
    method TakeNamespace() returns (r: Option<Status>)
      requires Valid() && bit == RADIOTAP_NAMESPACE && Bit(Present(rtheader, word), bit)
      modifies this`arg, this`current, this`thisArg, this`thisArgIndex, this`thisArgSize,
        this`shifter, this`argIndex, this`bit, this`resetOnExt, this`isRadiotapNs
      ensures r in {None, Some(Invalid)} && Goes(r, word, old(bit)) && Outcome(old(ahead), r)
    {
      hide Last, Tour, Bit, Sound, Marked, Present;
      Stands();
      TourNamespace(Head(), Here());
      var inside := PlaceField(1, 0);
      if !inside { return Some(Invalid); }
      resetOnExt := true;
      current := Radiotap;
      isRadiotapNs := true;
      NextEntry();
      return None;
    }

    /** Goes on to the next present word. */
    method TakeExt() returns (r: Option<Status>)
      requires Valid() && bit == EXT && Bit(Present(rtheader, word), bit)
      modifies this`arg, this`thisArg, this`thisArgIndex, this`thisArgSize,
        this`shifter, this`argIndex, this`bit, this`nextBitmap, this`word, this`resetOnExt
      ensures r in {None, Some(Invalid)} && Goes(r, old(word), old(bit)) && Outcome(old(ahead), r)
    {
      hide Last, Tour, Bit, Present;
      TourExt(Head(), Here());
      var inside := PlaceField(1, 0);
      if !inside { return Some(Invalid); }
      NextWord();
      return None;
    }

    /** Passes a bit that is not set, unless no present word is left. */
    method PassClear() returns (r: Option<Status>)
      requires Valid() && !Bit(Present(rtheader, word), bit)
      modifies this`shifter, this`argIndex, this`bit
      ensures r in {None, Some(NoEntry)} && Goes(r, word, old(bit)) && Outcome(old(ahead), r)
    {
      hide Last, Tour, Bit, Present;
      TourClear(Head(), Here());
      if argIndex % 32 == EXT { return Some(NoEntry); }
      NextEntry();
      return None;
    }

    /** Takes an entry that is present. */
    method TakeEntry(align: nat, size: nat) returns (r: Option<Status>)
      requires Valid() && Bit(Present(rtheader, word), bit)
      requires EntryOf(Table(), current.Radiotap?, bit, argIndex) == Take(align, size)
      modifies this`arg, this`current, this`nextNsData, this`thisArg, this`thisArgIndex, this`thisArgSize, this`shifter,
        this`argIndex, this`bit, this`nextBitmap, this`word, this`resetOnExt, this`isRadiotapNs, this`ahead
      ensures Goes(r, old(word), old(bit)) && Outcome(old(ahead), r)
    {
      hide Last, Tour;
      var b := argIndex % 32;
      if b < RADIOTAP_NAMESPACE {
        var status := TakeField(align, size);
        r := Some(status);
      } else if b == VENDOR_NAMESPACE {
        r := TakeVendor();
      } else if b == RADIOTAP_NAMESPACE {
        r := TakeNamespace();
      } else {
        r := TakeExt();
      }
    }

    /** One round of the walk: Some if it ends the call. */
    method Visit() returns (r: Option<Status>)
      requires Valid()
      modifies this`arg, this`current, this`nextNsData, this`thisArg, this`thisArgIndex, this`thisArgSize, this`shifter,
        this`argIndex, this`bit, this`nextBitmap, this`word, this`resetOnExt, this`isRadiotapNs, this`ahead
      ensures Goes(r, old(word), old(bit)) && Outcome(old(ahead), r)
    {
      hide Last, Tour;
      if shifter % 2 == 0 {
        r := PassClear();
        return;
      }
      match EntryOf(Table(), current.Radiotap?, argIndex % 32, argIndex)
      case Stop =>
        TourField(Head(), Here());
        return Some(NoEntry);
      case Skip => r := GiveUp();
      case Take(align, size) => r := TakeEntry(align, size);
    }

    /** The next argument (Ok), no more arguments (NoEntry), or something wrong (Invalid): what is ahead
        on the walk. */
    method Next() returns (r: Status)
      requires Valid()
      modifies this`arg, this`current, this`nextNsData, this`thisArg, this`thisArgIndex, this`thisArgSize, this`shifter,
        this`argIndex, this`bit, this`nextBitmap, this`word, this`resetOnExt, this`isRadiotapNs, this`ahead
      ensures r == Ok ==> Valid() && Returned() && (word > old(word) || (word == old(word) && bit > old(bit)))
      ensures Outcome(old(ahead), Some(r))
    {
      hide Last, Tour;
      while true
        invariant Valid() && (word > old(word) || (word == old(word) && bit >= old(bit)))
        invariant Outcome(old(ahead), None)
        decreases last - word, 32 - bit
      {
        var done := Visit();
        if done.Some? { return done.value; }
      }
    }
  }

  // ----- Whole runs

  /** The arguments of a header, until there are no more or something is wrong: all that is ahead. */
  method Collect(it: Iterator) returns (args: seq<Argument>, status: Status)
    requires it.Valid()
    modifies it
    ensures (args, status) == old(it.ahead)
  {
    hide Last, Tour;
    args, status := [], Ok;
    ghost var goal := it.ahead;
    assert [] + goal.0 == goal.0;
    while status == Ok
      invariant if status == Ok then it.Valid() && goal == (args + it.ahead.0, it.ahead.1) else (args, status) == goal
      decreases status == Ok, it.last - it.word, 32 - it.bit
    {
      ghost var before := it.ahead;
      status := it.Next();
      CollectMore(args, before.0, it.This());
      if status == Ok { args := args + [it.This()]; }
    }
  }

  lemma CollectMore(args: seq<Argument>, before: seq<Argument>, x: Argument)
    ensures args + [] == args && args <= args + [x]
    ensures before != [] && x == before[0] ==> args + before == (args + [x]) + before[1..]
  {}

  /** A run through a header returns what the walk does, vendor namespaces included.  So it takes up the
      unset pointer if and only if some word asks for field 18; and a plain header yields exactly its
      fields, laid out behind the last present word. */
  method ReadArguments(header: seq<Byte>, length: int, vendors: Option<seq<Namespace>>)
    returns (args: seq<Argument>, status: Status)
    requires length <= |header|
    ensures !Acceptable(header, length) ==> args == [] && status == Invalid
    ensures Acceptable(header, length) ==>
      var hd := Header(RadiotapSizes(), Listed(vendors), header, Le16(header, 2));
      (args, status) == Tour(hd, Begin(header, hd.len)) && Reads(RadiotapSizes(), header, hd.len, args, status)
  {
    hide Last, Aligning, Reads, Tour;
    var it := new Iterator();
    status := it.Init(header, length, vendors);
    args := [];
    if status == Ok {
      args, status := Collect(it);
      TourReads(Header(RadiotapSizes(), Listed(vendors), header, Le16(header, 2)));
    }
  }

  ghost predicate Reads(t: seq<AlignSize>, h: seq<Byte>, len: nat, args: seq<Argument>, status: Status)
    requires len <= |h| && HEADER_SIZE <= |h| && Last(h, len, 0).Some?
  {
    && Inside(args, len)
    && Continues((args, status), Walk(t, h, len, 0, 0, true, DataStart(h, len)))
    && (status == Unset <==> exists g: nat :: AsksForGap(t, h, len, g))
    && (Plain(t, h, len, 0) ==> AllKnown(t, Pending(h, len, 0, 0)))
    && (Plain(t, h, len, 0) ==> (args, status) == Layout(t, Pending(h, len, 0, 0), DataStart(h, len), len))
  }

  /** What the walk does until it enters a vendor namespace, holds of a whole run. */
  lemma TourReads(hd: Header)
    requires hd.len <= |hd.h| && HEADER_SIZE <= |hd.h| && Last(hd.h, hd.len, 0).Some? && Aligning(hd.t)
    ensures var (args, status) := Tour(hd, Begin(hd.h, hd.len)); Reads(hd.t, hd.h, hd.len, args, status)
  {
    hide Walk, Tour, AsksForGap, Plain, Pending, Layout, Aligning;
    TourInside(hd, Begin(hd.h, hd.len));
    TourWalk(hd, Begin(hd.h, hd.len), true);
    GapExactly(hd.t, hd.h, hd.len);
    if Plain(hd.t, hd.h, hd.len, 0) { PlainWalk(hd.t, hd.h, hd.len, 0, 0, DataStart(hd.h, hd.len)); }
  }
}
