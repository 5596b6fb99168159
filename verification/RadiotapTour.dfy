/** The walk through a whole radiotap header, vendor namespaces included: which arguments it returns,
    and how it ends. */
module RadiotapTour {
  import opened Common
  import opened Machine
  import opened RadiotapHeader

  // ----- Namespaces and entries

  datatype Namespace = Namespace(alignSize: seq<AlignSize>, oui: nat, subns: Byte)
  datatype Current = Unknown | Radiotap | Vendor(ns: Namespace)

  predicate Names(ns: Namespace, oui: nat, subns: Byte) { ns.oui == oui && ns.subns == subns }

  /** The first registered namespace with these numbers. */
  function Registered(vns: seq<Namespace>, oui: nat, subns: Byte): (r: Current)
    ensures r != Radiotap
  {
    if vns == [] then Unknown
    else if Names(vns[0], oui, subns) then Vendor(vns[0])
    else Registered(vns[1..], oui, subns)
  }

  lemma {:induction false} RegisteredFirst(vns: seq<Namespace>, oui: nat, subns: Byte, i: nat)
    requires i <= |vns| && (forall j :: 0 <= j < i ==> !Names(vns[j], oui, subns))
    ensures i == |vns| ==> Registered(vns, oui, subns) == Unknown
    ensures i < |vns| && Names(vns[i], oui, subns) ==> Registered(vns, oui, subns) == Vendor(vns[i])
  {
    if i > 0 { RegisteredFirst(vns[1..], oui, subns, i - 1); }
  }

  lemma {:induction false} AndAtMost(a: nat, b: nat, width: nat)
    ensures Bitwise(AND, a, b, width) <= b
  {
    if width > 0 { AndAtMost(a / 2, b / 2, width - 1); }
  }

  /** How far an offset is from being aligned, as the source computes it. */
  function Pad(at: nat, align: nat): (r: nat)
    requires 0 < align < 16
    ensures r < align
    ensures PowerOfTwo(align) ==> r == at % align
  {
    AndAtMost(at, align - 1, 4);
    PadOfPower(at, align);
    Bitwise(AND, at, align - 1, 4)
  }

  lemma PadOfPower(at: nat, align: nat)
    requires align > 0
    ensures PowerOfTwo(align) ==> Bitwise(AND, at, align - 1, 4) == at % align
  {
    assert Pow2(0) == 1 && Pow2(1) == 2 && Pow2(2) == 4 && Pow2(3) == 8;
    if PowerOfTwo(align) {
      MaskLow(at, if align == 1 then 0 else if align == 2 then 1 else if align == 4 then 2 else 3, 4);
    }
  }

  function Aligned(at: nat, align: nat): (r: nat)
    requires 0 < align < 16
    ensures at <= r < at + align
    ensures PowerOfTwo(align) ==> r == RoundUp(at, align)
    ensures align == 1 ==> r == at
  {
    if Pad(at, align) > 0 then at + (align - Pad(at, align)) else at
  }

  /** What the tables say about an entry: where it goes, that nothing is known about it, or that
      the walk ends. */
  datatype Entry = Stop | Skip | Take(align: nat, size: nat)

  /** For bit b, argument i, of the radiotap namespace or of another one with table t. */
  function EntryOf(t: seq<AlignSize>, radiotap: bool, b: nat, i: nat): (e: Entry)
    ensures e.Take? ==> 0 < e.align < 16
  {
    if b == RADIOTAP_NAMESPACE || b == EXT then Take(1, 0)
    else if b == VENDOR_NAMESPACE then Take(2, 6)
    else if i >= |t| then (if radiotap then Stop else Skip)
    else if t[i].align == 0 then Skip
    else Take(t[i].align, t[i].size)
  }

  function TableOf(t: seq<AlignSize>, ns: Current): seq<AlignSize> {
    match ns case Unknown => [] case Radiotap => t case Vendor(v) => v.alignSize
  }

  // ----- The walk

  /** Where the walk is: at bit b of present word k, whose arguments are counted from base, and at
      offset `at` of the data, in a namespace; the data of the last vendor namespace ends at next. */
  datatype Spot = Spot(k: nat, b: nat, base: nat, at: nat, ns: Current, next: Option<nat>)

  /** A header, the length that it states, the table of its own namespace, and the vendors'. */
  datatype Header = Header(t: seq<AlignSize>, vns: seq<Namespace>, h: seq<Byte>, len: nat)
  {
    ghost predicate Has(s: Spot) {
      len <= |h| && HEADER_SIZE + 4 * s.k <= |h| && Last(h, len, s.k).Some? && s.b < 32
    }
  }

  /** Present words after one with a namespace mark count from 0. */
  predicate Resets(w: nat) { Bit(w, RADIOTAP_NAMESPACE) || Bit(w, VENDOR_NAMESPACE) }

  predicate Inside(args: seq<Argument>, len: nat) {
    forall i :: 0 <= i < |args| ==> args[i].offset + args[i].size <= len
  }

  function Returning(x: Argument, rest: (seq<Argument>, Status)): (seq<Argument>, Status) { ([x] + rest.0, rest.1) }

  function Oui(h: seq<Byte>, a: nat): nat
    requires a + 3 <= |h|
  {
    h[a] as int * 0x1_0000 + h[a + 1] as int * 0x100 + h[a + 2] as int
  }

  /** The arguments that the walk returns, and its end. */
  function Tour(hd: Header, s: Spot): (r: (seq<Argument>, Status))
    requires hd.Has(s)
    ensures r.1 != Ok
    decreases |hd.h| - 4 * s.k, 32 - s.b
  {
    var w := Present(hd.h, s.k);
    if !Bit(w, s.b) then
      if s.b == EXT then ([], NoEntry) else Tour(hd, s.(b := s.b + 1))
    else if s.b == RADIOTAP_NAMESPACE then
      if s.at > hd.len then ([], Invalid) else Tour(hd, s.(b := s.b + 1, ns := Radiotap))
    else if s.b == VENDOR_NAMESPACE then
      var a := RoundUp(s.at, 2);
      if a + 6 > hd.len then ([], Invalid) else
        var ns := Registered(hd.vns, Oui(hd.h, a), hd.h[a + 3]);
        var end := a + 6 + Le16(hd.h, a + 4);
        if ns != Unknown then Tour(hd, Spot(s.k, EXT, s.base, a + 6, ns, Some(end)))
        else if end > hd.len then ([], Invalid)
        else Returning(Argument(VENDOR_NAMESPACE, a, end - a), Tour(hd, Spot(s.k, EXT, s.base, end, ns, Some(end))))
    else if s.b == EXT then
      if s.at > hd.len then ([], Invalid)
      else Tour(hd, Spot(s.k + 1, 0, if Resets(w) then 0 else s.base + 32, s.at, s.ns, s.next))
    else
      match EntryOf(TableOf(hd.t, s.ns), s.ns.Radiotap?, s.b, s.base + s.b)
      case Stop => ([], NoEntry)
      case Skip =>
        (match s.next
         case None => ([], Unset)
         case Some(end) => Tour(hd, s.(b := s.b + 1, at := end, ns := Unknown)))
      case Take(align, size) =>
        var a := Aligned(s.at, align);
        if a + size > hd.len then ([], Invalid)
        else Returning(Argument(s.base + s.b, a, size), Tour(hd, s.(b := s.b + 1, at := a + size)))
  }

  /** A header's walk starts behind its present words, in the radiotap namespace. */
  function Begin(h: seq<Byte>, len: nat): Spot
    requires HEADER_SIZE <= |h| && len <= |h| && Last(h, len, 0).Some?
  {
    Spot(0, 0, 0, DataStart(h, len), Radiotap, None)
  }

  // ----- One step

  lemma TourClear(hd: Header, s: Spot)
    requires hd.Has(s) && !Bit(Present(hd.h, s.k), s.b)
    ensures Tour(hd, s) == if s.b == EXT then ([], NoEntry) else Tour(hd, s.(b := s.b + 1))
  {}

  lemma TourNamespace(hd: Header, s: Spot)
    requires hd.Has(s) && s.b == RADIOTAP_NAMESPACE && Bit(Present(hd.h, s.k), s.b)
    ensures Tour(hd, s) == if s.at > hd.len then ([], Invalid) else Tour(hd, s.(b := s.b + 1, ns := Radiotap))
  {}

  lemma TourExt(hd: Header, s: Spot)
    requires hd.Has(s) && s.b == EXT && Bit(Present(hd.h, s.k), s.b)
    ensures hd.Has(s.(k := s.k + 1, b := 0))
    ensures Tour(hd, s) ==
      if s.at > hd.len then ([], Invalid)
      else Tour(hd, Spot(s.k + 1, 0, if Resets(Present(hd.h, s.k)) then 0 else s.base + 32, s.at, s.ns, s.next))
  {}

  lemma TourField(hd: Header, s: Spot)
    requires hd.Has(s) && s.b < RADIOTAP_NAMESPACE && Bit(Present(hd.h, s.k), s.b)
    ensures Tour(hd, s) ==
      match EntryOf(TableOf(hd.t, s.ns), s.ns.Radiotap?, s.b, s.base + s.b)
      case Stop => ([], NoEntry)
      case Skip =>
        (match s.next
         case None => ([], Unset)
         case Some(end) => Tour(hd, s.(b := s.b + 1, at := end, ns := Unknown)))
      case Take(align, size) =>
        var a := Aligned(s.at, align);
        if a + size > hd.len then ([], Invalid)
        else Returning(Argument(s.base + s.b, a, size), Tour(hd, s.(b := s.b + 1, at := a + size)))
  {}

  /** A field that the table has is the first argument ahead, if it fits. */
  lemma TourTakes(hd: Header, s: Spot, align: nat, size: nat)
    requires hd.Has(s) && s.b < RADIOTAP_NAMESPACE && Bit(Present(hd.h, s.k), s.b)
    requires EntryOf(TableOf(hd.t, s.ns), s.ns.Radiotap?, s.b, s.base + s.b) == Take(align, size)
    ensures var a, r := Aligned(s.at, align), Tour(hd, s);
      if a + size > hd.len then r == ([], Invalid)
      else
        && r.0 != [] && r.0[0] == Argument(s.base + s.b, a, size)
        && (r.0[1..], r.1) == Tour(hd, s.(b := s.b + 1, at := a + size))
  {
    TourField(hd, s);
    hide Tour, EntryOf, Bit, Aligned;
  }

  lemma TourVendor(hd: Header, s: Spot)
    requires hd.Has(s) && s.b == VENDOR_NAMESPACE && Bit(Present(hd.h, s.k), s.b)
    ensures var a := RoundUp(s.at, 2);
      Tour(hd, s) ==
        if a + 6 > hd.len then ([], Invalid) else
          var ns := Registered(hd.vns, Oui(hd.h, a), hd.h[a + 3]);
          var end := a + 6 + Le16(hd.h, a + 4);
          if ns != Unknown then Tour(hd, Spot(s.k, EXT, s.base, a + 6, ns, Some(end)))
          else if end > hd.len then ([], Invalid)
          else Returning(Argument(VENDOR_NAMESPACE, a, end - a), Tour(hd, Spot(s.k, EXT, s.base, end, ns, Some(end))))
  {}

  /** Bits that are not set are passed. */
  lemma {:induction false} TourPasses(hd: Header, s: Spot, b: nat)
    requires hd.Has(s) && s.b <= b < 32 && forall i: nat :: s.b <= i < b ==> !Bit(Present(hd.h, s.k), i)
    ensures Tour(hd, s) == Tour(hd, s.(b := b))
    decreases b - s.b
  {
    hide Tour;
    if s.b < b {
      TourClear(hd, s);
      TourPasses(hd, s.(b := s.b + 1), b);
    } else {
      assert s.(b := b) == s;
    }
  }

  /** Every argument lies inside the header; and behind a vendor namespace no pointer is unset. */
  lemma {:induction false} TourInside(hd: Header, s: Spot)
    requires hd.Has(s)
    ensures Inside(Tour(hd, s).0, hd.len) && (s.next.Some? ==> Tour(hd, s).1 != Unset)
    decreases |hd.h| - 4 * s.k, 32 - s.b, 1
  {
    hide Tour, Bit;
    var w := Present(hd.h, s.k);
    if !Bit(w, s.b) {
      TourClear(hd, s);
      if s.b < EXT { TourInside(hd, s.(b := s.b + 1)); }
    } else if s.b == RADIOTAP_NAMESPACE {
      TourNamespace(hd, s);
      TourInside(hd, s.(b := s.b + 1, ns := Radiotap));
    } else if s.b == VENDOR_NAMESPACE {
      VendorInside(hd, s);
    } else if s.b == EXT {
      TourExt(hd, s);
      TourInside(hd, Spot(s.k + 1, 0, if Resets(w) then 0 else s.base + 32, s.at, s.ns, s.next));
    } else {
      TourField(hd, s);
      match EntryOf(TableOf(hd.t, s.ns), s.ns.Radiotap?, s.b, s.base + s.b)
      case Stop =>
      case Skip => if s.next.Some? { TourInside(hd, s.(b := s.b + 1, at := s.next.value, ns := Unknown)); }
      case Take(align, size) => TourInside(hd, s.(b := s.b + 1, at := Aligned(s.at, align) + size));
    }
  }

  lemma {:induction false} VendorInside(hd: Header, s: Spot)
    requires hd.Has(s) && s.b == VENDOR_NAMESPACE && Bit(Present(hd.h, s.k), s.b)
    ensures Inside(Tour(hd, s).0, hd.len) && Tour(hd, s).1 in {NoEntry, Invalid}
    decreases |hd.h| - 4 * s.k, 32 - s.b, 0
  {
    hide Tour, Bit;
    TourVendor(hd, s);
    var a := RoundUp(s.at, 2);
    if a + 6 <= hd.len {
      var ns, end := Registered(hd.vns, Oui(hd.h, a), hd.h[a + 3]), a + 6 + Le16(hd.h, a + 4);
      TourInside(hd, Spot(s.k, EXT, s.base, if ns == Unknown then end else a + 6, ns, Some(end)));
    }
  }

  // ----- Vendor namespaces

  /** The head of a vendor namespace that somebody registered, at the first even offset a, is six bytes:
      three of an identifier, most significant first, one of a sub-namespace, and two of the length of
      the data, least significant first.  The walk goes on behind it, by the table of the first
      registered namespace with these numbers. */
  lemma KnownVendor(hd: Header, s: Spot, a: nat, i: nat)
    requires hd.Has(s) && s.b == 30 && Bit(Present(hd.h, s.k), 30) && a % 2 == 0 && s.at <= a <= s.at + 1
    requires a + 6 <= hd.len && i < |hd.vns| && VendorIs(hd, a, hd.vns[i])
    requires forall j :: 0 <= j < i ==> !VendorIs(hd, a, hd.vns[j])
    ensures var length := hd.h[a + 4] as int + 256 * hd.h[a + 5] as int;
      Tour(hd, s) == Tour(hd, Spot(s.k, 31, s.base, a + 6, Vendor(hd.vns[i]), Some(a + 6 + length)))
  {
    TourVendor(hd, s);
    RegisteredFirst(hd.vns, hd.vns[i].oui, hd.vns[i].subns, i);
    hide Tour, Registered;
    assert RoundUp(s.at, 2) == a;
  }

  predicate VendorIs(hd: Header, a: nat, ns: Namespace)
    requires a + 6 <= hd.len <= |hd.h|
  {
    && ns.oui == (hd.h[a] as int * 256 + hd.h[a + 1] as int) * 256 + hd.h[a + 2] as int
    && ns.subns == hd.h[a + 3]
  }

  /** If nobody registered it, the head and its data are one argument, number 30, and the walk goes on
      behind the data; unless the data runs out of the header. */
  lemma UnknownVendor(hd: Header, s: Spot, a: nat)
    requires hd.Has(s) && s.b == 30 && Bit(Present(hd.h, s.k), 30) && a % 2 == 0 && s.at <= a <= s.at + 1
    requires a + 6 <= hd.len && forall j :: 0 <= j < |hd.vns| ==> !VendorIs(hd, a, hd.vns[j])
    ensures var end := a + 6 + hd.h[a + 4] as int + 256 * hd.h[a + 5] as int;
      Tour(hd, s) ==
        if end > hd.len then ([], Invalid)
        else
          var (rest, status) := Tour(hd, Spot(s.k, 31, s.base, end, Unknown, Some(end)));
          ([Argument(30, a, end - a)] + rest, status)
  {
    TourVendor(hd, s);
    RegisteredFirst(hd.vns, Oui(hd.h, a), hd.h[a + 3], |hd.vns|);
    hide Tour, Registered;
    assert RoundUp(s.at, 2) == a;
  }

  /** The fields of a present word of such a namespace are passed, and so is its data. */
  lemma {:induction false} UnknownFields(hd: Header, s: Spot)
    requires hd.Has(s) && s.b <= 29 && s.ns == Unknown && s.next.Some?
    ensures var none := Fields(Present(hd.h, s.k), s.b, 29) == [];
      Tour(hd, s) == Tour(hd, s.(b := 29, at := if none then s.at else s.next.value))
    decreases 29 - s.b
  {
    hide Tour, Bit;
    var w := Present(hd.h, s.k);
    FieldsStep(w, s.b, 29, []);
    if s.b == 29 {
      assert s.(b := 29, at := s.at) == s;
    } else if Bit(w, s.b) {
      TourField(hd, s);
      UnknownFields(hd, s.(b := s.b + 1, at := s.next.value));
    } else {
      TourClear(hd, s);
      UnknownFields(hd, s.(b := s.b + 1));
    }
  }

  /** A field that the table of the namespace does not have.  In a vendor namespace, and at the gap of the
      radiotap namespace, the walk gives up on the namespace and goes behind the data of the last vendor
      namespace; before there was one, it takes up the unset pointer.  Behind the table of the radiotap
      namespace it ends. */
  lemma MissingField(hd: Header, s: Spot)
    requires hd.Has(s) && s.b < 29 && Bit(Present(hd.h, s.k), s.b) && !Known(TableOf(hd.t, s.ns), s.base + s.b)
    ensures Tour(hd, s) ==
      if s.ns == Radiotap && s.base + s.b >= |hd.t| then ([], NoEntry)
      else if s.next.None? then ([], Unset)
      else Tour(hd, s.(b := s.b + 1, at := s.next.value, ns := Unknown))
  {
    TourField(hd, s);
    hide Tour, Bit;
  }

  predicate AllAligned(t: seq<AlignSize>, fields: seq<nat>) {
    forall i :: 0 <= i < |fields| ==> Known(t, fields[i]) && PowerOfTwo(t[fields[i]].align)
  }

  /** The walk returns these arguments of its word, and goes on behind them if they all fit. */
  ghost predicate LaysOut(hd: Header, s: Spot, laid: (seq<Argument>, Status))
    requires hd.Has(s)
  {
    Tour(hd, s) ==
      if laid.1 == Invalid then laid
      else
        var rest := Tour(hd, s.(b := 29, at := Before(laid.0, s.at, |laid.0|)));
        (laid.0 + rest.0, rest.1)
  }

  /** The fields of a word that is counted from 0 are laid out by the table of its namespace, whichever
      it is, when the table has them. */
  lemma {:induction false} KnownFields(hd: Header, s: Spot)
    requires hd.Has(s) && s.b <= 29 && s.base == 0
    requires AllAligned(TableOf(hd.t, s.ns), Fields(Present(hd.h, s.k), s.b, 29))
    ensures AllKnown(TableOf(hd.t, s.ns), Fields(Present(hd.h, s.k), s.b, 29))
    ensures LaysOut(hd, s, Layout(TableOf(hd.t, s.ns), Fields(Present(hd.h, s.k), s.b, 29), s.at, hd.len))
    decreases 29 - s.b
  {
    hide Tour, Bit, LaysOut, Layout, AllAligned, EntryOf, Place, Aligned;
    var w, t := Present(hd.h, s.k), TableOf(hd.t, s.ns);
    var more := Fields(w, s.b + 1, 29);
    FieldsStep(w, s.b, 29, []);
    if s.b == 29 {
      NothingLaid(hd, s, t);
    } else if !Bit(w, s.b) {
      TourClear(hd, s);
      KnownFields(hd, s.(b := s.b + 1));
      LaidBehind(hd, s, Layout(t, more, s.at, hd.len));
    } else {
      assert Fields(w, s.b, 29) == [s.b] + more;
      TourField(hd, s);
      FieldTaken(hd, s, t, more);
      var x := Place(t, s.b, s.at);
      if x.offset + x.size <= hd.len {
        KnownFields(hd, s.(b := s.b + 1, at := x.offset + x.size));
        LaidMore(hd, s, x, Layout(t, more, x.offset + x.size, hd.len));
      } else {
        NoneFits(hd, s);
      }
    }
  }

  lemma NothingLaid(hd: Header, s: Spot, t: seq<AlignSize>)
    requires hd.Has(s) && s.b == 29
    ensures AllKnown(t, []) && LaysOut(hd, s, Layout(t, [], s.at, hd.len))
  {
    hide Tour;
    assert s.(b := 29, at := s.at) == s;
    assert [] + Tour(hd, s).0 == Tour(hd, s).0;
  }

  lemma LaidBehind(hd: Header, s: Spot, laid: (seq<Argument>, Status))
    requires hd.Has(s) && s.b < 29 && Tour(hd, s) == Tour(hd, s.(b := s.b + 1))
    requires LaysOut(hd, s.(b := s.b + 1), laid)
    ensures LaysOut(hd, s, laid)
  {
    hide Tour;
  }

  lemma LaidMore(hd: Header, s: Spot, x: Argument, laid: (seq<Argument>, Status))
    requires hd.Has(s) && s.b < 29
    requires var s' := s.(b := s.b + 1, at := x.offset + x.size);
      Tour(hd, s) == Returning(x, Tour(hd, s')) && LaysOut(hd, s', laid)
    ensures LaysOut(hd, s, Returning(x, laid))
  {
    hide Tour;
    BeforeMore(x, laid.0, s.at);
  }

  lemma NoneFits(hd: Header, s: Spot)
    requires hd.Has(s) && Tour(hd, s) == ([], Invalid)
    ensures LaysOut(hd, s, ([], Invalid))
  {}

  lemma FieldTaken(hd: Header, s: Spot, t: seq<AlignSize>, more: seq<nat>)
    requires s.b < 29 && t == TableOf(hd.t, s.ns) && AllAligned(t, [s.b] + more)
    ensures AllAligned(t, more) && Known(t, s.b) && AllKnown(t, [s.b] + more)
    ensures EntryOf(t, s.ns.Radiotap?, s.b, s.b) == Take(t[s.b].align, t[s.b].size)
    ensures Argument(s.b, Aligned(s.at, t[s.b].align), t[s.b].size) == Place(t, s.b, s.at)
    ensures var x := Place(t, s.b, s.at);
      Layout(t, [s.b] + more, s.at, hd.len) ==
        if x.offset + x.size > hd.len then ([], Invalid)
        else Returning(x, Layout(t, more, x.offset + x.size, hd.len))
  {
    var f := [s.b] + more;
    assert f[1..] == more;
    assert Known(t, f[0]) && PowerOfTwo(t[f[0]].align);
    forall i | 0 <= i < |more| ensures Known(t, more[i]) && PowerOfTwo(t[more[i]].align) { assert f[i + 1] == more[i]; }
  }

  lemma BeforeMore(x: Argument, args: seq<Argument>, at: nat)
    ensures Before([x] + args, at, |[x] + args|) == Before(args, x.offset + x.size, |args|)
    ensures forall rest: seq<Argument> :: [x] + (args + rest) == ([x] + args) + rest
  {}

  // ----- The walk up to the first vendor namespace

  /** The walk before a vendor namespace is the beginning of this one, or all of it. */
  predicate Continues(r: (seq<Argument>, Status), walk: (seq<Argument>, Fate)) {
    match walk.1
    case Ends(status) => r == (walk.0, status)
    case EntersVendor => walk.0 <= r.0 && r.1 in {NoEntry, Invalid}
  }

  lemma {:induction false} TourWalk(hd: Header, s: Spot, zero: bool)
    requires hd.Has(s) && Aligning(hd.t) && s.ns == Radiotap && s.next == None
    requires if zero then s.base == 0 else s.base >= 32
    requires s.b <= VENDOR_NAMESPACE || !Bit(Present(hd.h, s.k), VENDOR_NAMESPACE)
    ensures Continues(Tour(hd, s), Walk(hd.t, hd.h, hd.len, s.k, s.b, zero, s.at))
    decreases |hd.h| - 4 * s.k, 32 - s.b
  {
    hide Tour, Walk, Bit, Aligning;
    var w := Present(hd.h, s.k);
    if !Bit(w, s.b) {
      TourClear(hd, s);
      WalkClear(hd.t, hd.h, hd.len, s.k, s.b, zero, s.at);
      if s.b < EXT { TourWalk(hd, s.(b := s.b + 1), zero); }
    } else if s.b == VENDOR_NAMESPACE {
      WalkEnds(hd.t, hd.h, hd.len, s.k, s.b, zero, s.at);
      VendorInside(hd, s);
    } else if s.b >= RADIOTAP_NAMESPACE {
      WalkMark(hd.t, hd.h, hd.len, s.k, s.b, zero, s.at);
      if s.b == EXT {
        TourExt(hd, s);
        if s.at <= hd.len {
          var zero' := Bit(w, RADIOTAP_NAMESPACE);
          TourWalk(hd, Spot(s.k + 1, 0, if zero' then 0 else s.base + 32, s.at, s.ns, s.next), zero');
        }
      } else {
        TourNamespace(hd, s);
        if s.at <= hd.len { TourWalk(hd, s.(b := s.b + 1), zero); }
      }
    } else {
      TourField(hd, s);
      WalkField(hd.t, hd.h, hd.len, s.k, s.b, zero, s.at);
      WalkTakes(hd, s, zero);
      if zero && Known(hd.t, s.b) {
        var x := Place(hd.t, s.b, s.at);
        if x.offset + x.size <= hd.len { TourWalk(hd, s.(b := s.b + 1, at := x.offset + x.size), zero); }
      }
    }
  }

  /** What the table says of a field before any vendor namespace. */
  lemma WalkTakes(hd: Header, s: Spot, zero: bool)
    requires Aligning(hd.t) && s.b < RADIOTAP_NAMESPACE && s.ns == Radiotap
    requires if zero then s.base == 0 else s.base >= 32
    ensures EntryOf(TableOf(hd.t, s.ns), s.ns.Radiotap?, s.b, s.base + s.b) ==
      if !zero || s.b >= |hd.t| then Stop
      else if hd.t[s.b].align == 0 then Skip else Take(hd.t[s.b].align, hd.t[s.b].size)
    ensures zero && Known(hd.t, s.b) ==>
      Argument(s.base + s.b, Aligned(s.at, hd.t[s.b].align), hd.t[s.b].size) == Place(hd.t, s.b, s.at)
  {}

  // ----- A header with a vendor namespace that nobody registered

  lemma {:induction false} ShiftedTimes(c: nat, n: nat, i: nat)
    requires i <= n
    ensures Shifted(c * Pow2(n), i) == c * Pow2(n - i)
  {
    if i == 0 {
      assert n - i == n;
    } else {
      ShiftedTimes(c, n, i - 1);
      TimesTwo(c, n - i);
      HalfOf(c * Pow2(n - i + 1), c * Pow2(n - i), 0);
    }
  }

  lemma TimesTwo(c: nat, k: nat)
    ensures c * Pow2(k + 1) == 2 * (c * Pow2(k)) && c * Pow2(k) >= 0
  {
    var m := Pow2(k);
    assert Pow2(k + 1) == 2 * m;
    hide Pow2;
    assert c * (2 * m) == 2 * (c * m);
  }

  /** The bits of an odd number shifted to the left. */
  lemma ShiftedBits(c: nat, n: nat, i: nat)
    requires c % 2 == 1 && i <= n
    ensures Bit(c * Pow2(n), i) <==> i == n
  {
    ShiftedTimes(c, n, i);
    if i < n {
      TimesTwo(c, n - i - 1);
      HalfOf(c * Pow2(n - i), c * Pow2(n - i - 1), 0);
    } else {
      assert Pow2(0) == 1;
    }
  }

  lemma Powers()
    ensures Pow2(1) == 2 && Pow2(29) == 0x2000_0000 && Pow2(30) == 0x4000_0000
  {
    assert Pow2(8) == 0x100;
    assert Pow2(16) == 0x1_0000;
    assert Pow2(24) == 0x100_0000;
  }

  /** Three present words: a vendor namespace, back to the radiotap namespace, and the flags. */
  function VendorHeader(): seq<Byte> {
    [0, 0, 27, 0, 0, 0, 0, 0xc0, 0, 0, 0, 0xa0, 2, 0, 0, 0, 0, 0x11, 0x22, 0, 4, 0, 1, 2, 3, 4, 0x10]
  }

  lemma VendorWord0()
    ensures Present(VendorHeader(), 0) == 0xc000_0000
  {}

  lemma VendorWord1()
    ensures Present(VendorHeader(), 1) == 0xa000_0000
  {}

  lemma VendorWord2()
    ensures Present(VendorHeader(), 2) == 2
  {}

  /** The top bits of a word, from bit n on, are c. */
  lemma TopBits(c: nat, n: nat, i: nat)
    requires c % 2 == 1 && c < 8 && n <= i < n + 3
    ensures Bit(c * Pow2(n), i) <==> (if i == n then true else if i == n + 1 then c / 2 % 2 == 1 else c / 4 % 2 == 1)
  {
    ShiftedTimes(c, n, n);
    assert c * Pow2(0) == c;
    assert Shifted(c * Pow2(n), n + 1) == c / 2;
  }

  lemma VendorMarks(i: nat)
    requires i < 32
    ensures Bit(0xc000_0000, i) <==> i == 30 || i == 31
    ensures Bit(0xa000_0000, i) <==> i == 29 || i == 31
  {
    hide Bit, Pow2;
    Powers();
    if i <= 30 { ShiftedBits(3, 30, i); } else { TopBits(3, 30, i); }
    if i <= 29 { ShiftedBits(5, 29, i); } else { TopBits(5, 29, i); }
  }

  lemma VendorBits(i: nat)
    requires i < 32
    ensures Bit(0xc000_0000, i) <==> i == 30 || i == 31
    ensures Bit(0xa000_0000, i) <==> i == 29 || i == 31
    ensures Bit(2, i) <==> i == 1
  {
    hide Bit, Pow2;
    VendorMarks(i);
    Powers();
    if i <= 1 { ShiftedBits(1, 1, i); } else { NoHighBit(i); }
  }

  lemma {:induction false} NoHighBit(i: nat)
    requires i > 1
    ensures Shifted(2, i) == 0 && !Bit(2, i)
  {
    if i > 2 { NoHighBit(i - 1); }
  }

  function VendorHd(): Header { Header(RadiotapSizes(), [], VendorHeader(), 27) }

  lemma VendorSize()
    ensures var h := VendorHeader(); |h| == 27 && h[0] == 0 && Le16(h, 2) == 27 && h[20] == 4 && h[21] == 0
  {}

  lemma VendorLast(k: nat)
    requires k <= 2
    ensures |VendorHeader()| == 27 && Last(VendorHeader(), 27, k) == Some(2)
    decreases 2 - k
  {
    hide Bit, Present, VendorHeader;
    VendorSize();
    VendorBits(31);
    VendorWord0();
    VendorWord1();
    VendorWord2();
    if k < 2 { VendorLast(k + 1); }
  }

  lemma FlagsEntry()
    ensures EntryOf(RadiotapSizes(), true, 1, 1) == Take(1, 1)
  {}

  /** The word with the vendor mark, whose data nobody knows. */
  lemma VendorFirst()
    ensures Last(VendorHeader(), 27, 0).Some? && Last(VendorHeader(), 27, 1).Some? && |VendorHeader()| == 27
    ensures var (rest, status) := Tour(VendorHd(), Spot(1, 0, 0, 26, Unknown, Some(26)));
      Tour(VendorHd(), Spot(0, 0, 0, 16, Radiotap, None)) == ([Argument(30, 16, 10)] + rest, status)
  {
    hide Tour, Bit, VendorHeader, Present, Last, RadiotapSizes, VendorIs, Aligning;
    VendorWord0();
    VendorSize();
    VendorLast(0);
    VendorLast(1);
    var hd, h := VendorHd(), VendorHeader();
    forall i: nat | i < 32 ensures Bit(Present(h, 0), i) <==> i == 30 || i == 31 { VendorBits(i); }
    var s := Spot(0, 0, 0, 16, Radiotap, None);
    TourPasses(hd, s, 30);
    UnknownVendor(hd, s.(b := 30), 16);
    TourExt(hd, Spot(0, 31, 0, 26, Unknown, Some(26)));
  }

  /** The word that goes back to the radiotap namespace. */
  lemma VendorSecond()
    ensures Last(VendorHeader(), 27, 1).Some? && Last(VendorHeader(), 27, 2).Some? && |VendorHeader()| == 27
    ensures Tour(VendorHd(), Spot(1, 0, 0, 26, Unknown, Some(26))) ==
            Tour(VendorHd(), Spot(2, 0, 0, 26, Radiotap, Some(26)))
  {
    hide Tour, Bit, VendorHeader, Present, Last, RadiotapSizes, Aligning;
    VendorWord1();
    VendorLast(1);
    VendorLast(2);
    var hd, h := VendorHd(), VendorHeader();
    forall i: nat | i < 32 ensures Bit(Present(h, 1), i) <==> i == 29 || i == 31 { VendorBits(i); }
    var s := Spot(1, 0, 0, 26, Unknown, Some(26));
    TourPasses(hd, s, 29);
    TourNamespace(hd, s.(b := 29));
    TourPasses(hd, s.(b := 30, ns := Radiotap), 31);
    TourExt(hd, s.(b := 31, ns := Radiotap));
  }

  /** The word with the flags, which ends the header. */
  lemma VendorThird()
    ensures Last(VendorHeader(), 27, 2).Some? && |VendorHeader()| == 27
    ensures Tour(VendorHd(), Spot(2, 0, 0, 26, Radiotap, Some(26))) == ([Argument(1, 26, 1)], NoEntry)
  {
    hide Tour, Bit, EntryOf, VendorHeader, Present, Last, RadiotapSizes, Aligning, Aligned;
    VendorWord2();
    VendorLast(2);
    FlagsEntry();
    var hd, h := VendorHd(), VendorHeader();
    forall i: nat | i < 32 ensures Bit(Present(h, 2), i) <==> i == 1 { VendorBits(i); }
    var s := Spot(2, 0, 0, 26, Radiotap, Some(26));
    TourPasses(hd, s, 1);
    TourField(hd, s.(b := 1));
    assert Aligned(26, 1) == 26;
    TourPasses(hd, s.(b := 2, at := 27), 31);
    TourClear(hd, s.(b := 31, at := 27));
    assert [Argument(1, 26, 1)] + [] == [Argument(1, 26, 1)];
  }

  /** The head and the four bytes of data are one argument, and the flags stand behind them. */
  lemma VendorHeaderRead()
    ensures Acceptable(VendorHeader(), 27)
    ensures Tour(VendorHd(), Begin(VendorHeader(), 27)) == ([Argument(30, 16, 10), Argument(1, 26, 1)], NoEntry)
  {
    VendorSize();
    VendorLast(0);
    VendorFirst();
    VendorSecond();
    VendorThird();
    hide Tour, Last, VendorHeader;
    assert Begin(VendorHeader(), 27) == Spot(0, 0, 0, 16, Radiotap, None);
    assert [Argument(30, 16, 10)] + [Argument(1, 26, 1)] == [Argument(30, 16, 10), Argument(1, 26, 1)];
  }
}
