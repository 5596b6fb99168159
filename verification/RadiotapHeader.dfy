/** Radiotap headers: their present words, the arguments that these promise, and where a walk through
    them ends before it meets a vendor namespace.  Pointers into a header are offsets from its start. */
module RadiotapHeader {
  import opened Common
  import opened Machine

  const HEADER_SIZE: nat := 8
  const RADIOTAP_NAMESPACE: nat := 29
  const VENDOR_NAMESPACE: nat := 30
  const EXT: nat := 31
  /** The field number that the table of the radiotap namespace leaves out. */
  const GAP: nat := 18

  /** Both are four-bit fields. */
  type Nibble = n: int | 0 <= n < 16
  datatype AlignSize = AlignSize(align: Nibble, size: Nibble)

  /** 0, -ENOENT and -EINVAL; and Unset when the walk takes up the pointer behind a vendor namespace
      although there was none, so that nothing can be said about what it does then. */
  datatype Status = Ok | NoEntry | Invalid | Unset

  predicate PowerOfTwo(align: nat) { align == 1 || align == 2 || align == 4 || align == 8 }

  /** The alignments are powers of two, but for the gap that is field 18. */
  predicate Aligning(t: seq<AlignSize>) {
    |t| == 23 && t[18].align == 0 && forall i :: 0 <= i < 23 && i != 18 ==> PowerOfTwo(t[i].align)
  }

  function RadiotapSizes(): (s: seq<AlignSize>)
    ensures Aligning(s)
  {
    [ AlignSize(8, 8), AlignSize(1, 1), AlignSize(1, 1), AlignSize(2, 4), AlignSize(2, 2), AlignSize(1, 1),
      AlignSize(1, 1), AlignSize(2, 2), AlignSize(2, 2), AlignSize(2, 2), AlignSize(1, 1), AlignSize(1, 1),
      AlignSize(1, 1), AlignSize(1, 1), AlignSize(2, 2), AlignSize(2, 2), AlignSize(1, 1), AlignSize(1, 1),
      AlignSize(0, 0), AlignSize(1, 3), AlignSize(4, 8), AlignSize(2, 12), AlignSize(8, 12) ]
  }

  // ----- The present words

  function Le16(h: seq<Byte>, i: nat): nat
    requires i + 2 <= |h|
  {
    h[i] as int + 256 * (h[i + 1] as int)
  }

  function Le32(h: seq<Byte>, i: nat): nat
    requires i + 4 <= |h|
  {
    Le16(h, i) + 0x1_0000 * Le16(h, i + 2)
  }

  /** Present word k. */
  function Present(h: seq<Byte>, k: nat): nat
    requires HEADER_SIZE + 4 * k <= |h|
  {
    Le32(h, 4 + 4 * k)
  }

  function Shifted(w: nat, b: nat): nat {
    if b == 0 then w else Shifted(w, b - 1) / 2
  }

  predicate Bit(w: nat, b: nat) { Shifted(w, b) % 2 == 1 }

  /** The last present word, from word k on; None when a word says that another one follows which
      does not lie within the first len bytes. */
  function Last(h: seq<Byte>, len: nat, k: nat): (r: Option<nat>)
    requires len <= |h| && HEADER_SIZE + 4 * k <= |h|
    ensures r.Some? ==> k <= r.value && HEADER_SIZE + 4 * r.value <= |h| && !Bit(Present(h, r.value), EXT)
    ensures r.Some? && k < r.value ==> HEADER_SIZE + 4 * r.value <= len
    decreases |h| - 4 * k
  {
    if !Bit(Present(h, k), EXT) then Some(k)
    else if HEADER_SIZE + 4 * (k + 1) > len then None
    else Last(h, len, k + 1)
  }

  /** Word k lies inside the header, and the present words end with word `last`. */
  ghost predicate LastIs(h: seq<Byte>, len: nat, k: nat, last: nat) {
    len <= |h| && HEADER_SIZE + 4 * k <= |h| && Last(h, len, k) == Some(last)
  }

  lemma LastStep(h: seq<Byte>, len: nat, k: nat, last: nat)
    requires LastIs(h, len, k, last) && Bit(Present(h, k), EXT)
    ensures k < last && HEADER_SIZE + 4 * (k + 1) <= len && LastIs(h, len, k + 1, last)
  {}

  /** The header is of version 0, and neither its length nor its present words run past what is there. */
  predicate Acceptable(header: seq<Byte>, length: int)
    requires length <= |header|
  {
    HEADER_SIZE <= length && header[0] == 0 && Le16(header, 2) <= length && Last(header, Le16(header, 2), 0).Some?
  }

  lemma {:induction false} ShiftedDivides(w: nat, b: nat)
    ensures w / Pow2(b) >= 0 && Shifted(w, b) == w / Pow2(b)
  {
    if b == 0 {
      assert w / Pow2(0) == w;
    } else {
      ShiftedDivides(w, b - 1);
      var m := Pow2(b - 1);
      var q := w / m;
      assert w == q * m + w % m;
      assert q == 2 * (q / 2) + q % 2;
      HalfTimes(w, m, q / 2, q % 2);
    }
  }

  lemma HalfTimes(w: nat, m: nat, p: nat, bit: nat)
    requires m > 0 && bit < 2 && w == (2 * p + bit) * m + w % m
    ensures w / (2 * m) == p
  {
    assert (2 * p + bit) * m == p * (2 * m) + bit * m;
    DivModUnique(w, 2 * m, p, bit * m + w % m);
  }

  /** Present words are stored with their low bits first: bit b is in byte b / 8 of the word. */
  lemma PresentBit(h: seq<Byte>, k: nat, b: nat)
    requires HEADER_SIZE + 4 * k <= |h| && b < 32
    ensures Bit(Present(h, k), b) <==> Has(h[4 + 4 * k + b / 8], b % 8)
  {
    var w, j, i := Present(h, k), b / 8, b % 8;
    ShiftedDivides(w, b);
    HasDropped(w, 8 * j, i);
    ByteOf(h, k, j);
    HasLow(w / Pow2(8 * j), 8, i);
  }

  lemma ByteOf(h: seq<Byte>, k: nat, j: nat)
    requires HEADER_SIZE + 4 * k <= |h| && j < 4
    ensures var w := Present(h, k); w / Pow2(8 * j) >= 0 && w / Pow2(8 * j) % Pow2(8) == h[4 + 4 * k + j]
  {
    assert Pow2(0) == 1 && Pow2(8) == 0x100;
    assert Pow2(16) == 0x1_0000;
    assert Pow2(24) == 0x100_0000;
    hide Pow2;
    var i := 4 + 4 * k;
    BytesOf(Present(h, k), h[i], h[i + 1], h[i + 2], h[i + 3]);
  }

  lemma BytesOf(w: nat, b0: nat, b1: nat, b2: nat, b3: nat)
    requires b0 < 256 && b1 < 256 && b2 < 256 && b3 < 256
    requires w == b0 + 256 * b1 + 0x1_0000 * (b2 + 256 * b3)
    ensures w % 0x100 == b0 && w / 0x100 % 0x100 == b1 && w / 0x1_0000 % 0x100 == b2 && w / 0x100_0000 % 0x100 == b3
  {
    var q2 := b2 + 256 * b3;
    DivModUnique(w, 0x100, b1 + 256 * q2, b0);
    DivModUnique(b1 + 256 * q2, 0x100, q2, b1);
    DivModUnique(w, 0x1_0000, q2, b0 + 256 * b1);
    DivModUnique(q2, 0x100, b3, b2);
    DivModUnique(w, 0x100_0000, b3, b0 + 256 * b1 + 0x1_0000 * b2);
  }

  /** Another present word follows word k. */
  predicate Chained(h: seq<Byte>, k: nat)
    requires HEADER_SIZE + 4 * k <= |h|
  {
    h[7 + 4 * k] >= 128
  }

  lemma ChainedExt(h: seq<Byte>, k: nat)
    requires HEADER_SIZE + 4 * k <= |h|
    ensures Bit(Present(h, k), EXT) <==> Chained(h, k)
  {
    PresentBit(h, k, EXT);
    assert Pow2(7) == 128;
  }

  lemma {:induction false} LastExactly(h: seq<Byte>, len: nat, k: nat, last: nat)
    requires len <= |h| && HEADER_SIZE + 4 * k <= |h|
    ensures Last(h, len, k) == Some(last) <==>
      && k <= last && HEADER_SIZE + 4 * last <= |h| && (last > k ==> HEADER_SIZE + 4 * last <= len)
      && !Chained(h, last) && forall j :: k <= j < last ==> Chained(h, j)
    decreases |h| - 4 * k
  {
    hide Bit, Present, Chained;
    ChainedExt(h, k);
    if Bit(Present(h, k), EXT) && HEADER_SIZE + 4 * (k + 1) <= len { LastExactly(h, len, k + 1, last); }
  }

  /** In bytes: a header has at least eight of them, version 0, a length that is there, and a row of
      present words that ends inside that length, unless the first word ends it. */
  lemma AcceptableExactly(header: seq<Byte>, length: int)
    requires length <= |header|
    ensures Acceptable(header, length) <==>
      && length >= 8 && header[0] == 0 && header[2] as int + 256 * header[3] as int <= length
      && Ended(header, header[2] as int + 256 * header[3] as int)
  {
    hide Last, Chained;
    if length >= 8 && Le16(header, 2) <= length {
      var len := Le16(header, 2);
      if Last(header, len, 0).Some? {
        LastExactly(header, len, 0, Last(header, len, 0).value);
        assert EndsAt(header, len, Last(header, len, 0).value);
      }
      if last: nat :| EndsAt(header, len, last) { LastExactly(header, len, 0, last); }
    }
  }

  ghost predicate Ended(h: seq<Byte>, len: nat) { exists last: nat :: EndsAt(h, len, last) }

  ghost predicate EndsAt(h: seq<Byte>, len: nat, last: nat) {
    && 8 + 4 * last <= |h| && (last > 0 ==> 8 + 4 * last <= len)
    && !Chained(h, last) && forall j: nat :: j < last ==> Chained(h, j)
  }

  /** Where the arguments start: behind the last present word. */
  function DataStart(h: seq<Byte>, len: nat): nat
    requires HEADER_SIZE <= |h| && len <= |h| && Last(h, len, 0).Some?
  {
    HEADER_SIZE + 4 * Last(h, len, 0).value
  }

  // ----- The arguments that a header promises

  /** The fields that word w has from bit b on and below bit top, in ascending order. */
  function Fields(w: nat, b: nat, top: nat): seq<nat>
    decreases top - b
  {
    if b >= top then [] else (if Bit(w, b) then [b] else []) + Fields(w, b + 1, top)
  }

  lemma {:induction false} FieldsExactly(w: nat, b: nat, top: nat, i: nat)
    ensures i in Fields(w, b, top) <==> b <= i < top && Bit(w, i)
    decreases top - b
  {
    if b < top { FieldsExactly(w, b + 1, top, i); }
  }

  predicate Ascending(f: seq<nat>) { forall i, j :: 0 <= i < j < |f| ==> f[i] < f[j] }

  lemma {:induction false} FieldsAscend(w: nat, b: nat, top: nat)
    ensures Ascending(Fields(w, b, top))
    decreases top - b
  {
    hide Bit, Shifted;
    if b < top {
      var rest := Fields(w, b + 1, top);
      FieldsAscend(w, b + 1, top);
      forall j | 0 <= j < |rest| ensures b < rest[j] { FieldsExactly(w, b + 1, top, rest[j]); }
      assert [] + rest == rest;
    }
  }

  lemma FieldsStep(w: nat, b: nat, top: nat, more: seq<nat>)
    ensures b < top && Bit(w, b) ==> Fields(w, b, top) + more == [b] + (Fields(w, b + 1, top) + more)
    ensures b >= top || !Bit(w, b) ==> Fields(w, b, top) == Fields(w, b + 1, top)
    ensures b >= top ==> Fields(w, b, top) + more == more
  {
    if b < top && Bit(w, b) {
      assert ([b] + Fields(w, b + 1, top)) + more == [b] + (Fields(w, b + 1, top) + more);
    } else if b < top {
      assert [] + Fields(w, b + 1, top) == Fields(w, b + 1, top);
    } else {
      assert [] + more == more;
    }
  }

  /** The fields from bit b of word k on, word by word. */
  function Pending(h: seq<Byte>, len: nat, k: nat, b: nat): seq<nat>
    requires len <= |h| && HEADER_SIZE + 4 * k <= |h| && Last(h, len, k).Some?
    decreases |h| - 4 * k, 1
  {
    Fields(Present(h, k), b, RADIOTAP_NAMESPACE) + Following(h, len, k)
  }

  /** The fields of the words behind word k. */
  function Following(h: seq<Byte>, len: nat, k: nat): seq<nat>
    requires len <= |h| && HEADER_SIZE + 4 * k <= |h| && Last(h, len, k).Some?
    decreases |h| - 4 * k, 0
  {
    if Bit(Present(h, k), EXT) then Pending(h, len, k + 1, 0) else []
  }

  /** The step from bit b on. */
  lemma PendingStep(h: seq<Byte>, len: nat, k: nat, b: nat)
    requires len <= |h| && HEADER_SIZE + 4 * k <= |h| && Last(h, len, k).Some? && b < 32
    ensures var w := Present(h, k);
      && (b < RADIOTAP_NAMESPACE && Bit(w, b) ==> Pending(h, len, k, b) == [b] + Pending(h, len, k, b + 1))
      && (b < EXT && (b >= RADIOTAP_NAMESPACE || !Bit(w, b)) ==> Pending(h, len, k, b) == Pending(h, len, k, b + 1))
      && (b == EXT && Bit(w, EXT) ==> Pending(h, len, k, b) == Pending(h, len, k + 1, 0))
      && (b == EXT && !Bit(w, EXT) ==> Pending(h, len, k, b) == [])
  {
    FieldsStep(Present(h, k), b, RADIOTAP_NAMESPACE, Following(h, len, k));
  }

  /** Field i has an entry in a table, and not the empty one of a gap. */
  predicate Known(t: seq<AlignSize>, i: nat) { i < |t| && t[i].align > 0 }

  /** Word w has known fields only, no vendor namespace, and goes back to the radiotap namespace
      exactly if another word follows. */
  ghost predicate PlainWord(t: seq<AlignSize>, w: nat) {
    && (forall i :: 0 <= i < RADIOTAP_NAMESPACE && Bit(w, i) ==> Known(t, i))
    && !Bit(w, VENDOR_NAMESPACE) && Bit(w, RADIOTAP_NAMESPACE) == Bit(w, EXT)
  }

  ghost predicate Plain(t: seq<AlignSize>, h: seq<Byte>, len: nat, k: nat)
    requires len <= |h| && HEADER_SIZE + 4 * k <= |h| && Last(h, len, k).Some?
    decreases |h| - 4 * k
  {
    PlainWord(t, Present(h, k)) && (Bit(Present(h, k), EXT) ==> Plain(t, h, len, k + 1))
  }

  predicate OnBoundary(at: nat, align: nat)
    requires align > 0
  {
    at % align == 0
  }

  /** The first multiple of align from i on. */
  function RoundUp(i: nat, align: nat): (r: nat)
    requires align > 0
    ensures i <= r < i + align && OnBoundary(r, align)
  {
    RoundUpSound(i, align);
    if i % align == 0 then i else i + (align - i % align)
  }

  lemma RoundUpSound(i: nat, align: nat)
    requires align > 0
    ensures i % align != 0 ==> OnBoundary(i + (align - i % align), align)
  {
    assert i + (align - i % align) == (i / align + 1) * align;
    MultipleOf(i / align + 1, align);
  }

  lemma MultipleOf(q: nat, d: nat)
    requires d > 0
    ensures (q * d) % d == 0
  {
    DivModUnique(q * d, d, q, 0);
  }

  datatype Argument = Argument(index: nat, offset: nat, size: nat)

  /** Where a field goes when the data before it ends at `at`. */
  function Place(t: seq<AlignSize>, i: nat, at: nat): (r: Argument)
    requires Known(t, i)
  {
    Argument(i, RoundUp(at, t[i].align), t[i].size)
  }

  /** The radiotap namespace has the fields 0 to 22 but 18.  Data of two bytes stands on even offsets, the
      clock and the timestamp on multiples of 8 and the A-MPDU status on multiples of 4. */
  lemma RadiotapPlaces(i: nat, at: nat)
    ensures Known(RadiotapSizes(), i) <==> i < 23 && i != 18
    ensures Known(RadiotapSizes(), i) ==>
      var x := Place(RadiotapSizes(), i, at);
      var unit := if i in {0, 22} then 8 else if i == 20 then 4 else if i in {3, 4, 7, 8, 9, 14, 15, 21} then 2 else 1;
      && x.index == i && at <= x.offset < at + unit && x.offset % unit == 0
      && (i in {1, 2, 5, 6, 10, 11, 12, 13, 16, 17} ==> x.size == 1)
      && (i in {4, 7, 8, 9, 14, 15} ==> x.size == 2) && (i == 19 ==> x.size == 3)
      && (i == 3 ==> x.size == 4) && (i in {0, 20} ==> x.size == 8) && (i in {21, 22} ==> x.size == 12)
  {
    if i < 23 { SizesAt(i); }
    hide RadiotapSizes, RoundUp;
  }

  lemma SizesAt(i: nat)
    requires i < 23
    ensures var e := RadiotapSizes()[i];
      && e.align == (if i == 18 then 0 else if i in {0, 22} then 8 else if i == 20 then 4
                     else if i in {3, 4, 7, 8, 9, 14, 15, 21} then 2 else 1)
      && e.size == (if i == 18 then 0 else if i in {0, 20} then 8 else if i in {21, 22} then 12 else if i == 19 then 3
                    else if i == 3 then 4 else if i in {4, 7, 8, 9, 14, 15} then 2 else 1)
  {}

  predicate AllKnown(t: seq<AlignSize>, fields: seq<nat>) { forall i :: 0 <= i < |fields| ==> Known(t, fields[i]) }

  /** The arguments for a list of fields, from offset `at` on, up to the first one that ends behind
      the header. */
  function Layout(t: seq<AlignSize>, fields: seq<nat>, at: nat, len: nat): (seq<Argument>, Status)
    requires AllKnown(t, fields)
  {
    if fields == [] then ([], NoEntry) else
      var x := Place(t, fields[0], at);
      if x.offset + x.size > len then ([], Invalid) else
        var (rest, status) := Layout(t, fields[1..], x.offset + x.size, len);
        ([x] + rest, status)
  }

  /** Where argument j may start: behind the argument before it. */
  function Before(args: seq<Argument>, at: nat, j: nat): nat
    requires j <= |args|
  {
    if j == 0 then at else args[j - 1].offset + args[j - 1].size
  }

  ghost predicate Placed(t: seq<AlignSize>, fields: seq<nat>, at: nat, len: nat, args: seq<Argument>, j: nat)
    requires j < |args| <= |fields| && AllKnown(t, fields)
  {
    args[j] == Place(t, fields[j], Before(args, at, j)) && args[j].offset + args[j].size <= len
  }

  /** The arguments are those of the fields, each one aligned, placed without a gap larger than the
      alignment needs, and inside the header; and there is one for every field unless one does not
      fit. */
  lemma {:induction false} LayoutPlaces(t: seq<AlignSize>, fields: seq<nat>, at: nat, len: nat)
    requires AllKnown(t, fields)
    ensures var (args, status) := Layout(t, fields, at, len);
      && |args| <= |fields| && (status == NoEntry <==> |args| == |fields|) && status != Ok
      && (forall j :: 0 <= j < |args| ==> Placed(t, fields, at, len, args, j))
      && (status == Invalid ==>
            var x := Place(t, fields[|args|], Before(args, at, |args|)); x.offset + x.size > len)
  {
    if fields != [] {
      var x := Place(t, fields[0], at);
      var end := x.offset + x.size;
      if end <= len {
        LayoutPlaces(t, fields[1..], end, len);
        var rest := Layout(t, fields[1..], end, len).0;
        var args := [x] + rest;
        assert Layout(t, fields, at, len).0 == args;
        assert Before(args, at, |args|) == Before(rest, end, |rest|);
        forall j | 0 <= j < |args|
          ensures Placed(t, fields, at, len, args, j)
        {
          if j > 0 {
            assert Placed(t, fields[1..], end, len, rest, j - 1);
            assert Before(args, at, j) == Before(rest, end, j - 1);
          }
        }
      }
    }
  }

  // ----- The walk in the radiotap namespace

  /** How the walk ends before a vendor namespace, or that it enters one. */
  datatype Fate = Ends(status: Status) | EntersVendor

  /** The arguments that the walk returns from bit b of word k and offset `at` on, before it meets a
      vendor namespace.  Arguments of this word are counted from 0 if `zero` is set, and from 32 or
      more if not, where the table has nothing. */
  function Walk(t: seq<AlignSize>, h: seq<Byte>, len: nat, k: nat, b: nat, zero: bool, at: nat): (seq<Argument>, Fate)
    requires len <= |h| && HEADER_SIZE + 4 * k <= |h| && Last(h, len, k).Some? && b < 32
    decreases |h| - 4 * k, 32 - b
  {
    if !Bit(Present(h, k), b) then
      if b == EXT then ([], Ends(NoEntry)) else Walk(t, h, len, k, b + 1, zero, at)
    else if b == VENDOR_NAMESPACE then ([], EntersVendor)
    else if b >= RADIOTAP_NAMESPACE then
      if at > len then ([], Ends(Invalid))
      else if b == EXT then Walk(t, h, len, k + 1, 0, Bit(Present(h, k), RADIOTAP_NAMESPACE), at)
      else Walk(t, h, len, k, b + 1, zero, at)
    else if !zero || b >= |t| then ([], Ends(NoEntry))
    else if t[b].align == 0 then ([], Ends(Unset))
    else
      var x := Place(t, b, at);
      if x.offset + x.size > len then ([], Ends(Invalid)) else
        var (rest, fate) := Walk(t, h, len, k, b + 1, zero, x.offset + x.size);
        ([x] + rest, fate)
  }

  lemma WalkClear(t: seq<AlignSize>, h: seq<Byte>, len: nat, k: nat, b: nat, zero: bool, at: nat)
    requires len <= |h| && HEADER_SIZE + 4 * k <= |h| && Last(h, len, k).Some? && b < 32 && !Bit(Present(h, k), b)
    ensures Walk(t, h, len, k, b, zero, at) ==
      if b == EXT then ([], Ends(NoEntry)) else Walk(t, h, len, k, b + 1, zero, at)
  {}

  lemma WalkMark(t: seq<AlignSize>, h: seq<Byte>, len: nat, k: nat, b: nat, zero: bool, at: nat)
    requires len <= |h| && HEADER_SIZE + 4 * k <= |h| && Last(h, len, k).Some?
    requires RADIOTAP_NAMESPACE <= b < 32 && b != VENDOR_NAMESPACE && Bit(Present(h, k), b)
    ensures Walk(t, h, len, k, b, zero, at) ==
      if at > len then ([], Ends(Invalid))
      else if b == EXT then Walk(t, h, len, k + 1, 0, Bit(Present(h, k), RADIOTAP_NAMESPACE), at)
      else Walk(t, h, len, k, b + 1, zero, at)
  {}

  lemma WalkField(t: seq<AlignSize>, h: seq<Byte>, len: nat, k: nat, b: nat, zero: bool, at: nat)
    requires len <= |h| && HEADER_SIZE + 4 * k <= |h| && Last(h, len, k).Some?
    requires b < RADIOTAP_NAMESPACE && Bit(Present(h, k), b)
    ensures Walk(t, h, len, k, b, zero, at) ==
      if !zero || b >= |t| then ([], Ends(NoEntry))
      else if t[b].align == 0 then ([], Ends(Unset))
      else
        var x := Place(t, b, at);
        if x.offset + x.size > len then ([], Ends(Invalid)) else
          var (rest, fate) := Walk(t, h, len, k, b + 1, zero, x.offset + x.size);
          ([x] + rest, fate)
  {}

  /** On a plain header the walk is the layout of its fields. */
  lemma {:induction false} PlainWalk(t: seq<AlignSize>, h: seq<Byte>, len: nat, k: nat, b: nat, at: nat)
    requires len <= |h| && HEADER_SIZE + 4 * k <= |h| && Last(h, len, k).Some? && b < 32 && Plain(t, h, len, k)
    requires Bit(Present(h, k), EXT) ==> at <= len
    ensures AllKnown(t, Pending(h, len, k, b))
    ensures var (args, status) := Layout(t, Pending(h, len, k, b), at, len);
      Walk(t, h, len, k, b, true, at) == (args, Ends(status))
    decreases |h| - 4 * k, 32 - b
  {
    hide Walk, Pending;
    var w := Present(h, k);
    PendingStep(h, len, k, b);
    if !Bit(w, b) {
      WalkClear(t, h, len, k, b, true, at);
      if b < EXT { PlainWalk(t, h, len, k, b + 1, at); }
    } else if b >= RADIOTAP_NAMESPACE {
      WalkMark(t, h, len, k, b, true, at);
      if b == EXT { PlainWalk(t, h, len, k + 1, 0, at); } else { PlainWalk(t, h, len, k, b + 1, at); }
    } else {
      WalkField(t, h, len, k, b, true, at);
      PlainField(t, h, len, k, b, at, Pending(h, len, k, b + 1));
      var end := Place(t, b, at).offset + Place(t, b, at).size;
      PlainWalk(t, h, len, k, b + 1, if end <= len then end else 0);
    }
  }

  lemma PlainField(t: seq<AlignSize>, h: seq<Byte>, len: nat, k: nat, b: nat, at: nat, more: seq<nat>)
    requires len <= |h| && HEADER_SIZE + 4 * k <= |h| && Last(h, len, k).Some? && Plain(t, h, len, k)
    requires b < RADIOTAP_NAMESPACE && Bit(Present(h, k), b)
    ensures Known(t, b) && (AllKnown(t, more) ==> AllKnown(t, [b] + more))
    ensures AllKnown(t, more) ==>
      var x := Place(t, b, at);
      Layout(t, [b] + more, at, len) ==
        if x.offset + x.size > len then ([], Invalid)
        else var (rest, status) := Layout(t, more, x.offset + x.size, len); ([x] + rest, status)
  {
    assert ([b] + more)[1..] == more;
  }

  // ----- Taking up a pointer that was never set

  /** The fields from bit b of word k up to the gap in word g. */
  function UpTo(h: seq<Byte>, k: nat, b: nat, g: nat): seq<nat>
    requires k <= g && HEADER_SIZE + 4 * g <= |h|
    decreases g - k
  {
    if k == g then Fields(Present(h, k), b, GAP)
    else Fields(Present(h, k), b, RADIOTAP_NAMESPACE) + UpTo(h, k + 1, 0, g)
  }

  /** The table knows all these fields, and they fit into the header. */
  predicate Fits(t: seq<AlignSize>, fields: seq<nat>, at: nat, len: nat) {
    fields == [] ||
    (Known(t, fields[0]) &&
     var x := Place(t, fields[0], at);
     x.offset + x.size <= len && Fits(t, fields[1..], x.offset + x.size, len))
  }

  /** Arguments of word j are counted from 0 again. */
  predicate FromZero(h: seq<Byte>, j: nat)
    requires HEADER_SIZE + 4 * j <= |h|
  {
    j == 0 || Bit(Present(h, j - 1), RADIOTAP_NAMESPACE)
  }

  /** A word that the walk passes: no vendor namespace, and no field where the table has nothing. */
  predicate Passed(h: seq<Byte>, j: nat)
    requires HEADER_SIZE + 4 * j <= |h|
  {
    && !Bit(Present(h, j), VENDOR_NAMESPACE)
    && (FromZero(h, j) || Fields(Present(h, j), 0, RADIOTAP_NAMESPACE) == [])
  }

  /** Word g asks for the gap, and the walk passes everything before it. */
  ghost predicate AsksForGap(t: seq<AlignSize>, h: seq<Byte>, len: nat, g: nat)
    requires len <= |h| && HEADER_SIZE <= |h| && Last(h, len, 0).Some?
  {
    && g <= Last(h, len, 0).value && Bit(Present(h, g), GAP) && FromZero(h, g)
    && (forall j: nat :: j < g ==> Passed(h, j))
    && Fits(t, UpTo(h, 0, 0, g), DataStart(h, len), len)
  }

  /** The same, for a walk that has come to bit b of word k. */
  ghost predicate GapAhead(t: seq<AlignSize>, h: seq<Byte>, len: nat, k: nat, b: nat, zero: bool, at: nat, g: nat)
    requires len <= |h| && HEADER_SIZE + 4 * k <= |h| && Last(h, len, k).Some?
  {
    && k <= g <= Last(h, len, k).value && Bit(Present(h, g), GAP)
    && (if g == k then zero && b <= GAP else FromZero(h, g))
    && (k < g ==> RestPassed(Present(h, k), b, zero))
    && (forall j: nat :: k < j < g ==> Passed(h, j))
    && Fits(t, UpTo(h, k, b, g), at, len)
  }

  lemma UpToStep(h: seq<Byte>, k: nat, b: nat, g: nat)
    requires k <= g && HEADER_SIZE + 4 * g <= |h|
    ensures b < (if k == g then GAP else RADIOTAP_NAMESPACE) && Bit(Present(h, k), b) ==>
      UpTo(h, k, b, g) == [b] + UpTo(h, k, b + 1, g)
    ensures !Bit(Present(h, k), b) || b >= RADIOTAP_NAMESPACE ==> UpTo(h, k, b, g) == UpTo(h, k, b + 1, g)
    ensures k < g && b >= RADIOTAP_NAMESPACE ==> UpTo(h, k, b, g) == UpTo(h, k + 1, 0, g)
  {
    var w := Present(h, k);
    if k == g {
      FieldsStep(w, b, GAP, []);
      assert Fields(w, b, GAP) + [] == Fields(w, b, GAP) && Fields(w, b + 1, GAP) + [] == Fields(w, b + 1, GAP);
    } else {
      FieldsStep(w, b, RADIOTAP_NAMESPACE, UpTo(h, k + 1, 0, g));
    }
  }

  lemma FitsStep(t: seq<AlignSize>, i: nat, more: seq<nat>, at: nat, len: nat)
    ensures Fits(t, [i] + more, at, len) <==>
      Known(t, i) && var x := Place(t, i, at); x.offset + x.size <= len && Fits(t, more, x.offset + x.size, len)
  {
    assert ([i] + more)[1..] == more;
  }

  /** The fields left in this word can be passed. */
  predicate RestPassed(w: nat, b: nat, zero: bool) {
    (b > VENDOR_NAMESPACE || !Bit(w, VENDOR_NAMESPACE)) && (zero || Fields(w, b, RADIOTAP_NAMESPACE) == [])
  }

  lemma RestPassedStep(w: nat, b: nat, zero: bool)
    ensures b != VENDOR_NAMESPACE && (!Bit(w, b) || b >= RADIOTAP_NAMESPACE) ==>
              RestPassed(w, b, zero) == RestPassed(w, b + 1, zero)
    ensures b == VENDOR_NAMESPACE && !Bit(w, b) ==> RestPassed(w, b, zero) && RestPassed(w, b + 1, zero)
    ensures b < RADIOTAP_NAMESPACE && Bit(w, b) ==> RestPassed(w, b, zero) == (zero && RestPassed(w, b + 1, zero))
  {
    FieldsStep(w, b, RADIOTAP_NAMESPACE, []);
  }

  lemma GapClear(t: seq<AlignSize>, h: seq<Byte>, len: nat, k: nat, b: nat, zero: bool, at: nat, g: nat)
    requires len <= |h| && HEADER_SIZE + 4 * k <= |h| && Last(h, len, k).Some? && b < EXT
    requires !Bit(Present(h, k), b) || b == RADIOTAP_NAMESPACE
    ensures GapAhead(t, h, len, k, b, zero, at, g) <==> GapAhead(t, h, len, k, b + 1, zero, at, g)
  {
    hide UpTo, Fits, RestPassed, Passed, Fields;
    RestPassedStep(Present(h, k), b, zero);
    if k <= g <= Last(h, len, k).value { UpToStep(h, k, b, g); }
  }

  lemma GapNextWord(t: seq<AlignSize>, h: seq<Byte>, len: nat, k: nat, zero: bool, at: nat, g: nat)
    requires len <= |h| && HEADER_SIZE + 4 * k <= |h| && Last(h, len, k).Some? && Bit(Present(h, k), EXT)
    ensures GapAhead(t, h, len, k, EXT, zero, at, g) <==>
      GapAhead(t, h, len, k + 1, 0, Bit(Present(h, k), RADIOTAP_NAMESPACE), at, g)
  {
    hide UpTo, Fits, RestPassed, Passed, Fields;
    NothingLeft(Present(h, k), zero);
    if k + 1 <= g <= Last(h, len, k).value {
      UpToStep(h, k, EXT, g);
      PassedWhole(h, k + 1);
    }
  }

  lemma NothingLeft(w: nat, zero: bool)
    ensures RestPassed(w, EXT, zero)
  {}

  lemma PassedWhole(h: seq<Byte>, j: nat)
    requires HEADER_SIZE + 4 * j <= |h|
    ensures Passed(h, j) == RestPassed(Present(h, j), 0, FromZero(h, j))
  {}

  lemma GapField(t: seq<AlignSize>, h: seq<Byte>, len: nat, k: nat, b: nat, zero: bool, at: nat, g: nat)
    requires len <= |h| && HEADER_SIZE + 4 * k <= |h| && Last(h, len, k).Some? && b != GAP
    requires b < RADIOTAP_NAMESPACE && Bit(Present(h, k), b)
    ensures GapAhead(t, h, len, k, b, zero, at, g) ==> zero && Known(t, b)
    ensures zero && Known(t, b) ==>
      var x := Place(t, b, at);
      GapAhead(t, h, len, k, b, zero, at, g) <==>
        x.offset + x.size <= len && GapAhead(t, h, len, k, b + 1, zero, x.offset + x.size, g)
  {
    hide UpTo, Fits, RestPassed, Passed, Fields;
    RestPassedStep(Present(h, k), b, zero);
    if k <= g <= Last(h, len, k).value {
      UpToStep(h, k, b, g);
      FitsStep(t, b, UpTo(h, k, b + 1, g), at, len);
    }
  }

  ghost predicate SomeGap(t: seq<AlignSize>, h: seq<Byte>, len: nat, k: nat, b: nat, zero: bool, at: nat)
    requires len <= |h| && HEADER_SIZE + 4 * k <= |h| && Last(h, len, k).Some?
  {
    exists g: nat :: GapAhead(t, h, len, k, b, zero, at, g)
  }

  lemma SomeGapClear(t: seq<AlignSize>, h: seq<Byte>, len: nat, k: nat, b: nat, zero: bool, at: nat)
    requires len <= |h| && HEADER_SIZE + 4 * k <= |h| && Last(h, len, k).Some? && b < EXT
    requires !Bit(Present(h, k), b) || b == RADIOTAP_NAMESPACE
    ensures SomeGap(t, h, len, k, b, zero, at) <==> SomeGap(t, h, len, k, b + 1, zero, at)
  {
    hide GapAhead;
    if SomeGap(t, h, len, k, b, zero, at) {
      var g: nat :| GapAhead(t, h, len, k, b, zero, at, g);
      GapClear(t, h, len, k, b, zero, at, g);
    }
    if SomeGap(t, h, len, k, b + 1, zero, at) {
      var g: nat :| GapAhead(t, h, len, k, b + 1, zero, at, g);
      GapClear(t, h, len, k, b, zero, at, g);
    }
  }

  lemma SomeGapNextWord(t: seq<AlignSize>, h: seq<Byte>, len: nat, k: nat, zero: bool, at: nat)
    requires len <= |h| && HEADER_SIZE + 4 * k <= |h| && Last(h, len, k).Some? && Bit(Present(h, k), EXT)
    ensures SomeGap(t, h, len, k, EXT, zero, at) <==>
      SomeGap(t, h, len, k + 1, 0, Bit(Present(h, k), RADIOTAP_NAMESPACE), at)
  {
    hide GapAhead;
    var zero' := Bit(Present(h, k), RADIOTAP_NAMESPACE);
    if SomeGap(t, h, len, k, EXT, zero, at) {
      var g: nat :| GapAhead(t, h, len, k, EXT, zero, at, g);
      GapNextWord(t, h, len, k, zero, at, g);
    }
    if SomeGap(t, h, len, k + 1, 0, zero', at) {
      var g: nat :| GapAhead(t, h, len, k + 1, 0, zero', at, g);
      GapNextWord(t, h, len, k, zero, at, g);
    }
  }

  lemma SomeGapField(t: seq<AlignSize>, h: seq<Byte>, len: nat, k: nat, b: nat, zero: bool, at: nat)
    requires len <= |h| && HEADER_SIZE + 4 * k <= |h| && Last(h, len, k).Some? && b != GAP
    requires b < RADIOTAP_NAMESPACE && Bit(Present(h, k), b)
    ensures SomeGap(t, h, len, k, b, zero, at) <==>
      zero && Known(t, b) &&
      var x := Place(t, b, at);
      x.offset + x.size <= len && SomeGap(t, h, len, k, b + 1, zero, x.offset + x.size)
  {
    hide GapAhead;
    if SomeGap(t, h, len, k, b, zero, at) {
      var g: nat :| GapAhead(t, h, len, k, b, zero, at, g);
      GapField(t, h, len, k, b, zero, at, g);
    }
    if zero && Known(t, b) {
      var end := Place(t, b, at).offset + Place(t, b, at).size;
      if end <= len && SomeGap(t, h, len, k, b + 1, zero, end) {
        var g: nat :| GapAhead(t, h, len, k, b + 1, zero, end, g);
        GapField(t, h, len, k, b, zero, at, g);
      }
    }
  }

  /** A walk takes up the unset pointer exactly if some word asks for the gap ahead of it. */
  lemma {:induction false} WalkGap(t: seq<AlignSize>, h: seq<Byte>, len: nat, k: nat, b: nat, zero: bool, at: nat)
    requires len <= |h| && HEADER_SIZE + 4 * k <= |h| && Last(h, len, k).Some? && b < 32 && Aligning(t)
    requires Bit(Present(h, k), EXT) ==> at <= len
    ensures Walk(t, h, len, k, b, zero, at).1 == Ends(Unset) <==> SomeGap(t, h, len, k, b, zero, at)
    decreases |h| - 4 * k, 32 - b
  {
    hide Walk, SomeGap;
    var w := Present(h, k);
    if !Bit(w, b) {
      WalkClear(t, h, len, k, b, zero, at);
      if b == EXT {
        NoGapAtEnd(t, h, len, k, b, zero, at);
      } else {
        WalkGap(t, h, len, k, b + 1, zero, at);
        SomeGapClear(t, h, len, k, b, zero, at);
      }
    } else if b == VENDOR_NAMESPACE || (b >= RADIOTAP_NAMESPACE && at > len) {
      WalkEnds(t, h, len, k, b, zero, at);
      NoGapAtEnd(t, h, len, k, b, zero, at);
    } else if b >= RADIOTAP_NAMESPACE {
      WalkMark(t, h, len, k, b, zero, at);
      if b == EXT {
        WalkGap(t, h, len, k + 1, 0, Bit(w, RADIOTAP_NAMESPACE), at);
        SomeGapNextWord(t, h, len, k, zero, at);
      } else {
        WalkGap(t, h, len, k, b + 1, zero, at);
        SomeGapClear(t, h, len, k, b, zero, at);
      }
    } else {
      WalkField(t, h, len, k, b, zero, at);
      if b == GAP {
        GapHere(t, h, len, k, zero, at);
      } else {
        var end := if Known(t, b) then Place(t, b, at).offset + Place(t, b, at).size else 0;
        if zero && Known(t, b) && end <= len { WalkGap(t, h, len, k, b + 1, zero, end); }
        SomeGapField(t, h, len, k, b, zero, at);
      }
    }
  }

  lemma WalkEnds(t: seq<AlignSize>, h: seq<Byte>, len: nat, k: nat, b: nat, zero: bool, at: nat)
    requires len <= |h| && HEADER_SIZE + 4 * k <= |h| && Last(h, len, k).Some?
    requires RADIOTAP_NAMESPACE <= b < 32 && Bit(Present(h, k), b) && (b == VENDOR_NAMESPACE || at > len)
    ensures Walk(t, h, len, k, b, zero, at) == ([], if b == VENDOR_NAMESPACE then EntersVendor else Ends(Invalid))
  {}

  lemma NoGapAtEnd(t: seq<AlignSize>, h: seq<Byte>, len: nat, k: nat, b: nat, zero: bool, at: nat)
    requires len <= |h| && HEADER_SIZE + 4 * k <= |h| && Last(h, len, k).Some? && b > GAP
    requires !Bit(Present(h, k), EXT) || (b == VENDOR_NAMESPACE && Bit(Present(h, k), b))
    ensures !SomeGap(t, h, len, k, b, zero, at)
  {
    hide UpTo, Fits;
  }

  lemma GapHere(t: seq<AlignSize>, h: seq<Byte>, len: nat, k: nat, zero: bool, at: nat)
    requires len <= |h| && HEADER_SIZE + 4 * k <= |h| && Last(h, len, k).Some? && Aligning(t) && Bit(Present(h, k), GAP)
    ensures SomeGap(t, h, len, k, GAP, zero, at) <==> zero
  {
    if zero {
      assert Fields(Present(h, k), GAP, GAP) == [];
      assert GapAhead(t, h, len, k, GAP, zero, at, k);
    } else {
      hide UpTo, Fits, Fields;
      RestPassedStep(Present(h, k), GAP, zero);
    }
  }

  /** The walk through a header takes up the unset pointer if and only if some word asks for field 18,
      counted from 0, and the walk passes everything before it. */
  lemma GapExactly(t: seq<AlignSize>, h: seq<Byte>, len: nat)
    requires len <= |h| && HEADER_SIZE <= |h| && Last(h, len, 0).Some? && Aligning(t)
    ensures Walk(t, h, len, 0, 0, true, DataStart(h, len)).1 == Ends(Unset)
      <==> exists g: nat :: AsksForGap(t, h, len, g)
  {
    hide Walk, GapAhead, AsksForGap;
    var at := DataStart(h, len);
    WalkGap(t, h, len, 0, 0, true, at);
    if g: nat :| AsksForGap(t, h, len, g) { AsksAhead(t, h, len, g); }
    if SomeGap(t, h, len, 0, 0, true, at) {
      var g: nat :| GapAhead(t, h, len, 0, 0, true, at, g);
      AsksAhead(t, h, len, g);
    }
  }

  lemma AsksAhead(t: seq<AlignSize>, h: seq<Byte>, len: nat, g: nat)
    requires len <= |h| && HEADER_SIZE <= |h| && Last(h, len, 0).Some?
    ensures AsksForGap(t, h, len, g) <==> GapAhead(t, h, len, 0, 0, true, DataStart(h, len), g)
  {
    hide UpTo, Fits, Passed, RestPassed;
    PassedWhole(h, 0);
  }

  lemma {:induction false} OneBit(n: nat, i: nat)
    ensures Shifted(Pow2(n), i) == if i <= n then Pow2(n - i) else 0
  {
    if i > 0 { OneBit(n, i - 1); }
  }

  /** A header of eight bytes that promises field 18 and nothing else. */
  function GapHeader(): seq<Byte> { [0, 0, 8, 0, 0, 0, 4, 0] }

  /** It is accepted, and the walk takes up the unset pointer. */
  lemma GapHeaderFails()
    ensures Acceptable(GapHeader(), 8)
    ensures Walk(RadiotapSizes(), GapHeader(), 8, 0, 0, true, 8).1 == Ends(Unset)
  {
    hide Walk, Aligning, Fields;
    var h := GapHeader();
    assert Pow2(8) == 0x100;
    assert Pow2(16) == 0x1_0000;
    assert Present(h, 0) == Pow2(GAP);
    forall i: nat ensures Bit(Pow2(GAP), i) <==> i == GAP { OneBit(GAP, i); }
    var f := Fields(Pow2(GAP), 0, GAP);
    if f != [] { FieldsExactly(Pow2(GAP), 0, GAP, f[0]); }
    assert AsksForGap(RadiotapSizes(), h, 8, 0);
    GapExactly(RadiotapSizes(), h, 8);
  }
}
