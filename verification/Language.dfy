/** What a filter says of the bytes of an Ethernet frame.  This is the reference for the compiler: it
    shares the syntax, the arithmetic of the machine and the connectives with it, but no table of
    protocols, no width and no offset. */
module Language {
  import opened Common
  import opened Machine
  import opened Truths
  import opened Arith
  import opened Frames
  import opened Predicates

  // ----- Numbers in a frame

  /** The number that a row of bytes spells, the most significant byte first. */
  function Spelled(bs: seq<Byte>): nat {
    if bs == [] then 0 else Spelled(bs[..|bs| - 1]) * 256 + bs[|bs| - 1]
  }

  /** The number in the n bytes at an offset, unless one of them is missing. */
  function Number(p: Packet, at: nat, n: nat): Option<nat> {
    if at + n <= |p.bytes| then Some(Spelled(p.bytes[at..at + n])) else None
  }

  lemma {:induction false} SpelledLast(bs: seq<Byte>, b: Byte)
    ensures Spelled(bs + [b]) == Spelled(bs) * 256 + b
  {
    assert (bs + [b])[..|bs|] == bs;
  }

  /** A load of one, two or four bytes reads exactly those bytes, and faults if one is missing. */
  lemma LoadIsNumber(p: Packet, at: nat, size: int)
    requires size == 1 || size == 2 || size == 4
    ensures WidthOf(size).Some? && Load(p, at, WidthOf(size).value) == Number(p, at, size)
  {
    if at + size <= |p.bytes| {
      var bs := p.bytes[at..at + size];
      SpelledLast([], bs[0]);
      assert [] + [bs[0]] == bs[..1];
      if size > 1 {
        SpelledLast(bs[..1], bs[1]);
        assert bs[..1] + [bs[1]] == bs[..2];
      }
      if size > 2 {
        SpelledLast(bs[..2], bs[2]);
        assert bs[..2] + [bs[2]] == bs[..3];
        SpelledLast(bs[..3], bs[3]);
        assert bs[..3] + [bs[3]] == bs[..4];
      }
      assert bs[..size] == bs;
    }
  }

  // ----- Items of headers

  /** Where item i of a header starts: the link header's from its start, a network header's from the
      payload, a transport header's behind the IPv4 header, whose first byte must be there.  Only the
      last two sums are cut to 32 bits, and the third before the base is added. */
  function ItemPlace(proto: Proto, i: nat, env: Env, p: Packet): Option<nat> {
    var base := (env.linkPl + env.nl) % 0x1_0000_0000;
    if proto.Link? then Some(i + env.linkHdr)
    else if proto.IsNetwork() then Some(i + base)
    else if base < |p.bytes| then Some((i + 4 * (p.bytes[base] % 16)) % 0x1_0000_0000 + base)
    else None
  }

  /** The value of proto[index : size] is the number in just `size` bytes of the packet from the place
      of the item; it faults exactly if the index does, the IPv4 header is missing, or one of them is.
      Other sizes are not accepted. */
  lemma ItemMeaning(proto: Proto, index: Expr, size: int, env: Env, p: Packet)
    ensures WellFormed(Fetch(proto, index, size)) <==>
      WellFormed(index) && size in {1, 2, 4} && !proto.Radio? && !proto.Icmpv6?
    ensures WellFormed(Fetch(proto, index, size)) ==>
      Value(Fetch(proto, index, size), env, p) ==
        match Value(index, env, p)
        case None => None
        case Some(i) => match ItemPlace(proto, i, env, p) case None => None case Some(at) => Number(p, at, size)
  {
    hide Number, Item, ItemPlace, Value;
    if WellFormed(Fetch(proto, index, size)) {
      ValueOfFetch(proto, index, size, env, p);
      if Value(index, env, p).Some? { ItemIsNumber(proto, Value(index, env, p).value, size, env, p); }
    }
  }

  lemma ValueOfFetch(proto: Proto, index: Expr, size: int, env: Env, p: Packet)
    requires WellFormed(Fetch(proto, index, size))
    ensures Value(Fetch(proto, index, size), env, p) ==
      match Value(index, env, p) case None => None case Some(i) => Item(proto, i, WidthOf(size).value, env, p)
  {
    hide Item;
  }

  lemma ItemIsNumber(proto: Proto, i: Word, size: int, env: Env, p: Packet)
    requires proto.Indexable() && size in {1, 2, 4} && WidthOf(size).Some?
    ensures Item(proto, i, WidthOf(size).value, env, p) ==
      match ItemPlace(proto, i, env, p) case None => None case Some(at) => Number(p, at, size)
  {
    hide Number, Load;
    FirstByte(p, env.Network());
    if ItemPlace(proto, i, env, p).Some? { LoadIsNumber(p, ItemPlace(proto, i, env, p).value, size); }
  }

  lemma FirstByte(p: Packet, at: nat)
    ensures Load(p, at, B) == if at < |p.bytes| then Some(p.bytes[at]) else None
  {}

  // ----- Atoms on an Ethernet frame behind t tags

  /** The 32-bit offset of the type field. */
  function TypePlace(t: nat): nat { (12 + 4 * t) % 0x1_0000_0000 }

  /** The n bytes at offset k of the payload. */
  function Payload(p: Packet, t: nat, k: nat, n: nat): Option<nat> { Number(p, (14 + 4 * t + k) % 0x1_0000_0000, n) }

  function Is(v: Option<nat>, n: nat): Truth { match v case None => Faulty case Some(w) => Of(w == n) }

  /** A protocol shows in the type field, or by a number in an IPv4 or IPv6 header. */
  datatype Sign = ByType(etype: nat) | ByNumber(n: nat, v4: bool, v6: bool)

  function SignOf(proto: Proto): Option<Sign> {
    match proto
    case Link => None
    case Radio => None
    case Ip => Some(ByType(0x0800))
    case Ipv6 => Some(ByType(0x86dd))
    case Arp => Some(ByType(0x0806))
    case Rarp => Some(ByType(0x8035))
    case Decnet => Some(ByType(0x6003))
    case Sca => Some(ByType(0x6007))
    case Lat => Some(ByType(0x6004))
    case MopRc => Some(ByType(0x6002))
    case MopDl => Some(ByType(0x6001))
    case Tcp => Some(ByNumber(6, true, true))
    case Udp => Some(ByNumber(17, true, true))
    case Sctp => Some(ByNumber(132, true, true))
    case Pim => Some(ByNumber(103, true, true))
    case Icmp => Some(ByNumber(1, true, false))
    case Igmp => Some(ByNumber(2, true, false))
    case Igrp => Some(ByNumber(9, true, false))
    case Vrrp => Some(ByNumber(112, true, false))
    case Carp => Some(ByNumber(112, true, false))
    case Icmpv6 => Some(ByNumber(58, false, true))
  }

  /** The frame shows the sign.  In an IPv6 header the number may stand behind a fragment header. */
  function Shows(s: Sign, t: nat, p: Packet): Truth {
    match Number(p, TypePlace(t), 2)
    case None => Faulty
    case Some(etype) =>
      match s
      case ByType(want) => Of(etype == want)
      case ByNumber(n, v4, v6) =>
        if etype == 0x0800 && v4 then Is(Payload(p, t, 9, 1), n)
        else if etype == 0x86dd && v6 then
          match Payload(p, t, 6, 1)
          case None => Faulty
          case Some(next) => if next == n then True else if next == 44 then Is(Payload(p, t, 40, 1), n) else False
        else False
  }

  predicate SpokenExpr(e: Expr) {
    match e
    case Num(_) => true
    case Len => true
    case Fetch(proto, index, size) => SpokenExpr(index) && size in {1, 2, 4} && !proto.Radio? && !proto.Icmpv6?
    case Negative(a) => SpokenExpr(a)
    case Bin(_, l, r) => SpokenExpr(l) && SpokenExpr(r)
  }

  lemma NumberFits(p: Packet, at: nat, n: nat)
    requires n in {1, 2, 4}
    ensures Number(p, at, n).Some? ==> Number(p, at, n).value < 0x1_0000_0000
  {
    LoadIsNumber(p, at, n);
  }

  /** The value of an expression, whose numbers are 32 bits wide; None if it faults. */
  function Amount(e: Expr, t: nat, p: Packet): Option<Word>
    requires SpokenExpr(e)
  {
    match e
    case Num(v) => Some(v)
    case Len => Some(p.wireLength)
    case Fetch(proto, index, size) =>
      (match Amount(index, t, p)
       case None => None
       case Some(i) =>
         match ItemPlace(proto, i, Behind(Env(0, 12, 14, 0), t), p)
         case None => None
         case Some(at) => NumberFits(p, at, size); Number(p, at, size))
    case Negative(a) =>
      (match Amount(a, t, p) case None => None case Some(v) => Some((0x1_0000_0000 - v) % 0x1_0000_0000))
    case Bin(op, l, r) =>
      (match Amount(l, t, p)
       case None => None
       case Some(v) => match Amount(r, t, p) case None => None case Some(w) => Alu(op, v, w))
  }

  /** The items of the left operands are those of packets of their protocols; a transport header is
      behind an IPv4 header, in no later fragment. */
  function Guarded(e: Expr, t: nat, p: Packet): Truth
    requires SpokenExpr(e)
  {
    match e
    case Num(_) => True
    case Len => True
    case Fetch(proto, index, _) =>
      var inner := Guarded(index, t, p);
      (match SignOf(proto)
       case None => inner
       case Some(s) =>
         if s.ByType? then Combine(true, inner, Shows(s, t, p))
         else
           var first := match Payload(p, t, 6, 2) case None => Faulty case Some(w) => Of(w % 0x2000 == 0);
           Combine(true, Shows(ByType(0x0800), t, p), Combine(true, inner, Combine(true, Shows(s, t, p), first))))
    case Negative(a) => Guarded(a, t, p)
    case Bin(_, l, _) => Guarded(l, t, p)
  }

  /** How two numbers compare; JSET asks for a bit that both have. */
  predicate Relates(op: JumpOp, v: Word, w: Word) {
    match op
    case JEQ => v == w
    case JGT => v > w
    case JGE => v >= w
    case JSET => exists k: nat :: k < 32 && Has(v, k) && Has(w, k)
  }

  predicate SpokenLeaf(q: Leaf) {
    match q
    case Prim(prim) => prim.Protocol? ==> SignOf(prim.proto).Some?
    case Rel(_, _, l, r) => SpokenExpr(l) && SpokenExpr(r)
  }

  function RelationSays(op: JumpOp, reversed: bool, l: Expr, r: Expr, t: nat, p: Packet): Truth
    requires SpokenExpr(l) && SpokenExpr(r)
  {
    Combine(true, Combine(true, Guarded(l, t, p), Guarded(r, t, p)),
            match (Amount(l, t, p), Amount(r, t, p))
            case (Some(v), Some(w)) => Of(Relates(op, v, w) != reversed)
            case _ => Faulty)
  }

  function PrimSays(prim: Primitive, t: nat, p: Packet): Truth
    requires prim.Protocol? ==> SignOf(prim.proto).Some?
  {
    match prim
    case Protocol(proto) => Shows(SignOf(proto).value, t, p)
    case Vlan(id) =>
      (match Number(p, TypePlace(t), 2)
       case None => Faulty
       case Some(etype) =>
         if etype != 0x8100 && etype != 0x9100 then False
         else if id < 0 then True
         else match Payload(p, t, 0, 2) case None => Faulty case Some(w) => Of(w % 0x1000 == id))
    case AtLeast(n) => Of(p.wireLength >= n)
    case AtMost(n) => Of(p.wireLength <= n)
    case ByteTest(op, index, v) =>
      if index >= |p.bytes| then Faulty else
        var b := p.bytes[index];
        Of(match op case Equal => b == v case Less => b < v case Greater => b > v)
  }

  function LeafSays(q: Leaf, t: nat, p: Packet): Truth
    requires SpokenLeaf(q)
  {
    match q
    case Prim(prim) => PrimSays(prim, t, p)
    case Rel(op, reversed, l, r) => RelationSays(op, reversed, l, r, t, p)
  }

  // ----- Predicates on an Ethernet frame

  predicate Spoken(row: seq<Leaf>) { forall q :: q in row ==> SpokenLeaf(q) }

  /** What each atom says, tested behind as many tags as there are VLAN tests before it. */
  function Row(row: seq<Leaf>, t: nat, p: Packet): (r: seq<Truth>)
    requires Spoken(row)
    ensures |r| == |row|
  {
    seq(|row|, k requires 0 <= k < |row| => LeafSays(row[k], t + Tags(row[..k]), p))
  }

  /** The connectives, from left to right, over what the atoms say. */
  function Decide(pred: Pred, says: seq<Truth>): Truth
    requires |says| == |Leaves(pred)|
  {
    match pred
    case Prim(_) => says[0]
    case Rel(_, _, _, _) => says[0]
    case Both(goOn, l, r) =>
      var n := |Leaves(l)|;
      Combine(goOn, Decide(l, says[..n]), Decide(r, says[n..]))
    case Complement(e) => Opposite(Decide(e, says))
  }

  /** What a filter says of a frame. */
  function Says(pred: Pred, p: Packet): Truth
    requires Spoken(Leaves(pred))
  {
    Decide(pred, Row(Leaves(pred), 0, p))
  }

  // ----- The semantics of the compiler says the same

  lemma {:induction false} SpokenExactly(e: Expr)
    ensures WellFormed(e) <==> SpokenExpr(e)
  {
    match e
    case Num(_) =>
    case Len =>
    case Fetch(_, index, _) => SpokenExactly(index);
    case Negative(a) => SpokenExactly(a);
    case Bin(_, l, r) => SpokenExactly(l); SpokenExactly(r);
  }

  lemma {:induction false} AcceptedExactly(pred: Pred)
    ensures Accepted(pred) <==> Spoken(Leaves(pred))
  {
    match pred
    case Prim(_) => assert Leaves(pred) == [pred] && pred in [pred];
    case Rel(_, _, l, r) =>
      SpokenExactly(l);
      SpokenExactly(r);
      assert Leaves(pred) == [pred] && pred in [pred];
    case Both(_, l, r) =>
      AcceptedExactly(l);
      AcceptedExactly(r);
      SpokenAppend(Leaves(l), Leaves(r));
    case Complement(e) => AcceptedExactly(e);
  }

  lemma SpokenAppend(a: seq<Leaf>, b: seq<Leaf>)
    ensures Spoken(a + b) <==> Spoken(a) && Spoken(b)
  {
    hide SpokenLeaf;
    forall q ensures q in a + b <==> q in a || q in b {}
  }

  /** The offsets on Ethernet behind t tags. */
  function At(t: nat): Env { Behind(Env(0, 12, 14, 0), t) }

  lemma EqualsIs(p: Packet, k: Word, size: int, v: Word)
    requires size == 1 || size == 2 || size == 4
    ensures WidthOf(size).Some? && Equals(p, k, WidthOf(size).value, v) == Is(Number(p, k, size), v)
  {
    hide Load, Number;
    LoadIsNumber(p, k, size);
  }

  lemma PlaceOf(t: nat, k: nat)
    ensures Wrap(At(t).Network() + k) == (14 + 4 * t + k) % 0x1_0000_0000
  {}

  lemma ProtocolSays(proto: Proto, t: nat, p: Packet)
    requires Abbreviated(proto)
    ensures SignOf(proto).Some? && ProtoTruth(proto, At(t), p) == Shows(SignOf(proto).value, t, p)
  {
    hide Equals, Number;
    if proto.IsNetwork() {
      EqualsIs(p, TypePlace(t), 2, TypeOf(proto));
    } else {
      var n := NumberOf(proto);
      TypeIs(t, ETHERTYPE_IP, p);
      TypeIs(t, ETHERTYPE_IPV6, p);
      PayloadIs(t, 9, n, p);
      PayloadIs(t, 6, n, p);
      PayloadIs(t, 6, 44, p);
      PayloadIs(t, 40, n, p);
    }
  }

  lemma TypeIs(t: nat, v: Word, p: Packet)
    ensures Equals(p, At(t).linkType, H, v) == Is(Number(p, TypePlace(t), 2), v)
  {
    EqualsIs(p, TypePlace(t), 2, v);
  }

  lemma PayloadIs(t: nat, k: nat, n: Word, p: Packet)
    ensures Equals(p, Wrap(At(t).Network() + k), B, n) == Is(Payload(p, t, k, 1), n)
  {
    PlaceOf(t, k);
    EqualsIs(p, (14 + 4 * t + k) % 0x1_0000_0000, 1, n);
  }

  lemma FragmentSays(t: nat, p: Packet)
    ensures FirstFragmentTruth(At(t), p) ==
            match Payload(p, t, 6, 2) case None => Faulty case Some(w) => Of(w % 0x2000 == 0)
  {
    hide Load, Number;
    PlaceOf(t, 6);
    LoadIsNumber(p, (14 + 4 * t + 6) % 0x1_0000_0000, 2);
  }

  lemma {:induction false} GuardSays(e: Expr, t: nat, p: Packet)
    requires WellFormed(e) && SpokenExpr(e)
    ensures CheckTruth(e, At(t), p) == Guarded(e, t, p)
  {
    hide At, ProtoTruth, FirstFragmentTruth, Shows, Payload;
    match e
    case Num(_) =>
    case Len =>
    case Fetch(proto, index, _) =>
      GuardSays(index, t, p);
      if !proto.Link? {
        ProtocolSays(proto, t, p);
        ProtocolSays(Ip, t, p);
        FragmentSays(t, p);
      }
    case Negative(a) => GuardSays(a, t, p);
    case Bin(_, l, _) => GuardSays(l, t, p);
  }

  lemma {:induction false} ValueSays(e: Expr, t: nat, p: Packet)
    requires WellFormed(e) && SpokenExpr(e)
    ensures Value(e, At(t), p) == Amount(e, t, p)
  {
    hide Item, ItemPlace, Number, Behind, Alu;
    match e
    case Num(_) =>
    case Len =>
    case Fetch(proto, index, size) =>
      ValueSays(index, t, p);
      ItemMeaning(proto, index, size, At(t), p);
    case Negative(a) => ValueSays(a, t, p);
    case Bin(_, l, r) =>
      ValueSays(l, t, p);
      ValueSays(r, t, p);
  }

  lemma CompareSays(op: JumpOp, v: Word, w: Word)
    ensures Compare(op, v, w) <==> Relates(op, v, w)
  {
    if op.JSET? { CommonBit(v, w, 32); }
  }

  /** A conjunction is not 0 exactly if the words have a bit in common. */
  lemma {:induction false} CommonBit(v: nat, w: nat, width: nat)
    ensures Bitwise(AND, v, w, width) != 0 <==> exists k: nat :: k < width && Has(v, k) && Has(w, k)
  {
    hide Has;
    if width > 0 {
      CommonBit(v / 2, w / 2, width - 1);
      HasFirst(v);
      HasFirst(w);
      if k: nat :| k < width && Has(v, k) && Has(w, k) {
        if k > 0 {
          HasNext(v, k - 1);
          HasNext(w, k - 1);
        }
      }
      if k: nat :| k < width - 1 && Has(v / 2, k) && Has(w / 2, k) {
        HasNext(v, k);
        HasNext(w, k);
      }
    }
  }

  lemma RelationIs(op: JumpOp, reversed: bool, l: Expr, r: Expr, t: nat, p: Packet)
    requires WellFormed(l) && WellFormed(r) && SpokenExpr(l) && SpokenExpr(r)
    ensures RelationTruth(op, reversed, l, r, At(t), p) == RelationSays(op, reversed, l, r, t, p)
  {
    hide CheckTruth, Guarded, Value, Amount, Compare, Relates, At;
    GuardSays(l, t, p);
    GuardSays(r, t, p);
    ValueSays(l, t, p);
    ValueSays(r, t, p);
    match (Amount(l, t, p), Amount(r, t, p))
    case (Some(v), Some(w)) => CompareSays(op, v, w);
    case _ =>
  }

  lemma VlanSays(id: VlanId, t: nat, p: Packet)
    ensures VlanTruth(At(t), id, p) == PrimSays(Vlan(id), t, p)
  {
    hide Load, Number, Equals;
    TypeIs(t, ETHERTYPE_8021Q, p);
    TypeIs(t, ETHERTYPE_8021QINQ, p);
    PlaceOf(t, 0);
    LoadIsNumber(p, (14 + 4 * t + 0) % 0x1_0000_0000, 2);
  }

  lemma PrimIs(prim: Primitive, t: nat, p: Packet)
    requires prim.Protocol? ==> Abbreviated(prim.proto) && SignOf(prim.proto).Some?
    ensures PrimTruth(prim, At(t), p) == PrimSays(prim, t, p)
  {
    hide ProtoTruth, VlanTruth, Shows;
    match prim
    case Protocol(proto) => ProtocolSays(proto, t, p);
    case Vlan(id) => VlanSays(id, t, p);
    case AtLeast(_) =>
    case AtMost(_) =>
    case ByteTest(_, _, _) =>
  }

  lemma LeafIs(q: Leaf, t: nat, p: Packet)
    requires Accepted(q) && SpokenLeaf(q)
    ensures PredTruth(q, At(t), p) == LeafSays(q, t, p)
  {
    hide PrimTruth, PrimSays, RelationTruth, RelationSays, SpokenExpr, At;
    match q
    case Prim(prim) => PrimIs(prim, t, p);
    case Rel(op, reversed, l, r) =>
      SpokenExactly(l);
      SpokenExactly(r);
      RelationIs(op, reversed, l, r, t, p);
  }

  /** The atoms of a second row are tested behind the tags of the first. */
  lemma RowAppend(a: seq<Leaf>, b: seq<Leaf>, t: nat, p: Packet)
    requires Spoken(a) && Spoken(b)
    ensures Spoken(a + b) && Row(a + b, t, p) == Row(a, t, p) + Row(b, t + Tags(a), p)
  {
    hide Spoken, SpokenLeaf, LeafSays, Tags, Row;
    SpokenAppend(a, b);
    var row := a + b;
    var (x, y, z) := (Row(row, t, p), Row(a, t, p), Row(b, t + Tags(a), p));
    forall k | 0 <= k < |a| ensures x[k] == y[k] {
      assert row[..k] == a[..k];
      SameLeaf(row, t, k, a, t, k, p);
    }
    forall k | 0 <= k < |b| ensures x[|a| + k] == z[k] {
      LeafBehind(a, b, row, k);
      SameLeaf(row, t, |a| + k, b, t + Tags(a), k, p);
    }
    assert x == y + z;
  }

  lemma RowAt(row: seq<Leaf>, t: nat, p: Packet, k: nat)
    requires k < |row| && Spoken(row)
    ensures SpokenLeaf(row[k]) && Row(row, t, p)[k] == LeafSays(row[k], t + Tags(row[..k]), p)
  {}

  lemma SameLeaf(row: seq<Leaf>, t: nat, k: nat, other: seq<Leaf>, u: nat, n: nat, p: Packet)
    requires k < |row| && n < |other| && Spoken(row) && Spoken(other)
    requires row[k] == other[n] && t + Tags(row[..k]) == u + Tags(other[..n])
    ensures Row(row, t, p)[k] == Row(other, u, p)[n]
  {
    hide Spoken, SpokenLeaf, LeafSays, Tags, Row;
    RowAt(row, t, p, k);
    RowAt(other, u, p, n);
  }

  lemma LeafBehind(a: seq<Leaf>, b: seq<Leaf>, row: seq<Leaf>, k: nat)
    requires k < |b| && row == a + b
    ensures row[|a| + k] == b[k] && Tags(row[..|a| + k]) == Tags(a) + Tags(b[..k])
  {
    hide Tags;
    assert row[..|a| + k] == a + b[..k];
    TagsAppend(a, b[..k]);
  }

  lemma {:induction false} TruthSays(pred: Pred, t: nat, p: Packet)
    requires Accepted(pred) && Spoken(Leaves(pred))
    ensures PredTruth(pred, At(t), p) == Decide(pred, Row(Leaves(pred), t, p))
  {
    hide SpokenLeaf, At, Tags, LeafSays, Row;
    match pred
    case Prim(_) => OneLeaf(pred, t, p);
    case Rel(_, _, _, _) => OneLeaf(pred, t, p);
    case Both(_, l, r) =>
      var a, b := Leaves(l), Leaves(r);
      SpokenAppend(a, b);
      RowAppend(a, b, t, p);
      AtSum(t, Tags(a));
      TruthSays(l, t, p);
      TruthSays(r, t + Tags(a), p);
    case Complement(e) => TruthSays(e, t, p);
  }

  lemma OneLeaf(q: Leaf, t: nat, p: Packet)
    requires Accepted(q) && Spoken(Leaves(q))
    ensures PredTruth(q, At(t), p) == Decide(q, Row(Leaves(q), t, p))
  {
    hide SpokenLeaf, PredTruth, LeafSays, At;
    assert Leaves(q) == [q] && q in [q];
    assert [q][..0] == [];
    LeafIs(q, t, p);
  }

  lemma AtSum(t: nat, n: nat)
    ensures Behind(At(t), n) == At(t + n)
  {
    BehindSum(Env(0, 12, 14, 0), t, n);
  }

  /** The compiler accepts exactly the predicates of the language, and its semantics is what they say
      of the bytes of a frame. */
  lemma SaysExactly(pred: Pred)
    ensures Accepted(pred) <==> Spoken(Leaves(pred))
    ensures Accepted(pred) ==> forall p :: PredTruth(pred, Ethernet(0), p) == Says(pred, p)
  {
    hide Spoken, Accepted, PredTruth, Row, Decide, Leaves;
    AcceptedExactly(pred);
    if Accepted(pred) {
      assert At(0) == Ethernet(0);
      forall p ensures PredTruth(pred, Ethernet(0), p) == Says(pred, p) { TruthSays(pred, 0, p); }
    }
  }

  /** "not vlan and ip" tests the type behind a tag that is not there. */
  lemma NotVlanShifts(p: Packet)
    ensures var pred := Both(true, Complement(Prim(Vlan(-1))), Prim(Protocol(Ip)));
      && Spoken(Leaves(pred))
      && (Says(pred, p) == True <==>
            && Number(p, 12, 2).Some? && Number(p, 12, 2) != Some(0x8100) && Number(p, 12, 2) != Some(0x9100)
            && Number(p, 16, 2) == Some(0x0800))
  {
    hide Number;
    var pred := Both(true, Complement(Prim(Vlan(-1))), Prim(Protocol(Ip)));
    var row := [Prim(Vlan(-1)), Prim(Protocol(Ip))];
    assert Leaves(pred) == row;
    assert row[..0] == [] && row[..1] == [row[0]];
    TagsOne(row[0]);
    var says := Row(row, 0, p);
    assert says[0] == LeafSays(row[0], 0, p) && says[1] == LeafSays(row[1], 1, p);
    assert says[..1][0] == says[0] && says[1..][0] == says[1];
    assert Leaves(pred.left) == [row[0]];
    assert Decide(pred.left, says[..1]) == Opposite(Decide(pred.left.inner, says[..1]));
    assert Decide(pred.right, says[1..]) == says[1];
  }
}
