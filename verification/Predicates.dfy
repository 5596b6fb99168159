/** The filter language on Ethernet: its meaning for a packet, and the filter that it compiles to. */
module Predicates {
  import opened Common
  import opened Machine
  import opened BlockGraph
  import opened Truths
  import opened Arith
  import opened Frames

  // ----- Places in a frame

  datatype OffRel = LinkHdr | LinkTypeField | LinkPl

  /** What an offset is relative to. */
  function Base(rel: OffRel, env: Env): Word {
    match rel
    case LinkHdr => env.linkHdr
    case LinkTypeField => env.linkType
    case LinkPl => env.Network()
  }

  // ----- Protocol tests

  const ETHERTYPE_IP: Word := 0x0800
  const ETHERTYPE_IPV6: Word := 0x86dd
  const IPPROTO_FRAGMENT: Word := 44

  /** The EtherType of a network protocol. */
  function TypeOf(proto: Proto): Word
    requires proto.IsNetwork()
  {
    match proto
    case Ip => ETHERTYPE_IP case Arp => 0x0806 case Rarp => 0x8035
    case Decnet => 0x6003 case Sca => 0x6007 case Lat => 0x6004 case MopRc => 0x6002 case MopDl => 0x6001
    case _ => ETHERTYPE_IPV6
  }

  /** The number of a transport protocol in an IP header. */
  function NumberOf(proto: Proto): Word
    requires proto.IsTransport() || proto.Icmpv6?
  {
    match proto
    case Sctp => 132 case Tcp => 6 case Udp => 17 case Icmp => 1 case Igmp => 2 case Igrp => 9
    case Pim => 103 case Vrrp => 112 case Carp => 112
    case _ => 58
  }

  function OverIp(env: Env, n: Word): Filter {
    And(EtherType(env, ETHERTYPE_IP), Field(B, Wrap(env.Network() + 9), ALL, JEQ, n))
  }

  function BehindFragment(env: Env, n: Word): Filter {
    And(Field(B, Wrap(env.Network() + 6), ALL, JEQ, IPPROTO_FRAGMENT), Field(B, Wrap(env.Network() + 40), ALL, JEQ, n))
  }

  /** The protocol in an IPv6 header, or behind a fragment header. */
  function NextHeader(env: Env, n: Word): Filter {
    Or(Field(B, Wrap(env.Network() + 6), ALL, JEQ, n), BehindFragment(env, n))
  }

  function OverIpv6(env: Env, n: Word): Filter { And(EtherType(env, ETHERTYPE_IPV6), NextHeader(env, n)) }

  predicate OverBoth(proto: Proto) { proto.Sctp? || proto.Tcp? || proto.Udp? || proto.Pim? }

  predicate Abbreviated(proto: Proto) { !proto.Link? && !proto.Radio? }

  function ProtoFilter(proto: Proto, env: Env): Filter
    requires Abbreviated(proto)
  {
    if proto.IsNetwork() then EtherType(env, TypeOf(proto))
    else if proto.Icmpv6? then OverIpv6(env, NumberOf(proto))
    else if OverBoth(proto) then Or(OverIpv6(env, NumberOf(proto)), OverIp(env, NumberOf(proto)))
    else OverIp(env, NumberOf(proto))
  }

  /** The packet is not a fragment other than the first. */
  function FirstFragment(env: Env): Filter { Not(Field(H, Wrap(env.Network() + 6), ALL, JSET, 0x1fff)) }

  // ----- What protocol tests mean

  /** The item at offset k has the value v; it faults behind the end of the packet. */
  function Equals(p: Packet, k: Word, size: Width, v: Word): Truth {
    match Load(p, k, size) case None => Faulty case Some(w) => Of(w == v)
  }

  function OverIpTruth(env: Env, n: Word, p: Packet): Truth {
    Combine(true, Equals(p, env.linkType, H, ETHERTYPE_IP), Equals(p, Wrap(env.Network() + 9), B, n))
  }

  function OverIpv6Truth(env: Env, n: Word, p: Packet): Truth {
    var next := Wrap(env.Network() + 6);
    var behind := Combine(true, Equals(p, next, B, IPPROTO_FRAGMENT), Equals(p, Wrap(env.Network() + 40), B, n));
    Combine(true, Equals(p, env.linkType, H, ETHERTYPE_IPV6), Combine(false, Equals(p, next, B, n), behind))
  }

  /** A network protocol is named by the link type; the others by an IPv4 header, by an IPv6 header
      or a fragment header behind it, or by either. */
  function ProtoTruth(proto: Proto, env: Env, p: Packet): Truth
    requires Abbreviated(proto)
  {
    if proto.IsNetwork() then Equals(p, env.linkType, H, TypeOf(proto))
    else
      var n := NumberOf(proto);
      if proto.Icmpv6? then OverIpv6Truth(env, n, p)
      else if OverBoth(proto) then Combine(false, OverIpv6Truth(env, n, p), OverIpTruth(env, n, p))
      else OverIpTruth(env, n, p)
  }

  /** The low thirteen bits of the third half of the IPv4 header are the fragment offset. */
  function FirstFragmentTruth(env: Env, p: Packet): Truth {
    match Load(p, Wrap(env.Network() + 6), H) case None => Faulty case Some(w) => Of(w % 0x2000 == 0)
  }

  lemma EqualsMeaning(size: Width, k: Word, v: Word)
    ensures StateFree(Field(size, k, ALL, JEQ, v))
    ensures forall p :: Meaning(Field(size, k, ALL, JEQ, v), p) == Equals(p, k, size, v)
  {
    FieldMeaning(size, k, ALL, JEQ, v);
  }

  lemma OverIpMeaning(env: Env, n: Word)
    ensures StateFree(OverIp(env, n))
    ensures forall p :: Meaning(OverIp(env, n), p) == OverIpTruth(env, n, p)
  {
    EqualsMeaning(H, env.linkType, ETHERTYPE_IP);
    EqualsMeaning(B, Wrap(env.Network() + 9), n);
    JoinMeaning(true, EtherType(env, ETHERTYPE_IP), Field(B, Wrap(env.Network() + 9), ALL, JEQ, n));
  }

  lemma OverIpv6Meaning(env: Env, n: Word)
    ensures StateFree(OverIpv6(env, n))
    ensures forall p :: Meaning(OverIpv6(env, n), p) == OverIpv6Truth(env, n, p)
  {
    var next := Wrap(env.Network() + 6);
    var behind := Field(B, Wrap(env.Network() + 40), ALL, JEQ, n);
    EqualsMeaning(H, env.linkType, ETHERTYPE_IPV6);
    EqualsMeaning(B, next, n);
    EqualsMeaning(B, next, IPPROTO_FRAGMENT);
    EqualsMeaning(B, Wrap(env.Network() + 40), n);
    JoinMeaning(true, Field(B, next, ALL, JEQ, IPPROTO_FRAGMENT), behind);
    JoinMeaning(false, Field(B, next, ALL, JEQ, n), And(Field(B, next, ALL, JEQ, IPPROTO_FRAGMENT), behind));
    JoinMeaning(true, EtherType(env, ETHERTYPE_IPV6), NextHeader(env, n));
  }

  lemma ProtoMeaning(proto: Proto, env: Env)
    requires Abbreviated(proto)
    ensures StateFree(ProtoFilter(proto, env))
    ensures forall p :: Meaning(ProtoFilter(proto, env), p) == ProtoTruth(proto, env, p)
  {
    if proto.IsNetwork() {
      EqualsMeaning(H, env.linkType, TypeOf(proto));
    } else {
      OverIpMeaning(env, NumberOf(proto));
      OverIpv6Meaning(env, NumberOf(proto));
      JoinMeaning(false, OverIpv6(env, NumberOf(proto)), OverIp(env, NumberOf(proto)));
    }
  }

  lemma FirstFragmentMeaning(env: Env)
    ensures StateFree(FirstFragment(env))
    ensures forall p :: Meaning(FirstFragment(env), p) == FirstFragmentTruth(env, p)
  {
    var k := Wrap(env.Network() + 6);
    FieldMeaning(H, k, ALL, JSET, 0x1fff);
    NotMeaning(Field(H, k, ALL, JSET, 0x1fff));
    forall p ensures Opposite(FieldTruth(H, k, ALL, JSET, 0x1fff, p)) == FirstFragmentTruth(env, p) {
      match Load(p, k, H)
      case None =>
      case Some(w) => LowThirteen(w);
    }
  }

  lemma LowThirteen(w: Word)
    ensures BitAnd(w, 0x1fff) == w % 0x2000
  {
    assert Pow2(6) == 64;
    assert Pow2(13) == 0x2000;
    MaskLow(w, 13, 32);
  }

  // ----- Protocol checks of arithmetic expressions

  /** The check of proto[index : size], where `inner` is that of the index: an item of a network
      header needs the protocol, and one of a transport header needs IPv4, the protocol and the
      first fragment. */
  function LoadCheck(proto: Proto, env: Env, inner: Option<Filter>): Option<Filter>
    requires proto.Indexable()
  {
    if proto.Link? then inner
    else if proto.IsNetwork() then Some(AndAfter(inner, ProtoFilter(proto, env)))
    else Some(And(ProtoFilter(Ip, env), AndAfter(inner, And(ProtoFilter(proto, env), FirstFragment(env)))))
  }

  /** The check that the compiler keeps with an expression.  A binary operation keeps the check of
      its left operand and drops the other. */
  function CheckOf(e: Expr, env: Env): Option<Filter>
    requires WellFormed(e)
  {
    match e
    case Num(_) => None
    case Len => None
    case Fetch(proto, index, _) => LoadCheck(proto, env, CheckOf(index, env))
    case Negative(a) => CheckOf(a, env)
    case Bin(_, l, _) => CheckOf(l, env)
  }

  function LoadCheckTruth(proto: Proto, env: Env, inner: Truth, p: Packet): Truth
    requires proto.Indexable()
  {
    if proto.Link? then inner
    else if proto.IsNetwork() then Combine(true, inner, ProtoTruth(proto, env, p))
    else
      Combine(true, ProtoTruth(Ip, env, p),
              Combine(true, inner, Combine(true, ProtoTruth(proto, env, p), FirstFragmentTruth(env, p))))
  }

  /** What the kept checks mean: every item, in the order in which the compiler tests them, lies in a
      packet of its protocol; one of a transport header lies in an IPv4 packet that is no later
      fragment. */
  function CheckTruth(e: Expr, env: Env, p: Packet): Truth
    requires WellFormed(e)
  {
    match e
    case Num(_) => True
    case Len => True
    case Fetch(proto, index, _) => LoadCheckTruth(proto, env, CheckTruth(index, env, p), p)
    case Negative(a) => CheckTruth(a, env, p)
    case Bin(_, l, _) => CheckTruth(l, env, p)
  }

  lemma {:induction false} CheckMeaning(e: Expr, env: Env)
    requires WellFormed(e)
    ensures CheckOf(e, env).Some? ==> StateFree(CheckOf(e, env).value)
    ensures forall p :: AfterTruth(CheckOf(e, env), p) == CheckTruth(e, env, p)
  {
    match e
    case Num(_) =>
    case Len =>
    case Fetch(proto, index, _) =>
      CheckMeaning(index, env);
      LoadCheckMeaning(proto, env, CheckOf(index, env));
    case Negative(a) => CheckMeaning(a, env);
    case Bin(_, l, _) => CheckMeaning(l, env);
  }

  lemma AndAfterMeaning(acc: Option<Filter>, f: Filter)
    requires StateFree(f) && (acc.Some? ==> StateFree(acc.value))
    ensures StateFree(AndAfter(acc, f))
    ensures forall p :: Meaning(AndAfter(acc, f), p) == Combine(true, AfterTruth(acc, p), Meaning(f, p))
  {
    if acc.Some? { JoinMeaning(true, acc.value, f); }
  }

  lemma LoadCheckMeaning(proto: Proto, env: Env, inner: Option<Filter>)
    requires proto.Indexable() && (inner.Some? ==> StateFree(inner.value))
    ensures LoadCheck(proto, env, inner).Some? ==> StateFree(LoadCheck(proto, env, inner).value)
    ensures forall p ::
      AfterTruth(LoadCheck(proto, env, inner), p) == LoadCheckTruth(proto, env, AfterTruth(inner, p), p)
  {
    if !proto.Link? {
      ProtoMeaning(proto, env);
      AndAfterMeaning(inner, ProtoFilter(proto, env));
      if proto.IsTransport() {
        ProtoMeaning(Ip, env);
        FirstFragmentMeaning(env);
        var own := And(ProtoFilter(proto, env), FirstFragment(env));
        JoinMeaning(true, ProtoFilter(proto, env), FirstFragment(env));
        AndAfterMeaning(inner, own);
        JoinMeaning(true, ProtoFilter(Ip, env), AndAfter(inner, own));
      }
    }
  }

  // ----- Relations

  /** The block of a relation: both operands are computed, then compared.  Equality is a
      subtraction compared with 0. */
  function RelationTest(op: JumpOp, s0: seq<Stmt>, r0: Reg, s1: seq<Stmt>, r1: Reg): Test {
    if op == JEQ then Test(s0 + s1 + [LdxMem(r1), LdMem(r0), AluX(SUB)], JmpK(JEQ, 0))
    else Test(s0 + s1 + [LdxMem(r1), LdMem(r0)], JmpX(op))
  }

  function BothChecks(c0: Option<Filter>, c1: Option<Filter>): Option<Filter> {
    match c1 case None => c0 case Some(f) => Some(AndAfter(c0, f))
  }

  function RelationFilter(op: JumpOp, reversed: bool, c0: Option<Filter>, c1: Option<Filter>, t: Test): Filter {
    AndAfter(BothChecks(c0, c1), if reversed then Not(Atom(t)) else Atom(t))
  }

  /** The relation holds if the checks of both operands do, and then the operands compare as
      asked; only the comparison is complemented when it is reversed. */
  function RelationTruth(op: JumpOp, reversed: bool, l: Expr, r: Expr, env: Env, p: Packet): Truth
    requires WellFormed(l) && WellFormed(r)
  {
    var comparison := ComparisonTruth(op, l, r, env, p);
    Combine(true, Combine(true, CheckTruth(l, env, p), CheckTruth(r, env, p)),
            if reversed then Opposite(comparison) else comparison)
  }

  function ComparisonTruth(op: JumpOp, l: Expr, r: Expr, env: Env, p: Packet): Truth
    requires WellFormed(l) && WellFormed(r)
  {
    match (Value(l, env, p), Value(r, env, p))
    case (Some(v), Some(w)) => Of(Compare(op, v, w))
    case _ => Faulty
  }

  /** The code of a relation compares the values of its operands as 32-bit unsigned numbers. */
  lemma ComparisonMeaning(op: JumpOp, l: Expr, r: Expr, env: Env, rs: Regs)
    requires Compile(l, env, rs).Some? && Compile(r, env, Compile(l, env, rs).value.regs).Some?
    requires WellFormed(l) && WellFormed(r)
    ensures
      var c0 := Compile(l, env, rs).value;
      var c1 := Compile(r, env, c0.regs).value;
      var f := Atom(RelationTest(op, c0.stmts, c0.reg, c1.stmts, c1.reg));
      StateFree(f) && forall p :: Meaning(f, p) == ComparisonTruth(op, l, r, env, p)
  {
    var c0 := Compile(l, env, rs).value;
    var c1 := Compile(r, env, c0.regs).value;
    var t := RelationTest(op, c0.stmts, c0.reg, c1.stmts, c1.reg);
    forall p, st ensures TruthOf(Eval(Atom(t), p, st)) == ComparisonTruth(op, l, r, env, p) {
      OperandsCorrect(l, r, env, rs, p, st);
      ThenCompare(op, c0.stmts, c0.reg, c1.stmts, c1.reg, p, st);
    }
  }

  lemma ThenCompare(op: JumpOp, s0: seq<Stmt>, r0: Reg, s1: seq<Stmt>, r1: Reg, p: Packet, st: State)
    ensures TruthOf(Eval(Atom(RelationTest(op, s0, r0, s1, r1)), p, st)) ==
            match Exec(s0 + s1, p, st)
            case None => Faulty
            case Some(s) => Of(Compare(op, s.m[r0], s.m[r1]))
  {
    var code := RelationTest(op, [], r0, [], r1).stmts;
    assert RelationTest(op, s0, r0, s1, r1).stmts == s0 + s1 + code;
    ExecAppend(s0 + s1, code, p, st);
    if Exec(s0 + s1, p, st).Some? { CompareRun(op, r0, r1, p, Exec(s0 + s1, p, st).value); }
  }

  lemma CompareRun(op: JumpOp, r0: Reg, r1: Reg, p: Packet, st: State)
    ensures var t := RelationTest(op, [], r0, [], r1);
            && Exec(t.stmts, p, st).Some?
            && (Taken(t.jump, Exec(t.stmts, p, st).value) <==> Compare(op, st.m[r0], st.m[r1]))
  {
    var t := RelationTest(op, [], r0, [], r1);
    if op == JEQ {
      assert t.stmts == BinCode(SUB, r0, r1);
      BinCodeRun(SUB, r0, r1, p, st);
      SubtractionExact(st.m[r0], st.m[r1]);
    } else {
      assert t.stmts == [LdxMem(r1)] + [LdMem(r0)];
      ExecCons(LdxMem(r1), [LdMem(r0)], p, st);
      ExecCons(LdMem(r0), [], p, st.(x := st.m[r1]));
    }
  }

  lemma SubtractionExact(v: Word, w: Word)
    ensures Alu(SUB, v, w) == Some(0) <==> v == w
  {}

  lemma RelationMeaning(op: JumpOp, reversed: bool, l: Expr, r: Expr, env: Env, rs: Regs)
    requires Compile(l, env, rs).Some? && Compile(r, env, Compile(l, env, rs).value.regs).Some?
    requires WellFormed(l) && WellFormed(r)
    ensures
      var c0 := Compile(l, env, rs).value;
      var c1 := Compile(r, env, c0.regs).value;
      var t := RelationTest(op, c0.stmts, c0.reg, c1.stmts, c1.reg);
      var f := RelationFilter(op, reversed, CheckOf(l, env), CheckOf(r, env), t);
      StateFree(f) && forall p :: Meaning(f, p) == RelationTruth(op, reversed, l, r, env, p)
  {
    var c0 := Compile(l, env, rs).value;
    var c1 := Compile(r, env, c0.regs).value;
    ComparisonMeaning(op, l, r, env, rs);
    CheckMeaning(l, env);
    CheckMeaning(r, env);
    CheckedMeaning(reversed, CheckOf(l, env), CheckOf(r, env),
                   Atom(RelationTest(op, c0.stmts, c0.reg, c1.stmts, c1.reg)));
  }

  lemma CheckedMeaning(reversed: bool, c0: Option<Filter>, c1: Option<Filter>, own: Filter)
    requires StateFree(own) && (c0.Some? ==> StateFree(c0.value)) && (c1.Some? ==> StateFree(c1.value))
    ensures var f := AndAfter(BothChecks(c0, c1), if reversed then Not(own) else own);
      StateFree(f) && forall p ::
        Meaning(f, p) == Combine(true, Combine(true, AfterTruth(c0, p), AfterTruth(c1, p)),
                                 if reversed then Opposite(Meaning(own, p)) else Meaning(own, p))
  {
    NotMeaning(own);
    if c1.Some? { AndAfterMeaning(c0, c1.value); }
    AndAfterMeaning(BothChecks(c0, c1), if reversed then Not(own) else own);
  }

  // ----- The language

  datatype ByteOp = Equal | Less | Greater

  /** The atoms besides relations. */
  datatype Primitive =
    | Protocol(proto: Proto)
    | Vlan(id: VlanId)
    | AtLeast(n: Word)      // "greater n"
    | AtMost(n: Word)       // "less n"
    | ByteTest(op: ByteOp, index: Word, v: Word)

  datatype Pred =
    | Prim(prim: Primitive)
    | Rel(op: JumpOp, reversed: bool, l: Expr, r: Expr)
    | Both(goOn: bool, left: Pred, right: Pred)     // "and" when goOn, else "or"
    | Complement(inner: Pred)

  predicate Accepted(pred: Pred) {
    match pred
    case Prim(prim) => prim.Protocol? ==> Abbreviated(prim.proto)
    case Rel(_, _, l, r) => WellFormed(l) && WellFormed(r)
    case Both(_, l, r) => Accepted(l) && Accepted(r)
    case Complement(e) => Accepted(e)
  }

  /** The offsets that the compiler goes on with: a VLAN test moves them. */
  function EnvAfter(pred: Pred, env: Env): Env {
    match pred
    case Prim(prim) => if prim.Vlan? then BehindTag(env) else env
    case Rel(_, _, _, _) => env
    case Both(_, l, r) => EnvAfter(r, EnvAfter(l, env))
    case Complement(e) => EnvAfter(e, env)
  }

  // ----- VLAN tests move later offsets

  /** An atom of a predicate. */
  type Leaf = q: Pred | q.Prim? || q.Rel? witness Prim(AtLeast(0))

  /** The atoms, from left to right. */
  function Leaves(pred: Pred): seq<Leaf> {
    match pred
    case Prim(_) => [pred]
    case Rel(_, _, _, _) => [pred]
    case Both(_, l, r) => Leaves(l) + Leaves(r)
    case Complement(e) => Leaves(e)
  }

  /** The number of VLAN tests among some atoms. */
  function Tags(row: seq<Leaf>): nat {
    if row == [] then 0 else (if row[0].Prim? && row[0].prim.Vlan? then 1 else 0) + Tags(row[1..])
  }

  lemma {:induction false} TagsAppend(a: seq<Leaf>, b: seq<Leaf>)
    ensures Tags(a + b) == Tags(a) + Tags(b)
  {
    if a == [] {
      assert a + b == b;
    } else {
      assert (a + b)[1..] == a[1..] + b;
      TagsAppend(a[1..], b);
    }
  }

  /** The offsets n tags further on. */
  function Behind(env: Env, n: nat): Env {
    Env(env.linkHdr, (env.linkType + 4 * n) % 0x1_0000_0000, (env.linkPl + 4 * n) % 0x1_0000_0000, env.nl)
  }

  lemma TagsOne(q: Leaf)
    ensures Tags([q]) == if q.Prim? && q.prim.Vlan? then 1 else 0
  {
    assert [q][1..] == [];
  }

  lemma BehindSum(env: Env, a: nat, b: nat)
    ensures Behind(Behind(env, a), b) == Behind(env, a + b)
    ensures Behind(env, 0) == env && Behind(env, 1) == BehindTag(env)
  {
    CutOnce(env.linkType + 4 * a, 4 * b);
    CutOnce(env.linkPl + 4 * a, 4 * b);
  }

  lemma CutOnce(x: nat, d: nat)
    ensures (x % 0x1_0000_0000 + d) % 0x1_0000_0000 == (x + d) % 0x1_0000_0000
  {}

  /** Each VLAN test, even one under "not" or on a side of "or", moves the offsets by one tag, and
      nothing else does. */
  lemma {:induction false} OffsetsAfter(pred: Pred, env: Env)
    ensures EnvAfter(pred, env) == Behind(env, Tags(Leaves(pred)))
  {
    hide Behind, BehindTag, Tags;
    BehindSum(env, 0, 0);
    match pred
    case Prim(_) => TagsOne(pred);
    case Rel(_, _, _, _) => TagsOne(pred);
    case Both(_, l, r) =>
      OffsetsAfter(l, env);
      OffsetsAfter(r, EnvAfter(l, env));
      TagsAppend(Leaves(l), Leaves(r));
      BehindSum(env, Tags(Leaves(l)), Tags(Leaves(r)));
    case Complement(e) => OffsetsAfter(e, env);
  }

  // ----- What predicates mean, and compile to

  function LengthFilter(op: JumpOp, n: Word): Filter { Atom(Test([LdLen], JmpK(op, n))) }

  function PrimFilter(prim: Primitive, env: Env): Filter
    requires prim.Protocol? ==> Abbreviated(prim.proto)
  {
    match prim
    case Protocol(proto) => ProtoFilter(proto, env)
    case Vlan(id) => VlanFilter(env, id)
    case AtLeast(n) => LengthFilter(JGE, n)
    case AtMost(n) => Not(LengthFilter(JGT, n))
    case ByteTest(op, index, v) =>
      var k := Wrap(env.linkHdr + index);
      if op.Equal? then Field(B, k, ALL, JEQ, v) else if op.Greater? then Field(B, k, ALL, JGT, v)
      else Not(Field(B, k, ALL, JGE, v))
  }

  /** A tag in place of the link type, with this identifier in its low twelve bits if it is not
      negative. */
  function VlanTruth(env: Env, id: VlanId, p: Packet): Truth {
    var tag := Combine(false, Equals(p, env.linkType, H, ETHERTYPE_8021Q),
                       Equals(p, env.linkType, H, ETHERTYPE_8021QINQ));
    if id < 0 then tag
    else Combine(true, tag, match Load(p, env.Network(), H) case None => Faulty case Some(w) => Of(w % 0x1000 == id))
  }

  function PrimTruth(prim: Primitive, env: Env, p: Packet): Truth
    requires prim.Protocol? ==> Abbreviated(prim.proto)
  {
    match prim
    case Protocol(proto) => ProtoTruth(proto, env, p)
    case Vlan(id) => VlanTruth(env, id, p)
    case AtLeast(n) => Of(p.wireLength >= n)
    case AtMost(n) => Of(p.wireLength <= n)
    case ByteTest(op, index, v) =>
      (match Load(p, Wrap(env.linkHdr + index), B)
       case None => Faulty
       case Some(b) => Of(match op case Equal => b == v case Less => b < v case Greater => b > v))
  }

  /** Left-to-right short-circuit evaluation of a predicate on a packet, each side at the offsets behind
      the VLAN tests before it. */
  function PredTruth(pred: Pred, env: Env, p: Packet): Truth
    requires Accepted(pred)
  {
    match pred
    case Prim(prim) => PrimTruth(prim, env, p)
    case Rel(op, reversed, l, r) => RelationTruth(op, reversed, l, r, env, p)
    case Both(goOn, l, r) => Combine(goOn, PredTruth(l, env, p), PredTruth(r, Behind(env, Tags(Leaves(l))), p))
    case Complement(e) => Opposite(PredTruth(e, env, p))
  }

  /** The filter that a predicate compiles to, and the registers after. */
  function PredCompile(pred: Pred, env: Env, rs: Regs): Option<(Filter, Regs)> {
    match pred
    case Prim(prim) =>
      if prim.Protocol? && !Abbreviated(prim.proto) then None else Some((PrimFilter(prim, env), rs))
    case Rel(op, reversed, l, r) =>
      (match Compile(l, env, rs)
       case None => None
       case Some(c0) =>
         match Compile(r, env, c0.regs)
         case None => None
         case Some(c1) =>
           CompileExact(l, env, rs);
           CompileExact(r, env, c0.regs);
           Some((RelationFilter(op, reversed, CheckOf(l, env), CheckOf(r, env),
                                RelationTest(op, c0.stmts, c0.reg, c1.stmts, c1.reg)),
                 Free(Free(c1.regs, c0.reg), c1.reg))))
    case Both(goOn, l, r) =>
      (match PredCompile(l, env, rs)
       case None => None
       case Some((f, rs0)) =>
         match PredCompile(r, EnvAfter(l, env), rs0)
         case None => None
         case Some((g, rs1)) => Some((Join(goOn, f, g), rs1)))
    case Complement(e) =>
      (match PredCompile(e, env, rs) case None => None case Some((f, rs')) => Some((Not(f), rs')))
  }

  function Larger(a: nat, b: nat): nat { if a > b then a else b }

  /** The registers that the hungriest relation needs. */
  function PredNeed(pred: Pred): nat {
    match pred
    case Prim(_) => 0
    case Rel(_, _, l, r) => Larger(Need(l), 1 + Need(r))
    case Both(_, l, r) => Larger(PredNeed(l), PredNeed(r))
    case Complement(e) => PredNeed(e)
  }

  /** A predicate compiles if and only if it is accepted and no relation in it needs more registers
      than are free; the used registers are then the same as before. */
  lemma {:induction false} PredCompileExact(pred: Pred, env: Env, rs: Regs)
    ensures PredCompile(pred, env, rs).Some? <==> Accepted(pred) && PredNeed(pred) <= CountFree(rs.used)
    ensures PredCompile(pred, env, rs).Some? ==> PredCompile(pred, env, rs).value.1.used == rs.used
  {
    match pred
    case Prim(_) =>
    case Rel(_, _, l, r) =>
      CompileExact(l, env, rs);
      if Compile(l, env, rs).Some? { CompileExact(r, env, Compile(l, env, rs).value.regs); }
    case Both(_, l, r) =>
      PredCompileExact(l, env, rs);
      if PredCompile(l, env, rs).Some? { PredCompileExact(r, EnvAfter(l, env), PredCompile(l, env, rs).value.1); }
    case Complement(e) => PredCompileExact(e, env, rs);
  }

  /** The compiled filter means what the predicate says, whatever the machine did before. */
  lemma {:induction false} PredCorrect(pred: Pred, env: Env, rs: Regs)
    requires PredCompile(pred, env, rs).Some?
    ensures Accepted(pred) && StateFree(PredCompile(pred, env, rs).value.0)
    ensures forall p :: Meaning(PredCompile(pred, env, rs).value.0, p) == PredTruth(pred, env, p)
  {
    PredCompileExact(pred, env, rs);
    match pred
    case Prim(prim) => PrimCorrect(prim, env);
    case Rel(op, reversed, l, r) => RelationMeaning(op, reversed, l, r, env, rs);
    case Both(goOn, l, r) =>
      var (f, rs0) := PredCompile(l, env, rs).value;
      OffsetsAfter(l, env);
      PredCorrect(l, env, rs);
      PredCorrect(r, EnvAfter(l, env), rs0);
      JoinMeaning(goOn, f, PredCompile(r, EnvAfter(l, env), rs0).value.0);
    case Complement(e) =>
      PredCorrect(e, env, rs);
      NotMeaning(PredCompile(e, env, rs).value.0);
  }

  lemma PrimCorrect(prim: Primitive, env: Env)
    requires prim.Protocol? ==> Abbreviated(prim.proto)
    ensures StateFree(PrimFilter(prim, env))
    ensures forall p :: Meaning(PrimFilter(prim, env), p) == PrimTruth(prim, env, p)
  {
    match prim
    case Protocol(proto) => ProtoMeaning(proto, env);
    case Vlan(id) => VlanFilterMeaning(env, id);
    case AtLeast(n) => LengthMeaning(JGE, n);
    case AtMost(n) =>
      LengthMeaning(JGT, n);
      NotMeaning(LengthFilter(JGT, n));
    case ByteTest(op, index, v) =>
      var k, jump := Wrap(env.linkHdr + index), if op.Equal? then JEQ else if op.Greater? then JGT else JGE;
      FieldMeaning(B, k, ALL, jump, v);
      NotMeaning(Field(B, k, ALL, jump, v));
  }

  lemma LengthMeaning(op: JumpOp, n: Word)
    ensures StateFree(LengthFilter(op, n))
    ensures forall p :: Meaning(LengthFilter(op, n), p) == Of(Compare(op, p.wireLength, n))
  {
    forall p, st ensures TruthOf(Eval(LengthFilter(op, n), p, st)) == Of(Compare(op, p.wireLength, n)) {
      ExecCons(LdLen, [], p, st);
    }
  }

  lemma VlanFilterMeaning(env: Env, id: VlanId)
    ensures StateFree(VlanFilter(env, id))
    ensures forall p :: Meaning(VlanFilter(env, id), p) == VlanTruth(env, id, p)
  {
    EqualsMeaning(H, env.linkType, ETHERTYPE_8021Q);
    EqualsMeaning(H, env.linkType, ETHERTYPE_8021QINQ);
    JoinMeaning(false, EtherType(env, ETHERTYPE_8021Q), EtherType(env, ETHERTYPE_8021QINQ));
    if id >= 0 {
      FieldMeaning(H, env.Network(), 0x0fff, JEQ, id);
      forall w: Word ensures BitAnd(w, 0x0fff) == w % 0x1000 { LowTwelve(w); }
      JoinMeaning(true, TagFilter(env), Field(H, env.Network(), 0x0fff, JEQ, id));
    }
  }

  // ----- Chains of VLAN tests

  function AfterPred(acc: Option<Pred>, q: Pred): Pred { match acc case None => q case Some(l) => Both(true, l, q) }

  /** "vlan id0 and vlan id1 and ... and proto" after `acc`, as the parser nests it. */
  function ChainPred(acc: Option<Pred>, ids: seq<VlanId>, proto: Proto): Pred
    decreases |ids|
  {
    if ids == [] then AfterPred(acc, Prim(Protocol(proto)))
    else ChainPred(Some(AfterPred(acc, Prim(Vlan(ids[0])))), ids[1..], proto)
  }

  /** The predicate `acc` compiles to f and leaves the offsets env. */
  ghost predicate CompilesTo(acc: Option<Pred>, env0: Env, rs: Regs, f: Option<Filter>, env: Env) {
    match acc
    case None => f == None && env == env0
    case Some(q) => f.Some? && PredCompile(q, env0, rs) == Some((f.value, rs)) && EnvAfter(q, env0) == env
  }

  lemma OneMoreTest(acc: Option<Pred>, env0: Env, rs: Regs, f: Option<Filter>, env: Env, prim: Primitive)
    requires CompilesTo(acc, env0, rs, f, env) && (prim.Protocol? ==> Abbreviated(prim.proto))
    ensures var q := AfterPred(acc, Prim(prim));
      CompilesTo(Some(q), env0, rs, Some(AndAfter(f, PrimFilter(prim, env))), EnvAfter(Prim(prim), env))
  {
    hide PrimFilter, BehindTag;
    assert PredCompile(Prim(prim), env, rs) == Some((PrimFilter(prim, env), rs));
    if acc.Some? {
      var q := Both(true, acc.value, Prim(prim));
      assert PredCompile(q, env0, rs) == Some((And(f.value, PrimFilter(prim, env)), rs));
      assert EnvAfter(q, env0) == EnvAfter(Prim(prim), env);
    }
  }

  /** Such a chain compiles to the chain of filters, each with the offsets behind the tags before it. */
  lemma {:induction false} ChainCompiles(acc: Option<Pred>, env0: Env, rs: Regs, f: Option<Filter>, env: Env,
                                         ids: seq<VlanId>, proto: Proto)
    requires proto.IsNetwork() && CompilesTo(acc, env0, rs, f, env)
    ensures PredCompile(ChainPred(acc, ids, proto), env0, rs) == Some((VlanChain(f, env, ids, TypeOf(proto)), rs))
    decreases |ids|
  {
    hide EtherType, VlanFilter, BehindTag;
    if ids == [] {
      OneMoreTest(acc, env0, rs, f, env, Protocol(proto));
    } else {
      var next := Vlan(ids[0]);
      OneMoreTest(acc, env0, rs, f, env, next);
      ChainCompiles(Some(AfterPred(acc, Prim(next))), env0, rs, Some(AndAfter(f, VlanFilter(env, ids[0]))),
                    BehindTag(env), ids[1..], proto);
    }
  }

  /** What the compiler makes of k VLAN tests and a network protocol accepts exactly the Ethernet
      frames with k matching tags from offset 12 on, followed by the EtherType of the protocol. */
  lemma ChainMeaning(ids: seq<VlanId>, proto: Proto, rs: Regs)
    requires proto.IsNetwork() && 14 + 4 * |ids| < WORD
    ensures var c := PredCompile(ChainPred(None, ids, proto), Ethernet(0), rs);
      && c.Some? && c.value.1 == rs && StateFree(c.value.0)
      && forall p :: Meaning(c.value.0, p) == True <==> ChainTagged(p, 0, ids) && Half(p, 12 + 4 * |ids|, TypeOf(proto))
  {
    hide Meaning, StateFree, ChainTagged, Half, VlanChain;
    ChainCompiles(None, Ethernet(0), rs, None, Ethernet(0), ids, proto);
    VlanChainMeaning(None, 0, ids, TypeOf(proto));
  }
}
