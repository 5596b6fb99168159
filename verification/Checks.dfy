/** For which arithmetic expressions the kept protocol checks cover every item.  The compiler drops the
    checks of right operands, and what is kept can imply them or not. */
module Checks {
  import opened Common
  import opened Machine
  import opened Truths
  import opened Arith
  import opened Frames
  import opened Predicates

  /** The protocols whose items an expression loads; an item of the link header needs no check. */
  function Items(e: Expr): set<Proto>
    requires WellFormed(e)
  {
    match e
    case Num(_) => {}
    case Len => {}
    case Fetch(proto, index, _) => (if proto.Link? then {} else {proto}) + Items(index)
    case Negative(a) => Items(a)
    case Bin(_, l, r) => Items(l) + Items(r)
  }

  /** Those among them whose checks are kept. */
  function Kept(e: Expr): set<Proto>
    requires WellFormed(e)
  {
    match e
    case Num(_) => {}
    case Len => {}
    case Fetch(proto, index, _) => (if proto.Link? then {} else {proto}) + Kept(index)
    case Negative(a) => Kept(a)
    case Bin(_, l, _) => Kept(l)
  }

  lemma {:induction false} KeptItems(e: Expr)
    requires WellFormed(e)
    ensures Kept(e) <= Items(e) && forall q :: q in Items(e) ==> q.IsNetwork() || q.IsTransport()
  {
    match e
    case Num(_) =>
    case Len =>
    case Fetch(_, index, _) => KeptItems(index);
    case Negative(a) => KeptItems(a);
    case Bin(_, l, r) => KeptItems(l); KeptItems(r);
  }

  /** The EtherType that an item of the protocol needs. */
  function TypeFor(q: Proto): Word
    requires q.IsNetwork() || q.IsTransport()
  {
    if q.IsNetwork() then TypeOf(q) else ETHERTYPE_IP
  }

  /** The packet is one of the protocol; for a transport header, over IPv4 and no later fragment. */
  predicate Belongs(q: Proto, env: Env, p: Packet)
    requires q.IsNetwork() || q.IsTransport()
  {
    && Load(p, env.linkType, H) == Some(TypeFor(q))
    && (q.IsTransport() ==>
          Load(p, Wrap(env.Network() + 9), B) == Some(NumberOf(q)) && FirstFragmentTruth(env, p) == True)
  }

  lemma LoadCheckBelongs(proto: Proto, env: Env, inner: Truth, p: Packet)
    requires proto.Indexable()
    ensures LoadCheckTruth(proto, env, inner, p) == True <==>
      inner == True && (!proto.Link? ==> Belongs(proto, env, p))
  {
    hide Load, Wrap;
  }

  /** The kept check is True exactly for the packets of the kept protocols. */
  lemma {:induction false} CheckKept(e: Expr, env: Env, p: Packet)
    requires WellFormed(e)
    ensures (forall q :: q in Kept(e) ==> q.IsNetwork() || q.IsTransport())
    ensures CheckTruth(e, env, p) == True <==> forall q :: q in Kept(e) ==> Belongs(q, env, p)
  {
    hide Belongs, LoadCheckTruth;
    match e
    case Num(_) =>
    case Len =>
    case Fetch(proto, index, _) =>
      CheckKept(index, env, p);
      LoadCheckBelongs(proto, env, CheckTruth(index, env, p), p);
    case Negative(a) => CheckKept(a, env, p);
    case Bin(_, l, _) => CheckKept(l, env, p);
  }

  /** Two protocols that no packet has at once. */
  predicate Clash(q: Proto, r: Proto)
    requires (q.IsNetwork() || q.IsTransport()) && (r.IsNetwork() || r.IsTransport())
  {
    TypeFor(q) != TypeFor(r) || (q.IsTransport() && r.IsTransport() && NumberOf(q) != NumberOf(r))
  }

  /** Whatever belongs to r belongs to q. */
  predicate Subsumes(q: Proto, r: Proto)
    requires (q.IsNetwork() || q.IsTransport()) && (r.IsNetwork() || r.IsTransport())
  {
    if q.IsNetwork() then TypeFor(r) == TypeOf(q) else r.IsTransport() && NumberOf(r) == NumberOf(q)
  }

  /** The protocols of an expression, as far as checks go. */
  predicate Checkable(s: set<Proto>) { forall q :: q in s ==> q.IsNetwork() || q.IsTransport() }

  predicate Clashing(s: set<Proto>)
    requires Checkable(s)
  {
    exists q, r :: q in s && r in s && Clash(q, r)
  }

  /** Each protocol of which an item is loaded is implied by one of which a check is kept; unless no
      packet passes the checks at all. */
  predicate Implied(e: Expr)
    requires WellFormed(e)
  {
    KeptItems(e);
    Clashing(Kept(e)) || forall q :: q in Items(e) ==> exists r :: r in Kept(e) && Subsumes(q, r)
  }

  /** On Ethernet, every packet that passes the kept checks is one of all protocols. */
  ghost predicate Covered(e: Expr)
    requires WellFormed(e)
  {
    KeptItems(e);
    forall p :: CheckTruth(e, Ethernet(0), p) == True ==> forall q :: q in Items(e) ==> Belongs(q, Ethernet(0), p)
  }

  /** A frame of 34 bytes with this EtherType and IPv4 protocol number, not a later fragment. */
  function Frame(etype: Word, n: Word): Packet
    requires etype < 0x1_0000 && n < 0x100
  {
    Packet(seq(34, _ => 0)[12 := etype / 0x100][13 := etype % 0x100][23 := n], 34)
  }

  lemma FrameBelongs(etype: Word, n: Word, q: Proto)
    requires etype < 0x1_0000 && n < 0x100 && (q.IsNetwork() || q.IsTransport())
    ensures Belongs(q, Ethernet(0), Frame(etype, n)) <==>
      etype == TypeFor(q) && (q.IsTransport() ==> n == NumberOf(q))
  {
    FrameLoads(etype, n);
    hide Load, Frame;
  }

  lemma FrameLoads(etype: Word, n: Word)
    requires etype < 0x1_0000 && n < 0x100
    ensures var p := Frame(etype, n);
      Load(p, 12, H) == Some(etype) && Load(p, 23, B) == Some(n) && Load(p, 20, H) == Some(0)
  {}

  /** Belonging to two protocols that clash is impossible, and to one that subsumes follows. */
  lemma BelongsTwice(q: Proto, r: Proto, env: Env, p: Packet)
    requires (q.IsNetwork() || q.IsTransport()) && (r.IsNetwork() || r.IsTransport()) && Belongs(r, env, p)
    ensures Clash(q, r) ==> !Belongs(q, env, p)
    ensures Subsumes(q, r) ==> Belongs(q, env, p)
  {
    hide Load, FirstFragmentTruth;
  }

  /** The EtherType of the kept protocols, and their number; 0 if there is none. */
  lemma Witness(s: set<Proto>, q: Proto) returns (etype: Word, n: Word)
    requires Checkable(s) && !Clashing(s) && (q.IsNetwork() || q.IsTransport())
    requires forall r :: r in s ==> !Subsumes(q, r)
    ensures etype < 0x1_0000 && n < 0x100
    ensures (etype != TypeFor(q) || (q.IsTransport() && n != NumberOf(q)))
    ensures forall r :: r in s ==> etype == TypeFor(r) && (r.IsTransport() ==> n == NumberOf(r))
  {
    Numbers();
    hide TypeFor, NumberOf;
    etype, n := 0, 0;
    if r :| r in s {
      etype := TypeFor(r);
      forall r' | r' in s ensures TypeFor(r') == etype { assert !Clash(r, r'); }
    }
    if r :| r in s && r.IsTransport() {
      n := NumberOf(r);
      forall r' | r' in s && r'.IsTransport() ensures NumberOf(r') == n { assert !Clash(r, r'); }
    }
    if q.IsNetwork() { Network(q); }
  }

  lemma Network(q: Proto)
    requires q.IsNetwork()
    ensures TypeFor(q) == TypeOf(q)
  {}

  lemma Numbers()
    ensures forall q: Proto :: q.IsNetwork() || q.IsTransport() ==> 0 < TypeFor(q) < 0x1_0000
    ensures forall q: Proto :: q.IsTransport() ==> 0 < NumberOf(q) < 0x100
  {}

  /** The kept checks cover every item if and only if they imply its check. */
  lemma CoveredExactly(e: Expr)
    requires WellFormed(e)
    ensures Covered(e) <==> Implied(e)
  {
    KeptItems(e);
    if Implied(e) {
      forall p, q | CheckTruth(e, Ethernet(0), p) == True && q in Items(e) ensures Belongs(q, Ethernet(0), p) {
        ImpliedBelongs(e, p, q);
      }
    } else {
      var q :| q in Items(e) && !exists r :: r in Kept(e) && Subsumes(q, r);
      var etype, n := Witness(Kept(e), q);
      FrameUncovered(e, q, etype, n);
    }
  }

  lemma ImpliedBelongs(e: Expr, p: Packet, q: Proto)
    requires WellFormed(e) && Implied(e) && CheckTruth(e, Ethernet(0), p) == True && q in Items(e)
    ensures (q.IsNetwork() || q.IsTransport()) && Belongs(q, Ethernet(0), p)
  {
    hide Belongs, Clash, Subsumes;
    KeptItems(e);
    CheckKept(e, Ethernet(0), p);
    if Clashing(Kept(e)) {
      var r, r' :| r in Kept(e) && r' in Kept(e) && Clash(r, r');
      BelongsTwice(r, r', Ethernet(0), p);
    } else {
      var r :| r in Kept(e) && Subsumes(q, r);
      BelongsTwice(q, r, Ethernet(0), p);
    }
  }

  lemma FrameUncovered(e: Expr, q: Proto, etype: Word, n: Word)
    requires WellFormed(e) && q in Items(e) && (q.IsNetwork() || q.IsTransport()) && etype < 0x1_0000 && n < 0x100
    requires Checkable(Kept(e)) && (etype != TypeFor(q) || (q.IsTransport() && n != NumberOf(q)))
    requires forall r :: r in Kept(e) ==> etype == TypeFor(r) && (r.IsTransport() ==> n == NumberOf(r))
    ensures !Covered(e)
  {
    hide Belongs, Frame;
    KeptItems(e);
    var p := Frame(etype, n);
    CheckKept(e, Ethernet(0), p);
    FrameBelongs(etype, n, q);
    forall r | r in Kept(e) ensures Belongs(r, Ethernet(0), p) { FrameBelongs(etype, n, r); }
  }

  /** 1 + tcp[0] is not checked to be TCP. */
  lemma RightOperandUnchecked()
    ensures var e := Bin(ADD, Num(1), Fetch(Tcp, Num(0), 1));
      WellFormed(e) && CheckOf(e, Ethernet(0)) == None && !Covered(e)
  {
    var e := Bin(ADD, Num(1), Fetch(Tcp, Num(0), 1));
    assert Tcp in Items(e) && Kept(e) == {};
    CoveredExactly(e);
  }
}
