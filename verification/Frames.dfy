/** The compound tests on frames: byte strings, 802.11 addresses and VLAN tags. */
module Frames {
  import opened Common
  import opened Machine
  import opened BlockGraph
  import opened Truths
  import opened Arith

  // ----- Byte strings

  predicate Matches(p: Packet, k: nat, v: seq<Byte>) {
    k + |v| <= |p.bytes| && p.bytes[k..k + |v|] == v
  }

  /** A string that does not fit in the packet faults. */
  function BytesTruth(p: Packet, k: nat, v: seq<Byte>): Truth {
    if k + |v| > |p.bytes| then Faulty else Of(p.bytes[k..k + |v|] == v)
  }

  function ChunkOf(n: nat): (w: Width)
    requires n > 0
    ensures Bytes(w) <= n
  {
    if n >= 4 then W else if n >= 2 then H else B
  }

  function BigEndian(v: seq<Byte>): Word
    requires |v| == 1 || |v| == 2 || |v| == 4
  {
    Load(Packet(v, 0), 0, if |v| == 1 then B else if |v| == 2 then H else W).value
  }

  function Chunk(k: Word, v: seq<Byte>): Filter
    requires |v| == 1 || |v| == 2 || |v| == 4
  {
    Field(if |v| == 1 then B else if |v| == 2 then H else W, k, ALL, JEQ, BigEndian(v))
  }

  /** `acc` has tested what follows v; the last bytes of v are tested next. */
  function BytesFilter(acc: Option<Filter>, k: Word, v: seq<Byte>): (r: Option<Filter>)
    ensures r.Some? <==> acc.Some? || v != []
    decreases |v|
  {
    if v == [] then acc else
      var n := |v| - Bytes(ChunkOf(|v|));
      BytesFilter(Some(AndAfter(acc, Chunk(Wrap(k + n), v[n..]))), k, v[..n])
  }

  function AndAfter(acc: Option<Filter>, f: Filter): Filter {
    match acc case None => f case Some(g) => And(g, f)
  }

  lemma ChunkMeaning(k: Word, v: seq<Byte>)
    requires |v| == 1 || |v| == 2 || |v| == 4
    ensures StateFree(Chunk(k, v))
    ensures forall p :: Meaning(Chunk(k, v), p) == BytesTruth(p, k, v)
  {
    var size := if |v| == 1 then B else if |v| == 2 then H else W;
    FieldMeaning(size, k, ALL, JEQ, BigEndian(v));
    forall p ensures FieldTruth(size, k, ALL, JEQ, BigEndian(v), p) == BytesTruth(p, k, v) {
      if k + |v| <= |p.bytes| {
        var w := p.bytes[k..k + |v|];
        assert Load(p, k, size) == Some(BigEndian(w));
        BigEndianInjective(v, w);
      }
    }
  }

  lemma BigEndianInjective(v: seq<Byte>, w: seq<Byte>)
    requires |v| == 1 || |v| == 2 || |v| == 4
    requires |w| == |v|
    ensures BigEndian(v) == BigEndian(w) <==> v == w
  {
    if BigEndian(v) == BigEndian(w) {
      assert v[0] == w[0];
      if |v| > 1 { assert v[1] == w[1]; }
      if |v| > 2 { assert v[2] == w[2] && v[3] == w[3]; }
    }
  }

  function AfterTruth(acc: Option<Filter>, p: Packet): Truth {
    match acc case None => True case Some(f) => Meaning(f, p)
  }

  lemma {:induction false} BytesStateFree(acc: Option<Filter>, k: Word, v: seq<Byte>)
    requires v != [] && (acc.Some? ==> StateFree(acc.value))
    ensures StateFree(BytesFilter(acc, k, v).value)
    decreases |v|
  {
    var n := |v| - Bytes(ChunkOf(|v|));
    var test := Chunk(Wrap(k + n), v[n..]);
    ChunkMeaning(Wrap(k + n), v[n..]);
    if acc.Some? { JoinMeaning(true, acc.value, test); }
    if n > 0 { BytesStateFree(Some(AndAfter(acc, test)), k, v[..n]); }
  }

  /** The test of a nonempty string faults if and only if the packet ends before it; otherwise it is
      true if and only if all bytes are equal.  (Offsets are 32 bits wide.) */
  lemma {:induction false} BytesMeaning(acc: Option<Filter>, k: Word, v: seq<Byte>, p: Packet)
    requires v != [] && (acc.Some? ==> StateFree(acc.value)) && k + |v| <= WORD
    ensures Meaning(BytesFilter(acc, k, v).value, p) == Combine(true, AfterTruth(acc, p), BytesTruth(p, k, v))
    decreases |v|
  {
    hide Meaning, StateFree, BytesTruth, Chunk;
    var n := |v| - Bytes(ChunkOf(|v|));
    var test := Chunk(k + n, v[n..]);
    ChunkMeaning(k + n, v[n..]);
    if acc.Some? { JoinMeaning(true, acc.value, test); }
    assert AfterTruth(Some(AndAfter(acc, test)), p) == Combine(true, AfterTruth(acc, p), BytesTruth(p, k + n, v[n..]));
    if n > 0 { BytesMeaning(Some(AndAfter(acc, test)), k, v[..n], p); }
    BytesSplit(p, k, v, n);
    CombineAssociative(AfterTruth(acc, p), BytesTruth(p, k + n, v[n..]), BytesTruth(p, k, v[..n]));
    assert BytesFilter(acc, k, v) == BytesFilter(Some(AndAfter(acc, test)), k, v[..n]);
  }

  lemma CombineAssociative(a: Truth, b: Truth, c: Truth)
    ensures Combine(true, Combine(true, a, b), c) == Combine(true, a, Combine(true, b, c))
  {}

  lemma BytesSplit(p: Packet, k: nat, v: seq<Byte>, n: nat)
    requires n < |v|
    ensures BytesTruth(p, k, v) ==
            if n == 0 then BytesTruth(p, k + n, v[n..])
            else Combine(true, BytesTruth(p, k + n, v[n..]), BytesTruth(p, k, v[..n]))
  {
    if k + |v| <= |p.bytes| {
      var w := p.bytes[k..k + |v|];
      SliceSplit(p.bytes, k, n, |v|);
      assert w == w[..n] + w[n..] && v == v[..n] + v[n..];
    }
  }

  lemma SliceSplit(s: seq<Byte>, k: nat, n: nat, m: nat)
    requires n <= m && k + m <= |s|
    ensures s[k..k + m][..n] == s[k..k + n] && s[k..k + m][n..] == s[k + n..k + m]
  {}

  // ----- 802.11 addresses (section 9.3.2.1 of IEEE 802.11-2016)

  type Mac = a: seq<Byte> | |a| == 6 witness [0, 0, 0, 0, 0, 0]

  function Address(k: Word, addr: Mac): Filter { BytesFilter(None, k, addr).value }

  lemma AddressMeaning(k: Word, addr: Mac)
    requires k + 6 <= WORD
    ensures StateFree(Address(k, addr))
    ensures forall p :: Meaning(Address(k, addr), p) == BytesTruth(p, k, addr)
  {
    BytesStateFree(None, k, addr);
    forall p ensures Meaning(Address(k, addr), p) == BytesTruth(p, k, addr) {
      BytesMeaning(None, k, addr, p);
    }
  }

  /** "If the bit is set then yes else no", each branch testing the bit for itself. */
  function Choice(k: Word, bit: nat, yes: Filter, no: Filter): Filter
    requires bit < 8
  {
    Or(And(Not(BitSet(k, bit)), no), And(BitSet(k, bit), yes))
  }

  lemma ChoiceMeaning(k: Word, bit: nat, yes: Filter, no: Filter)
    requires bit < 8 && StateFree(yes) && StateFree(no)
    ensures StateFree(Choice(k, bit, yes, no))
    ensures forall p :: Meaning(Choice(k, bit, yes, no), p) ==
              if k >= |p.bytes| then Faulty else if Bit(p.bytes[k], bit) then Meaning(yes, p) else Meaning(no, p)
  {
    BitSetMeaning(k, bit);
    NotMeaning(BitSet(k, bit));
    JoinMeaning(true, Not(BitSet(k, bit)), no);
    JoinMeaning(true, BitSet(k, bit), yes);
    JoinMeaning(false, And(Not(BitSet(k, bit)), no), And(BitSet(k, bit), yes));
  }

  const TO_DS := 0     // bits of the second byte
  const FROM_DS := 1
  const NO_ADDRESS := 2     // bits of the first byte: the low and the high bit of the frame type
  const DATA := 3

  /** The source address of a frame, tested by frame type and To DS and From DS. */
  function SourceChecks(addr: Mac): Filter {
    Choice(0, DATA, Choice(1, FROM_DS, Choice(1, TO_DS, Address(24, addr), Address(16, addr)), Address(10, addr)),
           Address(10, addr))
  }

  function DestinationChecks(addr: Mac): Filter {
    Choice(0, DATA, Choice(1, TO_DS, Address(16, addr), Address(4, addr)), Address(4, addr))
  }

  function SourceFilter(addr: Mac): Filter { And(Not(BitSet(0, NO_ADDRESS)), SourceChecks(addr)) }

  function DestinationFilter(addr: Mac): Filter { And(Not(BitSet(0, NO_ADDRESS)), DestinationChecks(addr)) }

  function SourceOffset(fc0: Byte, fc1: Byte): nat {
    if !Bit(fc0, DATA) || !Bit(fc1, FROM_DS) then 10 else if Bit(fc1, TO_DS) then 24 else 16
  }

  function DestinationOffset(fc0: Byte, fc1: Byte): nat {
    if Bit(fc0, DATA) && Bit(fc1, TO_DS) then 16 else 4
  }

  /** "wlan src" accepts exactly the frames of a type with addresses whose six bytes at the place of
      the source address are there and equal the address; so no frame with the low type bit set. */
  lemma SourceMeaning(addr: Mac)
    ensures StateFree(SourceFilter(addr))
    ensures forall p :: Meaning(SourceFilter(addr), p) == True <==>
      |p.bytes| >= 2 && !Bit(p.bytes[0], NO_ADDRESS) && Matches(p, SourceOffset(p.bytes[0], p.bytes[1]), addr)
  {
    hide Meaning, StateFree, Address, BitSet, Choice;
    AddressMeaning(24, addr);
    AddressMeaning(16, addr);
    AddressMeaning(10, addr);
    ChoiceMeaning(1, TO_DS, Address(24, addr), Address(16, addr));
    var from := Choice(1, TO_DS, Address(24, addr), Address(16, addr));
    ChoiceMeaning(1, FROM_DS, from, Address(10, addr));
    var data := Choice(1, FROM_DS, from, Address(10, addr));
    ChoiceMeaning(0, DATA, data, Address(10, addr));
    BitSetMeaning(0, NO_ADDRESS);
    NotMeaning(BitSet(0, NO_ADDRESS));
    JoinMeaning(true, Not(BitSet(0, NO_ADDRESS)), Choice(0, DATA, data, Address(10, addr)));
  }

  lemma DestinationMeaning(addr: Mac)
    ensures StateFree(DestinationFilter(addr))
    ensures forall p :: Meaning(DestinationFilter(addr), p) == True <==>
      |p.bytes| >= 2 && !Bit(p.bytes[0], NO_ADDRESS) && Matches(p, DestinationOffset(p.bytes[0], p.bytes[1]), addr)
  {
    hide Meaning, StateFree, Address, BitSet, Choice;
    AddressMeaning(16, addr);
    AddressMeaning(4, addr);
    ChoiceMeaning(1, TO_DS, Address(16, addr), Address(4, addr));
    var data := Choice(1, TO_DS, Address(16, addr), Address(4, addr));
    ChoiceMeaning(0, DATA, data, Address(4, addr));
    BitSetMeaning(0, NO_ADDRESS);
    NotMeaning(BitSet(0, NO_ADDRESS));
    JoinMeaning(true, Not(BitSet(0, NO_ADDRESS)), Choice(0, DATA, data, Address(4, addr)));
  }

  // ----- VLAN tags (section 9.6 of IEEE 802.1Q-2014)

  const ETHERTYPE_8021Q: Word := 0x8100
  const ETHERTYPE_8021QINQ: Word := 0x9100

  /** A negative identifier matches every tag. */
  type VlanId = id: int | id < WORD

  function EtherType(env: Env, etype: Word): Filter { Field(H, env.linkType, ALL, JEQ, etype) }

  function TagFilter(env: Env): Filter {
    Or(EtherType(env, ETHERTYPE_8021Q), EtherType(env, ETHERTYPE_8021QINQ))
  }

  /** A VLAN tag, with this identifier if it is not negative. */
  function VlanFilter(env: Env, id: VlanId): Filter
  {
    if id < 0 then TagFilter(env) else And(TagFilter(env), Field(H, env.Network(), 0x0fff, JEQ, id))
  }

  /** The link type and payload after the tag. */
  function BehindTag(env: Env): Env {
    env.(linkType := Wrap(env.linkType + 4), linkPl := Wrap(env.linkPl + 4))
  }

  /** "vlan id0 and vlan id1 and ... and etype", after `acc`. */
  function VlanChain(acc: Option<Filter>, env: Env, ids: seq<VlanId>, etype: Word): Filter
    decreases |ids|
  {
    if ids == [] then AndAfter(acc, EtherType(env, etype))
    else VlanChain(Some(AndAfter(acc, VlanFilter(env, ids[0]))), BehindTag(env), ids[1..], etype)
  }

  /** Ethernet, behind n tags. */
  function Ethernet(n: nat): Env
    requires 14 + 4 * n < WORD
  {
    Env(0, 12 + 4 * n, 14 + 4 * n, 0)
  }

  predicate Half(p: Packet, k: nat, v: Word) {
    k + 2 <= |p.bytes| && p.ByteAt(k) * 0x100 + p.ByteAt(k + 1) == v
  }

  /** A tag at offset k; the identifier is in the low twelve bits of its second half. */
  predicate Tagged(p: Packet, k: nat, id: VlanId) {
    && (Half(p, k, 0x8100) || Half(p, k, 0x9100))
    && (id >= 0 ==> Identified(p, k + 2, id))
  }

  predicate Identified(p: Packet, k: nat, id: VlanId) {
    k + 2 <= |p.bytes| && (p.ByteAt(k) * 0x100 + p.ByteAt(k + 1)) % 0x1000 == id
  }

  lemma VlanMeaning(n: nat, id: VlanId)
    requires 14 + 4 * n < WORD
    ensures StateFree(VlanFilter(Ethernet(n), id))
    ensures forall p :: Meaning(VlanFilter(Ethernet(n), id), p) == True <==> Tagged(p, 12 + 4 * n, id)
  {
    var env, k := Ethernet(n), 12 + 4 * n;
    TagMeaning(env);
    if id >= 0 {
      IdMeaning(k + 2, id);
      JoinMeaning(true, TagFilter(env), Field(H, k + 2, 0x0fff, JEQ, id));
    }
  }

  lemma TagMeaning(env: Env)
    ensures StateFree(TagFilter(env))
    ensures forall p :: Meaning(TagFilter(env), p) == True <==>
              Half(p, env.linkType, ETHERTYPE_8021Q) || Half(p, env.linkType, ETHERTYPE_8021QINQ)
  {
    EtherTypeMeaning(env, ETHERTYPE_8021Q);
    EtherTypeMeaning(env, ETHERTYPE_8021QINQ);
    JoinMeaning(false, EtherType(env, ETHERTYPE_8021Q), EtherType(env, ETHERTYPE_8021QINQ));
  }

  lemma EtherTypeMeaning(env: Env, etype: Word)
    ensures StateFree(EtherType(env, etype))
    ensures forall p :: Meaning(EtherType(env, etype), p) ==
              if env.linkType + 2 > |p.bytes| then Faulty else Of(Half(p, env.linkType, etype))
  {
    FieldMeaning(H, env.linkType, ALL, JEQ, etype);
  }

  lemma IdMeaning(k: Word, id: Word)
    ensures StateFree(Field(H, k, 0x0fff, JEQ, id))
    ensures forall p :: Meaning(Field(H, k, 0x0fff, JEQ, id), p) == True <==> Identified(p, k, id)
  {
    FieldMeaning(H, k, 0x0fff, JEQ, id);
    forall p ensures FieldTruth(H, k, 0x0fff, JEQ, id, p) == True <==> Identified(p, k, id) {
      IdTruth(k, id, p);
    }
  }

  lemma IdTruth(k: Word, id: Word, p: Packet)
    ensures FieldTruth(H, k, 0x0fff, JEQ, id, p) == True <==> Identified(p, k, id)
  {
    match Load(p, k, H)
    case None =>
    case Some(w) => LowTwelve(w);
  }

  lemma LowTwelve(w: Word)
    ensures BitAnd(w, 0x0fff) == w % 0x1000
  {
    assert Pow2(6) == 64;
    assert Pow2(12) == 0x1000;
    MaskLow(w, 12, 32);
  }

  /** A chain of k VLAN tests and an EtherType accepts exactly the frames with k matching tags from
      offset 12 on, followed by that type. */
  lemma {:induction false} VlanChainMeaning(acc: Option<Filter>, n: nat, ids: seq<VlanId>, etype: Word)
    requires 14 + 4 * (n + |ids|) < WORD
    requires acc.Some? ==> StateFree(acc.value)
    ensures StateFree(VlanChain(acc, Ethernet(n), ids, etype))
    ensures forall p :: Meaning(VlanChain(acc, Ethernet(n), ids, etype), p) == True <==>
              AfterTruth(acc, p) == True && ChainTagged(p, n, ids) && Half(p, 12 + 4 * (n + |ids|), etype)
    decreases |ids|
  {
    hide Meaning, StateFree, VlanFilter, EtherType, Tagged;
    if ids == [] {
      EtherTypeMeaning(Ethernet(n), etype);
      if acc.Some? { JoinMeaning(true, acc.value, EtherType(Ethernet(n), etype)); }
    } else {
      VlanMeaning(n, ids[0]);
      var tag := VlanFilter(Ethernet(n), ids[0]);
      if acc.Some? { JoinMeaning(true, acc.value, tag); }
      assert BehindTag(Ethernet(n)) == Ethernet(n + 1);
      VlanChainMeaning(Some(AndAfter(acc, tag)), n + 1, ids[1..], etype);
      forall p ensures ChainTagged(p, n, ids) <==> Tagged(p, 12 + 4 * n, ids[0]) && ChainTagged(p, n + 1, ids[1..]) {
        ChainTaggedCons(p, n, ids);
      }
    }
  }

  ghost predicate ChainTagged(p: Packet, n: nat, ids: seq<VlanId>) {
    forall i: nat :: i < |ids| ==> Tagged(p, 12 + 4 * (n + i), ids[i])
  }

  lemma ChainTaggedCons(p: Packet, n: nat, ids: seq<VlanId>)
    requires ids != []
    ensures ChainTagged(p, n, ids) <==> Tagged(p, 12 + 4 * n, ids[0]) && ChainTagged(p, n + 1, ids[1..])
  {
    if ChainTagged(p, n, ids) {
      assert Tagged(p, 12 + 4 * (n + 0), ids[0]);
      forall i: nat | i < |ids[1..]| ensures Tagged(p, 12 + 4 * (n + 1 + i), ids[1..][i]) {
        assert Tagged(p, 12 + 4 * (n + (i + 1)), ids[i + 1]);
      }
    }
    if Tagged(p, 12 + 4 * n, ids[0]) && ChainTagged(p, n + 1, ids[1..]) {
      forall i: nat | i < |ids| ensures Tagged(p, 12 + 4 * (n + i), ids[i]) {
        if i > 0 { assert Tagged(p, 12 + 4 * (n + 1 + (i - 1)), ids[1..][i - 1]); }
      }
    }
  }
}
