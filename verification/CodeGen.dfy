/** The code generator: the static variables of the compiler as one object, and the gen_ routines
    that the semantic actions of the grammar call.  A bpf_error is the result None. */
module CodeGen {
  import opened Common
  import opened Machine
  import opened BlockGraph
  import opened Layout
  import opened Backpatch
  import opened Truths
  import opened Arith
  import opened Frames
  import opened Predicates
  import opened Language

  /** An arithmetic value under construction: its statements, its register, its protocol checks. */
  class Arth {
    var s: seq<Stmt>
    var regno: Reg
    var b: Block?

    constructor (s: seq<Stmt>, regno: Reg)
      ensures this.s == s && this.regno == regno && b == null
    {
      this.s, this.regno, b := s, regno, null;
    }
  }

  class Generator {
    /** off_linkhdr, off_linktype, off_linkpl and off_nl. */
    var env: Env
    const regused: array<bool>
    var curreg: Reg

    ghost predicate Valid() {
      regused.Length == MEMWORDS
    }

    ghost function Regs(): Regs
      requires Valid()
      reads this`curreg, regused
    {
      Arith.Regs(regused[..], curreg)
    }

    constructor (env: Env)
      ensures Valid() && fresh(regused) && this.env == env && CountFree(Regs().used) == MEMWORDS
    {
      this.env := env;
      regused := new bool[MEMWORDS](_ => false);
      curreg := 0;
      new;
      AllFree(regused[..]);
    }

    // ----- Registers

    method AllocReg() returns (r: Option<Reg>)
      requires Valid()
      modifies this`curreg, regused
      ensures Valid()
      ensures match Alloc(old(Regs()))
              case None => r == None
              case Some(rs) => r == Some(rs.cur) && Regs() == rs
    {
      var n := MEMWORDS;
      while n > 0
        invariant 0 <= n <= MEMWORDS && regused[..] == old(regused[..])
        invariant FirstFree(regused[..], curreg, n) == FirstFree(regused[..], old(curreg), MEMWORDS)
      {
        n := n - 1;
        if regused[curreg] {
          curreg := (curreg + 1) % MEMWORDS;
        } else {
          regused[curreg] := true;
          return Some(curreg);
        }
      }
      return None;
    }

    method FreeReg(r: Reg)
      requires Valid()
      modifies regused
      ensures Valid() && Regs() == Free(old(Regs()), r)
    {
      regused[r] := false;
    }

    // ----- Arithmetic

    method GenLoadi(v: Word) returns (a: Option<Arth>)
      requires Valid()
      modifies this`curreg, regused
      ensures Valid()
      ensures match Compile(Num(v), env, old(Regs()))
              case None => a == None
              case Some(c) =>
                a.Some? && fresh(a.value) && a.value.b == null && c == Compiled(a.value.s, a.value.regno, Regs())
    {
      var r := AllocReg();
      if r.None? { return None; }
      var x := new Arth([LdImm(v), St(r.value)], r.value);
      return Some(x);
    }

    method GenLoadlen() returns (a: Option<Arth>)
      requires Valid()
      modifies this`curreg, regused
      ensures Valid()
      ensures match Compile(Len, env, old(Regs()))
              case None => a == None
              case Some(c) =>
                a.Some? && fresh(a.value) && a.value.b == null && c == Compiled(a.value.s, a.value.regno, Regs())
    {
      var r := AllocReg();
      if r.None? { return None; }
      var x := new Arth([LdLen, St(r.value)], r.value);
      return Some(x);
    }

    method GenNeg(a: Arth)
      modifies a`s
      ensures a.s == old(a.s) + NegCode(a.regno)
    {
      a.s := a.s + [LdMem(a.regno)];
      a.s := a.s + [Neg];
      a.s := a.s + [St(a.regno)];
    }

    /** The value of a0 takes over; the check of a1 is lost. */
    method GenArth(op: AluOp, a0: Arth, a1: Arth) returns (ok: bool)
      requires Valid() && a0 != a1
      modifies this`curreg, regused, a0`s, a0`regno, a1`s
      ensures Valid()
      ensures match Alloc(Free(Free(old(Regs()), old(a0.regno)), a1.regno))
              case None => !ok
              case Some(rs) =>
                && ok && Regs() == rs && a0.regno == rs.cur
                && a0.s == old(a0.s) + old(a1.s) + BinCode(op, old(a0.regno), a1.regno) + [St(rs.cur)]
    {
      var s0 := [LdxMem(a1.regno)];
      var s1 := [LdMem(a0.regno)];
      var s2 := [AluX(op)];
      s1 := s1 + s2;
      s0 := s0 + s1;
      a1.s := a1.s + s0;
      a0.s := a0.s + a1.s;
      FreeReg(a0.regno);
      FreeReg(a1.regno);
      assert a0.s == old(a0.s) + old(a1.s) + BinCode(op, old(a0.regno), a1.regno);
      var r := AllocReg();
      if r.None? { return false; }
      a0.regno := r.value;
      a0.s := a0.s + [St(r.value)];
      return true;
    }

    /** Replaces the index in `inst` by the item it addresses. */
    method GenLoad(proto: Proto, inst: Arth, size: int) returns (ok: bool)
      requires Valid() && Made(inst.b, FilterOf(inst.b))
      modifies this`curreg, regused, inst, ReprOf(inst.b)
      ensures ok <==> Alloc(old(Regs())).Some? && WidthOf(size).Some? && proto.Indexable()
      ensures ok ==> Regs() == Free(Alloc(old(Regs())).value, old(inst.regno))
      ensures ok ==> inst.regno == Alloc(old(Regs())).value.cur
      ensures ok ==>
        inst.s == old(inst.s) + LoadCode(proto, old(inst.regno), WidthOf(size).value, env) + [St(inst.regno)]
      ensures ok ==> Made(inst.b, LoadCheck(proto, env, old(FilterOf(inst.b))))
      ensures ok ==> fresh(ReprOf(inst.b) - old(ReprOf(inst.b)))
    {
      hide Block.Valid, LoadCode, LoadCheck, FirstFree;
      var regno := AllocReg();
      if regno.None? { return false; }
      FreeReg(inst.regno);
      var width := WidthOf(size);
      if width.None? || !proto.Indexable() { return false; }
      GenLoadInto(proto, inst, width.value, regno.value);
      return true;
    }

    method GenLoadInto(proto: Proto, inst: Arth, size: Width, regno: Reg)
      requires proto.Indexable() && Made(inst.b, FilterOf(inst.b))
      modifies inst, ReprOf(inst.b)
      ensures inst.regno == regno && inst.s == old(inst.s) + LoadCode(proto, old(inst.regno), size, env) + [St(regno)]
      ensures Made(inst.b, LoadCheck(proto, env, old(FilterOf(inst.b)))) && fresh(ReprOf(inst.b) - old(ReprOf(inst.b)))
    {
      hide Block.Valid;
      GenLoadStmts(proto, inst, size);
      var b := GenLoadCheck(proto, inst.b);
      StoreLoad(inst, b, regno);
    }

    method StoreLoad(inst: Arth, b: Block?, regno: Reg)
      modifies inst
      ensures inst.b == b && inst.regno == regno && inst.s == old(inst.s) + [St(regno)]
    {
      inst.b := b;
      inst.regno := regno;
      inst.s := inst.s + [St(regno)];
    }

    method GenLoadStmts(proto: Proto, inst: Arth, size: Width)
      requires proto.Indexable()
      modifies inst`s
      ensures inst.s == old(inst.s) + LoadCode(proto, inst.regno, size, env)
    {
      var s;
      if proto.Link? {
        s := [LdxMem(inst.regno)];
        s := s + [LdInd(size, env.linkHdr)];
      } else if proto.IsNetwork() {
        s := [LdxMem(inst.regno)];
        s := s + [LdInd(size, Wrap(env.linkPl + env.nl))];
      } else {
        s := [LdxMsh(Wrap(env.linkPl + env.nl))];
        s := s + [LdMem(inst.regno)];
        s := s + [AluX(ADD)];
        s := s + [Tax];
        s := s + [LdInd(size, Wrap(env.linkPl + env.nl))];
      }
      inst.s := inst.s + s;
    }

    /** The check of the item, given that of its index. */
    method GenLoadCheck(proto: Proto, b0: Block?) returns (b: Block?)
      requires proto.Indexable() && Made(b0, FilterOf(b0))
      modifies ReprOf(b0)
      ensures Made(b, LoadCheck(proto, env, old(FilterOf(b0)))) && fresh(ReprOf(b) - old(ReprOf(b0)))
    {
      hide ProtoFilter, FirstFragment, Block.Valid, And;
      if proto.Link? { return b0; }
      var own := GenCheckAfter(proto, b0);
      if proto.IsTransport() { GenIpCheck(own); }
      return own;
    }

    method GenCheckAfter(proto: Proto, b0: Block?) returns (b: Block)
      requires (proto.IsNetwork() || proto.IsTransport()) && Made(b0, FilterOf(b0))
      modifies ReprOf(b0)
      ensures b.Valid() && fresh(b.repr - old(ReprOf(b0)))
      ensures b.filter == AndAfter(old(FilterOf(b0)), OwnCheck(proto, env))
    {
      hide OwnCheck, Block.Valid;
      b := GenOwnCheck(proto);
      AndInto(b0, b);
    }

    method GenIpCheck(b: Block)
      requires b.Valid()
      modifies b.repr
      ensures b.Valid() && fresh(b.repr - old(b.repr)) && b.filter == And(ProtoFilter(Ip, env), old(b.filter))
    {
      hide ProtoFilter;
      var ip := GenProtoAbbrev(Ip);
      GenAnd(ip.value, b);
    }

    method GenOwnCheck(proto: Proto) returns (b: Block)
      requires proto.IsNetwork() || proto.IsTransport()
      ensures b.Valid() && fresh(b.repr)
      ensures b.filter == OwnCheck(proto, env)
    {
      hide ProtoFilter, FirstFragment, Block.Valid;
      var abbrev := GenProtoAbbrev(proto);
      b := abbrev.value;
      if proto.IsTransport() {
        b := GenIpFrag();
        GenAnd(abbrev.value, b);
      }
    }

    // ----- Relations

    method GenRelation(op: JumpOp, a0: Arth, a1: Arth, reversed: bool) returns (b: Block)
      requires Valid() && a0 != a1 && ReprOf(a0.b) !! ReprOf(a1.b)
      requires Made(a0.b, FilterOf(a0.b)) && Made(a1.b, FilterOf(a1.b))
      modifies regused, a0`s, a1`s, ReprOf(a0.b), ReprOf(a1.b)
      ensures b.Valid() && fresh(b.repr - old(ReprOf(a0.b) + ReprOf(a1.b)))
      ensures b.filter == RelationFilter(op, reversed, old(FilterOf(a0.b)), old(FilterOf(a1.b)),
                                         RelationTest(op, old(a0.s), a0.regno, old(a1.s), a1.regno))
      ensures Regs() == Free(Free(old(Regs()), a0.regno), a1.regno)
    {
      hide RelationTest, CountFree, Block.Valid;
      var tmp := GenBothChecks(a0.b, a1.b);
      b := GenComparison(op, a0, a1, reversed);
      FreeBoth(a0.regno, a1.regno);
      AndInto(tmp, b);
    }

    method FreeBoth(r0: Reg, r1: Reg)
      requires Valid()
      modifies regused
      ensures Regs() == Free(Free(old(Regs()), r0), r1)
    {
      FreeReg(r0);
      FreeReg(r1);
    }

    method GenComparison(op: JumpOp, a0: Arth, a1: Arth, reversed: bool) returns (b: Block)
      requires a0 != a1
      modifies a0`s, a1`s
      ensures b.Valid() && fresh(b.repr)
      ensures var own := Atom(RelationTest(op, old(a0.s), a0.regno, old(a1.s), a1.regno));
              b.filter == if reversed then Not(own) else own
    {
      hide Block.Valid;
      var t := GenOperands(op, a0, a1);
      b := new Block(t.stmts, Jmp(t.jump));
      if reversed { GenNot(b); }
    }

    method GenBothChecks(b0: Block?, b1: Block?) returns (b: Block?)
      requires Made(b0, FilterOf(b0)) && Made(b1, FilterOf(b1)) && ReprOf(b0) !! ReprOf(b1)
      modifies ReprOf(b0), ReprOf(b1)
      ensures Made(b, BothChecks(old(FilterOf(b0)), old(FilterOf(b1))))
      ensures ReprOf(b) <= old(ReprOf(b0) + ReprOf(b1))
    {
      if b1 == null { return b0; }
      AndInto(b0, b1);
      return b1;
    }

    /** Computes both operands and compares them. */
    method GenOperands(op: JumpOp, a0: Arth, a1: Arth) returns (t: Test)
      requires a0 != a1
      modifies a0`s, a1`s
      ensures t == RelationTest(op, old(a0.s), a0.regno, old(a1.s), a1.regno)
    {
      var s0 := [LdxMem(a1.regno)];
      var s1 := [LdMem(a0.regno)];
      var jump := JmpX(op);
      if op == JEQ {
        jump := JmpK(JEQ, 0);
        s1 := s1 + [AluX(SUB)];
      }
      s0 := s0 + s1;
      a1.s := a1.s + s0;
      a0.s := a0.s + a1.s;
      t := Test(a0.s, jump);
      assert t.stmts == RelationTest(op, old(a0.s), a0.regno, old(a1.s), a1.regno).stmts;
    }

    // ----- Tests of fields

    method GenLoadA(rel: OffRel, offset: Word, size: Width) returns (s: seq<Stmt>)
      ensures s == [LdAbs(size, Wrap(Base(rel, env) + offset))]
    {
      s := [LdAbs(size, Wrap(Base(rel, env) + offset))];
    }

    method GenNcmp(rel: OffRel, offset: Word, size: Width, mask: Word, jtype: JumpOp, reverse: bool, v: Word)
      returns (b: Block)
      ensures b.Valid() && fresh(b.repr)
      ensures var f := Field(size, Wrap(Base(rel, env) + offset), mask, jtype, v);
              b.filter == if reverse && (jtype == JGT || jtype == JGE) then Not(f) else f
    {
      hide Block.Valid;
      var s := GenLoadA(rel, offset, size);
      if mask != ALL { s := s + [AluK(AND, mask)]; }
      b := new Block(s, Jmp(JmpK(jtype, v)));
      if reverse && (jtype == JGT || jtype == JGE) { GenNot(b); }
    }

    method GenCmp(rel: OffRel, offset: Word, size: Width, v: Word) returns (b: Block)
      ensures b.Valid() && fresh(b.repr) && b.filter == Field(size, Wrap(Base(rel, env) + offset), ALL, JEQ, v)
    {
      b := GenNcmp(rel, offset, size, ALL, JEQ, false, v);
    }

    method GenMcmp(rel: OffRel, offset: Word, size: Width, v: Word, mask: Word) returns (b: Block)
      ensures b.Valid() && fresh(b.repr) && b.filter == Field(size, Wrap(Base(rel, env) + offset), mask, JEQ, v)
    {
      b := GenNcmp(rel, offset, size, mask, JEQ, false, v);
    }

    /** Compares the bytes of the packet with v, the last ones first; no test for no bytes. */
    method GenBcmp(rel: OffRel, offset: Word, v: seq<Byte>) returns (b: Block?)
      requires |v| < WORD
      ensures Made(b, BytesFilter(None, Wrap(Base(rel, env) + offset), v)) && fresh(ReprOf(b))
    {
      hide Block.Valid;
      ghost var k := Wrap(Base(rel, env) + offset);
      ghost var goal := BytesFilter(None, k, v);
      hide BytesFilter;
      var rest;
      b, rest := GenChunks(null, rel, offset, v, 4, k, goal);
      b, rest := GenChunks(b, rel, offset, rest, 2, k, goal);
      b := GenLastByte(b, rel, offset, rest, k, goal);
    }

    /** Tests n bytes at a time, from the end, as long as there are so many. */
    method GenChunks(b0: Block?, rel: OffRel, offset: Word, v: seq<Byte>, n: nat, ghost k: Word,
                     ghost goal: Option<Filter>)
      returns (b: Block?, rest: seq<Byte>)
      requires |v| < WORD && (n == 4 || (n == 2 && |v| < 4)) && k == Wrap(Base(rel, env) + offset)
      requires Made(b0, FilterOf(b0)) && Towards(FilterOf(b0), k, v, goal)
      modifies ReprOf(b0)
      ensures |rest| < n && |rest| < WORD && fresh(ReprOf(b) - old(ReprOf(b0)))
      ensures Made(b, FilterOf(b)) && Towards(FilterOf(b), k, rest, goal)
    {
      hide Towards, Block.Valid;
      b, rest := b0, v;
      while |rest| >= n
        invariant |rest| <= |v| && fresh(ReprOf(b) - old(ReprOf(b0)))
        invariant Made(b, FilterOf(b)) && Towards(FilterOf(b), k, rest, goal)
        decreases |rest|
      {
        assert n == Bytes(ChunkOf(|rest|));
        b := GenChunk(b, rel, offset, rest, n, k, goal);
        rest := rest[..|rest| - n];
      }
    }

    method GenLastByte(b0: Block?, rel: OffRel, offset: Word, v: seq<Byte>, ghost k: Word, ghost goal: Option<Filter>)
      returns (b: Block?)
      requires |v| < 2 && k == Wrap(Base(rel, env) + offset)
      requires Made(b0, FilterOf(b0)) && Towards(FilterOf(b0), k, v, goal)
      modifies ReprOf(b0)
      ensures Made(b, goal) && fresh(ReprOf(b) - old(ReprOf(b0)))
    {
      hide Towards, Block.Valid;
      b := b0;
      if |v| > 0 {
        b := GenChunk(b, rel, offset, v, 1, k, goal);
        assert v[..0] == [];
      }
      TowardsEnd(FilterOf(b), k, goal);
    }

    /** Tests the last n bytes of v after b0. */
    method GenChunk(b0: Block?, rel: OffRel, offset: Word, v: seq<Byte>, n: nat, ghost k: Word,
                    ghost goal: Option<Filter>)
      returns (b: Block)
      requires v != [] && |v| < WORD && n == Bytes(ChunkOf(|v|)) && k == Wrap(Base(rel, env) + offset)
      requires Made(b0, FilterOf(b0)) && Towards(FilterOf(b0), k, v, goal)
      modifies ReprOf(b0)
      ensures b.Valid() && fresh(b.repr - old(ReprOf(b0)))
      ensures Towards(Some(b.filter), k, v[..|v| - n], goal)
    {
      hide Towards, Block.Valid;
      TowardsNext(FilterOf(b0), k, v, n, goal);
      b := GenTail(rel, offset, v, n, k);
      AndInto(b0, b);
    }

    /** Tests the last n bytes of v. */
    method GenTail(rel: OffRel, offset: Word, v: seq<Byte>, n: nat, ghost k: Word) returns (b: Block)
      requires v != [] && |v| < WORD && n == Bytes(ChunkOf(|v|)) && k == Wrap(Base(rel, env) + offset)
      ensures b.Valid() && fresh(b.repr) && b.filter == Chunk(Wrap(k + (|v| - n)), v[|v| - n..])
    {
      hide BigEndian, Field, Block.Valid, Chunk;
      var at: nat, p := |v| - n, v[|v| - n..];
      OffsetSum(Base(rel, env), offset, at);
      ChunkField(ChunkOf(|v|), Wrap(k + at), p);
      b := GenCmp(rel, Wrap(offset + at), ChunkOf(|v|), BigEndian(p));
    }

    // ----- Link types and protocols

    /** For EtherTypes above ETHERMTU, other than those of AppleTalk. */
    method GenLinkType(etype: Word) returns (b: Block)
      ensures b.Valid() && fresh(b.repr) && b.filter == EtherType(env, etype)
    {
      b := GenCmp(LinkTypeField, 0, H, etype);
    }

    method GenProtoIp(v: Word) returns (b1: Block)
      ensures b1.Valid() && fresh(b1.repr) && b1.filter == OverIp(env, v)
    {
      hide Block.Valid;
      var b0 := GenLinkType(ETHERTYPE_IP);
      b1 := GenCmp(LinkPl, 9, B, v);
      GenAnd(b0, b1);
    }

    method GenBehindFragment(v: Word) returns (b1: Block)
      ensures b1.Valid() && fresh(b1.repr) && b1.filter == BehindFragment(env, v)
    {
      hide Block.Valid;
      var b2 := GenCmp(LinkPl, 6, B, IPPROTO_FRAGMENT);
      b1 := GenCmp(LinkPl, 40, B, v);
      GenAnd(b2, b1);
    }

    method GenNextHeader(v: Word) returns (b1: Block)
      ensures b1.Valid() && fresh(b1.repr) && b1.filter == NextHeader(env, v)
    {
      hide Block.Valid;
      b1 := GenBehindFragment(v);
      var b2 := GenCmp(LinkPl, 6, B, v);
      GenOr(b2, b1);
    }

    method GenProtoIpv6(v: Word) returns (b1: Block)
      ensures b1.Valid() && fresh(b1.repr) && b1.filter == OverIpv6(env, v)
    {
      hide Block.Valid;
      var b0 := GenLinkType(ETHERTYPE_IPV6);
      b1 := GenNextHeader(v);
      GenAnd(b0, b1);
    }

    method GenProtoAbbrev(proto: Proto) returns (b: Option<Block>)
      ensures b.Some? <==> Abbreviated(proto)
      ensures b.Some? ==> b.value.Valid() && fresh(b.value.repr) && b.value.filter == ProtoFilter(proto, env)
    {
      hide OverIp, OverIpv6, EtherType, Block.Valid;
      if !Abbreviated(proto) { return None; }
      var b1;
      if proto.IsNetwork() {
        b1 := GenLinkType(TypeOf(proto));
      } else if proto.Icmpv6? {
        b1 := GenProtoIpv6(NumberOf(proto));
      } else {
        b1 := GenProtoIp(NumberOf(proto));
        if OverBoth(proto) {
          var b0 := GenProtoIpv6(NumberOf(proto));
          GenOr(b0, b1);
        }
      }
      return Some(b1);
    }

    method GenIpFrag() returns (b: Block)
      ensures b.Valid() && fresh(b.repr) && b.filter == FirstFragment(env)
    {
      b := GenNcmp(LinkPl, 6, H, ALL, JSET, false, 0x1fff);
      GenNot(b);
    }

    // ----- Other atoms

    method GenLen(op: JumpOp, n: Word) returns (b: Block)
      ensures b.Valid() && fresh(b.repr) && b.filter == LengthFilter(op, n)
    {
      b := new Block([LdLen], Jmp(JmpK(op, n)));
    }

    method GenLess(n: Word) returns (b: Block)
      ensures b.Valid() && fresh(b.repr) && b.filter == PrimFilter(AtMost(n), env)
    {
      hide Block.Valid;
      b := GenLen(JGT, n);
      GenNot(b);
    }

    method GenByteOp(op: ByteOp, index: Word, v: Word) returns (b: Block)
      ensures b.Valid() && fresh(b.repr) && b.filter == PrimFilter(ByteTest(op, index, v), env)
    {
      hide Block.Valid;
      match op
      case Equal => b := GenCmp(LinkHdr, index, B, v);
      case Less => b := GenNcmp(LinkHdr, index, B, ALL, JGE, true, v);
      case Greater => b := GenNcmp(LinkHdr, index, B, ALL, JGT, false, v);
    }

    method GenTag() returns (b1: Block)
      ensures b1.Valid() && fresh(b1.repr) && b1.filter == TagFilter(env)
    {
      hide Block.Valid;
      var b0 := GenLinkType(ETHERTYPE_8021Q);
      b1 := GenLinkType(ETHERTYPE_8021QINQ);
      GenOr(b0, b1);
    }

    method GenTagWithId(id: VlanId) returns (b0: Block)
      ensures b0.Valid() && fresh(b0.repr) && b0.filter == VlanFilter(env, id)
    {
      hide Block.Valid;
      b0 := GenTag();
      if id >= 0 {
        var b1 := GenMcmp(LinkPl, 0, H, id, 0x0fff);
        GenAnd(b0, b1);
        b0 := b1;
      }
    }

    /** Tests a tag, and moves the link type and the payload behind it. */
    method GenVlan(id: VlanId) returns (b0: Block)
      modifies this`env
      ensures b0.Valid() && fresh(b0.repr) && b0.filter == VlanFilter(old(env), id) && env == BehindTag(old(env))
    {
      hide Block.Valid;
      b0 := GenTagWithId(id);
      env := env.(linkPl := Wrap(env.linkPl + 4));
      env := env.(linkType := Wrap(env.linkType + 4));
    }

    // ----- 802.11 addresses

    method GenBit(k: Word, bit: nat) returns (b: Block)
      requires bit < 8
      ensures b.Valid() && fresh(b.repr) && b.filter == Field(B, Wrap(env.linkHdr + k), ALL, JSET, ByteBit(bit))
      ensures env.linkHdr == 0 ==> b.filter == BitSet(k, bit)
    {
      hide Block.Valid;
      var s := GenLoadA(LinkHdr, k, B);
      b := new Block(s, Jmp(JmpK(JSET, ByteBit(bit))));
    }

    method GenAddress(offset: Word, addr: Mac) returns (b: Block)
      requires env.linkHdr == 0
      ensures b.Valid() && fresh(b.repr) && b.filter == Address(offset, addr)
    {
      hide BytesFilter;
      var r := GenBcmp(LinkHdr, offset, addr);
      b := r;
    }

    /** Tests an address if the bit is not set. */
    method GenUnless(k: Word, bit: nat, offset: Word, addr: Mac) returns (b1: Block)
      requires bit < 8 && env.linkHdr == 0
      ensures b1.Valid() && fresh(b1.repr) && b1.filter == And(Not(BitSet(k, bit)), Address(offset, addr))
    {
      hide BitSet, Address, Block.Valid;
      var b2 := GenBit(k, bit);
      InRepr(b2);
      GenNot(b2);
      b1 := GenAddress(offset, addr);
      GenAnd(b2, b1);
    }

    /** "If the bit is set then b0, else the address is here." */
    method GenChoice(k: Word, bit: nat, b0: Block, offset: Word, addr: Mac)
      requires bit < 8 && env.linkHdr == 0 && b0.Valid()
      modifies b0.repr
      ensures b0.Valid() && fresh(b0.repr - old(b0.repr))
      ensures b0.filter == Choice(k, bit, old(b0.filter), Address(offset, addr))
    {
      hide BitSet, Address, Block.Valid;
      var b1 := GenBit(k, bit);
      GenAnd(b1, b0);
      b1 := GenUnless(k, bit, offset, addr);
      GenOr(b1, b0);
    }

    method GenSourceChecks(addr: Mac) returns (b0: Block)
      requires env.linkHdr == 0
      ensures b0.Valid() && fresh(b0.repr) && b0.filter == SourceChecks(addr)
    {
      hide Choice, Address, Block.Valid;
      b0 := GenAddress(24, addr);
      GenChoice(1, TO_DS, b0, 16, addr);
      GenChoice(1, FROM_DS, b0, 10, addr);
      GenChoice(0, DATA, b0, 10, addr);
    }

    method GenDestinationChecks(addr: Mac) returns (b0: Block)
      requires env.linkHdr == 0
      ensures b0.Valid() && fresh(b0.repr) && b0.filter == DestinationChecks(addr)
    {
      hide Choice, Address, Block.Valid;
      b0 := GenAddress(16, addr);
      GenChoice(1, TO_DS, b0, 4, addr);
      GenChoice(0, DATA, b0, 4, addr);
    }

    method GenWlanHostOp(addr: Mac, source: bool) returns (b0: Block)
      requires env.linkHdr == 0
      ensures b0.Valid() && fresh(b0.repr)
      ensures b0.filter == if source then SourceFilter(addr) else DestinationFilter(addr)
    {
      hide BitSet, SourceChecks, DestinationChecks, Block.Valid;
      if source {
        b0 := GenSourceChecks(addr);
      } else {
        b0 := GenDestinationChecks(addr);
      }
      var b1 := GenBit(0, NO_ADDRESS);
      InRepr(b1);
      GenNot(b1);
      GenAnd(b1, b0);
    }

    // ----- The semantic actions, in the order of the parse

    method CompileExpr(e: Expr) returns (a: Option<Arth>)
      requires Valid()
      modifies this`curreg, regused
      ensures Valid()
      ensures a.Some? <==> Compile(e, env, old(Regs())).Some?
      ensures a.Some? ==>
        WellFormed(e) && fresh(a.value) && fresh(ReprOf(a.value.b)) && Made(a.value.b, CheckOf(e, env))
      ensures a.Some? ==> Compile(e, env, old(Regs())) == Some(Compiled(a.value.s, a.value.regno, Regs()))
      decreases e, 2
    {
      hide Block.Valid, LoadCode, LoadCheck, NegCode, Alloc, CountFree;
      CompileExact(e, env, Regs());
      match e
      case Num(v) => a := GenLoadi(v);
      case Len => a := GenLoadlen();
      case Fetch(proto, index, size) =>
        a := CompileExpr(index);
        if a.Some? {
          var ok := GenLoad(proto, a.value, size);
          if !ok { return None; }
        }
      case Negative(x) =>
        a := CompileExpr(x);
        if a.Some? { GenNeg(a.value); }
      case Bin(_, _, _) => a := CompileBin(e);
    }

    method CompileBin(e: Expr) returns (a: Option<Arth>)
      requires Valid() && e.Bin?
      modifies this`curreg, regused
      ensures Valid()
      ensures a.Some? <==> Compile(e, env, old(Regs())).Some?
      ensures a.Some? ==>
        WellFormed(e) && fresh(a.value) && fresh(ReprOf(a.value.b)) && Made(a.value.b, CheckOf(e, env))
      ensures a.Some? ==> Compile(e, env, old(Regs())) == Some(Compiled(a.value.s, a.value.regno, Regs()))
      decreases e, 1
    {
      hide BinCode, Block.Valid;
      CompileExact(e, env, Regs());
      var a1;
      a, a1 := CompileOperands(e.l, e.r, e);
      if a.None? { return; }
      var ok := GenArth(e.op, a.value, a1);
      if !ok { return None; }
    }

    /** Compiles two operands, the left one first. */
    method CompileOperands(l: Expr, r: Expr, ghost parent: Expr) returns (a0: Option<Arth>, a1: Arth?)
      requires Valid() && parent.Bin? && parent.l == l && parent.r == r
      modifies this`curreg, regused
      ensures Valid()
      ensures match Compile(l, env, old(Regs()))
              case None => a0 == None
              case Some(c0) =>
                match Compile(r, env, c0.regs)
                case None => a0 == None
                case Some(c1) =>
                  && a0.Some? && a1 != null && fresh(a0.value) && fresh(a1) && a0.value != a1
                  && Compiled(a0.value.s, a0.value.regno, c0.regs) == c0
                  && Compiled(a1.s, a1.regno, Regs()) == c1
      ensures a0.Some? ==>
        && WellFormed(l) && WellFormed(r) && a1 != null && ReprOf(a0.value.b) !! ReprOf(a1.b)
        && Made(a0.value.b, CheckOf(l, env)) && fresh(ReprOf(a0.value.b))
        && Made(a1.b, CheckOf(r, env)) && fresh(ReprOf(a1.b))
      decreases parent, 0
    {
      hide Block.Valid;
      a1 := null;
      a0 := CompileExpr(l);
      if a0.None? { return; }
      var right := CompileExpr(r);
      if right.None? { return None, null; }
      a1 := right.value;
    }

    method CompilePrim(prim: Primitive) returns (b: Option<Block>)
      modifies this`env
      ensures b.Some? <==> (prim.Protocol? ==> Abbreviated(prim.proto))
      ensures b.Some? ==> b.value.Valid() && fresh(b.value.repr) && b.value.filter == PrimFilter(prim, old(env))
      ensures b.Some? ==> env == EnvAfter(Prim(prim), old(env))
    {
      hide Block.Valid;
      var x;
      match prim
      case Protocol(proto) => b := GenProtoAbbrev(proto);
      case Vlan(id) => x := GenVlan(id); b := Some(x);
      case AtLeast(n) => x := GenLen(JGE, n); b := Some(x);
      case AtMost(n) => x := GenLess(n); b := Some(x);
      case ByteTest(op, index, v) => x := GenByteOp(op, index, v); b := Some(x);
    }

    method CompileRelation(op: JumpOp, reversed: bool, l: Expr, r: Expr) returns (b: Option<Block>)
      requires Valid()
      modifies this`curreg, regused
      ensures Valid()
      ensures match PredCompile(Rel(op, reversed, l, r), env, old(Regs()))
              case None => b == None
              case Some((f, rs)) =>
                b.Some? && b.value.Valid() && fresh(b.value.repr) && b.value.filter == f && Regs() == rs
    {
      hide Compile, CheckOf, RelationFilter, RelationTest, WellFormed, Block.Valid;
      CompileExact(l, env, Regs());
      var a0, a1 := CompileOperands(l, r, Bin(SUB, l, r));
      if a0.None? { return None; }
      var x := GenRelation(op, a0.value, a1, reversed);
      return Some(x);
    }

    method CompilePred(pred: Pred) returns (b: Option<Block>)
      requires Valid()
      modifies this`env, this`curreg, regused
      ensures Valid()
      ensures match PredCompile(pred, old(env), old(Regs()))
              case None => b == None
              case Some((f, rs)) => b.Some? && b.value.Valid() && fresh(b.value.repr) && b.value.filter == f &&
                                    Regs() == rs && env == EnvAfter(pred, old(env))
      ensures b.Some? ==> env == Behind(old(env), Tags(Leaves(pred)))
      decreases pred
    {
      hide Block.Valid, Behind, Tags, Leaves;
      OffsetsAfter(pred, env);
      match pred
      case Prim(prim) => b := CompilePrim(prim);
      case Rel(op, reversed, l, r) => b := CompileRelation(op, reversed, l, r);
      case Both(goOn, l, r) =>
        b := CompilePred(l);
        if b.Some? {
          var b1 := CompilePred(r);
          if b1.None? { return None; }
          if goOn { GenAnd(b.value, b1.value); } else { GenOr(b.value, b1.value); }
          b := b1;
        }
      case Complement(e) =>
        b := CompilePred(e);
        if b.Some? {
          InRepr(b.value);
          GenNot(b.value);
        }
    }
  }

  /** Compiles a predicate for Ethernet.  It fails exactly when the snapshot length is 0, a protocol or
      a size is not accepted, or a relation needs more than sixteen registers; otherwise the program it
      makes, run on any packet from any state of the machine, ends within the number of its blocks, and
      returns snaplen if the predicate, read on the bytes of the packet, is true, and 0 if it is false or
      faults. */
  method PcapCompile(pred: Pred, snaplen: Word) returns (root: Block?, ghost nodes: seq<Block>)
    ensures root != null <==> snaplen != 0 && Spoken(Leaves(pred)) && PredNeed(pred) <= 16
    ensures root != null ==> Filters(root, nodes, pred, snaplen)
  {
    hide Spoken, Leaves, Says, Accepted, PredTruth, PredNeed, PredCompile, CountFree;
    SaysExactly(pred);
    if snaplen == 0 { return null, []; }
    var g := new Generator(Ethernet(0));
    ghost var rs := g.Regs();
    PredCompileExact(pred, Ethernet(0), rs);
    var b := g.CompilePred(pred);
    if b.None? { return null, []; }
    ghost var f := b.value.filter;
    root, nodes := FinishParse(b.value, snaplen);
    PredCorrect(pred, Ethernet(0), rs);
    forall p, st
      ensures RunBlocks(root, nodes, p, st, |nodes|) == Returns(if Says(pred, p) == True then snaplen else 0)
    {
      RunDecides(root, nodes, f, snaplen, p, st);
    }
  }

  ghost predicate Filters(root: Block, nodes: seq<Block>, pred: Pred, snaplen: Word)
    requires Spoken(Leaves(pred))
    reads nodes
  {
    forall p, st ::
      RunBlocks(root, nodes, p, st, |nodes|) == Returns(if Says(pred, p) == True then snaplen else 0)
  }

  lemma RunDecides(root: Block, nodes: seq<Block>, f: Filter, snaplen: Word, p: Packet, st: State)
    requires Decides(root, nodes, f, snaplen) && |nodes| == Size(f) + 2 && StateFree(f)
    ensures RunBlocks(root, nodes, p, st, |nodes|) == Returns(if Meaning(f, p) == True then snaplen else 0)
  {
    assert RunBlocks(root, nodes, p, st, Size(f) + 1) == Returns(Answer(Eval(f, p, st), snaplen));
    RunBlocksMonotone(root, nodes, p, st, Size(f) + 1, |nodes|);
    assert TruthOf(Eval(f, p, st)) == Meaning(f, p);
  }

  /** A management or data frame (frame type 0 or 2) which has this address as its source, or
      destination; in data frames the two DS flags say which address is which. */
  predicate WlanHost(p: Packet, addr: Mac, source: bool) {
    |p.bytes| >= 2 &&
    var kind := p.bytes[0] / 4 % 4;
    var toDs, fromDs := kind == 2 && p.bytes[1] % 2 == 1, kind == 2 && p.bytes[1] / 2 % 2 == 1;
    var k := if source then (if !fromDs then 10 else if toDs then 24 else 16) else (if toDs then 16 else 4);
    (kind == 0 || kind == 2) && k + 6 <= |p.bytes| && p.bytes[k..k + 6] == addr
  }

  lemma WlanHostPlace(p: Packet, addr: Mac, source: bool)
    ensures WlanHost(p, addr, source) <==>
      && |p.bytes| >= 2 && !Bit(p.bytes[0], NO_ADDRESS)
      && Matches(p, if source then SourceOffset(p.bytes[0], p.bytes[1])
                    else DestinationOffset(p.bytes[0], p.bytes[1]), addr)
  {
    assert Pow2(0) == 1 && Pow2(1) == 2 && Pow2(2) == 4 && Pow2(3) == 8;
  }

  /** Compiles "wlan src" or "wlan dst" for 802.11: the program returns snaplen for exactly the frames
      with the address. */
  method CompileWlan(addr: Mac, source: bool, snaplen: Word) returns (root: Block?, ghost nodes: seq<Block>)
    ensures root != null <==> snaplen != 0
    ensures root != null ==> Selects(root, nodes, addr, source, snaplen)
  {
    hide SourceFilter, DestinationFilter, StateFree, Meaning;
    if snaplen == 0 { return null, []; }
    var g := new Generator(Env(0, 24, 0, 8));
    var b := g.GenWlanHostOp(addr, source);
    ghost var f := b.filter;
    root, nodes := FinishParse(b, snaplen);
    SourceMeaning(addr);
    DestinationMeaning(addr);
    forall p, st
      ensures RunBlocks(root, nodes, p, st, |nodes|) == Returns(if WlanHost(p, addr, source) then snaplen else 0)
    {
      RunDecides(root, nodes, f, snaplen, p, st);
      WlanHostPlace(p, addr, source);
    }
  }

  ghost predicate Selects(root: Block, nodes: seq<Block>, addr: Mac, source: bool, snaplen: Word)
    reads nodes
  {
    forall p, st ::
      RunBlocks(root, nodes, p, st, |nodes|) == Returns(if WlanHost(p, addr, source) then snaplen else 0)
  }

  /** More fuel does not change a run that ends. */
  lemma {:induction false} RunBlocksMonotone(b: Block?, nodes: seq<Block>, p: Packet, st: State, fuel: nat, more: nat)
    requires fuel <= more && RunBlocks(b, nodes, p, st, fuel) != Lost
    ensures RunBlocks(b, nodes, p, st, more) == RunBlocks(b, nodes, p, st, fuel)
    decreases fuel
  {
    match Exec(b.stmts, p, st)
    case None =>
    case Some(s) =>
      if b.code.Jmp? {
        RunBlocksMonotone(if Taken(b.code.jump, s) then b.jt else b.jf, nodes, p, s, fuel - 1, more - 1);
      }
  }

  /** The check of a network header's protocol, or of a transport header's. */
  function OwnCheck(proto: Proto, env: Env): Filter
    requires proto.IsNetwork() || proto.IsTransport()
  {
    if proto.IsNetwork() then ProtoFilter(proto, env) else And(ProtoFilter(proto, env), FirstFragment(env))
  }

  lemma InRepr(b: Block)
    requires b.Valid()
    ensures b in b.repr
  {}

  ghost function ReprOf(b: Block?): set<Block>
    reads b
  {
    if b == null then {} else b.repr
  }

  /** Puts a composite, if there is one, in front of b. */
  method AndInto(b0: Block?, b: Block)
    requires Made(b0, FilterOf(b0)) && b.Valid() && ReprOf(b0) !! b.repr
    modifies ReprOf(b0), b.repr
    ensures b.Valid() && b.filter == AndAfter(old(FilterOf(b0)), old(b.filter)) && b.repr == old(ReprOf(b0) + b.repr)
  {
    if b0 != null { GenAnd(b0, b); }
  }

  ghost function FilterOf(b: Block?): Option<Filter>
    reads b
  {
    if b == null then None else Some(b.filter)
  }

  /** A pointer to a composite for a filter, or null for none. */
  ghost predicate Made(b: Block?, f: Option<Filter>)
    reads b, ReprOf(b)
  {
    FilterOf(b) == f && (b != null ==> b.Valid())
  }

  /** Testing the bytes v after acc makes the filter `goal`. */
  ghost predicate Towards(acc: Option<Filter>, k: Word, v: seq<Byte>, goal: Option<Filter>) {
    BytesFilter(acc, k, v) == goal
  }

  lemma TowardsNext(acc: Option<Filter>, k: Word, v: seq<Byte>, n: nat, goal: Option<Filter>)
    requires v != [] && n == Bytes(ChunkOf(|v|)) && Towards(acc, k, v, goal)
    ensures Towards(Some(AndAfter(acc, Chunk(Wrap(k + |v| - n), v[|v| - n..]))), k, v[..|v| - n], goal)
  {
    hide Chunk, Wrap;
    var m := |v| - n;
    assert BytesFilter(acc, k, v) == BytesFilter(Some(AndAfter(acc, Chunk(Wrap(k + m), v[m..]))), k, v[..m]);
  }

  lemma TowardsEnd(acc: Option<Filter>, k: Word, goal: Option<Filter>)
    requires Towards(acc, k, [], goal)
    ensures acc == goal
  {}

  lemma ChunkField(size: Width, at: Word, v: seq<Byte>)
    requires |v| == Bytes(size)
    ensures Chunk(at, v) == Field(size, at, ALL, JEQ, BigEndian(v))
  {}

  lemma OffsetSum(base: Word, offset: Word, n: nat)
    ensures Wrap(base + Wrap(offset + n)) == Wrap(Wrap(base + offset) + n)
  {}

  lemma {:induction false} AllFree(t: seq<bool>)
    requires forall i :: 0 <= i < |t| ==> !t[i]
    ensures CountFree(t) == |t|
  {
    if t != [] { AllFree(t[1..]); }
  }
}
