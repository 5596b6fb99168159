/** Arithmetic expressions of the filter language, the allocation of scratch words, and the code
    that an expression compiles to. */
module Arith {
  import opened Common
  import opened Machine

  /** Where the link-layer header, its type field and its payload start, and where the network
      header starts in the payload: the constant offsets of the link type. */
  datatype Env = Env(linkHdr: Word, linkType: Word, linkPl: Word, nl: Word)
  {
    function Network(): Word { Wrap(linkPl + nl) }
  }

  datatype Proto =
    | Link | Radio
    | Ip | Arp | Rarp | Decnet | Sca | Lat | MopRc | MopDl | Ipv6
    | Sctp | Tcp | Udp | Icmp | Igmp | Igrp | Pim | Vrrp | Carp
    | Icmpv6
  {
    predicate IsNetwork() {
      Ip? || Arp? || Rarp? || Decnet? || Sca? || Lat? || MopRc? || MopDl? || Ipv6?
    }

    predicate IsTransport() {
      Sctp? || Tcp? || Udp? || Icmp? || Igmp? || Igrp? || Pim? || Vrrp? || Carp?
    }

    /** The protocols that proto[index : size] can address, when there is no radio header. */
    predicate Indexable() { Link? || IsNetwork() || IsTransport() }
  }

  datatype Expr =
    | Num(v: Word)
    | Len
    | Fetch(proto: Proto, index: Expr, size: int)
    | Negative(e: Expr)
    | Bin(op: AluOp, l: Expr, r: Expr)

  function WidthOf(size: int): Option<Width> {
    if size == 1 then Some(B) else if size == 2 then Some(H) else if size == 4 then Some(W) else None
  }

  /** What the compiler accepts, registers aside. */
  predicate WellFormed(e: Expr) {
    match e
    case Num(_) => true
    case Len => true
    case Fetch(proto, index, size) => WellFormed(index) && WidthOf(size).Some? && proto.Indexable()
    case Negative(a) => WellFormed(a)
    case Bin(_, l, r) => WellFormed(l) && WellFormed(r)
  }

  /** The value of an expression, evaluated from left to right; None if it faults. */
  function Value(e: Expr, env: Env, p: Packet): Option<Word>
    requires WellFormed(e)
  {
    match e
    case Num(v) => Some(v)
    case Len => Some(p.wireLength)
    case Fetch(proto, index, size) =>
      (match Value(index, env, p)
       case None => None
       case Some(i) => Item(proto, i, WidthOf(size).value, env, p))
    case Negative(a) => (match Value(a, env, p) case None => None case Some(v) => Some(Machine.Negate(v)))
    case Bin(op, l, r) =>
      (match Value(l, env, p)
       case None => None
       case Some(v) => match Value(r, env, p) case None => None case Some(w) => Alu(op, v, w))
  }

  /** The item at index i of the header of a protocol.  A transport header starts after the IPv4
      header, whose length in words is in the low bits of its first byte. */
  function Item(proto: Proto, i: Word, size: Width, env: Env, p: Packet): Option<Word>
    requires proto.Indexable()
  {
    if proto.Link? then Load(p, i + env.linkHdr, size)
    else if proto.IsNetwork() then Load(p, i + env.Network(), size)
    else
      match Load(p, env.Network(), B)
      case None => None
      case Some(b) => Load(p, Wrap(i + HeaderLength(b)) + env.Network(), size)
  }

  // ----- Scratch words

  type Table = t: seq<bool> | |t| == MEMWORDS witness seq(MEMWORDS, _ => false)
  datatype Regs = Regs(used: Table, cur: Reg)

  function Next(r: Reg): Reg { (r + 1) % MEMWORDS }

  /** The number of steps from r to i in cyclic order. */
  function Distance(r: Reg, i: Reg): nat { if r <= i then i - r else i + MEMWORDS - r }

  function FirstFree(used: Table, r: Reg, n: nat): Option<Reg>
    decreases n
  {
    if n == 0 then None else if !used[r] then Some(r) else FirstFree(used, Next(r), n - 1)
  }

  /** It is the first free register at or after r in cyclic order, among n registers. */
  lemma {:induction false} FirstFreeIsFirst(used: Table, r: Reg, n: nat)
    ensures var f := FirstFree(used, r, n);
      && (f.Some? ==> !used[f.value])
      && forall i: Reg :: Distance(r, i) < (if f.Some? then Distance(r, f.value) else n) ==> used[i]
    decreases n
  {
    if n > 0 && used[r] { FirstFreeIsFirst(used, Next(r), n - 1); }
  }

  function Alloc(rs: Regs): Option<Regs> {
    match FirstFree(rs.used, rs.cur, MEMWORDS)
    case None => None
    case Some(r) => Some(Regs(rs.used[r := true], r))
  }

  function Free(rs: Regs, r: Reg): Regs { rs.(used := rs.used[r := false]) }

  function CountFree(t: seq<bool>): (n: nat)
    ensures n <= |t|
  {
    if t == [] then 0 else (if t[0] then 0 else 1) + CountFree(t[1..])
  }

  lemma {:induction false} CountUpdate(t: seq<bool>, i: nat, b: bool)
    requires i < |t|
    ensures CountFree(t[i := b]) == CountFree(t) + (if t[i] then 1 else 0) - (if b then 1 else 0)
  {
    if i == 0 {
      assert t[0 := b][1..] == t[1..];
    } else {
      assert t[i := b][1..] == t[1..][i - 1 := b];
      CountUpdate(t[1..], i - 1, b);
    }
  }

  lemma {:induction false} CountPositive(t: seq<bool>, i: nat)
    requires i < |t| && !t[i]
    ensures CountFree(t) > 0
  {
    if i > 0 { CountPositive(t[1..], i - 1); }
  }

  lemma {:induction false} CountZero(t: seq<bool>)
    requires forall i :: 0 <= i < |t| ==> t[i]
    ensures CountFree(t) == 0
  {
    if t != [] { CountZero(t[1..]); }
  }

  /** A register can be had exactly when one is free; it was free, and becomes the current one. */
  lemma AllocExact(rs: Regs)
    ensures Alloc(rs).Some? <==> CountFree(rs.used) > 0
    ensures Alloc(rs).Some? ==> var r := Alloc(rs).value.cur;
      !rs.used[r] && Alloc(rs).value.used == rs.used[r := true] &&
      CountFree(Alloc(rs).value.used) == CountFree(rs.used) - 1
  {
    FirstFreeIsFirst(rs.used, rs.cur, MEMWORDS);
    match FirstFree(rs.used, rs.cur, MEMWORDS)
    case None =>
      forall i | 0 <= i < MEMWORDS ensures rs.used[i] {
        assert Distance(rs.cur, i) < MEMWORDS;
      }
      CountZero(rs.used);
    case Some(r) =>
      CountPositive(rs.used, r);
      CountUpdate(rs.used, r, true);
  }

  // ----- Code

  /** The statements, the register that holds the value, and the registers after. */
  datatype Compiled = Compiled(stmts: seq<Stmt>, reg: Reg, regs: Regs)

  /** Loads into A the item whose index is in register r. */
  function LoadCode(proto: Proto, r: Reg, size: Width, env: Env): seq<Stmt>
    requires proto.Indexable()
  {
    if proto.Link? then [LdxMem(r), LdInd(size, env.linkHdr)]
    else if proto.IsNetwork() then [LdxMem(r), LdInd(size, env.Network())]
    else [LdxMsh(env.Network()), LdMem(r), AluX(ADD), Tax, LdInd(size, env.Network())]
  }

  function BinCode(op: AluOp, r0: Reg, r1: Reg): seq<Stmt> { [LdxMem(r1), LdMem(r0), AluX(op)] }

  function NegCode(r: Reg): seq<Stmt> { [LdMem(r), Neg, St(r)] }

  function Compile(e: Expr, env: Env, rs: Regs): Option<Compiled> {
    match e
    case Num(v) =>
      (match Alloc(rs) case None => None case Some(rs') => Some(Compiled([LdImm(v), St(rs'.cur)], rs'.cur, rs')))
    case Len =>
      (match Alloc(rs) case None => None case Some(rs') => Some(Compiled([LdLen, St(rs'.cur)], rs'.cur, rs')))
    case Fetch(proto, index, size) =>
      (match Compile(index, env, rs)
       case None => None
       case Some(c) =>
         match Alloc(c.regs)
         case None => None
         case Some(rs') =>
           if WidthOf(size).None? || !proto.Indexable() then None else
             Some(Compiled(c.stmts + LoadCode(proto, c.reg, WidthOf(size).value, env) + [St(rs'.cur)],
                           rs'.cur, Free(rs', c.reg))))
    case Negative(a) =>
      (match Compile(a, env, rs)
       case None => None
       case Some(c) => Some(c.(stmts := c.stmts + NegCode(c.reg))))
    case Bin(op, l, r) =>
      (match Compile(l, env, rs)
       case None => None
       case Some(c0) =>
         match Compile(r, env, c0.regs)
         case None => None
         case Some(c1) =>
           match Alloc(Free(Free(c1.regs, c0.reg), c1.reg))
           case None => None
           case Some(rs') =>
             Some(Compiled(c0.stmts + c1.stmts + BinCode(op, c0.reg, c1.reg) + [St(rs'.cur)], rs'.cur, rs')))
  }

  /** The most registers that are live at once. */
  function Need(e: Expr): nat {
    match e
    case Num(_) => 1
    case Len => 1
    case Fetch(_, index, _) => if Need(index) > 2 then Need(index) else 2
    case Negative(a) => Need(a)
    case Bin(_, l, r) => if Need(l) > 1 + Need(r) then Need(l) else 1 + Need(r)
  }

  /** Register demand is exact: an expression compiles if and only if it is well formed and needs
      no more registers than are free; it then holds one register that was free before. */
  lemma {:induction false} CompileExact(e: Expr, env: Env, rs: Regs)
    ensures Compile(e, env, rs).Some? <==> WellFormed(e) && Need(e) <= CountFree(rs.used)
    ensures Compile(e, env, rs).Some? ==> var c := Compile(e, env, rs).value;
      !rs.used[c.reg] && c.regs.used == rs.used[c.reg := true] &&
      CountFree(c.regs.used) == CountFree(rs.used) - 1
  {
    hide LoadCode, BinCode, NegCode, CountFree, Alloc;
    match e
    case Num(_) => AllocExact(rs);
    case Len => AllocExact(rs);
    case Negative(a) => CompileExact(a, env, rs);
    case Fetch(proto, index, size) =>
      CompileExact(index, env, rs);
      if Compile(index, env, rs).Some? {
        var c := Compile(index, env, rs).value;
        AllocExact(c.regs);
        if Alloc(c.regs).Some? { FreeOther(rs, c.reg, Alloc(c.regs).value); }
      }
    case Bin(_, l, r) =>
      CompileExact(l, env, rs);
      if Compile(l, env, rs).Some? {
        var c0 := Compile(l, env, rs).value;
        CompileExact(r, env, c0.regs);
        if Compile(r, env, c0.regs).Some? {
          var c1 := Compile(r, env, c0.regs).value;
          assert Free(Free(c1.regs, c0.reg), c1.reg).used == rs.used;
          AllocExact(Free(Free(c1.regs, c0.reg), c1.reg));
        }
      }
  }

  lemma FreeOther(rs: Regs, r: Reg, rs': Regs)
    requires !rs.used[r] && r != rs'.cur && !rs.used[rs'.cur]
    requires rs'.used == rs.used[r := true][rs'.cur := true]
    ensures Free(rs', r).used == rs.used[rs'.cur := true]
    ensures CountFree(Free(rs', r).used) == CountFree(rs.used) - 1
  {
    assert Free(rs', r).used == rs.used[rs'.cur := true];
    CountUpdate(rs.used, rs'.cur, true);
  }

  // ----- Correctness of the code

  /** Run from st, the code faults exactly when the expression does; otherwise it leaves the value
      in its register and every register used in rs as it was. */
  ghost predicate Computes(c: Compiled, e: Expr, env: Env, rs: Regs, p: Packet, st: State)
    requires WellFormed(e)
  {
    match Value(e, env, p)
    case None => Exec(c.stmts, p, st) == None
    case Some(v) =>
      match Exec(c.stmts, p, st)
      case None => false
      case Some(st') => st'.m[c.reg] == v && forall i: Reg :: rs.used[i] ==> st'.m[i] == st.m[i]
  }

  /** Compiler correctness, for every packet and every state of the machine. */
  lemma {:induction false} CompileCorrect(e: Expr, env: Env, rs: Regs, p: Packet, st: State)
    requires Compile(e, env, rs).Some?
    ensures WellFormed(e)
    ensures Computes(Compile(e, env, rs).value, e, env, rs, p, st)
  {
    CompileExact(e, env, rs);
    match e
    case Num(v) => LeafCorrect(e, LdImm(v), env, rs, p, st);
    case Len => LeafCorrect(e, LdLen, env, rs, p, st);
    case Negative(a) =>
      CompileCorrect(a, env, rs, p, st);
      NegativeCorrect(e, env, rs, p, st);
    case Fetch(proto, index, size) =>
      CompileCorrect(index, env, rs, p, st);
      LoadCorrect(e, env, rs, p, st);
    case Bin(_, l, r) =>
      var c0 := Compile(l, env, rs).value;
      CompileCorrect(l, env, rs, p, st);
      if Exec(c0.stmts, p, st).Some? { CompileCorrect(r, env, c0.regs, p, Exec(c0.stmts, p, st).value); }
      BinCorrect(e, env, rs, p, st);
  }

  lemma LeafCorrect(e: Expr, s: Stmt, env: Env, rs: Regs, p: Packet, st: State)
    requires Compile(e, env, rs).Some? && ((e.Num? && s == LdImm(e.v)) || (e.Len? && s == LdLen))
    ensures Computes(Compile(e, env, rs).value, e, env, rs, p, st)
  {
    CompileExact(e, env, rs);
    ExecCons(s, [St(Compile(e, env, rs).value.reg)], p, st);
  }

  lemma NegativeCorrect(e: Expr, env: Env, rs: Regs, p: Packet, st: State)
    requires e.Negative? && Compile(e, env, rs).Some? && WellFormed(e)
    requires Computes(Compile(e.e, env, rs).value, e.e, env, rs, p, st)
    ensures Computes(Compile(e, env, rs).value, e, env, rs, p, st)
  {
    var c := Compile(e.e, env, rs).value;
    CompileExact(e.e, env, rs);
    ExecAppend(c.stmts, NegCode(c.reg), p, st);
    if Exec(c.stmts, p, st).Some? { NegCodeRun(c.reg, p, Exec(c.stmts, p, st).value); }
  }

  lemma NegCodeRun(r: Reg, p: Packet, st: State)
    ensures Exec(NegCode(r), p, st).Some?
    ensures var s := Exec(NegCode(r), p, st).value;
            s.m == st.m[r := Machine.Negate(st.m[r])]
  {
    assert NegCode(r) == [LdMem(r)] + ([Neg] + [St(r)]);
    ExecCons(LdMem(r), [Neg] + [St(r)], p, st);
    var st1 := st.(a := st.m[r]);
    ExecCons(Neg, [St(r)], p, st1);
    ExecCons(St(r), [], p, st1.(a := Machine.Negate(st1.a)));
  }

  lemma BinCodeRun(op: AluOp, r0: Reg, r1: Reg, p: Packet, st: State)
    ensures match Alu(op, st.m[r0], st.m[r1])
            case None => Exec(BinCode(op, r0, r1), p, st) == None
            case Some(v) => Exec(BinCode(op, r0, r1), p, st) == Some(State(v, st.m[r1], st.m))
  {
    hide Alu, Exec;
    assert BinCode(op, r0, r1) == [LdxMem(r1)] + ([LdMem(r0)] + [AluX(op)]);
    ExecCons(LdxMem(r1), [LdMem(r0)] + [AluX(op)], p, st);
    var st1 := st.(x := st.m[r1]);
    ExecCons(LdMem(r0), [AluX(op)], p, st1);
    ExecCons(AluX(op), [], p, st1.(a := st1.m[r0]));
  }

  lemma LoadCodeRun(proto: Proto, r: Reg, size: Width, env: Env, p: Packet, st: State)
    requires proto.Indexable()
    ensures var run := Exec(LoadCode(proto, r, size, env), p, st);
            match Item(proto, st.m[r], size, env, p)
            case None => run == None
            case Some(v) => run.Some? && run.value.a == v && run.value.m == st.m
  {
    hide Exec, Load;
    if proto.Link? {
      DirectRun(r, size, env.linkHdr, p, st);
    } else if proto.IsNetwork() {
      DirectRun(r, size, env.Network(), p, st);
    } else {
      TransportRun(r, size, env.Network(), p, st);
    }
  }

  lemma DirectRun(r: Reg, size: Width, k: Word, p: Packet, st: State)
    ensures Exec([LdxMem(r), LdInd(size, k)], p, st) ==
            match Load(p, st.m[r] + k, size) case None => None case Some(v) => Some(State(v, st.m[r], st.m))
  {
    assert [LdxMem(r), LdInd(size, k)] == [LdxMem(r)] + [LdInd(size, k)];
    ExecCons(LdxMem(r), [LdInd(size, k)], p, st);
    ExecCons(LdInd(size, k), [], p, st.(x := st.m[r]));
  }

  lemma TransportRun(r: Reg, size: Width, k: Word, p: Packet, st: State)
    ensures var run := Exec([LdxMsh(k), LdMem(r), AluX(ADD), Tax, LdInd(size, k)], p, st);
            match Load(p, k, B)
            case None => run == None
            case Some(b) =>
              var sum := Wrap(st.m[r] + HeaderLength(b));
              run == match Load(p, sum + k, size) case None => None case Some(v) => Some(State(v, sum, st.m))
  {
    var rest := [LdMem(r), AluX(ADD), Tax, LdInd(size, k)];
    assert [LdxMsh(k), LdMem(r), AluX(ADD), Tax, LdInd(size, k)] == [LdxMsh(k)] + rest;
    ExecCons(LdxMsh(k), rest, p, st);
    match Load(p, k, B)
    case None =>
    case Some(b) => IndexedRun(r, size, k, p, st.(x := HeaderLength(b)));
  }

  lemma IndexedRun(r: Reg, size: Width, k: Word, p: Packet, st: State)
    ensures var code := [LdMem(r), AluX(ADD), Tax, LdInd(size, k)];
            var sum := Wrap(st.m[r] + st.x);
            Exec(code, p, st) ==
            match Load(p, sum + k, size) case None => None case Some(v) => Some(State(v, sum, st.m))
  {
    hide Load, Exec;
    var rest2 := [Tax] + [LdInd(size, k)];
    var rest1 := [AluX(ADD)] + rest2;
    assert [LdMem(r), AluX(ADD), Tax, LdInd(size, k)] == [LdMem(r)] + rest1;
    ExecCons(LdMem(r), rest1, p, st);
    var st1 := st.(a := st.m[r]);
    ExecCons(AluX(ADD), rest2, p, st1);
    var st2 := st1.(a := Wrap(st1.a + st1.x));
    ExecCons(Tax, [LdInd(size, k)], p, st2);
    ExecCons(LdInd(size, k), [], p, st2.(x := st2.a));
  }

  /** Code, then a store of A in the result register. */
  lemma ThenStore(code: seq<Stmt>, r: Reg, p: Packet, st: State)
    ensures Exec(code + [St(r)], p, st) ==
            match Exec(code, p, st) case None => None case Some(s) => Some(s.(m := s.m[r := s.a]))
  {
    ExecAppend(code, [St(r)], p, st);
    if Exec(code, p, st).Some? { ExecCons(St(r), [], p, Exec(code, p, st).value); }
  }

  lemma LoadCorrect(e: Expr, env: Env, rs: Regs, p: Packet, st: State)
    requires e.Fetch? && Compile(e, env, rs).Some? && WellFormed(e)
    requires Computes(Compile(e.index, env, rs).value, e.index, env, rs, p, st)
    ensures Computes(Compile(e, env, rs).value, e, env, rs, p, st)
  {
    var c, c0, size := Compile(e, env, rs).value, Compile(e.index, env, rs).value, WidthOf(e.size).value;
    CompileExact(e, env, rs);
    var code := LoadCode(e.proto, c0.reg, size, env);
    assert c.stmts == c0.stmts + code + [St(c.reg)];
    ThenStore(c0.stmts + code, c.reg, p, st);
    ExecAppend(c0.stmts, code, p, st);
    if Exec(c0.stmts, p, st).Some? { LoadCodeRun(e.proto, c0.reg, size, env, p, Exec(c0.stmts, p, st).value); }
  }

  /** The code of two operands in a row leaves both values in their registers. */
  lemma OperandsRun(l: Expr, r: Expr, env: Env, rs: Regs, p: Packet, st: State)
    requires Compile(l, env, rs).Some? && Compile(r, env, Compile(l, env, rs).value.regs).Some?
    requires WellFormed(l) && WellFormed(r)
    requires Computes(Compile(l, env, rs).value, l, env, rs, p, st)
    requires var c0 := Compile(l, env, rs).value;
      Exec(c0.stmts, p, st).Some? ==>
      Computes(Compile(r, env, c0.regs).value, r, env, c0.regs, p, Exec(c0.stmts, p, st).value)
    ensures
      var c0 := Compile(l, env, rs).value;
      var c1 := Compile(r, env, c0.regs).value;
      var run := Exec(c0.stmts + c1.stmts, p, st);
      if Value(l, env, p).None? || Value(r, env, p).None? then run == None else
        && run.Some? && run.value.m[c0.reg] == Value(l, env, p).value && run.value.m[c1.reg] == Value(r, env, p).value
        && forall i: Reg :: rs.used[i] ==> run.value.m[i] == st.m[i]
  {
    var c0 := Compile(l, env, rs).value;
    CompileExact(l, env, rs);
    ExecAppend(c0.stmts, Compile(r, env, c0.regs).value.stmts, p, st);
  }

  lemma BinCorrect(e: Expr, env: Env, rs: Regs, p: Packet, st: State)
    requires e.Bin? && Compile(e, env, rs).Some? && WellFormed(e)
    requires Computes(Compile(e.l, env, rs).value, e.l, env, rs, p, st)
    requires var c0 := Compile(e.l, env, rs).value;
      Exec(c0.stmts, p, st).Some? ==>
      Computes(Compile(e.r, env, c0.regs).value, e.r, env, c0.regs, p, Exec(c0.stmts, p, st).value)
    ensures Computes(Compile(e, env, rs).value, e, env, rs, p, st)
  {
    var c, c0 := Compile(e, env, rs).value, Compile(e.l, env, rs).value;
    var c1 := Compile(e.r, env, c0.regs).value;
    OperandsRun(e.l, e.r, env, rs, p, st);
    CompileExact(e, env, rs);
    var code := BinCode(e.op, c0.reg, c1.reg);
    ThenStore(c0.stmts + c1.stmts + code, c.reg, p, st);
    ExecAppend(c0.stmts + c1.stmts, code, p, st);
    if Exec(c0.stmts + c1.stmts, p, st).Some? {
      BinCodeRun(e.op, c0.reg, c1.reg, p, Exec(c0.stmts + c1.stmts, p, st).value);
    }
  }

  lemma OperandsCorrect(l: Expr, r: Expr, env: Env, rs: Regs, p: Packet, st: State)
    requires Compile(l, env, rs).Some? && Compile(r, env, Compile(l, env, rs).value.regs).Some?
    requires WellFormed(l) && WellFormed(r)
    ensures
      var c0 := Compile(l, env, rs).value;
      var c1 := Compile(r, env, c0.regs).value;
      var run := Exec(c0.stmts + c1.stmts, p, st);
      if Value(l, env, p).None? || Value(r, env, p).None? then run == None else
        run.Some? && run.value.m[c0.reg] == Value(l, env, p).value && run.value.m[c1.reg] == Value(r, env, p).value
  {
    var c0 := Compile(l, env, rs).value;
    CompileCorrect(l, env, rs, p, st);
    if Exec(c0.stmts, p, st).Some? { CompileCorrect(r, env, c0.regs, p, Exec(c0.stmts, p, st).value); }
    OperandsRun(l, r, env, rs, p, st);
  }

  // ----- How deep expressions can be

  /** 1 + (1 + (1 + ...)), with n sums. */
  function RightNested(n: nat): Expr { if n == 0 then Num(1) else Bin(ADD, Num(1), RightNested(n - 1)) }

  /** ((1 + 1) + 1) + ... */
  function LeftNested(n: nat): Expr { if n == 0 then Num(1) else Bin(ADD, LeftNested(n - 1), Num(1)) }

  /** ether[ether[...]] */
  function Indexed(n: nat): Expr { if n == 0 then Num(1) else Fetch(Link, Indexed(n - 1), 1) }

  lemma {:induction false} RightNeed(n: nat)
    ensures WellFormed(RightNested(n)) && Need(RightNested(n)) == n + 1
  {
    if n > 0 { RightNeed(n - 1); }
  }

  lemma {:induction false} LeftNeed(n: nat)
    ensures WellFormed(LeftNested(n)) && Need(LeftNested(n)) == if n == 0 then 1 else 2
  {
    if n > 0 { LeftNeed(n - 1); }
  }

  lemma {:induction false} IndexNeed(n: nat)
    ensures WellFormed(Indexed(n)) && Need(Indexed(n)) == if n == 0 then 1 else 2
  {
    if n > 0 { IndexNeed(n - 1); }
  }

  /** With all sixteen registers free, sums that nest to the right compile up to fifteen of them, to the
      left any number, and so do indices in indices.  With one register free no sum compiles and no item,
      since the register of an index is given back after the result's is taken. */
  lemma NestingExact(n: nat, env: Env, rs: Regs)
    ensures CountFree(rs.used) == 16 ==>
      && (Compile(RightNested(n), env, rs).Some? <==> n <= 15)
      && Compile(LeftNested(n), env, rs).Some? && Compile(Indexed(n), env, rs).Some?
    ensures CountFree(rs.used) == 1 ==>
      && (Compile(LeftNested(n), env, rs).Some? <==> n == 0)
      && (Compile(Indexed(n), env, rs).Some? <==> n == 0)
  {
    hide Compile, CountFree, Need, WellFormed;
    RightNeed(n);
    LeftNeed(n);
    IndexNeed(n);
    CompileExact(RightNested(n), env, rs);
    CompileExact(LeftNested(n), env, rs);
    CompileExact(Indexed(n), env, rs);
  }
}
