/** The BPF machine that the generated code runs on: two 32-bit registers A and X, sixteen
    scratch words M, and loads from a packet.  The interpreter is not one of the repository's
    files; these are the semantics of McCanne and Jacobson's BPF paper.  A step that reads past
    the end of the packet, or that divides by zero, rejects the packet: here, a Fault. */
module Machine {
  import opened Common

  const WORD: int := 0x1_0000_0000
  const MEMWORDS: int := 16

  type Word = w: int | 0 <= w < WORD
  type Byte = b: int | 0 <= b < 256
  type Reg = r: int | 0 <= r < MEMWORDS

  /** The captured bytes and the length the packet had on the wire. */
  datatype Packet = Packet(bytes: seq<Byte>, wireLength: Word)
  {
    function ByteAt(i: nat): int
      requires i < |bytes|
    {
      bytes[i]
    }
  }

  type Memory = m: seq<Word> | |m| == MEMWORDS witness seq(MEMWORDS, _ => 0)
  datatype State = State(a: Word, x: Word, m: Memory)

  datatype Width = B | H | W
  datatype AluOp = ADD | SUB | MUL | DIV | MOD | AND | OR | XOR | LSH | RSH
  datatype JumpOp = JEQ | JGT | JGE | JSET
  datatype Stmt =
    | LdImm(k: Word) | LdLen | LdAbs(size: Width, k: Word) | LdInd(size: Width, k: Word) | LdMem(r: Reg)
    | LdxMem(r: Reg) | LdxMsh(k: Word)
    | St(r: Reg) | AluX(op: AluOp) | AluK(op: AluOp, k: Word) | Neg | Tax
  datatype Jump = JmpK(op: JumpOp, k: Word) | JmpX(op: JumpOp)

  // ----- Arithmetic on words

  function Pow2(n: nat): (r: nat)
    ensures r >= 1
  {
    if n == 0 then 1 else 2 * Pow2(n - 1)
  }

  lemma Pow2Word()
    ensures Pow2(32) == WORD
  {
    assert Pow2(8) == 256;
    assert Pow2(16) == 0x1_0000;
    assert Pow2(24) == 0x100_0000;
  }

  /** A bitwise operation on the `width` low bits of its operands. */
  function Bitwise(op: AluOp, a: nat, b: nat, width: nat): (r: nat)
    ensures r < Pow2(width)
  {
    if width == 0 then 0 else
      var bit := match op
        case AND => if a % 2 == 1 && b % 2 == 1 then 1 else 0
        case OR => if a % 2 == 1 || b % 2 == 1 then 1 else 0
        case _ => if a % 2 != b % 2 then 1 else 0;
      bit + 2 * Bitwise(op, a / 2, b / 2, width - 1)
  }

  function BitAnd(a: Word, b: Word): (r: Word) {
    Pow2Word();
    Bitwise(AND, a, b, 32)
  }

  /** Truncation to 32 bits. */
  function Wrap(v: int): Word { v % WORD }

  function Quotient(a: Word, b: nat): (q: Word)
    requires b > 0
  {
    QuotientBound(a, b);
    a / b
  }

  lemma QuotientBound(a: nat, b: nat)
    requires b > 0
    ensures 0 <= a / b <= a
  {
    var q, r := a / b, a % b;
    assert a == q * b + r;
    if q < 0 {
      MulAtLeast(-q, b);
    } else if q > 0 {
      MulAtLeast(b, q);
    }
  }

  lemma MulAtLeast(d: int, m: int)
    requires d >= 1 && m >= 0
    ensures d * m >= m
  {
    assert d * m == (d - 1) * m + m;
  }

  function Alu(op: AluOp, a: Word, b: Word): Option<Word> {
    match op
    case ADD => Some(Wrap(a + b))
    case SUB => Some(Wrap(a - b))
    case MUL => Some(Wrap(a * b))
    case DIV => if b == 0 then None else Some(Quotient(a, b))
    case MOD => if b == 0 then None else Some(Wrap(a % b))
    case AND => Some(BitAnd(a, b))
    case OR => Pow2Word(); Some(Bitwise(OR, a, b, 32))
    case XOR => Pow2Word(); Some(Bitwise(XOR, a, b, 32))
    case LSH => Some(if b < 32 then Wrap(a * Pow2(b)) else 0)
    case RSH => Some(if b < 32 then Quotient(a, Pow2(b)) else 0)
  }

  function Negate(a: Word): Word { Wrap(0 - a) }

  function Compare(op: JumpOp, a: Word, b: Word): bool {
    match op
    case JEQ => a == b
    case JGT => a > b
    case JGE => a >= b
    case JSET => BitAnd(a, b) != 0
  }

  // ----- Loads

  function Bytes(size: Width): (n: nat) {
    match size case B => 1 case H => 2 case W => 4
  }

  /** The big-endian value of `size` bytes at offset `off`, if the packet has them all. */
  function Load(p: Packet, off: nat, size: Width): Option<Word> {
    if off + Bytes(size) > |p.bytes| then None else
      match size
      case B => Some(p.ByteAt(off))
      case H => Some(p.ByteAt(off) * 0x100 + p.ByteAt(off + 1))
      case W =>
        Some(p.ByteAt(off) * 0x100_0000 + p.ByteAt(off + 1) * 0x1_0000 + p.ByteAt(off + 2) * 0x100 + p.ByteAt(off + 3))
  }

  /** The length in bytes of an IPv4 header, from its first byte. */
  function HeaderLength(b: Word): Word { b % 16 * 4 }

  // ----- Execution

  function Step(s: Stmt, p: Packet, st: State): Option<State> {
    match s
    case LdImm(k) => Some(st.(a := k))
    case LdLen => Some(st.(a := p.wireLength))
    case LdAbs(size, k) =>
      (match Load(p, k, size) case None => None case Some(v) => Some(st.(a := v)))
    case LdInd(size, k) =>
      (match Load(p, st.x + k, size) case None => None case Some(v) => Some(st.(a := v)))
    case LdMem(r) => Some(st.(a := st.m[r]))
    case LdxMem(r) => Some(st.(x := st.m[r]))
    case LdxMsh(k) =>
      (match Load(p, k, B) case None => None case Some(v) => Some(st.(x := HeaderLength(v))))
    case St(r) => Some(st.(m := st.m[r := st.a]))
    case AluX(op) =>
      (match Alu(op, st.a, st.x) case None => None case Some(v) => Some(st.(a := v)))
    case AluK(op, k) =>
      (match Alu(op, st.a, k) case None => None case Some(v) => Some(st.(a := v)))
    case Neg => Some(st.(a := Negate(st.a)))
    case Tax => Some(st.(x := st.a))
  }

  /** Runs straight-line code; None is a Fault. */
  function Exec(ss: seq<Stmt>, p: Packet, st: State): Option<State> {
    if ss == [] then Some(st) else
      match Step(ss[0], p, st)
      case None => None
      case Some(st') => Exec(ss[1..], p, st')
  }

  function Taken(j: Jump, st: State): bool {
    match j
    case JmpK(op, k) => Compare(op, st.a, k)
    case JmpX(op) => Compare(op, st.a, st.x)
  }

  lemma {:induction false} ExecAppend(s: seq<Stmt>, t: seq<Stmt>, p: Packet, st: State)
    ensures Exec(s + t, p, st) ==
            match Exec(s, p, st) case None => None case Some(st') => Exec(t, p, st')
  {
    if s == [] {
      assert s + t == t;
    } else {
      assert (s + t)[1..] == s[1..] + t;
      match Step(s[0], p, st)
      case None =>
      case Some(st') => ExecAppend(s[1..], t, p, st');
    }
  }

  lemma ExecCons(s: Stmt, rest: seq<Stmt>, p: Packet, st: State)
    ensures Exec([s] + rest, p, st) == match Step(s, p, st) case None => None case Some(st') => Exec(rest, p, st')
    ensures Exec([s], p, st) == Step(s, p, st)
  {
    assert ([s] + rest)[1..] == rest;
  }

  /** Masking with 2^k - 1 keeps the k low bits. */
  lemma {:induction false} MaskLow(a: nat, k: nat, width: nat)
    requires k <= width
    ensures Bitwise(AND, a, Pow2(k) - 1, width) == a % Pow2(k)
  {
    hide Bitwise;
    if k == 0 {
      AndZero(a, width);
    } else {
      var m := Pow2(k - 1);
      var rest := Bitwise(AND, a / 2, m - 1, width - 1);
      assert rest == a / 2 % m by { MaskLow(a / 2, k - 1, width - 1); }
      assert Bitwise(AND, a, 2 * m - 1, width) == a % 2 + 2 * rest by { AndOdd(a, m - 1, width); }
      assert a % (2 * m) == a % 2 + 2 * (a / 2 % m) by { ModSplit(a, m); }
    }
  }

  lemma AndOdd(a: nat, h: nat, width: nat)
    requires width > 0
    ensures Bitwise(AND, a, 2 * h + 1, width) == a % 2 + 2 * Bitwise(AND, a / 2, h, width - 1)
  {
    HalfOf(2 * h + 1, h, 1);
  }

  lemma HalfOf(a: nat, h: nat, bit: nat)
    requires a == 2 * h + bit && bit < 2
    ensures a % 2 == bit && a / 2 == h
  {}

  lemma {:induction false} AndZero(a: nat, width: nat)
    ensures Bitwise(AND, a, 0, width) == 0
  {
    if width > 0 { AndZero(a / 2, width - 1); }
  }

  /** Division by 2m is division by 2, then by m. */
  lemma ModSplit(a: nat, m: nat)
    requires m > 0
    ensures a % (2 * m) == a % 2 + 2 * (a / 2 % m) && a / (2 * m) == a / 2 / m
  {
    var q, r := a / 2 / m, a / 2 % m;
    assert a / 2 == q * m + r;
    assert a == 2 * (q * m) + (2 * r + a % 2);
    assert 2 * (q * m) == q * (2 * m);
    DivModUnique(a, 2 * m, q, 2 * r + a % 2);
  }

  lemma DivModUnique(a: int, m: int, q: int, r: int)
    requires m > 0 && a == q * m + r && 0 <= r < m
    ensures a / m == q && a % m == r
  {
    var d := a / m - q;
    assert a == (a / m) * m + a % m;
    assert d * m == (a / m) * m - q * m;
    if d >= 1 {
      MulAtLeast(d, m);
    } else if d <= -1 {
      MulAtLeast(-d, m);
    }
  }

  /** A test of bit k of a word is a test of the parity of w / 2^k. */
  lemma {:induction false} BitTest(a: nat, k: nat, width: nat)
    requires k < width
    ensures Bitwise(AND, a, Pow2(k), width) == (if a / Pow2(k) % 2 == 1 then Pow2(k) else 0)
  {
    if k == 0 {
      AndZero(a / 2, width - 1);
    } else {
      BitTest(a / 2, k - 1, width - 1);
      HalfOf(Pow2(k), Pow2(k - 1), 0);
      ModSplit(a, Pow2(k - 1));
    }
  }

  // ----- Words as bits

  /** Bit k of a number. */
  predicate Has(v: nat, k: nat) { v / Pow2(k) % 2 == 1 }

  lemma HasFirst(v: nat)
    ensures Has(v, 0) <==> v % 2 == 1
  {
    assert Pow2(0) == 1;
  }

  lemma HasNext(v: nat, k: nat)
    ensures Has(v, k + 1) <==> Has(v / 2, k)
  {
    ModSplit(v, Pow2(k));
  }

  lemma {:induction false} HasBelow(v: nat, width: nat, k: nat)
    requires v < Pow2(width) && width <= k
    ensures !Has(v, k)
  {
    if k == 0 {
      HasFirst(v);
    } else if width == 0 {
      HasNext(v, k - 1);
      HasBelow(0, 0, k - 1);
    } else {
      HasNext(v, k - 1);
      HasBelow(v / 2, width - 1, k - 1);
    }
  }

  lemma {:induction false} HasLow(v: nat, width: nat, k: nat)
    requires k < width
    ensures Has(v % Pow2(width), k) <==> Has(v, k)
  {
    var m := Pow2(width - 1);
    ModSplit(v, m);
    var low := v % (2 * m);
    HalfOf(low, v / 2 % m, v % 2);
    if k == 0 {
      HasFirst(v);
      HasFirst(low);
    } else {
      HasNext(v, k - 1);
      HasNext(low, k - 1);
      HasLow(v / 2, width - 1, k - 1);
    }
  }

  lemma {:induction false} HasShifted(v: nat, n: nat, k: nat)
    ensures Has(v * Pow2(n), k) <==> k >= n && Has(v, k - n)
  {
    if n == 0 {
      assert v * Pow2(0) == v;
    } else {
      var half := v * Pow2(n - 1);
      assert v * Pow2(n) == 2 * half by { assert Pow2(n) == 2 * Pow2(n - 1); }
      HalfOf(2 * half, half, 0);
      if k == 0 {
        HasFirst(2 * half);
      } else {
        HasNext(2 * half, k - 1);
        HasShifted(v, n - 1, k - 1);
      }
    }
  }

  lemma {:induction false} HasDropped(v: nat, n: nat, k: nat)
    ensures v / Pow2(n) >= 0 && (Has(v / Pow2(n), k) <==> Has(v, k + n))
  {
    if n == 0 {
      assert v / Pow2(0) == v;
    } else {
      ModSplit(v, Pow2(n - 1));
      HasDropped(v / 2, n - 1, k);
      HasNext(v, k + n - 1);
    }
  }

  predicate BitOf(op: AluOp, a: bool, b: bool) {
    match op case AND => a && b case OR => a || b case _ => a != b
  }

  lemma {:induction false} BitwiseHas(op: AluOp, a: nat, b: nat, width: nat, k: nat)
    requires k < width
    ensures Has(Bitwise(op, a, b, width), k) <==> BitOf(op, Has(a, k), Has(b, k))
  {
    hide Has;
    var rest, bit := Bitwise(op, a / 2, b / 2, width - 1), if BitOf(op, a % 2 == 1, b % 2 == 1) then 1 else 0;
    assert Bitwise(op, a, b, width) == bit + 2 * rest;
    HalfOf(bit + 2 * rest, rest, bit);
    if k == 0 {
      HasFirst(a);
      HasFirst(b);
      HasFirst(bit + 2 * rest);
    } else {
      HasNext(a, k - 1);
      HasNext(b, k - 1);
      HasNext(bit + 2 * rest, k - 1);
      BitwiseHas(op, a / 2, b / 2, width - 1, k - 1);
    }
  }

  /** r is the result on words a and b, which is not a division by 0. */
  ghost predicate IsResult(op: AluOp, a: Word, b: Word, r: Word) {
    match op
    case ADD => r == a + b || r + WORD == a + b
    case SUB => r == a - b || r == a - b + WORD
    case MUL => exists n: int :: r == a * b - n * WORD
    case DIV => b * r <= a < b * r + b
    case MOD => r < b && exists n: int :: a == n * b + r
    case LSH => forall k: nat :: k < 32 ==> (Has(r, k) <==> k >= b && Has(a, k - b))
    case RSH => forall k: nat :: k < 32 ==> (Has(r, k) <==> k + b < 32 && Has(a, k + b))
    case _ => forall k: nat :: k < 32 ==> (Has(r, k) <==> BitOf(op, Has(a, k), Has(b, k)))
  }

  /** What the operations compute: sums, differences and products modulo 2^32, quotients and remainders,
      and the others bit by bit; a shift drops what leaves the word.  Only division by 0 faults. */
  lemma AluMeaning(op: AluOp, a: Word, b: Word)
    ensures Alu(op, a, b).None? <==> (op.DIV? || op.MOD?) && b == 0
    ensures Alu(op, a, b).Some? ==> IsResult(op, a, b, Alu(op, a, b).value)
  {
    hide IsResult, Has, Bitwise, Pow2;
    match op
    case DIV => if b > 0 { Divided(op, a, b); }
    case MOD => if b > 0 { Divided(op, a, b); }
    case LSH => LeftShift(a, b);
    case RSH => RightShift(a, b);
    case AND => ByBits(op, a, b);
    case OR => ByBits(op, a, b);
    case XOR => ByBits(op, a, b);
    case _ => Sums(op, a, b);
  }

  lemma Sums(op: AluOp, a: Word, b: Word)
    requires op.ADD? || op.SUB? || op.MUL?
    ensures Alu(op, a, b).Some? && IsResult(op, a, b, Alu(op, a, b).value)
  {
    hide Has, Bitwise, Pow2;
    if op.MUL? { assert Wrap(a * b) == a * b - (a * b / WORD) * WORD; }
  }

  lemma ByBits(op: AluOp, a: Word, b: Word)
    requires op.AND? || op.OR? || op.XOR?
    ensures Alu(op, a, b).Some? && IsResult(op, a, b, Alu(op, a, b).value)
  {
    hide Has;
    Pow2Word();
    var r := Bitwise(op, a, b, 32);
    assert Alu(op, a, b) == Some(r);
    hide Bitwise, Alu;
    forall k: nat | k < 32 ensures Has(r, k) <==> BitOf(op, Has(a, k), Has(b, k)) { BitwiseHas(op, a, b, 32, k); }
  }

  lemma Divided(op: AluOp, a: Word, b: Word)
    requires (op.DIV? || op.MOD?) && b > 0
    ensures Alu(op, a, b).Some? && IsResult(op, a, b, Alu(op, a, b).value)
  {
    hide Has, Bitwise, Pow2;
    assert a == (a / b) * b + a % b && a % b < b;
    if op.MOD? { QuotientBound(a, b); }
  }

  lemma LeftShift(a: Word, b: Word)
    ensures IsResult(LSH, a, b, Alu(LSH, a, b).value)
  {
    Pow2Word();
    hide Has, Pow2;
    var r := Alu(LSH, a, b).value;
    forall k: nat | k < 32 ensures Has(r, k) <==> k >= b && Has(a, k - b) {
      if b < 32 {
        HasShifted(a, b, k);
        HasLow(a * Pow2(b), 32, k);
      } else {
        HasBelow(0, 0, k);
      }
    }
  }

  lemma RightShift(a: Word, b: Word)
    ensures IsResult(RSH, a, b, Alu(RSH, a, b).value)
  {
    hide Has;
    Pow2Word();
    var r := Alu(RSH, a, b).value;
    forall k: nat | k < 32 ensures Has(r, k) <==> k + b < 32 && Has(a, k + b) {
      if b < 32 {
        HasDropped(a, b, k);
        if k + b >= 32 { HasBelow(a, 32, k + b); }
      } else {
        HasBelow(0, 0, k);
      }
    }
  }
}
