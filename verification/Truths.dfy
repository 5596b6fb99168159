/** What filters mean for a packet, whatever the machine was doing before, and the meaning of the
    compound tests that the code generator builds out of single fields. */
module Truths {
  import opened Common
  import opened Machine
  import opened BlockGraph

  datatype Truth = True | False | Faulty

  function Of(b: bool): Truth { if b then True else False }

  function TruthOf(v: Verdict): Truth {
    match v case Fault => Faulty case Done(b, _) => Of(b)
  }

  /** Short-circuit "and" (goOn) and "or" (!goOn). */
  function Combine(goOn: bool, a: Truth, b: Truth): Truth {
    if a == Of(goOn) then b else a
  }

  function Opposite(a: Truth): Truth {
    match a case True => False case False => True case Faulty => Faulty
  }

  function Zero(): State { State(0, 0, [0, 0, 0, 0, 0, 0, 0, 0, 0, 0, 0, 0, 0, 0, 0, 0]) }

  /** The truth of the filter does not depend on the state of the machine. */
  ghost predicate StateFree(f: Filter) {
    forall p, st :: TruthOf(Eval(f, p, st)) == Meaning(f, p)
  }

  function Meaning(f: Filter, p: Packet): Truth { TruthOf(Eval(f, p, Zero())) }

  lemma JoinMeaning(goOn: bool, l: Filter, r: Filter)
    requires StateFree(l) && StateFree(r)
    ensures StateFree(Join(goOn, l, r))
    ensures forall p :: Meaning(Join(goOn, l, r), p) == Combine(goOn, Meaning(l, p), Meaning(r, p))
  {
    forall p, st ensures TruthOf(Eval(Join(goOn, l, r), p, st)) == Combine(goOn, Meaning(l, p), Meaning(r, p)) {
      assert TruthOf(Eval(l, p, st)) == Meaning(l, p);
      match Eval(l, p, st)
      case Fault =>
      case Done(_, s) => assert TruthOf(Eval(r, p, s)) == Meaning(r, p);
    }
  }

  lemma NotMeaning(f: Filter)
    requires StateFree(f)
    ensures StateFree(Not(f))
    ensures forall p :: Meaning(Not(f), p) == Opposite(Meaning(f, p))
  {
    forall p, st ensures TruthOf(Eval(Not(f), p, st)) == Opposite(Meaning(f, p)) {
      assert TruthOf(Eval(f, p, st)) == Meaning(f, p);
    }
  }

  // ----- Tests of one field

  const ALL: Word := 0xffff_ffff

  /** Compares the field at offset k, under a mask. */
  function Field(size: Width, k: Word, mask: Word, jump: JumpOp, v: Word): Filter {
    Atom(Test([LdAbs(size, k)] + (if mask == ALL then [] else [AluK(AND, mask)]), JmpK(jump, v)))
  }

  function FieldTruth(size: Width, k: Word, mask: Word, jump: JumpOp, v: Word, p: Packet): Truth {
    match Load(p, k, size)
    case None => Faulty
    case Some(w) => Of(Compare(jump, if mask == ALL then w else BitAnd(w, mask), v))
  }

  lemma FieldMeaning(size: Width, k: Word, mask: Word, jump: JumpOp, v: Word)
    ensures StateFree(Field(size, k, mask, jump, v))
    ensures forall p :: Meaning(Field(size, k, mask, jump, v), p) == FieldTruth(size, k, mask, jump, v, p)
  {
    forall p, st ensures TruthOf(Eval(Field(size, k, mask, jump, v), p, st)) == FieldTruth(size, k, mask, jump, v, p) {
      FieldRun(size, k, mask, p, st);
    }
  }

  lemma FieldRun(size: Width, k: Word, mask: Word, p: Packet, st: State)
    ensures Exec([LdAbs(size, k)] + (if mask == ALL then [] else [AluK(AND, mask)]), p, st) ==
            match Load(p, k, size)
            case None => None
            case Some(w) => Some(st.(a := if mask == ALL then w else BitAnd(w, mask)))
  {
    if mask == ALL {
      assert [LdAbs(size, k)] + [] == [LdAbs(size, k)];
      ExecCons(LdAbs(size, k), [], p, st);
    } else {
      ExecCons(LdAbs(size, k), [AluK(AND, mask)], p, st);
      match Load(p, k, size)
      case None =>
      case Some(w) => ExecCons(AluK(AND, mask), [], p, st.(a := w));
    }
  }

  /** Is bit i of the byte at offset k set? */
  function BitSet(k: Word, bit: nat): Filter
    requires bit < 8
  {
    Field(B, k, ALL, JSET, ByteBit(bit))
  }

  function ByteBit(bit: nat): (r: Word)
    requires bit < 8
    ensures r == Pow2(bit) < 256
  {
    assert Pow2(1) == 2 && Pow2(3) == 8 && Pow2(5) == 32 && Pow2(7) == 128;
    Pow2(bit)
  }

  predicate Bit(b: Byte, i: nat) { b / Pow2(i) % 2 == 1 }

  lemma BitSetMeaning(k: Word, bit: nat)
    requires bit < 8
    ensures StateFree(BitSet(k, bit))
    ensures forall p :: Meaning(BitSet(k, bit), p) ==
              if k < |p.bytes| then Of(Bit(p.bytes[k], bit)) else Faulty
  {
    FieldMeaning(B, k, ALL, JSET, ByteBit(bit));
    forall p ensures FieldTruth(B, k, ALL, JSET, ByteBit(bit), p) ==
              if k < |p.bytes| then Of(Bit(p.bytes[k], bit)) else Faulty
    {
      if k < |p.bytes| { BitTest(p.bytes[k], bit, 32); }
    }
  }
}
