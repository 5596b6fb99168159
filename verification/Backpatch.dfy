/** The blocks as the code generator keeps them, and the operations that splice them.  A pointer
    to a composite is a pointer to its own block; that block's `head` is the composite's first. */
module Backpatch {
  import opened Common
  import opened Machine
  import opened BlockGraph
  import opened Layout

  class Block {
    var stmts: seq<Stmt>
    var code: Code
    var jt: Block?
    var jf: Block?
    var sense: bool
    var head: Block
    ghost var filter: Filter      // what the composite that ends in this block stands for
    ghost var body: seq<Block>    // the blocks of that composite, in the order of its graph
    ghost var repr: set<Block>    // the same as a set

    constructor (stmts: seq<Stmt>, code: Code)
      ensures this.stmts == stmts && this.code == code
      ensures jt == null && jf == null && !sense && head == this && body == [this] && repr == {this}
      ensures code.Jmp? ==> filter == Atom(Test(stmts, code.jump)) && Valid()
    {
      this.stmts, this.code := stmts, code;
      jt, jf, sense, head := null, null, false, this;
      body, repr := [this], {this};
      filter := Atom(Test(stmts, match code case Jmp(j) => j case Ret(_) => JmpX(JEQ)));
    }

    function Link(): Block?
      reads this
    {
      if sense then jf else jt
    }

    ghost function Fields(): Cell<Block>
      reads this`stmts, this`code, this`jt, this`jf, this`sense
    {
      Cell(stmts, code, Ref(jt), Ref(jf), sense)
    }

    ghost function View(): (c: Composite<Block>)
      reads this, body
    {
      Composite(filter, body, Cells(body))
    }

    /** This block ends a composite that stands for `filter`; a walk that starts here goes along
        the list of `value` exits. */
    ghost predicate Turned(value: bool)
      reads this, body
    {
      View().Laid() && View().Names(value) && View().Own() == this && head == body[0]
    }

    /** The composite is whole.  Callers that do not look at the layout hide this. */
    ghost predicate Valid()
      reads this, repr
    {
      this in repr && Within(body, repr) && Turned(true)
    }
  }

  ghost predicate Within(body: seq<Block>, repr: set<Block>) {
    forall i: nat {:trigger body[i]} :: i < |body| ==> body[i] in repr
  }

  ghost function Ref(b: Block?): Option<Block> { if b == null then None else Some(b) }

  ghost function Cells(body: seq<Block>): (cs: seq<Cell<Block>>)
    reads body`stmts, body`code, body`jt, body`jf, body`sense
    ensures |cs| == |body| && forall i: nat {:trigger cs[i]} :: i < |body| ==> cs[i] == body[i].Fields()
  {
    if body == [] then [] else Cells(body[..|body| - 1]) + [body[|body| - 1].Fields()]
  }

  lemma SameCells(body: seq<Block>, cells: seq<Cell<Block>>)
    requires |cells| == |body|
    requires forall i: nat {:trigger cells[i]} :: i < |body| ==> body[i].Fields() == cells[i]
    ensures Cells(body) == cells
  {}

  // ----- Walking a list

  /** Block k of the chain links to the next one, and the last one to nothing. */
  ghost predicate LeadsOn(chain: seq<Block>, k: nat)
    requires k < |chain|
    reads chain
  {
    chain[k].Link() == if k + 1 < |chain| then chain[k + 1] else null
  }

  lemma ChainLinks(c: Composite<Block>, value: bool)
    requires c.cells == Cells(c.body) && c.Threaded(value)
    ensures var chain := ChainOf(c.body, c.filter, value);
            Distinct(chain) && chain != [] && chain[0] == c.Own() && forall k: nat :: k < |chain| ==> LeadsOn(chain, k)
  {
    var chain := ChainOf(c.body, c.filter, value);
    ChainDistinct(c.body, c.filter, value);
    forall k: nat | k < |chain| ensures LeadsOn(chain, k) {
      ThreadedLink(c, value, k);
    }
  }

  /** Fills the `value` exits of a composite c, and no other field, with `target`. */
  method Backpatch(list: Block, target: Block, ghost c: Composite<Block>, ghost value: bool)
    requires c.cells == Cells(c.body) && c.Threaded(value) && list == c.Own()
    modifies c.body`jt, c.body`jf
    ensures c.Resolved(Cells(c.body), value, target)
  {
    ghost var chain := ChainOf(c.body, c.filter, value);
    ChainLinks(c, value);
    ChainDistinct(c.body, c.filter, value);
    FillLinks(list, target, chain);
    ghost var after := Cells(c.body);
    forall i: nat | i < |after| ensures Walked(c, after, value, i) {}
    WalkResolves(c, after, value, target);
  }

  method FillLinks(list: Block?, target: Block, ghost chain: seq<Block>)
    requires Distinct(chain) && list == (if chain == [] then null else chain[0])
    requires forall k: nat :: k < |chain| ==> LeadsOn(chain, k)
    modifies chain`jt, chain`jf
    ensures forall b :: b in chain ==> b.Link() == target
    ensures forall b :: b in chain ==> if b.sense then b.jt == old(b.jt) else b.jf == old(b.jf)
  {
    var b := list;
    ghost var k := 0;
    while b != null
      invariant k <= |chain|
      invariant b == if k < |chain| then chain[k] else null
      invariant forall j :: 0 <= j < k ==> chain[j].Link() == target
      invariant forall j :: k <= j < |chain| ==> chain[j].Link() == old(chain[j].Link())
      invariant forall c :: c in chain ==> if c.sense then c.jt == old(c.jt) else c.jf == old(c.jf)
      decreases |chain| - k
    {
      assert old(LeadsOn(chain, k));
      var next;
      if !b.sense {
        next := b.jt;
        b.jt := target;
      } else {
        next := b.jf;
        b.jf := target;
      }
      b := next;
      k := k + 1;
    }
  }

  /** The block at the end of a list. */
  method LastOfList(b0: Block, ghost chain: seq<Block>) returns (b: Block)
    requires chain != [] && b0 == chain[0] && forall k: nat :: k < |chain| ==> LeadsOn(chain, k)
    ensures b == chain[|chain| - 1]
  {
    b := b0;
    ghost var k := 0;
    while b.Link() != null
      invariant k < |chain| && b == chain[k]
      decreases |chain| - k
    {
      assert LeadsOn(chain, k);
      b := b.Link();
      k := k + 1;
    }
    assert LeadsOn(chain, k);
  }

  /** Appends b1 to the list of `value` exits of a composite c; changes no other field. */
  method Merge(b0: Block, b1: Block, ghost c: Composite<Block>, ghost value: bool)
    requires c.cells == Cells(c.body) && c.Threaded(value) && b0 == c.Own()
    modifies c.body`jt, c.body`jf
    ensures c.Extended(Cells(c.body), value, b1)
  {
    ghost var chain := ChainOf(c.body, c.filter, value);
    ChainLinks(c, value);
    ChainDistinct(c.body, c.filter, value);
    var b := LastOfList(b0, chain);
    assert LeadsOn(chain, |chain| - 1) && b in c.body;
    if b.sense { b.jf := b1; } else { b.jt := b1; }
    ghost var after := Cells(c.body);
    forall i: nat | i < |after| ensures Walked(c, after, value, i) {}
    WalkExtends(c, after, value, b1);
  }

  // ----- Negation, conjunction, disjunction

  /** Turns the walk from a composite to its other list. */
  method Flip(b: Block, ghost value: bool)
    requires b.Turned(value)
    modifies b`sense
    ensures b.Turned(!value) && b.sense == !old(b.sense)
    ensures b.View() == old(b.View()).(cells := old(b.View()).Flipped())
  {
    ghost var c := b.View();
    FlipLaid(c, value);
    b.sense := !b.sense;
    SameCells(b.body, c.Flipped());
  }

  method GenNot(b: Block)
    requires b.Valid()
    modifies b`sense, b`filter
    ensures b.Valid() && b.filter == Not(old(b.filter)) && b.repr == old(b.repr)
  {
    Negate(b);
  }

  method Negate(b: Block)
    requires b.Turned(true)
    modifies b`sense, b`filter
    ensures b.Turned(true) && b.filter == Not(old(b.filter))
  {
    hide Composite.ChainOn, Composite.Represents, Distinct;
    Flip(b, true);
    ghost var c := b.View();
    NotLaid(c);
    b.filter := Not(b.filter);
    SameCells(b.body, c.cells);
  }

  /** No block is in both composites. */
  ghost predicate Apart(body0: seq<Block>, body1: seq<Block>) {
    forall i: nat {:trigger body1[i]} :: i < |body1| ==> body1[i] !in body0
  }

  /** Leads the exits of b0 that go on to `target`, and turns b0 to its other exits. */
  method LeadOn(b0: Block, target: Block, ghost goOn: bool) returns (ghost a': seq<Cell<Block>>)
    requires b0.Turned(goOn)
    modifies b0.body`jt, b0.body`jf, b0`sense
    ensures old(b0.View()).Resolved(a', goOn, target)
    ensures b0.View() == old(b0.View()).(cells := old(b0.View()).(cells := a').Flipped())
  {
    hide Composite.ChainOn, Composite.Represents, Composite.ResolvedAt;
    ghost var a := b0.View();
    LaidThreaded(a, goOn);
    Backpatch(b0, target, a, goOn);
    a' := Cells(a.body);
    b0.sense := !b0.sense;
    SameCells(b0.body, a.(cells := a').Flipped());
  }

  /** Puts a composite a, whose exits that go on lead here, in front of b1: the list of b1's other
      exits goes on with a's. */
  method Follow(b1: Block, b0: Block, ghost goOn: bool, ghost a: Composite<Block>, ghost a': seq<Cell<Block>>)
    requires b1.Turned(!goOn) && Apart(a.body, b1.body)
    requires a.Laid() && a.Names(goOn) && a.Own() == b0 && b0.head == a.body[0]
    requires a.Resolved(a', goOn, b1.body[0]) && Cells(a.body) == a.(cells := a').Flipped()
    modifies b1.body`jt, b1.body`jf, b1`head, b1`filter, b1`body
    ensures b1.Turned(!goOn) && b1.filter == Join(goOn, a.filter, old(b1.filter))
    ensures b1.body == a.body + old(b1.body)
  {
    hide Composite.ChainOn, Composite.Represents, Composite.ResolvedAt, Composite.ExtendedAt, Distinct;
    ghost var b := b1.View();
    LaidThreaded(b, !goOn);
    Merge(b1, b0, b, !goOn);
    ghost var b' := Cells(b.body);
    assert Cells(a.body) == a.(cells := a').Flipped() by { SameCells(a.body, a.(cells := a').Flipped()); }
    ghost var j := JoinOf(goOn, a, a', b, b');
    assert Cells(j.body) == j.cells by { CellsAppend(a.body, b.body); }
    ApartDistinct(a.body, b.body);
    JoinLaid(goOn, a, a', b, b');
    EndsIn(b1, b0.head, j, !goOn);
  }

  /** From now on b is the own block of the composite j. */
  method EndsIn(b: Block, head: Block, ghost j: Composite<Block>, ghost value: bool)
    requires j.Laid() && j.Names(value) && j.Own() == b && head == j.body[0] && Cells(j.body) == j.cells
    modifies b`head, b`filter, b`body
    ensures b.Turned(value) && b.View() == j
  {
    hide Composite.ChainOn, Composite.Represents, Composite.ResolvedAt, Composite.ExtendedAt, Distinct;
    b.head := head;
    b.filter, b.body := j.filter, j.body;
  }

  lemma ApartDistinct(body0: seq<Block>, body1: seq<Block>)
    requires Distinct(body0) && Distinct(body1) && Apart(body0, body1)
    ensures Distinct(body0 + body1)
  {
    forall j, k | 0 <= j < k < |body0 + body1| ensures (body0 + body1)[j] != (body0 + body1)[k] {
      if j < |body0| <= k { assert body1[k - |body0|] !in body0; }
    }
  }

  lemma CellsAppend(body0: seq<Block>, body1: seq<Block>)
    ensures Cells(body0 + body1) == Cells(body0) + Cells(body1)
  {}

  lemma ReprApart(body0: seq<Block>, repr0: set<Block>, body1: seq<Block>, repr1: set<Block>)
    requires Within(body0, repr0) && Within(body1, repr1) && repr0 !! repr1
    ensures Apart(body0, body1)
    ensures Within(body0 + body1, repr0 + repr1)
  {}

  method GenAnd(b0: Block, b1: Block)
    requires b0.Valid() && b1.Valid() && b0.repr !! b1.repr
    modifies b0.repr, b1.repr
    ensures b1.Valid() && b1.filter == And(old(b0.filter), old(b1.filter)) && b1.repr == old(b0.repr + b1.repr)
  {
    ReprApart(b0.body, b0.repr, b1.body, b1.repr);
    Conjoin(b0, b1);
    b1.repr := b0.repr + b1.repr;
  }

  method Conjoin(b0: Block, b1: Block)
    requires b0.Turned(true) && b1.Turned(true) && Apart(b0.body, b1.body)
    modifies b0.body`jt, b0.body`jf, b0`sense, b1.body`jt, b1.body`jf, b1`sense, b1`head, b1`filter, b1`body
    ensures b1.Turned(true) && b1.filter == And(old(b0.filter), old(b1.filter))
    ensures b1.body == old(b0.body) + old(b1.body)
  {
    hide Composite.ChainOn, Composite.Represents, Composite.ResolvedAt, Composite.ExtendedAt, Distinct;
    ghost var a, b := b0.View(), b1.View();
    assert b1.body[|b1.body| - 1] == b1;
    ghost var a' := LeadOn(b0, b1.head, true);
    assert Cells(b1.body) == b.cells by { SameCells(b1.body, b.cells); }
    Flip(b1, true);
    assert Cells(a.body) == a.(cells := a').Flipped();
    assert a.Own() == b0;
    assert Apart(a.body, b1.body);
    assert b1.head == b1.body[0];
    Follow(b1, b0, true, a, a');
    Flip(b1, false);
  }

  method GenOr(b0: Block, b1: Block)
    requires b0.Valid() && b1.Valid() && b0.repr !! b1.repr
    modifies b0.repr, b1.repr
    ensures b1.Valid() && b1.filter == Or(old(b0.filter), old(b1.filter)) && b1.repr == old(b0.repr + b1.repr)
  {
    ReprApart(b0.body, b0.repr, b1.body, b1.repr);
    Disjoin(b0, b1);
    b1.repr := b0.repr + b1.repr;
  }

  method Disjoin(b0: Block, b1: Block)
    requires b0.Turned(true) && b1.Turned(true) && Apart(b0.body, b1.body)
    modifies b0.body`jt, b0.body`jf, b0`sense, b1.body`jt, b1.body`jf, b1`sense, b1`head, b1`filter, b1`body
    ensures b1.Turned(true) && b1.filter == Or(old(b0.filter), old(b1.filter))
    ensures b1.body == old(b0.body) + old(b1.body)
  {
    hide Composite.ChainOn, Composite.Represents, Composite.ResolvedAt, Composite.ExtendedAt, Distinct;
    ghost var b := b1.View();
    assert b0.body[|b0.body| - 1] == b0;
    assert b1.body[|b1.body| - 1] == b1;
    Flip(b0, true);
    ghost var a := b0.View();
    ghost var a' := LeadOn(b0, b1.head, false);
    assert Cells(b1.body) == b.cells by { SameCells(b1.body, b.cells); }
    Follow(b1, b0, false, a, a');
  }

  // ----- The finished program

  datatype Outcome = Returns(k: Word) | Lost

  /** Runs the blocks from b, at most `fuel` of them.  A Fault returns 0; a null branch, a branch
      out of `nodes`, or running out of fuel is Lost. */
  ghost function RunBlocks(b: Block?, nodes: seq<Block>, p: Packet, st: State, fuel: nat): Outcome
    reads nodes
    decreases fuel
  {
    if fuel == 0 || b == null || b !in nodes then Lost else
      match Exec(b.stmts, p, st)
      case None => Returns(0)
      case Some(s) =>
        match b.code
        case Ret(k) => Returns(k)
        case Jmp(j) => RunBlocks(if Taken(j, s) then b.jt else b.jf, nodes, p, s, fuel - 1)
  }

  ghost predicate IsReturn(b: Block, k: Word)
    reads b
  {
    b.stmts == [] && b.code == Ret(k)
  }

  function Answer(v: Verdict, snaplen: Word): Word { if v.Done? && v.value then snaplen else 0 }

  lemma {:induction false} RunBlocksIsRun(c: Composite<Block>, accept: Block, reject: Block, nodes: seq<Block>,
                                          snaplen: Word, i: nat, p: Packet, st: State, fuel: nat)
    requires Complete(c, Cells(c.body), accept, reject)
    requires IsReturn(accept, snaplen) && IsReturn(reject, 0)
    requires (forall b :: b in c.body ==> b in nodes) && accept in nodes && reject in nodes
    requires i < |c.body| && fuel > |c.body| - i
    ensures RunBlocks(c.body[i], nodes, p, st, fuel) == Returns(Answer(Run(c.filter, i, p, st), snaplen))
    decreases fuel
  {
    var n, b := NodeAt(c.filter, i), c.body[i];
    GraphShape(c.filter, i);
    assert CompleteAt(c, Cells(c.body), accept, reject, i);
    assert b.Fields() == Cells(c.body)[i];
    match Exec(b.stmts, p, st)
    case None =>
    case Some(s) =>
      match if Taken(n.test.jump, s) then n.jt else n.jf
      case Exit(_) =>
      case At(j) => RunBlocksIsRun(c, accept, reject, nodes, snaplen, j, p, s, fuel - 1);
  }

  /** Whatever the packet and the state of the machine, the run from root ends within the number of
      blocks and returns the answer of the filter. */
  ghost predicate Decides(root: Block, nodes: seq<Block>, f: Filter, snaplen: Word)
    reads nodes
  {
    forall p, st :: RunBlocks(root, nodes, p, st, Size(f) + 1) == Returns(Answer(Eval(f, p, st), snaplen))
  }

  lemma CompleteRuns(c: Composite<Block>, accept: Block, reject: Block, snaplen: Word)
    requires Complete(c, Cells(c.body), accept, reject)
    requires IsReturn(accept, snaplen) && IsReturn(reject, 0)
    ensures Decides(c.body[0], c.body + [accept, reject], c.filter, snaplen)
  {
    forall p, st
      ensures RunBlocks(c.body[0], c.body + [accept, reject], p, st, Size(c.filter) + 1) ==
              Returns(Answer(Eval(c.filter, p, st), snaplen))
    {
      RunBlocksIsRun(c, accept, reject, c.body + [accept, reject], snaplen, 0, p, st, Size(c.filter) + 1);
      GraphCorrect(c.filter, p, st);
    }
  }

  /** Resolves the last branches of p.  A run from the returned root returns snaplen if the filter is
      true of the packet, and 0 if it is false or faults. */
  method FinishParse(p: Block, snaplen: Word) returns (root: Block, ghost nodes: seq<Block>)
    requires p.Valid()
    modifies p.repr
    ensures Decides(root, nodes, old(p.filter), snaplen) && |nodes| == Size(old(p.filter)) + 2
  {
    ghost var c := p.View();
    var accept := new Block([], Ret(snaplen));
    var reject := new Block([], Ret(0));
    assert Cells(c.body) == c.cells by { SameCells(c.body, c.cells); }
    FillBoth(p, accept, reject, c);
    root := p.head;
    nodes := c.body + [accept, reject];
    CompleteRuns(c, accept, reject, snaplen);
  }

  method FillBoth(p: Block, accept: Block, reject: Block, ghost c: Composite<Block>)
    requires c.Laid() && c.Names(true) && c.Own() == p && Cells(c.body) == c.cells
    modifies c.body`jt, c.body`jf, p`sense
    ensures Complete(c, Cells(c.body), accept, reject)
  {
    LaidThreaded(c, true);
    Backpatch(p, accept, c, true);
    ghost var mid := Cells(c.body);
    p.sense := !p.sense;
    ghost var d := c.(cells := c.(cells := mid).Flipped());
    assert Cells(c.body) == d.cells by { SameCells(c.body, d.cells); }
    OtherListThreaded(c, mid, accept);
    Backpatch(p, reject, d, false);
    BothListsFilled(c, mid, Cells(c.body), accept, reject);
  }
}
