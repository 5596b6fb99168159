/** How a graph is laid out on blocks in memory, over the fields of the blocks as plain values.
    The unresolved branches of a composite are two linked lists threaded through the branch
    fields themselves, both starting at the composite's own block, which is its last; in every
    other listed block `sense` says which field is the link. */
module Layout {
  import opened Common
  import opened Machine
  import opened BlockGraph

  datatype Code = Jmp(jump: Jump) | Ret(k: Word)

  /** The fields of a block; R is the type of references to blocks. */
  datatype Cell<R> = Cell(stmts: seq<Stmt>, code: Code, jt: Option<R>, jf: Option<R>, sense: bool)
  {
    /** The field that a list walk reads next. */
    function Link(): Option<R> { if sense then jf else jt }

    /** The other one. */
    function Other(): Option<R> { if sense then jt else jf }

    /** The field that holds the `value` exit of node n. */
    function Slot(n: Node, value: bool): Option<R> { if n.jt == Exit(value) then jt else jf }

    /** `sense` names the `value` exit and no other. */
    predicate Senses(n: Node, value: bool) {
      if sense then n.jf == Exit(value) && n.jt != Exit(value) else n.jt == Exit(value) && n.jf != Exit(value)
    }
  }

  /** A composite: what it stands for, its blocks in the order of its graph, and their fields. */
  datatype Composite<R> = Composite(filter: Filter, body: seq<R>, cells: seq<Cell<R>>)
  {
    predicate Sized() { |body| == |cells| == Size(filter) }

    function Own(): R
      requires Sized()
    {
      body[|body| - 1]
    }

    /** The content of block i and its resolved branches are those of its node; when just one
        branch is open, `sense` names it. */
    ghost predicate Represents(i: nat)
      requires Sized() && i < |body|
    {
      var c, n := cells[i], NodeAt(filter, i);
      && c.stmts == n.test.stmts && c.code == Jmp(n.test.jump)
      && (n.jt.At? ==> n.jt.index < |body| && c.jt == Some(body[n.jt.index]))
      && (n.jf.At? ==> n.jf.index < |body| && c.jf == Some(body[n.jf.index]))
      && (n.jt.Exit? && n.jf.At? ==> !c.sense)
      && (n.jt.At? && n.jf.Exit? ==> c.sense)
    }

    /** The `value` exits are linked in the order of their list, and the last link is null. */
    ghost predicate ChainOn(value: bool)
      requires Sized()
    {
      forall k: nat :: k < |Exits(filter, value)| ==> Linked(value, Exits(filter, value), k)
    }

    ghost predicate Linked(value: bool, list: seq<nat>, k: nat)
      requires Sized() && k < |list|
    {
      && list[k] < |body|
      && (k + 1 < |list| ==> list[k + 1] < |body|)
      && cells[list[k]].Slot(NodeAt(filter, list[k]), value) ==
         if k + 1 < |list| then Some(body[list[k + 1]]) else None
    }

    /** The graph of the filter is laid out on the blocks, and two lists thread exactly its exits. */
    ghost predicate Laid() {
      && Sized() && Distinct(body)
      && (forall i: nat :: i < |body| ==> Represents(i))
      && ChainOn(true) && ChainOn(false)
    }

    /** A walk that starts at the own block goes along the list of `value` exits. */
    predicate Names(value: bool)
      requires Sized()
    {
      cells[|cells| - 1].sense <==> NodeAt(filter, Size(filter) - 1).jf == Exit(value)
    }

    /** All that such a walk needs. */
    ghost predicate Threaded(value: bool) {
      && Sized() && Distinct(body) && ChainOn(value)
      && forall i: nat :: i < |body| ==> Sensed(value, i)
    }

    ghost predicate Sensed(value: bool, i: nat)
      requires Sized() && i < |body|
    {
      HasExit(filter, i, value) ==> cells[i].Senses(NodeAt(filter, i), value)
    }

    /** In `after`, the `value` exits are filled with `target`, and nothing else changed. */
    ghost predicate Resolved(after: seq<Cell<R>>, value: bool, target: R)
      requires Sized()
    {
      |after| == |cells| && forall i: nat :: i < |after| ==> ResolvedAt(after, value, target, i)
    }

    ghost predicate ResolvedAt(after: seq<Cell<R>>, value: bool, target: R, i: nat)
      requires Sized() && |after| == |cells| && i < |after|
    {
      var n := NodeAt(filter, i);
      after[i] == cells[i].(jt := if n.jt == Exit(value) then Some(target) else cells[i].jt,
                            jf := if n.jf == Exit(value) then Some(target) else cells[i].jf)
    }

    /** In `after`, the last link of the list of `value` exits is `target`, and nothing else changed. */
    ghost predicate Extended(after: seq<Cell<R>>, value: bool, target: R)
      requires Sized()
    {
      |after| == |cells| && forall i: nat :: i < |after| ==> ExtendedAt(after, value, target, i)
    }

    ghost predicate ExtendedAt(after: seq<Cell<R>>, value: bool, target: R, i: nat)
      requires Sized() && |after| == |cells| && i < |after|
    {
      var n, last := NodeAt(filter, i), Last(Exits(filter, value)) == i;
      after[i] == cells[i].(jt := if last && n.jt == Exit(value) then Some(target) else cells[i].jt,
                            jf := if last && n.jf == Exit(value) then Some(target) else cells[i].jf)
    }

    /** The fields after the own block's `sense` was flipped. */
    function Flipped(): seq<Cell<R>>
      requires Sized()
    {
      var own := cells[|cells| - 1];
      cells[|cells| - 1 := own.(sense := !own.sense)]
    }
  }

  function Last(list: seq<nat>): nat { if list == [] then 0 else list[|list| - 1] }

  // ----- Lists of blocks

  /** The blocks of the list of `value` exits. */
  function ChainOf<R>(body: seq<R>, f: Filter, value: bool): (chain: seq<R>)
    requires |body| == Size(f)
  {
    ExitsSound(f, value);
    Pick(body, Exits(f, value))
  }

  function Pick<R>(body: seq<R>, list: seq<nat>): (c: seq<R>)
    requires forall k :: 0 <= k < |list| ==> list[k] < |body|
    ensures |c| == |list| && forall k {:trigger c[k]} {:trigger list[k]} :: 0 <= k < |c| ==> c[k] == body[list[k]]
  {
    seq(|list|, k requires 0 <= k < |list| => body[list[k]])
  }

  lemma ChainDistinct<R>(body: seq<R>, f: Filter, value: bool)
    requires |body| == Size(f) && Distinct(body)
    ensures var chain := ChainOf(body, f, value);
            Distinct(chain) && chain != [] && chain[0] == body[|body| - 1] &&
            forall k: nat {:trigger chain[k]} :: k < |chain| ==> chain[k] in body
  {
    ExitsSound(f, value);
    var list := Exits(f, value);
    var chain := Pick(body, list);
    forall j, k | 0 <= j < k < |chain| ensures chain[j] != chain[k] {
      assert list[j] != list[k];
    }
  }

  lemma OnChain<R>(body: seq<R>, f: Filter, value: bool, i: nat)
    requires |body| == Size(f) && Distinct(body) && i < |body|
    ensures body[i] in ChainOf(body, f, value) <==> HasExit(f, i, value)
  {
    var list := Exits(f, value);
    assert ListsExits(f, value, list) by { ExitsSound(f, value); }
    var chain := Pick(body, list);
    if HasExit(f, i, value) {
      ExitsComplete(f, value, i);
      var k :| 0 <= k < |list| && list[k] == i;
      assert chain[k] == body[i];
    }
    if body[i] in chain {
      var k :| 0 <= k < |chain| && chain[k] == body[i];
      assert list[k] == i;
    }
  }

  // ----- Walks

  lemma LaidThreaded<R>(c: Composite<R>, value: bool)
    requires c.Laid() && c.Names(value)
    ensures c.Threaded(value)
  {
    forall i: nat | i < |c.body| ensures c.Sensed(value, i) {
      GraphShape(c.filter, i);
      assert c.Represents(i);
    }
  }

  /** What a walk finds at each block of its list. */
  lemma ThreadedLink<R>(c: Composite<R>, value: bool, k: nat)
    requires c.Threaded(value) && k < |ChainOf(c.body, c.filter, value)|
    ensures var list, chain := Exits(c.filter, value), ChainOf(c.body, c.filter, value);
            && |list| == |chain| && list[k] < |c.body| && chain[k] == c.body[list[k]]
            && c.cells[list[k]].Link() == if k + 1 < |chain| then Some(chain[k + 1]) else None
  {
    ExitsSound(c.filter, value);
    var list := Exits(c.filter, value);
    assert HasExit(c.filter, list[k], value);
    assert c.Linked(value, list, k) && c.Sensed(value, list[k]);
  }

  /** A walk that fills every link resolves exactly the `value` exits. */
  lemma WalkResolves<R>(c: Composite<R>, after: seq<Cell<R>>, value: bool, target: R)
    requires c.Threaded(value) && |after| == |c.cells|
    requires forall i: nat :: i < |after| ==> Walked(c, after, value, i)
    requires forall i: nat :: i < |after| && c.body[i] in ChainOf(c.body, c.filter, value) ==>
               after[i].Link() == Some(target)
    ensures c.Resolved(after, value, target)
  {
    forall i: nat | i < |after| ensures c.ResolvedAt(after, value, target, i) {
      OnChain(c.body, c.filter, value, i);
      assert Walked(c, after, value, i) && c.Sensed(value, i);
    }
  }

  /** A walk may change the link of a listed block; it leaves everything else alone. */
  ghost predicate Walked<R>(c: Composite<R>, after: seq<Cell<R>>, value: bool, i: nat)
    requires c.Sized() && |after| == |c.cells| && i < |after|
  {
    var b, b' := c.cells[i], after[i];
    && b'.stmts == b.stmts && b'.code == b.code && b'.sense == b.sense && b'.Other() == b.Other()
    && (c.body[i] !in ChainOf(c.body, c.filter, value) ==> b' == b)
  }

  /** A walk that sets the last link extends the list of `value` exits. */
  lemma WalkExtends<R>(c: Composite<R>, after: seq<Cell<R>>, value: bool, target: R)
    requires c.Threaded(value) && |after| == |c.cells|
    requires forall i: nat :: i < |after| ==> Walked(c, after, value, i)
    requires forall i: nat :: i < |after| && c.body[i] in ChainOf(c.body, c.filter, value) ==>
               after[i].Link() ==
               if c.body[i] == LastOf(ChainOf(c.body, c.filter, value), c.body[i]) then Some(target)
               else c.cells[i].Link()
    ensures c.Extended(after, value, target)
  {
    forall i: nat | i < |after| ensures c.ExtendedAt(after, value, target, i) {
      OnChain(c.body, c.filter, value, i);
      assert Walked(c, after, value, i) && c.Sensed(value, i);
      if HasExit(c.filter, i, value) {
        ExitsSound(c.filter, value);
        var list := Exits(c.filter, value);
        assert Last(list) == list[|list| - 1] < |c.body|;
      }
    }
  }

  function LastOf<R>(chain: seq<R>, default: R): R { if chain == [] then default else chain[|chain| - 1] }

  // ----- Negation

  /** Flipping `sense` in the own block keeps the layout, and turns the walk to the other list. */
  lemma FlipLaid<R>(c: Composite<R>, value: bool)
    requires c.Laid() && c.Names(value)
    ensures c.(cells := c.Flipped()).Laid() && c.(cells := c.Flipped()).Names(!value)
  {
    var d := c.(cells := c.Flipped());
    GraphShape(c.filter, Size(c.filter) - 1);
    forall i: nat | i < |d.body| ensures d.Represents(i) {
      assert c.Represents(i);
    }
    SameChain(c, d, true);
    SameChain(c, d, false);
  }

  lemma SameChain<R>(c: Composite<R>, d: Composite<R>, value: bool)
    requires c.Sized() && d.Sized() && c.body == d.body && c.filter == d.filter
    requires forall i: nat :: i < |c.cells| ==> c.cells[i].jt == d.cells[i].jt && c.cells[i].jf == d.cells[i].jf
    requires c.ChainOn(value)
    ensures d.ChainOn(value)
  {
    var list := Exits(c.filter, value);
    forall k: nat | k < |list| ensures d.Linked(value, list, k) {
      assert c.Linked(value, list, k);
    }
  }

  /** The graph of a negation is the same graph with its exits renamed, so the same layout shows it. */
  lemma NotLaid<R>(c: Composite<R>)
    requires c.Laid()
    ensures c.(filter := Not(c.filter)).Laid()
    ensures forall v :: c.(filter := Not(c.filter)).Names(v) <==> c.Names(!v)
  {
    var d := c.(filter := Not(c.filter));
    forall i: nat | i < |d.body| ensures d.Represents(i) {
      assert c.Represents(i);
    }
    NotChain(c, true);
    NotChain(c, false);
  }

  lemma NotChain<R>(c: Composite<R>, value: bool)
    requires c.Sized() && c.ChainOn(!value)
    ensures c.(filter := Not(c.filter)).ChainOn(value)
  {
    var d, list := c.(filter := Not(c.filter)), Exits(c.filter, !value);
    forall k: nat | k < |list| ensures d.Linked(value, list, k) {
      assert c.Linked(!value, list, k);
      GraphShape(c.filter, list[k]);
    }
  }

  // ----- Conjunction and disjunction

  /** What gen_and (goOn) and gen_or (!goOn) do: the exits of a that go on were led to b's first
      block, and the list of b's other exits was extended to a's own block. */
  ghost predicate Joined<R>(goOn: bool, a: Composite<R>, a': seq<Cell<R>>, b: Composite<R>, b': seq<Cell<R>>) {
    && a.Laid() && a.Names(goOn) && b.Laid() && b.Names(!goOn) && Distinct(a.body + b.body)
    && a.Resolved(a', goOn, b.body[0])
    && b.Extended(b', !goOn, a.Own())
  }

  /** After that, a's own block is made to name its other exits. */
  function JoinOf<R>(goOn: bool, a: Composite<R>, a': seq<Cell<R>>, b: Composite<R>, b': seq<Cell<R>>): Composite<R>
    requires a.Sized() && |a'| == |a.cells|
  {
    Composite(Join(goOn, a.filter, b.filter), a.body + b.body, a.(cells := a').Flipped() + b')
  }

  lemma JoinRepresentsLeft<R>(goOn: bool, a: Composite<R>, a': seq<Cell<R>>, b: Composite<R>, b': seq<Cell<R>>, i: nat)
    requires Joined(goOn, a, a', b, b') && i < |a'|
    ensures JoinOf(goOn, a, a', b, b').Represents(i)
  {
    GraphShape(a.filter, i);
    assert a.Represents(i) && a.ResolvedAt(a', goOn, b.body[0], i);
    assert (a.body + b.body)[|a.body|] == b.body[0];
  }

  lemma JoinRepresentsRight<R>(goOn: bool, a: Composite<R>, a': seq<Cell<R>>, b: Composite<R>, b': seq<Cell<R>>, i: nat)
    requires Joined(goOn, a, a', b, b') && i < |b'|
    ensures JoinOf(goOn, a, a', b, b').Represents(|a'| + i)
  {
    assert b.Represents(i) && b.ExtendedAt(b', !goOn, a.Own(), i);
  }

  /** The list of exits that go on is the right operand's. */
  lemma JoinChainOn<R>(goOn: bool, a: Composite<R>, a': seq<Cell<R>>, b: Composite<R>, b': seq<Cell<R>>, k: nat)
    requires Joined(goOn, a, a', b, b') && k < |Exits(b.filter, goOn)|
    ensures JoinOf(goOn, a, a', b, b').Linked(goOn, ShiftAll(Exits(b.filter, goOn), |a'|) + [], k)
  {
    var rs := Exits(b.filter, goOn);
    assert b.Linked(goOn, rs, k) && b.ExtendedAt(b', !goOn, a.Own(), rs[k]);
    assert HasExit(b.filter, rs[k], goOn) by { ExitsSound(b.filter, goOn); }
    GraphShape(b.filter, rs[k]);
    ChainShifted(JoinOf(goOn, a, a', b, b'), |a'|, rs, [], goOn, k);
  }

  lemma ChainShifted<R>(j: Composite<R>, d: nat, rs: seq<nat>, rest: seq<nat>, value: bool, k: nat)
    requires j.Sized() && j.filter.Join? && d == Size(j.filter.left) && k < |rs|
    requires rs[k] < Size(j.filter.right) && (k + 1 < |rs| ==> rs[k + 1] < Size(j.filter.right))
    requires rest == [] || rest[0] < |j.body|
    requires HasExit(j.filter.right, rs[k], value)
    requires j.cells[d + rs[k]].Slot(NodeAt(j.filter.right, rs[k]), value) ==
             if k + 1 < |rs| then Some(j.body[d + rs[k + 1]]) else if rest == [] then None else Some(j.body[rest[0]])
    ensures j.Linked(value, ShiftAll(rs, d) + rest, k)
  {
    var list := ShiftAll(rs, d) + rest;
    assert list[k] == d + rs[k];
    if k + 1 < |rs| { assert list[k + 1] == d + rs[k + 1]; }
  }

  /** The list of the other exits is the right operand's, then the left operand's. */
  lemma JoinChainOff<R>(goOn: bool, a: Composite<R>, a': seq<Cell<R>>, b: Composite<R>, b': seq<Cell<R>>, k: nat)
    requires Joined(goOn, a, a', b, b') && k < |Exits(b.filter, !goOn)|
    ensures JoinOf(goOn, a, a', b, b').Linked(!goOn, ShiftAll(Exits(b.filter, !goOn), |a'|) + Exits(a.filter, !goOn), k)
  {
    var rs, ls := Exits(b.filter, !goOn), Exits(a.filter, !goOn);
    assert |ls| >= 1 && ls[0] == |a.body| - 1 by { ExitsSound(a.filter, !goOn); }
    assert b.Linked(!goOn, rs, k) && b.ExtendedAt(b', !goOn, a.Own(), rs[k]);
    LastIs(b.filter, !goOn, k);
    GraphShape(b.filter, rs[k]);
    ChainShifted(JoinOf(goOn, a, a', b, b'), |a'|, rs, ls, !goOn, k);
  }

  lemma LastIs(f: Filter, value: bool, k: nat)
    requires k < |Exits(f, value)|
    ensures var list := Exits(f, value);
            list[k] < Size(f) && HasExit(f, list[k], value) && (list[k] == Last(list) <==> k == |list| - 1)
  {
    ExitsSound(f, value);
  }

  lemma JoinChainRest<R>(goOn: bool, a: Composite<R>, a': seq<Cell<R>>, b: Composite<R>, b': seq<Cell<R>>,
                         own: seq<nat>, k: nat)
    requires Joined(goOn, a, a', b, b') && k < |Exits(a.filter, !goOn)|
    ensures JoinOf(goOn, a, a', b, b').Linked(!goOn, own + Exits(a.filter, !goOn), |own| + k)
  {
    var ls := Exits(a.filter, !goOn);
    assert a.Linked(!goOn, ls, k) && a.ResolvedAt(a', goOn, b.body[0], ls[k]);
    assert HasExit(a.filter, ls[k], !goOn) by { ExitsSound(a.filter, !goOn); }
    GraphShape(a.filter, ls[k]);
    assert (own + ls)[|own| + k] == ls[k];
    if k + 1 < |ls| { assert (own + ls)[|own| + k + 1] == ls[k + 1]; }
  }

  lemma JoinChain<R>(goOn: bool, a: Composite<R>, a': seq<Cell<R>>, b: Composite<R>, b': seq<Cell<R>>, value: bool)
    requires Joined(goOn, a, a', b, b')
    ensures JoinOf(goOn, a, a', b, b').ChainOn(value)
  {
    var j := JoinOf(goOn, a, a', b, b');
    var list, own := Exits(j.filter, value), |Exits(b.filter, value)|;
    forall k: nat | k < |list| ensures j.Linked(value, list, k) {
      if value == goOn {
        JoinChainOn(goOn, a, a', b, b', k);
      } else if k < own {
        JoinChainOff(goOn, a, a', b, b', k);
      } else {
        JoinChainRest(goOn, a, a', b, b', ShiftAll(Exits(b.filter, value), |a'|), k - own);
      }
    }
  }

  /** Joining two composites lays out the joined graph. */
  lemma JoinLaid<R>(goOn: bool, a: Composite<R>, a': seq<Cell<R>>, b: Composite<R>, b': seq<Cell<R>>)
    requires Joined(goOn, a, a', b, b')
    ensures JoinOf(goOn, a, a', b, b').Laid() && JoinOf(goOn, a, a', b, b').Names(!goOn)
  {
    var j := JoinOf(goOn, a, a', b, b');
    forall i: nat | i < |j.body| ensures j.Represents(i) {
      if i < |a'| {
        JoinRepresentsLeft(goOn, a, a', b, b', i);
      } else {
        JoinRepresentsRight(goOn, a, a', b, b', i - |a'|);
      }
    }
    JoinChain(goOn, a, a', b, b', true);
    JoinChain(goOn, a, a', b, b', false);
    JoinNames(goOn, a, a', b, b');
  }

  lemma JoinNames<R>(goOn: bool, a: Composite<R>, a': seq<Cell<R>>, b: Composite<R>, b': seq<Cell<R>>)
    requires Joined(goOn, a, a', b, b')
    ensures JoinOf(goOn, a, a', b, b').Names(!goOn)
  {
    var last := Size(b.filter) - 1;
    GraphShape(b.filter, last);
    assert b.ExtendedAt(b', !goOn, a.Own(), last);
  }

  // ----- Completion

  /** The block a target leads to when the exits lead to `accept` and `reject`. */
  function Resolve<R>(body: seq<R>, t: Target, accept: R, reject: R): R
    requires t.At? ==> t.index < |body|
  {
    match t case At(k) => body[k] case Exit(v) => if v then accept else reject
  }

  /** The blocks of c with every branch resolved. */
  ghost predicate Complete<R>(c: Composite<R>, after: seq<Cell<R>>, accept: R, reject: R) {
    c.Sized() && |after| == |c.body| && forall i: nat :: i < |after| ==> CompleteAt(c, after, accept, reject, i)
  }

  ghost predicate CompleteAt<R>(c: Composite<R>, after: seq<Cell<R>>, accept: R, reject: R, i: nat)
    requires c.Sized() && |after| == |c.body| && i < |after|
  {
    GraphShape(c.filter, i);
    var b, n := after[i], NodeAt(c.filter, i);
    && b.stmts == n.test.stmts && b.code == Jmp(n.test.jump)
    && b.jt == Some(Resolve(c.body, n.jt, accept, reject))
    && b.jf == Some(Resolve(c.body, n.jf, accept, reject))
  }

  /** After the true exits are filled and the own block is flipped, a walk can go along the false exits. */
  lemma OtherListThreaded<R>(c: Composite<R>, mid: seq<Cell<R>>, accept: R)
    requires c.Laid() && c.Names(true) && c.Resolved(mid, true, accept)
    ensures c.(cells := c.(cells := mid).Flipped()).Threaded(false)
  {
    var d, list := c.(cells := c.(cells := mid).Flipped()), Exits(c.filter, false);
    forall i: nat | i < |d.body| ensures d.Sensed(false, i) {
      GraphShape(c.filter, i);
      assert c.Represents(i) && c.ResolvedAt(mid, true, accept, i);
    }
    forall k: nat | k < |list| ensures d.Linked(false, list, k) {
      LastIs(c.filter, false, k);
      GraphShape(c.filter, list[k]);
      assert c.Linked(false, list, k) && c.ResolvedAt(mid, true, accept, list[k]);
    }
  }

  lemma BothListsFilled<R>(c: Composite<R>, mid: seq<Cell<R>>, after: seq<Cell<R>>, accept: R, reject: R)
    requires c.Laid() && c.Names(true) && c.Resolved(mid, true, accept)
    requires c.(cells := c.(cells := mid).Flipped()).Resolved(after, false, reject)
    ensures Complete(c, after, accept, reject)
  {
    var d := c.(cells := c.(cells := mid).Flipped());
    forall i: nat | i < |after| ensures CompleteAt(c, after, accept, reject, i) {
      GraphShape(c.filter, i);
      assert c.Represents(i) && c.ResolvedAt(mid, true, accept, i) && d.ResolvedAt(after, false, reject, i);
    }
  }
}
