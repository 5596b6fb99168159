/** What the code generator builds, as mathematics: a filter is a tree of tests; its graph is a
    row of blocks in which every resolved branch goes forward.  A branch that is not resolved
    yet leaves the graph as one of its exits: Exit(true) or Exit(false). */
module BlockGraph {
  import opened Common
  import opened Machine

  /** The statements and the conditional jump of one block. */
  datatype Test = Test(stmts: seq<Stmt>, jump: Jump)

  /** Join(true, l, r) is "l and r", Join(false, l, r) is "l or r": in both, the value of l that
      equals the flag is the one that goes on to r. */
  datatype Filter =
    | Atom(test: Test)
    | Join(goOn: bool, left: Filter, right: Filter)
    | Not(inner: Filter)

  function And(l: Filter, r: Filter): Filter { Join(true, l, r) }

  function Or(l: Filter, r: Filter): Filter { Join(false, l, r) }

  datatype Verdict = Fault | Done(value: bool, st: State)

  /** Left-to-right short-circuit evaluation. */
  function Eval(f: Filter, p: Packet, st: State): Verdict {
    match f
    case Atom(t) =>
      (match Exec(t.stmts, p, st) case None => Fault case Some(s) => Done(Taken(t.jump, s), s))
    case Join(goOn, l, r) =>
      (match Eval(l, p, st)
       case Fault => Fault
       case Done(v, s) => if v == goOn then Eval(r, p, s) else Done(v, s))
    case Not(e) =>
      (match Eval(e, p, st) case Fault => Fault case Done(v, s) => Done(!v, s))
  }

  // ----- The graph of a filter

  datatype Target = Exit(value: bool) | At(index: nat)
  datatype Node = Node(test: Test, jt: Target, jf: Target)

  /** The number of blocks. */
  function Size(f: Filter): (n: nat)
    ensures n >= 1
  {
    match f
    case Atom(_) => 1
    case Join(_, l, r) => Size(l) + Size(r)
    case Not(e) => Size(e)
  }

  function Redirect(t: Target, value: bool, index: nat): Target {
    if t == Exit(value) then At(index) else t
  }

  function Shift(t: Target, d: nat): Target {
    match t case Exit(_) => t case At(n) => At(n + d)
  }

  function Flip(t: Target): Target {
    match t case Exit(v) => Exit(!v) case At(_) => t
  }

  /** Block i of the graph.  A join puts the two graphs in a row and leads the exits of the left
      one that go on to the first block of the right one. */
  function NodeAt(f: Filter, i: nat): Node
    requires i < Size(f)
  {
    match f
    case Atom(t) => Node(t, Exit(true), Exit(false))
    case Join(goOn, l, r) =>
      var k := Size(l);
      if i < k then
        var n := NodeAt(l, i); Node(n.test, Redirect(n.jt, goOn, k), Redirect(n.jf, goOn, k))
      else
        var n := NodeAt(r, i - k); Node(n.test, Shift(n.jt, k), Shift(n.jf, k))
    case Not(e) => var n := NodeAt(e, i); Node(n.test, Flip(n.jt), Flip(n.jf))
  }

  /** Every resolved branch goes forward; the last block has one exit of each kind, and every
      other block has at most one exit. */
  lemma {:induction false} GraphShape(f: Filter, i: nat)
    requires i < Size(f)
    ensures NodeAt(f, i).jt.At? ==> i < NodeAt(f, i).jt.index < Size(f)
    ensures NodeAt(f, i).jf.At? ==> i < NodeAt(f, i).jf.index < Size(f)
    ensures i == Size(f) - 1 <==> NodeAt(f, i).jt.Exit? && NodeAt(f, i).jf.Exit?
    ensures NodeAt(f, i).jt.Exit? && NodeAt(f, i).jf.Exit? ==> NodeAt(f, i).jt != NodeAt(f, i).jf
  {
    match f
    case Atom(_) =>
    case Join(_, l, r) => if i < Size(l) { GraphShape(l, i); } else { GraphShape(r, i - Size(l)); }
    case Not(e) => GraphShape(e, i);
  }

  // ----- Running the graph

  function Run(f: Filter, i: nat, p: Packet, st: State): Verdict
    requires i < Size(f)
    decreases Size(f) - i
  {
    var n := NodeAt(f, i);
    match Exec(n.test.stmts, p, st)
    case None => Fault
    case Some(s) =>
      GraphShape(f, i);
      match if Taken(n.test.jump, s) then n.jt else n.jf
      case Exit(v) => Done(v, s)
      case At(j) => Run(f, j, p, s)
  }

  /** Semantic preservation: the graph decides what the tree of tests means, from every packet
      and every machine state, and leaves the machine in the same state. */
  lemma {:induction false} GraphCorrect(f: Filter, p: Packet, st: State)
    ensures Run(f, 0, p, st) == Eval(f, p, st)
  {
    match f
    case Atom(_) =>
    case Join(goOn, l, r) =>
      GraphCorrect(l, p, st);
      LeftRun(f, 0, p, st);
      match Eval(l, p, st) {
        case Fault =>
        case Done(v, s) =>
          if v == goOn {
            RightRun(f, 0, p, s);
            GraphCorrect(r, p, s);
          }
      }
    case Not(e) =>
      NotRun(e, 0, p, st);
      GraphCorrect(e, p, st);
  }

  /** Inside its left part a join runs as the left graph does, and then goes on. */
  lemma {:induction false} LeftRun(f: Filter, i: nat, p: Packet, st: State)
    requires f.Join? && i < Size(f.left)
    ensures Run(f, i, p, st) ==
            match Run(f.left, i, p, st)
            case Fault => Fault
            case Done(v, s) => if v == f.goOn then Run(f, Size(f.left), p, s) else Done(v, s)
    decreases Size(f.left) - i
  {
    var n := NodeAt(f.left, i);
    GraphShape(f.left, i);
    match Exec(n.test.stmts, p, st)
    case None =>
    case Some(s) =>
      match if Taken(n.test.jump, s) then n.jt else n.jf
      case Exit(_) =>
      case At(j) => LeftRun(f, j, p, s);
  }

  lemma {:induction false} RightRun(f: Filter, i: nat, p: Packet, st: State)
    requires f.Join? && i < Size(f.right)
    ensures Run(f, Size(f.left) + i, p, st) == Run(f.right, i, p, st)
    decreases Size(f.right) - i
  {
    hide Exec, Taken;
    var n := NodeAt(f.right, i);
    GraphShape(f.right, i);
    match Exec(n.test.stmts, p, st)
    case None =>
    case Some(s) =>
      match if Taken(n.test.jump, s) then n.jt else n.jf
      case Exit(_) =>
      case At(j) => RightRun(f, j, p, s);
  }

  lemma {:induction false} NotRun(e: Filter, i: nat, p: Packet, st: State)
    requires i < Size(e)
    ensures Run(Not(e), i, p, st) ==
            match Run(e, i, p, st) case Fault => Fault case Done(v, s) => Done(!v, s)
    decreases Size(e) - i
  {
    var n := NodeAt(e, i);
    GraphShape(e, i);
    match Exec(n.test.stmts, p, st)
    case None =>
    case Some(s) =>
      match if Taken(n.test.jump, s) then n.jt else n.jf
      case Exit(_) =>
      case At(j) => NotRun(e, j, p, s);
  }

  // ----- The lists of unresolved branches

  function ShiftAll(s: seq<nat>, d: nat): (r: seq<nat>)
    ensures |r| == |s| && forall k :: 0 <= k < |s| ==> r[k] == s[k] + d
  {
    seq(|s|, k requires 0 <= k < |s| => s[k] + d)
  }

  /** The blocks with a `value` exit, in the order of the list that threads them. */
  function Exits(f: Filter, value: bool): seq<nat> {
    match f
    case Atom(_) => [0]
    case Join(goOn, l, r) =>
      ShiftAll(Exits(r, value), Size(l)) + (if value == goOn then [] else Exits(l, value))
    case Not(e) => Exits(e, !value)
  }

  predicate HasExit(f: Filter, i: nat, value: bool)
    requires i < Size(f)
  {
    NodeAt(f, i).jt == Exit(value) || NodeAt(f, i).jf == Exit(value)
  }

  predicate Distinct<T(==)>(s: seq<T>) {
    forall j, k :: 0 <= j < k < |s| ==> s[j] != s[k]
  }

  /** The list starts with the composite's own block, has no repetition, and holds only blocks
      with an exit of its kind. */
  predicate ListsExits(f: Filter, value: bool, s: seq<nat>) {
    && |s| >= 1 && s[0] == Size(f) - 1
    && Distinct(s)
    && (forall k {:trigger s[k]} :: 0 <= k < |s| ==> s[k] < Size(f) && HasExit(f, s[k], value))
  }

  lemma {:induction false} ExitsSound(f: Filter, value: bool)
    ensures ListsExits(f, value, Exits(f, value))
  {
    match f
    case Atom(_) =>
    case Join(goOn, l, r) =>
      ExitsSound(l, value);
      ExitsSound(r, value);
      JoinExits(f, value, Exits(l, value), Exits(r, value));
    case Not(e) =>
      ExitsSound(e, !value);
      var s := Exits(e, !value);
      forall k {:trigger s[k]} | 0 <= k < |s| ensures HasExit(f, s[k], value) {
        assert HasExit(e, s[k], !value);
      }
  }

  lemma JoinExits(f: Filter, value: bool, ls: seq<nat>, rs: seq<nat>)
    requires f.Join? && ListsExits(f.left, value, ls) && ListsExits(f.right, value, rs)
    ensures ListsExits(f, value, ShiftAll(rs, Size(f.left)) + (if value == f.goOn then [] else ls))
  {
    var n := Size(f.left);
    var own := ShiftAll(rs, n);
    var rest := if value == f.goOn then [] else ls;
    var all := own + rest;
    forall k {:trigger all[k]} | 0 <= k < |all| ensures all[k] < Size(f) && HasExit(f, all[k], value) {
      if k < |own| {
        assert all[k] == rs[k] + n;
      } else {
        assert all[k] == rest[k - |own|];
      }
      JoinHasExit(f, all[k], value);
    }
    JoinDistinct(own, rest, n);
  }

  lemma JoinDistinct(own: seq<nat>, rest: seq<nat>, n: nat)
    requires Distinct(own) && Distinct(rest)
    requires forall k :: 0 <= k < |own| ==> own[k] >= n
    requires forall k :: 0 <= k < |rest| ==> rest[k] < n
    ensures Distinct(own + rest)
  {}

  lemma JoinHasExit(f: Filter, i: nat, value: bool)
    requires f.Join? && i < Size(f)
    ensures HasExit(f, i, value) ==
            if i < Size(f.left) then value != f.goOn && HasExit(f.left, i, value)
            else HasExit(f.right, i - Size(f.left), value)
  {}

  /** The list misses no exit. */
  lemma {:induction false} ExitsComplete(f: Filter, value: bool, i: nat)
    requires i < Size(f) && HasExit(f, i, value)
    ensures i in Exits(f, value)
  {
    match f
    case Atom(_) =>
    case Join(goOn, l, r) =>
      JoinHasExit(f, i, value);
      if i < Size(l) {
        ExitsComplete(l, value, i);
      } else {
        ExitsComplete(r, value, i - Size(l));
        var k :| 0 <= k < |Exits(r, value)| && Exits(r, value)[k] == i - Size(l);
        assert ShiftAll(Exits(r, value), Size(l))[k] == i;
      }
    case Not(e) => ExitsComplete(e, !value, i);
  }

  /** The two lists share the composite's own block and no other. */
  lemma ListsShareOwn(f: Filter, i: nat)
    requires i < Size(f)
    ensures i in Exits(f, true) && i in Exits(f, false) <==> i == Size(f) - 1
  {
    ExitsSound(f, true);
    ExitsSound(f, false);
    GraphShape(f, i);
    if i in Exits(f, true) && i in Exits(f, false) {
      var j :| 0 <= j < |Exits(f, true)| && Exits(f, true)[j] == i;
      var k :| 0 <= k < |Exits(f, false)| && Exits(f, false)[k] == i;
      assert HasExit(f, i, true) && HasExit(f, i, false);
    }
  }
}
