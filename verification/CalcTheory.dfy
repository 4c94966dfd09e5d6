/** What the calculator computes for a whole expression, and when that is the standard value. */
module CalcTheory {
  import opened Calc

  datatype Expr<V> = Leaf(v: V) | Node(op: Op, l: Expr<V>, r: Expr<V>) | Paren(e: Expr<V>)

  /** The keys that type an expression. */
  function Keys<V>(e: Expr<V>): seq<Key<V>> {
    match e
    case Leaf(v) => [Digits(v)]
    case Node(op, l, r) => Keys(l) + [Binary(op)] + Keys(r)
    case Paren(e1) => [LParen] + Keys(e1) + [RParen]
  }

  /** The tree groups by priority, and to the left among equals. */
  predicate Standard<V>(e: Expr<V>) {
    match e
    case Leaf(_) => true
    case Paren(e1) => Standard(e1)
    case Node(op, l, r) =>
      && Standard(l) && Standard(r)
      && (l.Node? ==> Priority(l.op) >= Priority(op))
      && (r.Node? ==> Priority(r.op) > Priority(op))
  }

  /** The operators from the tightest to the loosest, as the comment in the program lists them. */
  function Classes(): seq<set<Op>> {
    [{Pow}, {Mul, Div, Mod}, {Add, Sub}, {Shl, Shr}, {And}, {Xor}, {Or}]
  }

  predicate InClass(op: Op, i: nat) { i < 7 && op in Classes()[i] }

  /** The place of an operator among the classes. */
  function ClassOf(op: Op): (i: nat)
    ensures i < |Classes()| && op in Classes()[i]
  {
    match op
    case Pow => assert Pow in Classes()[0]; 0
    case Mul | Div | Mod => assert op in Classes()[1]; 1
    case Add | Sub => assert op in Classes()[2]; 2
    case Shl | Shr => assert op in Classes()[3]; 3
    case And => assert And in Classes()[4]; 4
    case Xor => assert Xor in Classes()[5]; 5
    case Or => assert Or in Classes()[6]; 6
  }

  lemma OneClass(op: Op, i: nat)
    requires InClass(op, i)
    ensures i == ClassOf(op)
  {
    if i == 0 {} else if i == 1 {} else if i == 2 {} else if i == 3 {} else if i == 4 {} else if i == 5 {} else {}
  }

  /** One operator binds tighter than another exactly when it stands in an earlier class. */
  lemma PriorityIsClass(a: Op, b: Op)
    ensures Priority(a) > Priority(b) <==> exists i, j :: InClass(a, i) && InClass(b, j) && i < j
    ensures Priority(a) == Priority(b) <==> exists i :: InClass(a, i) && InClass(b, i)
  {
    assert InClass(a, ClassOf(a)) && InClass(b, ClassOf(b));
    assert Priority(a) == 6 - ClassOf(a) && Priority(b) == 6 - ClassOf(b);
    forall i, j | InClass(a, i) && InClass(b, j)
      ensures i == ClassOf(a) && j == ClassOf(b)
    {
      OneClass(a, i);
      OneClass(b, j);
    }
  }

  function Eval<V>(A: Algebra<V>, e: Expr<V>): V {
    match e
    case Leaf(v) => v
    case Node(op, l, r) => A.apply(op, Eval(A, l), Eval(A, r))
    case Paren(e1) => Eval(A, e1)
  }

  // ---------- what the two stacks hold for one parenthesis level ----------

  type Waiting<V> = seq<(V, Op)>

  function Arrive<V>(A: Algebra<V>, p: Waiting<V>, x: V, op: Op): Waiting<V> {
    if p == [] || Priority(op) > Priority(p[|p| - 1].1) then p + [(x, op)]
    else p[..|p| - 1] + [(A.apply(p[|p| - 1].1, p[|p| - 1].0, x), op)]
  }

  function Close<V>(A: Algebra<V>, p: Waiting<V>, x: V): V {
    if p == [] then x else Close(A, p[..|p| - 1], A.apply(p[|p| - 1].1, p[|p| - 1].0, x))
  }

  /** What waits, and the current number, once `e` is typed at a level where `p` waits. */
  function Typed<V>(A: Algebra<V>, e: Expr<V>, p: Waiting<V>): (Waiting<V>, V) {
    match e
    case Leaf(v) => (p, v)
    case Paren(e1) => var (q, x) := Typed(A, e1, []); (p, Close(A, q, x))
    case Node(op, l, r) => var (q, x) := Typed(A, l, p); Typed(A, r, Arrive(A, q, x, op))
  }

  /** The value the calculator gives `e`. */
  function Keyed<V>(A: Algebra<V>, e: Expr<V>): V {
    var (q, x) := Typed(A, e, []);
    Close(A, q, x)
  }

  // ---------- stack room ----------

  function OpsArrive(os: seq<Op>, op: Op): seq<Op> {
    if os == [] || Priority(op) > Priority(os[|os| - 1]) then os + [op] else os[..|os| - 1] + [op]
  }

  function OpsTyped<V>(e: Expr<V>, os: seq<Op>): seq<Op> {
    match e
    case Leaf(_) => os
    case Paren(_) => os
    case Node(op, l, r) => OpsTyped(r, OpsArrive(OpsTyped(l, os), op))
  }

  /** Typing `e` overflows neither stack, when `os` waits above `nOps` slots and `nNums` numbers. */
  predicate Fits<V>(e: Expr<V>, os: seq<Op>, nOps: nat, nNums: nat) {
    match e
    case Leaf(_) => true
    case Paren(e1) =>
      && nOps + |os| + 1 <= STACKMAX
      && Fits(e1, [], nOps + |os| + 1, nNums + |os|)
      && nNums + |os| + |OpsTyped(e1, [])| + 1 <= STACKMAX
    case Node(op, l, r) =>
      var os1 := OpsArrive(OpsTyped(l, os), op);
      && Fits(l, os, nOps, nNums)
      && nOps + |os1| <= STACKMAX && nNums + |os1| <= STACKMAX
      && Fits(r, os1, nOps, nNums)
  }

  function Ops<V>(p: Waiting<V>): seq<Op> { seq(|p|, i requires 0 <= i < |p| => p[i].1) }

  function Slots<V>(p: Waiting<V>): seq<Slot> { seq(|p|, i requires 0 <= i < |p| => Pending(p[i].1)) }

  function Nums<V>(p: Waiting<V>): seq<V> { seq(|p|, i requires 0 <= i < |p| => p[i].0) }

  lemma {:induction false} OpsTypedIsOps<V>(A: Algebra<V>, e: Expr<V>, p: Waiting<V>)
    ensures Ops(Typed(A, e, p).0) == OpsTyped(e, Ops(p))
  {
    match e
    case Leaf(_) =>
    case Paren(_) =>
    case Node(op, l, r) =>
      OpsTypedIsOps(A, l, p);
      var (q, x) := Typed(A, l, p);
      assert Ops(Arrive(A, q, x, op)) == OpsArrive(Ops(q), op);
      OpsTypedIsOps(A, r, Arrive(A, q, x, op));
  }

  // ---------- the machine does what Typed says ----------

  /** `p` waits on top of the slots `bo` and the numbers `bn`. */
  ghost predicate At<V>(s: State<V>, bo: seq<Slot>, bn: seq<V>, p: Waiting<V>) {
    && (bo == [] || bo[|bo| - 1] == LPar)
    && s.ops == bo + Slots(p) && s.nums == bn + Nums(p)
    && 0 <= s.entered <= 2 && s.paren >= 0
  }

  lemma BinaryOnEmptyLevel<V>(A: Algebra<V>, s: State<V>, op: Op, bo: seq<Slot>, bn: seq<V>)
    requires At(s, bo, bn, []) && s.entered != 0
    requires |bo| + 1 <= STACKMAX && |bn| + 1 <= STACKMAX
    ensures var t := Press(A, s, Binary(op)); var x := Current(s);
      At(t, bo, bn, [(x, op)]) && t.entered == 0 && t.paren == s.paren
  {
    var x := Current(s);
    assert s.ops == bo && s.nums == bn;
    if bo != [] {
      assert bo[..|bo| - 1] + [LPar] == bo;
    }
    assert Slots([(x, op)]) == [Pending(op)] && Nums([(x, op)]) == [x];
  }

  lemma Extend<V>(p: Waiting<V>, v: V, op: Op)
    ensures Slots(p + [(v, op)]) == Slots(p) + [Pending(op)]
    ensures Nums(p + [(v, op)]) == Nums(p) + [v]
    ensures Ops(p + [(v, op)]) == Ops(p) + [op]
  {
  }

  lemma BinaryStacks<V>(A: Algebra<V>, s: State<V>, op: Op, bo: seq<Slot>, bn: seq<V>, p: Waiting<V>, a: V, o: Op)
    requires s.entered in {1, 2}
    requires s.ops == bo + Slots(p) + [Pending(o)] && s.nums == bn + Nums(p) + [a]
    requires var k := if Priority(op) > Priority(o) then 2 else 1;
      |bo| + |p| + k <= STACKMAX && |bn| + |p| + k <= STACKMAX
    ensures var t := Press(A, s, Binary(op)); var x := Current(s);
      && t.entered == 0 && t.paren == s.paren
      && if Priority(op) > Priority(o)
         then t.ops == s.ops + [Pending(op)] && t.nums == s.nums + [x]
         else t.ops == bo + Slots(p) + [Pending(op)] && t.nums == bn + Nums(p) + [A.apply(o, a, x)]
  {
    assert s.ops[..|s.ops| - 1] == bo + Slots(p) && s.nums[..|s.nums| - 1] == bn + Nums(p);
  }

  lemma BinaryKey<V>(A: Algebra<V>, s: State<V>, op: Op, bo: seq<Slot>, bn: seq<V>, p: Waiting<V>)
    requires At(s, bo, bn, p) && s.entered != 0
    requires |bo| + |OpsArrive(Ops(p), op)| <= STACKMAX && |bn| + |OpsArrive(Ops(p), op)| <= STACKMAX
    ensures var t := Press(A, s, Binary(op));
      At(t, bo, bn, Arrive(A, p, Current(s), op)) && t.entered == 0 && t.paren == s.paren
  {
    hide Press;
    if p == [] {
      BinaryOnEmptyLevel(A, s, op, bo, bn);
    } else {
      var x, n := Current(s), |p| - 1;
      var (a, o) := p[n];
      assert p == p[..n] + [(a, o)];
      Extend(p[..n], a, o);
      Associative(bo, Slots(p[..n]), [Pending(o)]);
      Associative(bn, Nums(p[..n]), [a]);
      BinaryStacks(A, s, op, bo, bn, p[..n], a, o);
      if Priority(op) > Priority(o) {
        Extend(p, x, op);
        Associative(bo, Slots(p), [Pending(op)]);
        Associative(bn, Nums(p), [x]);
      } else {
        var y := A.apply(o, a, x);
        Extend(p[..n], y, op);
        Associative(bo, Slots(p[..n]), [Pending(op)]);
        Associative(bn, Nums(p[..n]), [y]);
      }
    }
  }

  /** One turn of either loop on an operator. */
  lemma StepOn<V>(A: Algebra<V>, s: State<V>, bo: seq<Slot>, bn: seq<V>, p: Waiting<V>, x: V)
    requires p != [] && |bn| + |p| + 1 <= STACKMAX
    requires s.ops == bo + Slots(p) && s.nums == bn + Nums(p) + [x]
    ensures var n := |p| - 1; var y := A.apply(p[n].1, p[n].0, x);
      EqualsStep(A, s) == s.(ops := bo + Slots(p[..n]), nums := bn + Nums(p[..n]) + [y], dnum := y)
  {
    var n := |p| - 1;
    assert s.ops[|s.ops| - 1] == Pending(p[n].1);
    assert s.ops[..|s.ops| - 1] == bo + Slots(p[..n]);
    assert s.nums[..|s.nums| - 1] == bn + Nums(p);
    assert (bn + Nums(p))[|bn| + n] == p[n].0;
    assert (bn + Nums(p))[..|bn| + n] == bn + Nums(p[..n]);
  }

  lemma {:induction false} RParenLoopCloses<V>(A: Algebra<V>, s: State<V>, bo: seq<Slot>, bn: seq<V>, p: Waiting<V>, x: V)
    requires |bn| + |p| + 1 <= STACKMAX && bo != [] && bo[|bo| - 1] == LPar
    requires s.ops == bo + Slots(p) && s.nums == bn + Nums(p) + [x] && s.dnum == x
    ensures var y := Close(A, p, x);
      RParenLoop(A, s) == s.(ops := bo[..|bo| - 1], nums := bn + [y], dnum := y)
    decreases |p|
  {
    if p == [] {
      assert s.ops == bo && s.nums == bn + [x];
    } else {
      var n := |p| - 1;
      StepOn(A, s, bo, bn, p, x);
      RParenLoopCloses(A, EqualsStep(A, s), bo, bn, p[..n], A.apply(p[n].1, p[n].0, x));
      assert s.ops[|s.ops| - 1] == Pending(p[n].1);
    }
  }

  lemma {:induction false} EqualsLoopCloses<V>(A: Algebra<V>, s: State<V>, bn: seq<V>, p: Waiting<V>, x: V)
    requires |bn| + |p| + 1 <= STACKMAX
    requires s.ops == Slots(p) && s.nums == bn + Nums(p) + [x] && s.dnum == x
    ensures var y := Close(A, p, x);
      EqualsLoop(A, s) == s.(ops := [], nums := bn + [y], dnum := y)
    decreases |p|
  {
    if p == [] {
      assert s.nums == bn + [x];
    } else {
      var n := |p| - 1;
      assert s.ops == [] + Slots(p) && [] + Slots(p[..n]) == Slots(p[..n]);
      StepOn(A, s, [], bn, p, x);
      EqualsLoopCloses(A, EqualsStep(A, s), bn, p[..n], A.apply(p[n].1, p[n].0, x));
    }
  }

  lemma RParenCloses<V>(A: Algebra<V>, s: State<V>, bo: seq<Slot>, bn: seq<V>, p: Waiting<V>)
    requires At(s, bo, bn, p) && s.entered != 0 && s.paren > 0 && bo != []
    requires |bn| + |p| + 1 <= STACKMAX
    ensures var t := Press(A, s, RParen);
      && t.ops == bo[..|bo| - 1] && t.nums == bn && t.entered == 2 && t.paren == s.paren - 1
      && t.dnum == Close(A, p, Current(s))
  {
    var x := Current(s);
    var s1 := s.(dnum := x, entered := 2);
    var s2 := PushNum(s1, x);
    assert s2.nums == bn + Nums(p) + [x];
    RParenLoopCloses(A, s2, bo, bn, p, x);
    var y := Close(A, p, x);
    assert (bn + [y])[..|bn|] == bn;
  }

  lemma {:induction false} TypingAnExpression<V>(A: Algebra<V>, s: State<V>, e: Expr<V>,
                                                 bo: seq<Slot>, bn: seq<V>, p: Waiting<V>)
    requires At(s, bo, bn, p) && Fits(e, Ops(p), |bo|, |bn|)
    ensures var t := PressAll(A, s, Keys(e)); var (q, x) := Typed(A, e, p);
      At(t, bo, bn, q) && t.entered != 0 && t.paren == s.paren && Current(t) == x
    decreases e, 0
  {
    hide Press, PressAll, At;
    match e
    case Leaf(v) => TypingLeaf(A, s, v, bo, bn, p);
    case Paren(e1) => TypingParen(A, s, e1, bo, bn, p);
    case Node(op, l, r) =>
      var t1 := PressAll(A, s, Keys(l));
      var (q, x) := Typed(A, l, p);
      TypingAnExpression(A, s, l, bo, bn, p);
      OpsTypedIsOps(A, l, p);
      var t2 := Press(A, t1, Binary(op));
      BinaryKey(A, t1, op, bo, bn, q);
      assert Ops(Arrive(A, q, x, op)) == OpsArrive(Ops(q), op);
      TypingAnExpression(A, t2, r, bo, bn, Arrive(A, q, x, op));
      PressNode(A, s, op, l, r);
  }

  lemma TypingLeaf<V>(A: Algebra<V>, s: State<V>, v: V, bo: seq<Slot>, bn: seq<V>, p: Waiting<V>)
    requires At(s, bo, bn, p)
    ensures var t := PressAll(A, s, Keys(Leaf(v))); var (q, x) := Typed(A, Leaf(v), p);
      At(t, bo, bn, q) && t.entered != 0 && t.paren == s.paren && Current(t) == x
  {
    assert PressAll(A, s, [Digits(v)]) == PressAll(A, Press(A, s, Digits(v)), []);
  }

  lemma PressNode<V>(A: Algebra<V>, s: State<V>, op: Op, l: Expr<V>, r: Expr<V>)
    ensures PressAll(A, s, Keys(Node(op, l, r))) == PressAll(A, Press(A, PressAll(A, s, Keys(l)), Binary(op)), Keys(r))
  {
    PressAllConcat(A, s, Keys(l) + [Binary(op)], Keys(r));
    PressLast(A, s, Keys(l), Binary(op));
  }

  lemma {:induction false} TypingParen<V>(A: Algebra<V>, s: State<V>, e1: Expr<V>,
                                          bo: seq<Slot>, bn: seq<V>, p: Waiting<V>)
    requires At(s, bo, bn, p) && Fits(Paren(e1), Ops(p), |bo|, |bn|)
    ensures var t := PressAll(A, s, Keys(Paren(e1))); var (q, x) := Typed(A, Paren(e1), p);
      At(t, bo, bn, q) && t.entered != 0 && t.paren == s.paren && Current(t) == x
    decreases e1, 1
  {
    hide Press, PressAll, At, Current, Close;
    var bo1, bn1 := bo + Slots(p) + [LPar], bn + Nums(p);
    var t1 := Press(A, s, LParen);
    LevelOpens(A, s, bo, bn, p);
    assert Ops<V>([]) == [];
    TypingAnExpression(A, t1, e1, bo1, bn1, []);
    var t2 := PressAll(A, t1, Keys(e1));
    var (q, x) := Typed(A, e1, []);
    OpsTypedIsOps(A, e1, []);
    LevelCloses(A, s, t2, bo, bn, p, q);
    PressParen(A, s, e1);
  }

  lemma LevelCloses<V>(A: Algebra<V>, s: State<V>, t: State<V>, bo: seq<Slot>, bn: seq<V>, p: Waiting<V>, q: Waiting<V>)
    requires At(s, bo, bn, p) && At(t, bo + Slots(p) + [LPar], bn + Nums(p), q) && t.entered != 0 && t.paren == s.paren + 1
    requires |bn| + |p| + |q| + 1 <= STACKMAX
    ensures var u := Press(A, t, RParen);
      At(u, bo, bn, p) && u.entered != 0 && u.paren == s.paren && Current(u) == Close(A, q, Current(t))
  {
    hide Press, Close;
    var bo1 := bo + Slots(p) + [LPar];
    assert bo1[..|bo1| - 1] == bo + Slots(p);
    RParenCloses(A, t, bo1, bn + Nums(p), q);
  }

  lemma LevelOpens<V>(A: Algebra<V>, s: State<V>, bo: seq<Slot>, bn: seq<V>, p: Waiting<V>)
    requires At(s, bo, bn, p) && |bo| + |p| + 1 <= STACKMAX
    ensures var t := Press(A, s, LParen);
      At(t, bo + Slots(p) + [LPar], bn + Nums(p), []) && t.paren == s.paren + 1
  {
    var bo1, bn1 := bo + Slots(p) + [LPar], bn + Nums(p);
    assert bo1 + Slots<V>([]) == bo1 && bn1 + Nums<V>([]) == bn1;
  }

  lemma PressParen<V>(A: Algebra<V>, s: State<V>, e1: Expr<V>)
    ensures PressAll(A, s, Keys(Paren(e1))) == Press(A, PressAll(A, Press(A, s, LParen), Keys(e1)), RParen)
  {
    var t1 := Press(A, s, LParen);
    var t2 := PressAll(A, t1, Keys(e1));
    hide Press;
    PressAllConcat(A, s, [LParen] + Keys(e1), [RParen]);
    PressAllConcat(A, s, [LParen], Keys(e1));
    assert PressAll(A, s, [LParen]) == PressAll(A, t1, []);
    assert PressAll(A, t2, [RParen]) == PressAll(A, Press(A, t2, RParen), []);
  }

  lemma EqualsStart<V>(A: Algebra<V>, t: State<V>)
    requires t.entered in {1, 2} && |t.nums| < STACKMAX
    ensures var x := Current(t); var u := EqualsLoop(A, State(2, t.disp, x, t.ops, t.nums + [x], t.paren));
      Press(A, t, Equals) == u.(disp := u.dnum)
  {
  }

  lemma EqualsCloses<V>(A: Algebra<V>, t: State<V>, bn: seq<V>, p: Waiting<V>)
    requires At(t, [], bn, p) && t.entered != 0 && |bn| + |p| + 1 <= STACKMAX
    ensures var y := Close(A, p, Current(t)); Press(A, t, Equals) == State(2, y, y, [], bn + [y], t.paren)
  {
    var x := Current(t);
    assert t.ops == Slots(p);
    EqualsStart(A, t);
    EqualsLoopCloses(A, State(2, t.disp, x, t.ops, t.nums + [x], t.paren), bn, p, x);
  }

  lemma PressLast<V>(A: Algebra<V>, s: State<V>, ks: seq<Key<V>>, k: Key<V>)
    ensures PressAll(A, s, ks + [k]) == Press(A, PressAll(A, s, ks), k)
  {
    PressAllConcat(A, s, ks, [k]);
    var t := PressAll(A, s, ks);
    assert PressAll(A, t, [k]) == PressAll(A, Press(A, t, k), []);
  }

  /** `=` leaves the result on the number stack, empties the operator stack, closes all parentheses. */
  lemma EvaluatesKeyed<V>(A: Algebra<V>, s: State<V>, e: Expr<V>)
    requires s.ops == [] && 0 <= s.entered <= 2 && s.paren == 0
    requires Fits(e, [], 0, |s.nums|) && |s.nums| + |OpsTyped(e, [])| + 1 <= STACKMAX
    ensures var y := Keyed(A, e);
      PressAll(A, s, Keys(e) + [Equals]) == State(2, y, y, [], s.nums + [y], 0)
  {
    assert At(s, [], s.nums, []) && Ops<V>([]) == [];
    TypingAnExpression(A, s, e, [], s.nums, []);
    OpsTypedIsOps(A, e, []);
    var t := PressAll(A, s, Keys(e));
    var (p, x) := Typed(A, e, []);
    assert |p| == |OpsTyped(e, [])|;
    EqualsCloses(A, t, s.nums, p);
    PressLast(A, s, Keys(e), Equals);
  }

  // ---------- one level never disturbs what already waits ----------

  predicate Below<V>(p: Waiting<V>, e: Expr<V>) {
    e.Node? && p != [] ==> Priority(p[|p| - 1].1) < Priority(e.op)
  }

  lemma ArriveIsLocal<V>(A: Algebra<V>, p: Waiting<V>, q: Waiting<V>, x: V, op: Op)
    requires q == [] && p != [] ==> Priority(p[|p| - 1].1) < Priority(op)
    ensures Arrive(A, p + q, x, op) == p + Arrive(A, q, x, op)
  {
    if q == [] {
      assert p + q == p;
    } else {
      assert (p + q)[..|p + q| - 1] == p + q[..|q| - 1];
    }
  }

  /** Every waiting operator binds at least as tightly as `op`. */
  predicate AtLeast<V>(p: Waiting<V>, op: Op) {
    forall i :: 0 <= i < |p| ==> Priority(p[i].1) >= Priority(op)
  }

  lemma Associative<T>(p: seq<T>, q: seq<T>, r: seq<T>)
    ensures p + q + r == p + (q + r)
  {
  }

  lemma LocalNode<V>(A: Algebra<V>, op: Op, l: Expr<V>, r: Expr<V>, p: Waiting<V>,
                     ql: Waiting<V>, xl: V, w: Waiting<V>, qr: Waiting<V>, xr: V)
    requires Typed(A, l, p) == (p + ql, xl) && Typed(A, l, []) == (ql, xl)
    requires Arrive(A, ql, xl, op) == w && Arrive(A, p + ql, xl, op) == p + w
    requires Typed(A, r, w) == (w + qr, xr) && Typed(A, r, p + w) == (p + w + qr, xr)
    ensures Typed(A, Node(op, l, r), []) == (w + qr, xr)
    ensures Typed(A, Node(op, l, r), p) == (p + (w + qr), xr)
  {
    Associative(p, w, qr);
  }

  lemma {:induction false} TypedIsLocal<V>(A: Algebra<V>, e: Expr<V>, p: Waiting<V>)
    requires Standard(e) && Below(p, e)
    ensures Typed(A, e, p) == (p + Typed(A, e, []).0, Typed(A, e, []).1)
    ensures Typed(A, e, []).0 == [] <==> !e.Node?
    ensures e.Node? ==> AtLeast(Typed(A, e, []).0, e.op)
  {
    match e
    case Leaf(_) => assert p + [] == p;
    case Paren(_) => assert p + [] == p;
    case Node(op, l, r) =>
      TypedIsLocal(A, l, p);
      TypedIsLocal(A, l, []);
      var (ql, xl) := Typed(A, l, []);
      var w := Arrive(A, ql, xl, op);
      ArriveIsLocal(A, p, ql, xl, op);
      ArriveAtLeast(A, ql, xl, op);
      TypedIsLocal(A, r, w);
      TypedIsLocal(A, r, p + w);
      var (qr, xr) := Typed(A, r, []);
      LocalNode(A, op, l, r, p, ql, xl, w, qr, xr);
      AtLeastConcat(w, qr, op);
  }

  lemma ArriveAtLeast<V>(A: Algebra<V>, q: Waiting<V>, x: V, op: Op)
    requires AtLeast(q, op)
    ensures var w := Arrive(A, q, x, op); AtLeast(w, op) && w != [] && w[|w| - 1].1 == op
  {
  }

  lemma AtLeastConcat<V>(p: Waiting<V>, q: Waiting<V>, op: Op)
    requires AtLeast(p, op) && AtLeast(q, op)
    ensures AtLeast(p + q, op)
  {
  }

  /** A binary node is typed as its left operand, the operator, and the right operand on its own. */
  lemma TypedNode<V>(A: Algebra<V>, op: Op, l: Expr<V>, r: Expr<V>)
    requires Standard(Node(op, l, r))
    ensures var (ql, xl) := Typed(A, l, []); var w := Arrive(A, ql, xl, op); var (qr, xr) := Typed(A, r, []);
      && Typed(A, Node(op, l, r), []) == (w + qr, xr)
      && Keyed(A, Node(op, l, r)) == Close(A, w, Keyed(A, r))
  {
    TypedIsLocal(A, l, []);
    var (ql, xl) := Typed(A, l, []);
    var w := Arrive(A, ql, xl, op);
    ArriveAtLeast(A, ql, xl, op);
    TypedIsLocal(A, r, w);
    var (qr, xr) := Typed(A, r, []);
    CloseConcat(A, w, qr, xr);
  }

  lemma {:induction false} CloseConcat<V>(A: Algebra<V>, p: Waiting<V>, q: Waiting<V>, x: V)
    ensures Close(A, p + q, x) == Close(A, p, Close(A, q, x))
    decreases |q|
  {
    if q == [] {
      assert p + q == p;
    } else {
      var n := |q| - 1;
      assert (p + q)[..|p + q| - 1] == p + q[..n];
      CloseConcat(A, p, q[..n], A.apply(q[n].1, q[n].0, x));
    }
  }

  // ---------- at most one reduction per operator ----------

  function RightDepth<V>(e: Expr<V>): nat {
    if e.Node? then 1 + RightDepth(e.r) else 0
  }

  /** No arriving operator finds more than one operator it should carry out. */
  predicate OneReduction<V>(e: Expr<V>) {
    match e
    case Leaf(_) => true
    case Paren(e1) => OneReduction(e1)
    case Node(_, l, r) => OneReduction(l) && OneReduction(r) && RightDepth(l) <= 1
  }

  lemma {:induction false} OneReductionIsStandard<V>(A: Algebra<V>, e: Expr<V>)
    requires Standard(e) && OneReduction(e)
    ensures Keyed(A, e) == Eval(A, e)
    ensures |Typed(A, e, []).0| == RightDepth(e)
  {
    match e
    case Leaf(_) =>
    case Paren(e1) => OneReductionIsStandard(A, e1);
    case Node(op, l, r) =>
      OneReductionIsStandard(A, l);
      OneReductionIsStandard(A, r);
      ArrivalCarriesOutAll(A, l, op);
      TypedNode(A, op, l, r);
      CloseOne(A, Eval(A, l), op, Eval(A, r));
  }

  lemma CloseOne<V>(A: Algebra<V>, v: V, op: Op, x: V)
    ensures Close(A, [(v, op)], x) == A.apply(op, v, x)
  {
    assert [(v, op)][..0] == [];
  }

  lemma ArrivalCarriesOutAll<V>(A: Algebra<V>, l: Expr<V>, op: Op)
    requires Standard(l) && (l.Node? ==> Priority(l.op) >= Priority(op))
    requires |Typed(A, l, []).0| <= 1
    ensures var (q, x) := Typed(A, l, []); Arrive(A, q, x, op) == [(Keyed(A, l), op)]
  {
    TypedIsLocal(A, l, []);
    var (q, x) := Typed(A, l, []);
    ArrivesAlone(A, q, x, op);
  }

  lemma ArrivesAlone<V>(A: Algebra<V>, q: Waiting<V>, x: V, op: Op)
    requires |q| <= 1 && AtLeast(q, op)
    ensures Arrive(A, q, x, op) == [(Close(A, q, x), op)]
  {
    if q != [] {
      var (a, o) := q[0];
      assert q == [(a, o)] && q[..0] == [];
      CloseOne(A, a, o, x);
    }
  }

  // ---------- uninterpreted operators ----------

  /** Operators that only build trees: two values are equal exactly when computed alike. */
  function Trees<V>(z: V): Algebra<Expr<V>> {
    Algebra((op, a, b) => Node(op, a, b), Leaf(z))
  }

  function Symbolic<V>(e: Expr<V>): Expr<Expr<V>> {
    match e
    case Leaf(v) => Leaf(Leaf(v))
    case Node(op, l, r) => Node(op, Symbolic(l), Symbolic(r))
    case Paren(e1) => Paren(Symbolic(e1))
  }

  function Size<V>(t: Expr<V>): nat {
    match t
    case Leaf(_) => 1
    case Node(_, l, r) => Size(l) + Size(r)
    case Paren(e1) => Size(e1)
  }

  /** Grows when operands move to the left: rotating a tree to the right makes it smaller. */
  function LeftWeight<V>(t: Expr<V>): nat {
    match t
    case Leaf(_) => 0
    case Node(_, l, r) => Size(l) + LeftWeight(l) + LeftWeight(r)
    case Paren(e1) => LeftWeight(e1)
  }

  function WaitingSize<V>(p: Waiting<Expr<V>>): nat {
    if p == [] then 0 else WaitingSize(p[..|p| - 1]) + Size(p[|p| - 1].0)
  }

  function WaitingWeight<V>(p: Waiting<Expr<V>>): nat {
    if p == [] then 0 else WaitingWeight(p[..|p| - 1]) + Size(p[|p| - 1].0) + LeftWeight(p[|p| - 1].0)
  }

  lemma {:induction false} WaitingConcat<V>(p: Waiting<Expr<V>>, q: Waiting<Expr<V>>)
    ensures WaitingSize(p + q) == WaitingSize(p) + WaitingSize(q)
    ensures WaitingWeight(p + q) == WaitingWeight(p) + WaitingWeight(q)
    decreases |q|
  {
    if q == [] {
      assert p + q == p;
    } else {
      assert (p + q)[..|p + q| - 1] == p + q[..|q| - 1];
      WaitingConcat(p, q[..|q| - 1]);
    }
  }

  lemma {:induction false} CloseWeight<V>(z: V, p: Waiting<Expr<V>>, x: Expr<V>)
    ensures Size(Close(Trees(z), p, x)) == WaitingSize(p) + Size(x)
    ensures LeftWeight(Close(Trees(z), p, x)) == WaitingWeight(p) + LeftWeight(x)
    decreases |p|
  {
    if p != [] {
      CloseWeight(z, p[..|p| - 1], Node(p[|p| - 1].1, p[|p| - 1].0, x));
    }
  }

  lemma SizePositive<V>(t: Expr<V>)
    ensures Size(t) >= 1
  {
  }

  lemma {:induction false} WaitingSizeAtLeast<V>(p: Waiting<Expr<V>>)
    ensures WaitingSize(p) >= |p|
    decreases |p|
  {
    if p != [] {
      WaitingSizeAtLeast(p[..|p| - 1]);
      SizePositive(p[|p| - 1].0);
    }
  }

  lemma WaitingLast<V>(p: Waiting<Expr<V>>, v: Expr<V>, o: Op)
    ensures WaitingSize(p + [(v, o)]) == WaitingSize(p) + Size(v)
    ensures WaitingWeight(p + [(v, o)]) == WaitingWeight(p) + Size(v) + LeftWeight(v)
  {
    assert (p + [(v, o)])[..|p|] == p;
  }

  /** What an arriving operator does to the sizes and weights of what waits. */
  ghost predicate Leans<V>(q: Waiting<Expr<V>>, x: Expr<V>, w: Waiting<Expr<V>>) {
    && WaitingSize(w) == WaitingSize(q) + Size(x)
    && (|q| <= 1 ==> |w| == 1)
    && WaitingWeight(w) <= WaitingWeight(q) + LeftWeight(x) + WaitingSize(q) + Size(x)
    && (|q| > 1 ==> WaitingWeight(w) < WaitingWeight(q) + LeftWeight(x) + WaitingSize(q) + Size(x))
  }

  lemma ReductionLeans<V>(p: Waiting<Expr<V>>, a: Expr<V>, o: Op, x: Expr<V>, op: Op)
    ensures Leans(p + [(a, o)], x, p + [(Node(o, a, x), op)])
  {
    WaitingLast(p, a, o);
    WaitingLast(p, Node(o, a, x), op);
    WaitingSizeAtLeast(p);
  }

  lemma ArrivalLeans<V>(z: V, q: Waiting<Expr<V>>, x: Expr<V>, op: Op)
    requires q != [] ==> Priority(op) <= Priority(q[|q| - 1].1)
    ensures Leans(q, x, Arrive(Trees(z), q, x, op))
  {
    if q == [] {
      WaitingLast([], x, op);
      assert q + [(x, op)] == [] + [(x, op)];
    } else {
      var (a, o) := q[|q| - 1];
      assert q == q[..|q| - 1] + [(a, o)];
      ReductionLeans(q[..|q| - 1], a, o, x, op);
    }
  }

  lemma ArrivalWeight<V>(z: V, op: Op, l: Expr<V>)
    requires Standard(l) && (l.Node? ==> Priority(l.op) >= Priority(op))
    requires Standard(Symbolic(l)) && Symbolic(l).Node? == l.Node?
    ensures var (q, x) := Typed(Trees(z), Symbolic(l), []); Leans(q, x, Arrive(Trees(z), q, x, op))
  {
    TypedIsLocal(Trees(z), Symbolic(l), []);
    var (q, x) := Typed(Trees(z), Symbolic(l), []);
    ArrivalLeans(z, q, x, op);
  }

  lemma {:induction false} SymbolicKeeps<V>(e: Expr<V>)
    ensures Standard(Symbolic(e)) == Standard(e)
    ensures OneReduction(Symbolic(e)) == OneReduction(e) && RightDepth(Symbolic(e)) == RightDepth(e)
    ensures Symbolic(e).Node? == e.Node? && (e.Node? ==> Symbolic(e).op == e.op)
  {
    match e
    case Leaf(_) =>
    case Paren(e1) => SymbolicKeeps(e1);
    case Node(_, l, r) => SymbolicKeeps(l); SymbolicKeeps(r);
  }

  /** Every missing reduction leaves the computed tree leaning further right than the standard one. */
  lemma {:induction false} MissedReductionLeansRight<V>(z: V, e: Expr<V>)
    requires Standard(e)
    ensures var (q, x) := Typed(Trees(z), Symbolic(e), []);
      && WaitingSize(q) + Size(x) == Size(e)
      && WaitingWeight(q) + LeftWeight(x) <= LeftWeight(e)
      && (!OneReduction(e) ==> WaitingWeight(q) + LeftWeight(x) < LeftWeight(e))
      && (OneReduction(e) ==> |q| == RightDepth(e))
  {
    match e
    case Leaf(_) =>
    case Paren(e1) =>
      MissedReductionLeansRight(z, e1);
      var (q, x) := Typed(Trees(z), Symbolic(e1), []);
      CloseWeight(z, q, x);
    case Node(op, l, r) =>
      MissedReductionLeansRight(z, l);
      MissedReductionLeansRight(z, r);
      SymbolicKeeps(l);
      SymbolicKeeps(e);
      ArrivalWeight(z, op, l);
      TypedNode(Trees(z), op, Symbolic(l), Symbolic(r));
      var (ql, xl) := Typed(Trees(z), Symbolic(l), []);
      WaitingConcat(Arrive(Trees(z), ql, xl, op), Typed(Trees(z), Symbolic(r), []).0);
  }

  function Strip<V>(e: Expr<V>): Expr<V> {
    match e
    case Leaf(_) => e
    case Node(op, l, r) => Node(op, Strip(l), Strip(r))
    case Paren(e1) => Strip(e1)
  }

  lemma {:induction false} SymbolicValue<V>(z: V, e: Expr<V>)
    ensures Eval(Trees(z), Symbolic(e)) == Strip(e)
    ensures LeftWeight(Strip(e)) == LeftWeight(e) && Size(Strip(e)) == Size(e)
  {
    match e
    case Leaf(_) =>
    case Paren(e1) => SymbolicValue(z, e1);
    case Node(_, l, r) => SymbolicValue(z, l); SymbolicValue(z, r);
  }

  /** With uninterpreted operators the calculator gives the standard value exactly when no arriving
      operator should carry out two. */
  lemma StandardIffOneReduction<V>(z: V, e: Expr<V>)
    requires Standard(e)
    ensures Keyed(Trees(z), Symbolic(e)) == Eval(Trees(z), Symbolic(e)) <==> OneReduction(e)
  {
    SymbolicValue(z, e);
    SymbolicKeeps(e);
    if OneReduction(e) {
      OneReductionIsStandard(Trees(z), Symbolic(e));
    } else {
      MissedReductionLeansRight(z, e);
      var (q, x) := Typed(Trees(z), Symbolic(e), []);
      CloseWeight(z, q, x);
    }
  }

  /** 10 - 2 * 3 - 4 gives 8. */
  lemma TenMinusSixMinusFour()
    ensures var e := Node(Sub, Node(Sub, Leaf(10), Node(Mul, Leaf(2), Leaf(3))), Leaf(4));
      Standard(e) && !OneReduction(e) && Eval(Integers(), e) == 0 && Keyed(Integers(), e) == 8
  {
    var A := Integers();
    var p2 := [(10, Sub), (2, Mul)];
    assert Arrive(A, [], 10, Sub) == [(10, Sub)];
    assert Arrive(A, [(10, Sub)], 2, Mul) == p2;
    assert Arrive(A, p2, 3, Sub) == [(10, Sub), (6, Sub)];
    assert [(10, Sub), (6, Sub)][..1] == [(10, Sub)];
    assert Close(A, [(10, Sub), (6, Sub)], 4) == Close(A, [(10, Sub)], 2) == 8;
  }

  function Integers(): Algebra<int> {
    Algebra((op: Op, a: int, b: int) => match op
      case Add => a + b
      case Sub => a - b
      case Mul => a * b
      case _ => 0, 0)
  }

  // ---------- sums and products ----------

  predicate SumsAndProducts<V>(e: Expr<V>) {
    match e
    case Leaf(_) => true
    case Paren(e1) => SumsAndProducts(e1)
    case Node(op, l, r) => (op == Add || op == Mul) && SumsAndProducts(l) && SumsAndProducts(r)
  }

  /** Some pending sums, then at most one pending product. */
  predicate SumsThenProduct<V>(p: Waiting<V>) {
    && (forall i :: 0 <= i < |p| - 1 ==> p[i].1 == Add)
    && (p != [] ==> p[|p| - 1].1 == Add || p[|p| - 1].1 == Mul)
  }

  ghost predicate AddAssociative<V(!new)>(A: Algebra<V>) {
    forall a, b, c :: A.apply(Add, A.apply(Add, a, b), c) == A.apply(Add, a, A.apply(Add, b, c))
  }

  predicate AllSums<V>(p: Waiting<V>) {
    forall i :: 0 <= i < |p| ==> p[i].1 == Add
  }

  lemma {:induction false} CloseSums<V(!new)>(A: Algebra<V>, p: Waiting<V>, x: V, y: V)
    requires AddAssociative(A) && AllSums(p)
    ensures Close(A, p, A.apply(Add, x, y)) == A.apply(Add, Close(A, p, x), y)
    decreases |p|
  {
    if p != [] {
      var n := |p| - 1;
      CloseSums(A, p[..n], A.apply(Add, p[n].0, x), y);
    }
  }

  lemma SumsBindLoosely<V>(q: Waiting<V>, op: Op)
    requires SumsThenProduct(q) && |q| > 1 && Priority(op) > Priority(Add)
    ensures !AtLeast(q, op)
  {
    assert q[0].1 == Add;
  }

  lemma ProductArrives<V>(A: Algebra<V>, q: Waiting<V>, x: V, y: V)
    requires SumsThenProduct(q) && AtLeast(q, Mul)
    ensures var w := Arrive(A, q, x, Mul);
      |w| == 1 && SumsThenProduct(w) && Close(A, w, y) == A.apply(Mul, Close(A, q, x), y)
  {
    if |q| > 1 {
      SumsBindLoosely(q, Mul);
    }
    if q != [] {
      assert q == [q[0]] && q[..0] == [];
      CloseOne(A, q[0].0, q[0].1, x);
    }
    CloseOne(A, Close(A, q, x), Mul, y);
  }

  lemma CloseLast<V>(A: Algebra<V>, p: Waiting<V>, a: V, o: Op, x: V)
    ensures Close(A, p + [(a, o)], x) == Close(A, p, A.apply(o, a, x))
  {
    assert (p + [(a, o)])[..|p|] == p;
  }

  lemma SumReduces<V(!new)>(A: Algebra<V>, p: Waiting<V>, a: V, o: Op, x: V, y: V)
    requires AddAssociative(A) && AllSums(p)
    ensures Close(A, p + [(A.apply(o, a, x), Add)], y) == A.apply(Add, Close(A, p + [(a, o)], x), y)
  {
    CloseLast(A, p, a, o, x);
    CloseLast(A, p, A.apply(o, a, x), Add, y);
    CloseSums(A, p, A.apply(o, a, x), y);
  }

  lemma SumArrives<V(!new)>(A: Algebra<V>, q: Waiting<V>, x: V, y: V)
    requires AddAssociative(A) && SumsThenProduct(q)
    ensures var w := Arrive(A, q, x, Add);
      AllSums(w) && Close(A, w, y) == A.apply(Add, Close(A, q, x), y)
  {
    if q == [] {
      CloseOne(A, x, Add, y);
      assert q + [(x, Add)] == [(x, Add)];
    } else {
      var (a, o) := q[|q| - 1];
      assert q == q[..|q| - 1] + [(a, o)];
      SumReduces(A, q[..|q| - 1], a, o, x, y);
    }
  }

  /** Sums may stay pending, nested to the right; associativity of `+` makes up for it. */
  lemma {:induction false} SumsAndProductsInvariant<V(!new)>(A: Algebra<V>, e: Expr<V>)
    requires AddAssociative(A) && Standard(e) && SumsAndProducts(e)
    ensures SumsThenProduct(Typed(A, e, []).0) && Keyed(A, e) == Eval(A, e)
  {
    match e
    case Leaf(_) =>
    case Paren(e1) => SumsAndProductsInvariant(A, e1);
    case Node(op, l, r) =>
      SumsAndProductsInvariant(A, l);
      SumsAndProductsInvariant(A, r);
      TypedNode(A, op, l, r);
      TypedIsLocal(A, l, []);
      TypedIsLocal(A, r, []);
      var (ql, xl) := Typed(A, l, []);
      var qr := Typed(A, r, []).0;
      if op == Add {
        SumArrives(A, ql, xl, Keyed(A, r));
        SumsBeforeProduct(Arrive(A, ql, xl, op), qr, r);
      } else {
        assert AtLeast(ql, Mul);
        ProductArrives(A, ql, xl, Keyed(A, r));
        assert qr == [] && Arrive(A, ql, xl, op) + qr == Arrive(A, ql, xl, op);
      }
  }

  lemma SumsBeforeProduct<V>(w: Waiting<V>, q: Waiting<V>, r: Expr<V>)
    requires AllSums(w) && SumsThenProduct(q)
    requires q != [] ==> r.Node? && AtLeast(q, r.op) && Priority(r.op) > Priority(Add)
    ensures SumsThenProduct(w + q)
  {
    if |q| > 1 {
      SumsBindLoosely(q, r.op);
    }
  }

  // ---------- main results ----------

  lemma UninterpretedOperators<V>(A: Algebra<V>, s: State<V>, e: Expr<V>)
    requires s.ops == [] && 0 <= s.entered <= 2 && s.paren == 0
    requires Standard(e) && OneReduction(e)
    requires Fits(e, [], 0, |s.nums|) && |s.nums| + |OpsTyped(e, [])| + 1 <= STACKMAX
    ensures var y := Eval(A, e);
      PressAll(A, s, Keys(e) + [Equals]) == State(2, y, y, [], s.nums + [y], 0)
  {
    EvaluatesKeyed(A, s, e);
    OneReductionIsStandard(A, e);
  }

  lemma SumsOfProducts<V(!new)>(A: Algebra<V>, s: State<V>, e: Expr<V>)
    requires s.ops == [] && 0 <= s.entered <= 2 && s.paren == 0
    requires AddAssociative(A) && Standard(e) && SumsAndProducts(e)
    requires Fits(e, [], 0, |s.nums|) && |s.nums| + |OpsTyped(e, [])| + 1 <= STACKMAX
    ensures var y := Eval(A, e);
      PressAll(A, s, Keys(e) + [Equals]) == State(2, y, y, [], s.nums + [y], 0)
  {
    EvaluatesKeyed(A, s, e);
    SumsAndProductsInvariant(A, e);
  }

  // ---------- what `=` leaves behind ----------

  function Results<V>(v: V, n: nat): seq<Key<V>> {
    if n == 0 then [] else Results(v, n - 1) + [Digits(v), Equals]
  }

  /** Every `=` leaves its result on the number stack, so the 33rd one overflows it. */
  lemma {:induction false} RoomForThirtyTwoResults<V>(A: Algebra<V>, v: V, n: nat)
    ensures var s := PressAll(A, State(1, A.zero, A.zero, [], [], 0), Results(v, n));
      && (s.entered == 3 <==> n > STACKMAX)
      && s.ops == [] && s.paren == 0 && 1 <= s.entered <= 3
      && (n <= STACKMAX ==> s.nums == seq(n, _ => v))
      && (n >= STACKMAX ==> |s.nums| == STACKMAX)
  {
    var s0 := State(1, A.zero, A.zero, [], [], 0);
    if n > 0 {
      RoomForThirtyTwoResults(A, v, n - 1);
      var s := PressAll(A, s0, Results(v, n - 1));
      PressAllConcat(A, s0, Results(v, n - 1), [Digits(v), Equals]);
      var s1 := Press(A, s, Digits(v));
      assert [Digits(v), Equals][1..] == [Equals];
      assert PressAll(A, s1, [Equals]) == PressAll(A, Press(A, s1, Equals), []);
      assert PressAll(A, s, [Digits(v), Equals]) == Press(A, s1, Equals);
    }
  }

  // ---------- keys that type no expression ----------

  lemma PressTwo<V>(A: Algebra<V>, s: State<V>, k: Key<V>, l: Key<V>)
    ensures PressAll(A, s, [k, l]) == Press(A, Press(A, s, k), l)
  {
    hide Press;
    assert [k, l] == [k] + [l] && [l][1..] == [];
    PressLast(A, s, [k], l);
    assert PressAll(A, s, [k]) == PressAll(A, Press(A, s, k), []);
  }

  /** Of two operator keys in a row the second counts. */
  lemma LastOperatorCounts<V>(A: Algebra<V>, a: V, o1: Op, o2: Op, b: V)
    ensures var s := State(1, A.zero, A.zero, [], [], 0); var y := A.apply(o2, a, b);
      PressAll(A, s, [Digits(a), Binary(o1), Binary(o2), Digits(b), Equals]) == State(2, y, y, [], [y], 0)
  {
    hide PressAll, Press;
    var s := State(1, A.zero, A.zero, [], [], 0);
    PressTwo(A, s, Digits(a), Binary(o1));
    PressLast(A, s, [Digits(a), Binary(o1)], Binary(o2));
    TwoOperators(A, a, o1, o2);
    PressAllConcat(A, s, [Digits(a), Binary(o1)] + [Binary(o2)], [Digits(b), Equals]);
    EndOne(A, a, o2, b);
    assert [Digits(a), Binary(o1)] + [Binary(o2)] + [Digits(b), Equals] == [Digits(a), Binary(o1), Binary(o2), Digits(b), Equals];
  }

  lemma TwoOperators<V>(A: Algebra<V>, a: V, o1: Op, o2: Op)
    ensures Press(A, Press(A, Press(A, State(1, A.zero, A.zero, [], [], 0), Digits(a)), Binary(o1)), Binary(o2)) ==
      State(0, a, a, [Pending(o2)], [a], 0)
  {
  }

  lemma EndOne<V>(A: Algebra<V>, a: V, op: Op, b: V)
    ensures var y := A.apply(op, a, b);
      PressAll(A, State(0, a, a, [Pending(op)], [a], 0), [Digits(b), Equals]) == State(2, y, y, [], [y], 0)
  {
    var s := State(0, a, a, [Pending(op)], [a], 0);
    var t := Press(A, s, Digits(b));
    PressTwo(A, s, Digits(b), Equals);
    assert Slots([(a, op)]) == [Pending(op)] && Nums([(a, op)]) == [a];
    CloseOne(A, a, op, b);
    EqualsCloses(A, t, [], [(a, op)]);
  }

  /** `=` does not know what to do with an open parenthesis: the number typed after it is lost, and the one before it
      is taken twice. */
  lemma OpenParenTakesNumberTwice<V>(A: Algebra<V>, a: V, op: Op, b: V)
    ensures var s := State(1, A.zero, A.zero, [], [], 0); var y := A.apply(op, a, a);
      PressAll(A, s, [Digits(a), Binary(op), LParen, Digits(b), Equals]) == State(2, y, y, [], [y], 0)
  {
    var s := State(1, A.zero, A.zero, [], [], 0);
    var s2 := State(0, a, a, [Pending(op)], [a], 0);
    var s3 := State(1, b, a, [Pending(op), LPar], [a], 1);
    PressTwo(A, s, Digits(a), Binary(op));
    PressTwo(A, s2, LParen, Digits(b));
    assert PressAll(A, s, [Digits(a), Binary(op)]) == s2 && PressAll(A, s2, [LParen, Digits(b)]) == s3;
    OpenParenEnds(A, a, op, b);
    hide PressAll, Press;
    PressAllConcat(A, s, [Digits(a), Binary(op)], [LParen, Digits(b)]);
    PressLast(A, s, [Digits(a), Binary(op)] + [LParen, Digits(b)], Equals);
    assert [Digits(a), Binary(op)] + [LParen, Digits(b)] + [Equals] == [Digits(a), Binary(op), LParen, Digits(b), Equals];
  }

  lemma OpenParenEnds<V>(A: Algebra<V>, a: V, op: Op, b: V)
    ensures var y := A.apply(op, a, a); Press(A, State(1, b, a, [Pending(op), LPar], [a], 1), Equals) == State(2, y, y, [], [y], 0)
  {
    var u := State(2, b, b, [Pending(op), LPar], [a, b], 1);
    var v := State(2, b, a, [Pending(op)], [a, a], 0);
    var y := A.apply(op, a, a);
    assert EqualsStep(A, u) == v;
    assert EqualsStep(A, v) == State(2, b, y, [], [y], 0);
    assert EqualsLoop(A, u) == EqualsLoop(A, v) == EqualsLoop(A, EqualsStep(A, v)) == EqualsStep(A, v);
    EqualsStart(A, State(1, b, a, [Pending(op), LPar], [a], 1));
    assert [a] + [b] == [a, b];
  }

  /** An operator key right after `(` takes the parenthesis off the stack, but leaves it counted. */
  lemma OperatorReplacesParen<V>(A: Algebra<V>, a: V, o1: Op, o2: Op)
    ensures PressAll(A, State(1, A.zero, A.zero, [], [], 0), [Digits(a), Binary(o1), LParen, Binary(o2)]) ==
      State(0, a, a, [Pending(o1), Pending(o2)], [a], 1)
  {
    var s := State(1, A.zero, A.zero, [], [], 0);
    var s2 := State(0, a, a, [Pending(o1)], [a], 0);
    PressTwo(A, s, Digits(a), Binary(o1));
    PressTwo(A, s2, LParen, Binary(o2));
    assert PressAll(A, s, [Digits(a), Binary(o1)]) == s2;
    assert [Pending(o1), LPar][..1] == [Pending(o1)];
    PressAllConcat(A, s, [Digits(a), Binary(o1)], [LParen, Binary(o2)]);
    assert [Digits(a), Binary(o1)] + [LParen, Binary(o2)] == [Digits(a), Binary(o1), LParen, Binary(o2)];
  }

  /** `)` without a `(`, and `)` or `=` right after an operator, do nothing; so does every key after an overflow. */
  lemma KeysWithoutEffect<V>(A: Algebra<V>, s: State<V>, ks: seq<Key<V>>)
    ensures s.paren == 0 || s.entered == 0 ==> PressAll(A, s, [RParen] + ks) == PressAll(A, s, ks)
    ensures s.entered == 0 ==> PressAll(A, s, [Equals] + ks) == PressAll(A, s, ks)
    ensures s.entered == 3 ==> PressAll(A, s, ks) == s
    decreases |ks|
  {
    assert ([RParen] + ks)[1..] == ks && ([Equals] + ks)[1..] == ks;
    if ks != [] && s.entered == 3 {
      KeysWithoutEffect(A, s, ks[1..]);
    }
  }

  /** What `)` finds when the number stack is full. */
  lemma FullAtParen<V>(A: Algebra<V>, s: State<V>)
    requires |s.nums| == STACKMAX && s.ops != [] && s.ops[|s.ops| - 1] == LPar && s.paren > 0 && s.entered in {1, 2}
    ensures var x := Current(s);
      Press(A, s, RParen) == State(2, x, x, s.ops[..|s.ops| - 1], s.nums[..STACKMAX - 1], s.paren - 1)
  {
  }

  /** An overflow at `)` is not reported, unlike one at `=`: a number that waited is lost instead. */
  lemma OverflowAtParenIsSilent<V>(A: Algebra<V>, v: V, b: V)
    ensures var s := State(1, A.zero, A.zero, [], [], 0); var ks := Results(v, STACKMAX);
      && PressAll(A, s, ks).nums == seq(STACKMAX, _ => v)
      && PressAll(A, s, ks + [LParen, Digits(b), RParen]) == State(2, b, b, [], seq(STACKMAX - 1, _ => v), 0)
      && PressAll(A, s, ks + [Digits(b), Equals]).entered == 3
  {
    hide Press, PressAll, Results;
    var s := State(1, A.zero, A.zero, [], [], 0);
    var ks := Results(v, STACKMAX);
    RoomForThirtyTwoResults(A, v, STACKMAX);
    var t := PressAll(A, s, ks);
    TypedOnFull(A, t, b);
    PressTwo(A, t, LParen, Digits(b));
    PressTwo(A, t, Digits(b), Equals);
    PressAllConcat(A, s, ks, [LParen, Digits(b)]);
    PressLast(A, s, ks + [LParen, Digits(b)], RParen);
    PressAllConcat(A, s, ks, [Digits(b), Equals]);
    assert ks + [LParen, Digits(b)] + [RParen] == ks + [LParen, Digits(b), RParen];
    assert t.nums[..STACKMAX - 1] == seq(STACKMAX - 1, _ => v);
  }

  lemma TypedOnFull<V>(A: Algebra<V>, t: State<V>, b: V)
    requires t.ops == [] && t.paren == 0 && 1 <= t.entered <= 2 && |t.nums| == STACKMAX
    ensures Press(A, Press(A, Press(A, t, LParen), Digits(b)), RParen) == State(2, b, b, [], t.nums[..STACKMAX - 1], 0)
    ensures Press(A, Press(A, t, Digits(b)), Equals).entered == 3
  {
    var u := State(1, b, t.dnum, [LPar], t.nums, 1);
    assert Press(A, Press(A, t, LParen), Digits(b)) == u;
    assert Press(A, t, Digits(b)) == State(1, b, t.dnum, [], t.nums, 0);
    FullAtEquals(A, State(1, b, t.dnum, [], t.nums, 0));
    hide Press;
    FullAtParen(A, u);
    assert [LPar][..0] == [];
  }

  lemma FullAtEquals<V>(A: Algebra<V>, s: State<V>)
    requires |s.nums| == STACKMAX && s.ops == [] && s.entered == 1
    ensures Press(A, s, Equals).entered == 3
  {
  }

  // ---------- how large an expression may be ----------

  /** The operators and parentheses of an expression. */
  function Marks<V>(e: Expr<V>): nat {
    match e
    case Leaf(_) => 0
    case Paren(e1) => 1 + Marks(e1)
    case Node(_, l, r) => 1 + Marks(l) + Marks(r)
  }

  lemma {:induction false} OpsTypedBound<V>(e: Expr<V>, os: seq<Op>)
    ensures |OpsTyped(e, os)| <= |os| + Marks(e)
  {
    match e
    case Leaf(_) =>
    case Paren(_) =>
    case Node(op, l, r) =>
      OpsTypedBound(l, os);
      OpsTypedBound(r, OpsArrive(OpsTyped(l, os), op));
  }

  /** Up to 31 operators and pairs of parentheses fit the stacks, however they are nested. */
  lemma {:induction false} SmallFits<V>(e: Expr<V>, os: seq<Op>, nOps: nat, nNums: nat)
    requires nOps + |os| + Marks(e) < STACKMAX && nNums + |os| + Marks(e) < STACKMAX
    ensures Fits(e, os, nOps, nNums) && nNums + |OpsTyped(e, os)| + 1 <= STACKMAX
  {
    OpsTypedBound(e, os);
    match e
    case Leaf(_) =>
    case Paren(e1) =>
      SmallFits(e1, [], nOps + |os| + 1, nNums + |os|);
    case Node(op, l, r) =>
      OpsTypedBound(l, os);
      SmallFits(l, os, nOps, nNums);
      SmallFits(r, OpsArrive(OpsTyped(l, os), op), nOps, nNums);
  }
}
