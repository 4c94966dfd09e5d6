/** The infix engine of the calculator: two bounded stacks driven by key presses.
    Arithmetic is a parameter, so nothing here depends on how numbers are represented. */
module Calc {

  datatype Op = Add | Sub | Mul | Div | Pow | Mod | And | Or | Xor | Shl | Shr

  datatype Slot = LPar | Pending(op: Op)

  datatype Key<V> = Digits(v: V) | Binary(op: Op) | LParen | RParen | Equals

  /** What the two-operand keys compute, and the number an empty stack yields. */
  datatype Algebra<!V> = Algebra(apply: (Op, V, V) -> V, zero: V)

  const STACKMAX: nat := 32

  /** `entered`: 0 nothing typed yet, 1 the display holds the number, 2 `dnum` does, 3 error. */
  datatype State<V> = State(
    entered: int,
    disp: V,
    dnum: V,
    ops: seq<Slot>,
    nums: seq<V>,
    paren: int)

  function Priority(op: Op): int {
    match op
    case Pow => 6
    case Mul | Div | Mod => 5
    case Add | Sub => 4
    case Shl | Shr => 3
    case And => 2
    case Xor => 1
    case Or => 0
  }

  // ---------- stacks ----------

  function PushOp<V>(s: State<V>, o: Slot): State<V> {
    if |s.ops| == STACKMAX then s.(entered := 3) else s.(ops := s.ops + [o])
  }

  function DropOp<V>(s: State<V>): State<V>
    requires s.ops != []
  {
    s.(ops := s.ops[..|s.ops| - 1])
  }

  function PushNum<V>(s: State<V>, v: V): State<V> {
    if |s.nums| == STACKMAX then s.(entered := 3) else s.(nums := s.nums + [v])
  }

  function PopNum<V>(A: Algebra<V>, s: State<V>): (V, State<V>) {
    if s.nums == [] then (A.zero, s.(entered := 3))
    else (s.nums[|s.nums| - 1], s.(nums := s.nums[..|s.nums| - 1]))
  }

  /** The number the next operation works on. */
  function Current<V>(s: State<V>): V {
    if s.entered == 1 then s.disp else s.dnum
  }

  // ---------- keys ----------

  function TwoOp<V>(A: Algebra<V>, s: State<V>, op: Op): State<V> {
    if s.entered == 0 then
      PushOp(if s.ops != [] then DropOp(s) else s, Pending(op))
    else
      AfterNumber(A, s.(dnum := Current(s), entered := 0), op)
  }

  /** An operator key after a number. */
  function AfterNumber<V>(A: Algebra<V>, s: State<V>, op: Op): State<V> {
    if s.ops == [] then
      PushNum(PushOp(s, Pending(op)), s.dnum)
    else
      AfterOperator(A, DropOp(s), s.ops[|s.ops| - 1], op)
  }

  /** ... with `last` just taken off the operator stack. */
  function AfterOperator<V>(A: Algebra<V>, s: State<V>, last: Slot, op: Op): State<V> {
    if last.LPar? then
      PushNum(PushOp(PushOp(s, LPar), Pending(op)), s.dnum)
    else if Priority(op) > Priority(last.op) then
      PushOp(PushOp(PushNum(s, s.dnum), last), Pending(op))
    else
      CarryOut(A, s, last.op, op)
  }

  /** The previous operator is carried out once, and `op` becomes the pending one. */
  function CarryOut<V>(A: Algebra<V>, s: State<V>, last: Op, op: Op): State<V> {
    var (a, s1) := PopNum(A, s);
    var r := A.apply(last, a, s1.dnum);
    PushOp(PushNum(s1, r), Pending(op)).(disp := r, dnum := r)
  }

  /** One turn of the loop behind `=`: the top operator consumes the two top numbers. */
  function EqualsStep<V>(A: Algebra<V>, s: State<V>): State<V>
    requires s.ops != []
  {
    var (d, s1) := PopNum(A, s);
    var (a, s2) := PopNum(A, s1);
    Combine(A, DropOp(s2), s2.ops[|s2.ops| - 1], a, d)
  }

  function Combine<V>(A: Algebra<V>, s: State<V>, last: Slot, a: V, d: V): State<V> {
    match last
    case LPar =>
      var s1 := PushNum(s.(paren := s.paren - 1), a);
      PushNum(s1.(dnum := a), a)
    case Pending(op) =>
      var r := A.apply(op, a, d);
      PushNum(s.(dnum := r), r)
  }

  function EqualsLoop<V>(A: Algebra<V>, s: State<V>): State<V>
    decreases |s.ops|
  {
    if s.ops == [] then s else EqualsLoop(A, EqualsStep(A, s))
  }

  function EqualsKey<V>(A: Algebra<V>, s: State<V>): State<V> {
    if s.entered == 0 then s
    else
      var s1 := s.(dnum := Current(s), entered := 2);
      var s2 := EqualsLoop(A, PushNum(s1, s1.dnum));
      s2.(disp := s2.dnum)
  }

  function LParenKey<V>(s: State<V>): State<V> {
    var s1 := PushOp(s, LPar);
    s1.(paren := s1.paren + 1)
  }

  function RParenLoop<V>(A: Algebra<V>, s: State<V>): State<V>
    decreases |s.ops|
  {
    if s.ops == [] then s
    else if s.ops[|s.ops| - 1].LPar? then DropOp(s)
    else RParenLoop(A, EqualsStep(A, s))
  }

  function RParenKey<V>(A: Algebra<V>, s: State<V>): State<V> {
    if s.entered == 0 || s.paren == 0 then s
    else
      var s1 := s.(dnum := Current(s), entered := 2);
      var s2 := RParenLoop(A, PushNum(s1, s1.dnum));
      var (_, s3) := PopNum(A, s2);
      s3.(paren := s3.paren - 1, entered := 2, disp := s3.dnum)
  }

  /** After an error every key is refused until CLR or OFF. */
  function Press<V>(A: Algebra<V>, s: State<V>, k: Key<V>): State<V> {
    if s.entered == 3 then s
    else match k
      case Digits(v) => s.(disp := v, entered := 1)
      case Binary(op) => TwoOp(A, s, op)
      case LParen => LParenKey(s)
      case RParen => RParenKey(A, s)
      case Equals => EqualsKey(A, s)
  }

  function PressAll<V>(A: Algebra<V>, s: State<V>, ks: seq<Key<V>>): State<V>
    decreases |ks|
  {
    if ks == [] then s else PressAll(A, Press(A, s, ks[0]), ks[1..])
  }

  lemma {:induction false} PressAllConcat<V>(A: Algebra<V>, s: State<V>, ks: seq<Key<V>>, ls: seq<Key<V>>)
    ensures PressAll(A, s, ks + ls) == PressAll(A, PressAll(A, s, ks), ls)
    decreases |ks|
  {
    if ks == [] {
      assert ks + ls == ls;
    } else {
      assert (ks + ls)[1..] == ks[1..] + ls && (ks + ls)[0] == ks[0];
      PressAllConcat(A, Press(A, s, ks[0]), ks[1..], ls);
    }
  }

  lemma StepShrinks<V>(A: Algebra<V>, s: State<V>)
    requires s.ops != []
    ensures |EqualsStep(A, s).ops| < |s.ops|
  {
  }

  /** One turn of the loops of `=` and `)`, and their ends. */
  lemma LoopsTurn<V>(A: Algebra<V>, s: State<V>)
    ensures s.ops != [] ==> |EqualsStep(A, s).ops| < |s.ops|
    ensures EqualsLoop(A, s) == if s.ops == [] then s else EqualsLoop(A, EqualsStep(A, s))
    ensures RParenLoop(A, s) ==
      if s.ops == [] then s else if s.ops[|s.ops| - 1].LPar? then DropOp(s) else RParenLoop(A, EqualsStep(A, s))
  {
    hide EqualsStep;
    if s.ops != [] {
      StepShrinks(A, s);
    }
  }

  // ---------- the engine as the program holds it ----------

  /** The calculator's static variables; every key updates them in place. */
  class Engine<V> {
    const A: Algebra<V>
    var entered: int
    var disp: V
    var dnum: V
    var acc: V
    var opstack: array<Slot>
    var opsp: nat
    var numstack: array<V>
    var numsp: nat
    var flagParen: int
    ghost var ops: seq<Slot>   // what the operator stack holds
    ghost var nums: seq<V>     // what the number stack holds

    ghost predicate Valid()
      reads this, opstack, numstack
    {
      && opstack.Length == STACKMAX && numstack.Length == STACKMAX
      && opstack as object != numstack as object
      && opsp <= STACKMAX && numsp <= STACKMAX
      && ops == opstack[..opsp] && nums == numstack[..numsp]
    }

    ghost function View(): State<V>
      reads this
    {
      State(entered, disp, dnum, ops, nums, flagParen)
    }

    constructor (A: Algebra<V>)
      ensures Valid() && fresh(opstack) && fresh(numstack)
      ensures View() == State(1, A.zero, A.zero, [], [], 0)
    {
      this.A := A;
      entered, opsp, numsp, flagParen := 1, 0, 0, 0;
      disp, dnum, acc, ops, nums := A.zero, A.zero, A.zero, [], [];
      opstack := new Slot[STACKMAX](_ => LPar);
      numstack := new V[STACKMAX](_ => A.zero);
    }

    method DoPushOp(o: Slot)
      requires Valid()
      modifies `entered, `opsp, `ops, opstack
      ensures Valid() && View() == PushOp(old(View()), o)
    {
      if opsp == STACKMAX {
        entered := 3;
      } else {
        opstack[opsp] := o;
        opsp := opsp + 1;
        ops := ops + [o];
      }
    }

    /** PopOp: the top operator, or the error state when there is none. */
    method DoPopOp() returns (found: bool, o: Slot)
      requires Valid()
      modifies `entered, `opsp, `ops
      ensures Valid() && (found <==> old(ops) != [])
      ensures found ==> View() == DropOp(old(View())) && o == old(ops)[|old(ops)| - 1]
      ensures !found ==> View() == old(View()).(entered := 3)
    {
      if opsp == 0 {
        entered := 3;
        return false, LPar;
      }
      opsp := opsp - 1;
      found, o := true, opstack[opsp];
      ops := ops[..opsp];
    }

    method DoPushNum(v: V)
      requires Valid()
      modifies `entered, `numsp, `nums, numstack
      ensures Valid() && View() == PushNum(old(View()), v)
    {
      if numsp == STACKMAX {
        entered := 3;
      } else {
        numstack[numsp] := v;
        numsp := numsp + 1;
        nums := nums + [v];
      }
    }

    method DoPopNum() returns (v: V)
      requires Valid()
      modifies `entered, `numsp, `nums
      ensures Valid() && (v, View()) == PopNum(A, old(View()))
    {
      if numsp == 0 {
        entered := 3;
        v := A.zero;
      } else {
        numsp := numsp - 1;
        v := numstack[numsp];
        nums := nums[..numsp];
      }
    }

    method KeepAndPush(last: Slot, op: Op)
      requires Valid()
      modifies `entered, `opsp, `ops, opstack
      ensures Valid() && View() == PushOp(PushOp(old(View()), last), Pending(op))
    {
      DoPushOp(last);
      DoPushOp(Pending(op));
    }

    /** Carries out the previous operator, then makes `op` the pending one. */
    method ReplaceTop(last: Op, op: Op)
      requires Valid()
      modifies this, opstack, numstack
      ensures Valid() && opstack == old(opstack) && numstack == old(numstack)
      ensures View() == CarryOut(A, old(View()), last, op)
    {
      ApplyToTop(last);
      DoPushOp(Pending(op));
      disp := acc;
      dnum := acc;
    }

    /** The top number and `dnum` become one number on the stack. */
    method ApplyToTop(last: Op)
      requires Valid()
      modifies `acc, `entered, `numsp, `nums, numstack
      ensures Valid()
      ensures var (a, s) := PopNum(A, old(View())); acc == A.apply(last, a, dnum) && View() == PushNum(s, acc)
    {
      acc := DoPopNum();
      acc := A.apply(last, acc, dnum);
      DoPushNum(acc);
    }

    method TwoOpPressed(op: Op)
      requires Valid()
      modifies this, opstack, numstack
      ensures Valid() && opstack == old(opstack) && numstack == old(numstack)
      ensures View() == TwoOp(A, old(View()), op)
    {
      if entered == 0 {
        if opsp != 0 {
          var _, _ := DoPopOp();
        }
        DoPushOp(Pending(op));
        return;
      }
      if entered == 1 {
        dnum := disp;
      }
      entered := 0;
      TwoOpOnNumber(op);
    }

    method TwoOpOnNumber(op: Op)
      requires Valid()
      modifies this, opstack, numstack
      ensures Valid() && opstack == old(opstack) && numstack == old(numstack)
      ensures View() == AfterNumber(A, old(View()), op)
    {
      if opsp != 0 {
        var _, last := DoPopOp();
        TwoOpAfter(last, op);
      } else {
        DoPushOp(Pending(op));
        DoPushNum(dnum);
      }
    }

    /** The branches of an operator key that found `last` on the stack. */
    method TwoOpAfter(last: Slot, op: Op)
      requires Valid()
      modifies this, opstack, numstack
      ensures Valid() && opstack == old(opstack) && numstack == old(numstack)
      ensures View() == AfterOperator(A, old(View()), last, op)
    {
      if last.LPar? {
        KeepAndPush(last, op);
        DoPushNum(dnum);
      } else if Priority(op) > Priority(last.op) {
        DoPushNum(dnum);
        KeepAndPush(last, op);
      } else {
        ReplaceTop(last.op, op);
      }
    }

    /** The body shared by the loops of `=` and `)`. */
    method ReduceTop()
      requires Valid() && opsp != 0
      modifies this, opstack, numstack
      ensures Valid() && opstack == old(opstack) && numstack == old(numstack)
      ensures View() == EqualsStep(A, old(View()))
    {
      var d := DoPopNum();
      var a := DoPopNum();
      var _, last := DoPopOp();
      CombineTop(last, a, d);
    }

    method CombineTop(last: Slot, a: V, d: V)
      requires Valid()
      modifies this, numstack
      ensures Valid() && opstack == old(opstack) && numstack == old(numstack)
      ensures View() == Combine(A, old(View()), last, a, d)
    {
      match last {
        case LPar =>
          acc := a;
          flagParen := flagParen - 1;
          DoPushNum(acc);
        case Pending(op) =>
          acc := A.apply(op, a, d);
      }
      dnum := acc;
      DoPushNum(dnum);
    }

    method EqualsPressed()
      requires Valid()
      modifies this, opstack, numstack
      ensures Valid() && opstack == old(opstack) && numstack == old(numstack)
      ensures View() == EqualsKey(A, old(View()))
    {
      if entered == 0 {
        return;
      }
      if entered == 1 {
        dnum := disp;
      }
      entered := 2;
      DoPushNum(dnum);
      DoAllPending();
      disp := dnum;
    }

    /** The loop of `=`: do every pending operator. */
    method DoAllPending()
      requires Valid()
      modifies this, opstack, numstack
      ensures Valid() && opstack == old(opstack) && numstack == old(numstack)
      ensures View() == EqualsLoop(A, old(View()))
    {
      hide EqualsLoop, EqualsStep;
      while opsp != 0
        invariant Valid() && opstack == old(opstack) && numstack == old(numstack)
        invariant EqualsLoop(A, View()) == EqualsLoop(A, old(View()))
        decreases opsp
      {
        LoopsTurn(A, View());
        ReduceTop();
      }
      LoopsTurn(A, View());
    }

    method LParenPressed()
      requires Valid()
      modifies this, opstack
      ensures Valid() && opstack == old(opstack) && numstack == old(numstack)
      ensures View() == LParenKey(old(View()))
    {
      DoPushOp(LPar);
      flagParen := flagParen + 1;
    }

    method RParenPressed()
      requires Valid()
      modifies this, opstack, numstack
      ensures Valid() && opstack == old(opstack) && numstack == old(numstack)
      ensures View() == RParenKey(A, old(View()))
    {
      if entered == 0 || flagParen == 0 {
        return;
      }
      if entered == 1 {
        dnum := disp;
      }
      entered := 2;
      DoPushNum(dnum);
      CloseGroup();
      var _ := DoPopNum();
      flagParen := flagParen - 1;
      entered := 2;
      disp := dnum;
    }

    /** The loop of `)`: do everything pending back to the left parenthesis, and remove that. */
    method CloseGroup()
      requires Valid()
      modifies this, opstack, numstack
      ensures Valid() && opstack == old(opstack) && numstack == old(numstack)
      ensures View() == RParenLoop(A, old(View()))
    {
      hide RParenLoop, EqualsStep, EqualsLoop;
      while opsp != 0
        invariant Valid() && opstack == old(opstack) && numstack == old(numstack)
        invariant RParenLoop(A, View()) == RParenLoop(A, old(View()))
        decreases opsp
      {
        LoopsTurn(A, View());
        if opstack[opsp - 1].LPar? {
          var _, _ := DoPopOp();
          return;
        }
        ReduceTop();
      }
      LoopsTurn(A, View());
    }
  }
}
