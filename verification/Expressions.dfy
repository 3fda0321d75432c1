/**
 Expressions of the plotting evaluator, their meaning, and their postfix code with relative jumps.
 */
module Expressions {
  import opened MachineInts
  import opened Values

  datatype Unary = Uminus | Lnot

  datatype ArithOp = Plus | Minus | Mult

  datatype CompareOp = Eq | Ne | Gt | Lt | Ge | Le

  datatype Binary = Arith(aop: ArithOp) | Div | Mod | Compare(cop: CompareOp) | Lor | Land

  datatype Error = NonInteger | ModNonInteger | FactorialNonInteger | StackOverflow | StackUnderflow

  /** The value of an operation and whether it raised the flag `undefined`, or the error it stops with. */
  datatype Outcome = Val(v: Value, undef: bool) | Fail(error: Error)

  // ---------- operations on values ----------

  /** Arithmetic: on two integers by machine words, else on both operands as complex numbers. */
  function Arithmetic(op: ArithOp, a: Value, b: Value): Value {
    if a.Int? && b.Int? then
      Int(match op case Plus => Wrap(a.i + b.i) case Minus => Wrap(a.i - b.i) case Mult => WordProduct(a.i, b.i))
    else
      var x, y := Promote(a), Promote(b);
      Cmplx(match op case Plus => CAdd(x, y) case Minus => CSub(x, y) case Mult => CMul(x, y))
  }

  /** An integer divided by a complex number; the imaginary part uses the negated machine word. */
  function WordOver(i: Word, y: Complex): Complex
    requires Square(y) != 0.0
  {
    Complex(i as real * y.re / Square(y), Wrap(0 - i) as real * y.im / Square(y))
  }

  /** Division; by zero it yields 0 and raises the flag. */
  function Divide(a: Value, b: Value): (o: Outcome)
    ensures o.Val?
  {
    if a.Int? && b.Int? then
      if b.i == 0 then Val(Int(0), true) else Val(Int(Wrap(Quotient(a.i, b.i))), false)
    else
      var y := Promote(b);
      if Square(y) == 0.0 then Val(Cmplx(ZERO), true)
      else if a.Int? then Val(Cmplx(WordOver(a.i, y)), false)
      else Val(Cmplx(CDiv(a.z, y)), false)
  }

  predicate Compares(op: CompareOp, x: Complex, y: Complex) {
    match op
    case Eq => x == y
    case Ne => x != y
    case Gt => x.re > y.re
    case Lt => x.re < y.re
    case Ge => x.re >= y.re
    case Le => x.re <= y.re
  }

  function Apply2(op: Binary, a: Value, b: Value): Outcome {
    match op
    case Arith(o) => Val(Arithmetic(o, a, b), false)
    case Compare(o) => Val(FromBool(Compares(o, Promote(a), Promote(b))), false)
    case Div => Divide(a, b)
    case Mod =>
      if !a.Int? || !b.Int? then Fail(ModNonInteger)
      else if b.i == 0 then Val(Int(0), true)
      else Val(Int(Wrap(Remainder(a.i, b.i))), false)
    case Lor => if !a.Int? || !b.Int? then Fail(NonInteger) else Val(FromBool(a.i != 0 || b.i != 0), false)
    case Land => if !a.Int? || !b.Int? then Fail(NonInteger) else Val(FromBool(a.i != 0 && b.i != 0), false)
  }

  function Apply1(op: Unary, a: Value): Outcome {
    match op
    case Uminus => Val(match a case Int(i) => Int(Wrap(0 - i)) case Cmplx(z) => Cmplx(CNeg(z)), false)
    case Lnot => if a.Int? then Val(FromBool(a.i == 0), false) else Fail(NonInteger)
  }

  function ToBool(a: Value): Outcome {
    if a.Int? then Val(FromBool(a.i != 0), false) else Fail(NonInteger)
  }

  // ---------- mixed operands ----------

  /** Both components of a quotient with a real dividend. */
  lemma RealDividend(n: real, m: real, y: Complex)
    requires Square(y) != 0.0 && m == -n
    ensures CDiv(Complex(n, 0.0), y) == Complex(n * y.re / Square(y), m * y.im / Square(y))
  {
    assert n * y.re + 0.0 * y.im == n * y.re;
    assert 0.0 * y.re - n * y.im == m * y.im;
  }

  lemma WordDividend(i: Word, y: Complex)
    requires Square(y) != 0.0 && i != -0x8000_0000
    ensures WordOver(i, y) == CDiv(Complex(i as real, 0.0), y)
  {
    hide CDiv, Square;
    var m := Wrap(0 - i);
    assert m == 0 - i;
    RealDividend(i as real, m as real, y);
  }

  lemma LeastDividend(y: Complex)
    requires Square(y) != 0.0
    ensures WordOver(-0x8000_0000, y) == CDiv(Complex(-0x8000_0000 as real, 0.0), y) <==> y.im == 0.0
  {
    hide CDiv, Square;
    var n, s := -0x8000_0000 as real, Square(y);
    assert Wrap(0x8000_0000) == -0x8000_0000;
    RealDividend(n, -n, y);
    OppositeQuotients(n, y.im, s);
  }

  /** With the least word the imaginary part has the wrong sign: the quotient is the one by the conjugate. */
  lemma LeastOver(y: Complex)
    requires Square(y) != 0.0
    ensures var bar := Complex(y.re, -y.im);
      Square(bar) == Square(y) && WordOver(-0x8000_0000, y) == CDiv(Complex(-0x8000_0000 as real, 0.0), bar)
  {
    var n, bar := -0x8000_0000 as real, Complex(y.re, -y.im);
    assert Sq(-y.im) == Sq(y.im);
    assert Wrap(0x8000_0000) == -0x8000_0000;
    hide CDiv, Square;
    RealDividend(n, -n, bar);
    assert (-n) * bar.im == n * y.im;
  }

  lemma RealDivisor(z: Complex, n: real)
    requires n != 0.0
    ensures Square(Complex(n, 0.0)) != 0.0
    ensures CDiv(z, Complex(n, 0.0)) == DivideBy(z, n)
  {
    var b := Complex(n, 0.0);
    SquareZero(b);
    var q := DivideBy(z, n);
    QuotientTimes(z.re, n);
    QuotientTimes(z.im, n);
    assert CMul(q, b) == z;
    CancelComplex(CDiv(z, b), q, z, b);
  }

  /** A complex quotient is determined by its product with the divisor. */
  lemma CancelComplex(p: Complex, q: Complex, z: Complex, b: Complex)
    requires Square(b) != 0.0 && p == CDiv(z, b) && CMul(q, b) == z
    ensures p == q
  {
    var s := Square(b);
    assert (q.re * b.re - q.im * b.im) * b.re + (q.re * b.im + q.im * b.re) * b.im == q.re * s;
    assert (q.re * b.im + q.im * b.re) * b.re - (q.re * b.re - q.im * b.im) * b.im == q.im * s;
    QuotientTimes(q.re * s, s);
    QuotientTimes(q.im * s, s);
    CancelFactor(p.re, q.re, s);
    CancelFactor(p.im, q.im, s);
  }

  lemma OppositeQuotients(n: real, y: real, s: real)
    requires n != 0.0 && s != 0.0
    ensures n * y / s == (-n) * y / s <==> y == 0.0
  {
    if y != 0.0 {
      NonzeroProduct(n, y);
      QuotientTimes(n * y, s);
      QuotientTimes((-n) * y, s);
      assert (-n) * y == -(n * y);
    }
  }

  /** In a mixed quotient the integer counts as a complex number, unless it is the least word and the divisor is not real. */
  lemma MixedDivision(a: Value, b: Value)
    requires !(a.Int? && b.Int?) && Square(Promote(b)) != 0.0
    ensures Divide(a, b) == Val(Cmplx(CDiv(Promote(a), Promote(b))), false) <==>
            !(a == Int(-0x8000_0000) && Promote(b).im != 0.0)
  {
    hide CDiv, Square, WordOver;
    if a.Int? {
      if a.i == -0x8000_0000 { LeastDividend(b.z); } else { WordDividend(a.i, b.z); }
    }
  }

  // ---------- expressions and their meaning ----------

  datatype Expr =
    | Const(v: Value)
    | Un(uop: Unary, e: Expr)
    | Bin(bop: Binary, l: Expr, r: Expr)
    | And(l: Expr, r: Expr)
    | Or(l: Expr, r: Expr)
    | Cond(test: Expr, yes: Expr, no: Expr)

  function Raise(o: Outcome, undef: bool): Outcome {
    match o case Val(v, u) => Val(v, undef || u) case Fail(_) => o
  }

  /** The meaning: operands left to right, the right of && and || and the branches of ?: only when needed. */
  function Eval(e: Expr): Outcome {
    match e
    case Const(v) => Val(v, false)
    case Un(op, e1) =>
      (match Eval(e1)
       case Fail(x) => Fail(x)
       case Val(v, u) => Raise(Apply1(op, v), u))
    case Bin(op, l, r) =>
      (match Eval(l)
       case Fail(x) => Fail(x)
       case Val(a, u) =>
         match Eval(r)
         case Fail(x) => Fail(x)
         case Val(b, u') => Raise(Apply2(op, a, b), u || u'))
    case And(l, r) =>
      (match Eval(l)
       case Fail(x) => Fail(x)
       case Val(a, u) =>
         if !a.Int? then Fail(NonInteger)
         else if a.i == 0 then Val(Int(0), u)
         else match Eval(r)
              case Fail(x) => Fail(x)
              case Val(b, u') => Raise(ToBool(b), u || u'))
    case Or(l, r) =>
      (match Eval(l)
       case Fail(x) => Fail(x)
       case Val(a, u) =>
         if !a.Int? then Fail(NonInteger)
         else if a.i != 0 then Val(Int(1), u)
         else match Eval(r)
              case Fail(x) => Fail(x)
              case Val(b, u') => Raise(ToBool(b), u || u'))
    case Cond(c, t, f) =>
      (match Eval(c)
       case Fail(x) => Fail(x)
       case Val(a, u) =>
         if !a.Int? then Fail(NonInteger)
         else Raise(if a.i != 0 then Eval(t) else Eval(f), u))
  }

  /** The value of the right operand of && and ||, made 0 or 1. */
  function AsBool(o: Outcome): Outcome {
    match o case Val(v, u) => Raise(ToBool(v), u) case Fail(_) => o
  }

  /** What && and || come to once the left operand is known, with the outcome of the right one if it is needed. */
  function AfterLeft(conj: bool, a: Value, right: Outcome): Outcome {
    if !a.Int? then Fail(NonInteger) else if (a.i == 0) == conj then ToBool(a) else AsBool(right)
  }

  // ---------- code ----------

  datatype Instr =
    | PushC(v: Value)
    | Op1(uop: Unary)
    | Op2(bop: Binary)
    | Bool
    | Jump(off: int)
    | Jumpz(off: int)
    | Jumpnz(off: int)
    | Jtern(off: int)

  predicate IsJump(i: Instr) {
    i.Jump? || i.Jumpz? || i.Jumpnz? || i.Jtern?
  }

  function Code(e: Expr): (c: seq<Instr>)
    ensures |c| > 0
  {
    match e
    case Const(v) => [PushC(v)]
    case Un(op, e1) => Code(e1) + [Op1(op)]
    case Bin(op, l, r) => Code(l) + Code(r) + [Op2(op)]
    case And(l, r) => Code(l) + [Jumpz(|Code(r)| + 1)] + Code(r) + [Bool]
    case Or(l, r) => Code(l) + [Jumpnz(|Code(r)| + 1)] + Code(r) + [Bool]
    case Cond(c, t, f) => Code(c) + [Jtern(|Code(t)| + 2)] + Code(t) + [Jump(|Code(f)| + 1)] + Code(f)
  }

  /** Cells the code of e needs above the stack it starts from. */
  function Need(e: Expr): (n: nat)
    ensures n >= 1
  {
    match e
    case Const(_) => 1
    case Un(_, e1) => Need(e1)
    case Bin(_, l, r) => Max(Need(l), 1 + Need(r))
    case And(l, r) => Max(Need(l), Need(r))
    case Or(l, r) => Max(Need(l), Need(r))
    case Cond(c, t, f) => Max(Need(c), Max(Need(t), Need(f)))
  }

  function Max(a: nat, b: nat): nat {
    if a < b then b else a
  }

  // ---------- the machine ----------

  datatype State = State(stack: seq<Value>, undef: bool)

  /** What one instruction does: the new state and the distance to the next instruction. */
  datatype Effect = Next(st: State, off: int) | Stop(error: Error)

  function Pushed(st: State, below: nat, o: Outcome): Effect
    requires below <= |st.stack|
  {
    match o
    case Val(v, u) => Next(State(st.stack[..below] + [v], st.undef || u), 1)
    case Fail(x) => Stop(x)
  }

  /** One instruction on a stack of at most depth cells. */
  function Step(i: Instr, st: State, depth: nat): Effect {
    var n := |st.stack|;
    match i
    case PushC(v) => if n >= depth then Stop(StackOverflow) else Next(State(st.stack + [v], st.undef), 1)
    case Op1(op) => if n < 1 then Stop(StackUnderflow) else Pushed(st, n - 1, Apply1(op, st.stack[n - 1]))
    case Op2(op) =>
      if n < 2 then Stop(StackUnderflow) else Pushed(st, n - 2, Apply2(op, st.stack[n - 2], st.stack[n - 1]))
    case Bool => if n < 1 then Stop(StackUnderflow) else Pushed(st, n - 1, ToBool(st.stack[n - 1]))
    case Jump(off) => Next(st, off)
    case Jumpz(off) =>
      if n < 1 then Stop(StackUnderflow)
      else if !st.stack[n - 1].Int? then Stop(NonInteger)
      else if st.stack[n - 1].i != 0 then Next(st.(stack := st.stack[..n - 1]), 1)
      else Next(st, off)
    case Jumpnz(off) =>
      if n < 1 then Stop(StackUnderflow)
      else if !st.stack[n - 1].Int? then Stop(NonInteger)
      else if st.stack[n - 1].i != 0 then Next(st, off)
      else Next(st.(stack := st.stack[..n - 1]), 1)
    case Jtern(off) =>
      if n < 1 then Stop(StackUnderflow)
      else if !st.stack[n - 1].Int? then Stop(NonInteger)
      else Next(st.(stack := st.stack[..n - 1]), if st.stack[n - 1].i != 0 then 1 else off)
  }

  /** Jumps go forward, as in all code made from expressions. */
  predicate Forward(code: seq<Instr>) {
    forall i :: 0 <= i < |code| && IsJump(code[i]) ==> code[i].off > 0
  }

  datatype Result = Done(st: State) | Halted(error: Error)

  /** Running code from instruction pc on until it falls off the end. */
  function Run(code: seq<Instr>, pc: nat, st: State, depth: nat): Result
    requires Forward(code)
    decreases |code| - pc
  {
    if pc >= |code| then Done(st)
    else
      match Step(code[pc], st, depth)
      case Stop(x) => Halted(x)
      case Next(st', off) => Run(code, pc + off, st', depth)
  }

  /** Code c stands in code at instruction pc. */
  ghost predicate At(code: seq<Instr>, pc: nat, c: seq<Instr>) {
    pc + |c| <= |code| && code[pc..pc + |c|] == c
  }

  lemma AtParts(code: seq<Instr>, pc: nat, c: seq<Instr>, d: seq<Instr>)
    requires At(code, pc, c + d)
    ensures At(code, pc, c) && At(code, pc + |c|, d)
  {
    assert code[pc..pc + |c|] == (c + d)[..|c|];
    assert code[pc + |c|..pc + |c| + |d|] == (c + d)[|c|..];
  }

  lemma AtOne(code: seq<Instr>, pc: nat, i: Instr)
    requires At(code, pc, [i])
    ensures pc < |code| && code[pc] == i
  {
    assert code[pc] == code[pc..pc + 1][0];
  }

  lemma {:induction false} CodeIsForward(e: Expr)
    ensures Forward(Code(e))
  {
    match e
    case Const(_) =>
    case Un(_, e1) => CodeIsForward(e1);
    case Bin(_, l, r) => CodeIsForward(l); CodeIsForward(r);
    case And(l, r) => CodeIsForward(l); CodeIsForward(r);
    case Or(l, r) => CodeIsForward(l); CodeIsForward(r);
    case Cond(c, t, f) => CodeIsForward(c); CodeIsForward(t); CodeIsForward(f);
  }

  /** Going on at end with a value on top of the cells below, or halting with an error. */
  function Continue(code: seq<Instr>, end: nat, below: seq<Value>, undef: bool, o: Outcome, depth: nat): Result
    requires Forward(code)
  {
    match o
    case Fail(x) => Halted(x)
    case Val(v, u) => Run(code, end, State(below + [v], undef || u), depth)
  }

  lemma ContinueRaised(code: seq<Instr>, end: nat, below: seq<Value>, undef: bool, o: Outcome, u: bool, depth: nat)
    requires Forward(code)
    ensures Continue(code, end, below, undef || u, o, depth) == Continue(code, end, below, undef, Raise(o, u), depth)
  {
    hide Run, Forward;
  }

  /** The run goes on behind the code of e with e's value on top, or halts with e's error. */
  ghost predicate RunsTo(code: seq<Instr>, pc: nat, end: nat, o: Outcome, st: State, depth: nat)
    requires Forward(code)
  {
    Run(code, pc, st, depth) == Continue(code, end, st.stack, st.undef, o, depth)
  }

  lemma RunsToWhat(code: seq<Instr>, pc: nat, end: nat, o: Outcome, st: State, depth: nat)
    requires Forward(code) && RunsTo(code, pc, end, o, st, depth)
    ensures o.Fail? ==> Run(code, pc, st, depth) == Halted(o.error)
    ensures o.Val? ==> Run(code, pc, st, depth) == Run(code, end, State(st.stack + [o.v], st.undef || o.undef), depth)
  {
    hide Run, Forward;
  }

  lemma ContinueFails(code: seq<Instr>, end: nat, below: seq<Value>, undef: bool, x: Error, depth: nat)
    requires Forward(code)
    ensures Continue(code, end, below, undef, Fail(x), depth) == Halted(x)
  {
    hide Run, Forward;
  }

  lemma RunOne(code: seq<Instr>, pc: nat, i: Instr, st: State, depth: nat)
    requires Forward(code) && At(code, pc, [i])
    ensures var step := Step(i, st, depth);
      && (step.Stop? ==> Run(code, pc, st, depth) == Halted(step.error))
      && (step.Next? ==> step.off > 0 && Run(code, pc, st, depth) == Run(code, pc + step.off, step.st, depth))
  {
    AtOne(code, pc, i);
  }

  /** An instruction that replaces the top cells by one. */
  lemma RunPushed(code: seq<Instr>, pc: nat, i: Instr, below: seq<Value>, top: seq<Value>, undef: bool, o: Outcome, depth: nat)
    requires Forward(code) && At(code, pc, [i])
    requires Step(i, State(below + top, undef), depth) == Pushed(State(below + top, undef), |below|, o)
    ensures Run(code, pc, State(below + top, undef), depth) == Continue(code, pc + 1, below, undef, o, depth)
  {
    hide Run, Step;
    RunOne(code, pc, i, State(below + top, undef), depth);
    assert (below + top)[..|below|] == below;
  }

  /** Running the code of any expression, anywhere in a program, from any stack with room for it. */
  lemma {:induction false} CodeRuns(e: Expr, code: seq<Instr>, pc: nat, st: State, depth: nat)
    requires Forward(code) && At(code, pc, Code(e)) && |st.stack| + Need(e) <= depth
    ensures RunsTo(code, pc, pc + |Code(e)|, Eval(e), st, depth)
    decreases e, 1
  {
    match e
    case Const(v) => RunOne(code, pc, PushC(v), st, depth);
    case Un(_, _) => UnRuns(e, code, pc, st, depth);
    case Bin(_, _, _) => BinRuns(e, code, pc, st, depth);
    case And(_, _) => AndRuns(e, code, pc, st, depth);
    case Or(_, _) => OrRuns(e, code, pc, st, depth);
    case Cond(_, _, _) => CondRuns(e, code, pc, st, depth);
  }

  lemma {:induction false} UnRuns(e: Expr, code: seq<Instr>, pc: nat, st: State, depth: nat)
    requires e.Un?
    requires Forward(code) && At(code, pc, Code(e)) && |st.stack| + Need(e) <= depth
    ensures RunsTo(code, pc, pc + |Code(e)|, Eval(e), st, depth)
    decreases e, 0
  {
    hide Run, At, Forward, Apply1;
    AtParts(code, pc, Code(e.e), [Op1(e.uop)]);
    CodeRuns(e.e, code, pc, st, depth);
    var o := Eval(e.e);
    if o.Val? {
      RunPushed(code, pc + |Code(e.e)|, Op1(e.uop), st.stack, [o.v], st.undef || o.undef, Apply1(e.uop, o.v), depth);
    }
  }

  lemma BinaryStep(op: Binary, below: seq<Value>, a: Value, b: Value, undef: bool, depth: nat)
    ensures Step(Op2(op), State(below + [a, b], undef), depth) ==
            Pushed(State(below + [a, b], undef), |below|, Apply2(op, a, b))
  {
    hide Apply2;
  }

  lemma {:induction false} BinRuns(e: Expr, code: seq<Instr>, pc: nat, st: State, depth: nat)
    requires e.Bin?
    requires Forward(code) && At(code, pc, Code(e)) && |st.stack| + Need(e) <= depth
    ensures RunsTo(code, pc, pc + |Code(e)|, Eval(e), st, depth)
    decreases e, 0
  {
    hide Run, At, Forward, Apply2, Step, Pushed;
    var cl, cr := Code(e.l), Code(e.r);
    AtParts(code, pc, cl + cr, [Op2(e.bop)]);
    AtParts(code, pc, cl, cr);
    CodeRuns(e.l, code, pc, st, depth);
    var a := Eval(e.l);
    if a.Val? {
      var st1 := State(st.stack + [a.v], st.undef || a.undef);
      CodeRuns(e.r, code, pc + |cl|, st1, depth);
      var b := Eval(e.r);
      if b.Val? {
        assert st1.stack + [b.v] == st.stack + [a.v, b.v];
        BinaryStep(e.bop, st.stack, a.v, b.v, st1.undef || b.undef, depth);
        RunPushed(code, pc + |cl| + |cr|, Op2(e.bop), st.stack, [a.v, b.v], st1.undef || b.undef,
                  Apply2(e.bop, a.v, b.v), depth);
      }
    }
  }

  /** Jumps look at the top cell: one leaves it for a jump and pops it otherwise, the ternary one always pops it. */
  lemma JumpCases(below: seq<Value>, i: Word, undef: bool, off: int, depth: nat)
    ensures var st, st' := State(below + [Int(i)], undef), State(below, undef);
      && Step(Jumpz(off), st, depth) == (if i == 0 then Next(st, off) else Next(st', 1))
      && Step(Jumpnz(off), st, depth) == (if i == 0 then Next(st', 1) else Next(st, off))
      && Step(Jtern(off), st, depth) == Next(st', if i == 0 then off else 1)
  {
    assert (below + [Int(i)])[..|below|] == below;
  }

  /** On a cell that is no integer they stop. */
  lemma JumpStops(below: seq<Value>, a: Value, undef: bool, off: int, depth: nat)
    requires !a.Int?
    ensures var st := State(below + [a], undef);
      Step(Jumpz(off), st, depth) == Step(Jumpnz(off), st, depth) == Step(Jtern(off), st, depth) == Stop(NonInteger)
  {
  }

  lemma BoolStep(below: seq<Value>, a: Value, undef: bool, depth: nat)
    ensures Step(Bool, State(below + [a], undef), depth) == Pushed(State(below + [a], undef), |below|, ToBool(a))
  {
  }

  /** The parts of the code of && and ||: the jump stands at mid, and off is its distance to the Bool. */
  lemma LogicParts(e: Expr, code: seq<Instr>, pc: nat, mid: nat, off: nat, jump: Instr)
    requires (e.And? || e.Or?) && At(code, pc, Code(e)) && mid == pc + |Code(e.l)| && off == |Code(e.r)| + 1
    requires jump == if e.And? then Jumpz(off) else Jumpnz(off)
    ensures At(code, pc, Code(e.l)) && At(code, mid, [jump])
    ensures At(code, mid + 1, Code(e.r)) && At(code, mid + off, [Bool])
    ensures pc + |Code(e)| == mid + off + 1
  {
    hide At;
    var cl, cr := Code(e.l), Code(e.r);
    AtParts(code, pc, cl + [jump] + cr, [Bool]);
    AtParts(code, pc, cl + [jump], cr);
    AtParts(code, pc, cl, [jump]);
  }

  /** Room and value of && and ||, in terms of their operands. */
  lemma LogicUnfolded(e: Expr)
    requires e.And? || e.Or?
    ensures Need(e) == Max(Need(e.l), Need(e.r))
    ensures Eval(e) ==
            if Eval(e.l).Fail? then Eval(e.l) else Raise(AfterLeft(e.And?, Eval(e.l).v, Eval(e.r)), Eval(e.l).undef)
  {
  }

  lemma {:induction false} AndRuns(e: Expr, code: seq<Instr>, pc: nat, st: State, depth: nat)
    requires e.And?
    requires Forward(code) && At(code, pc, Code(e)) && |st.stack| + Need(e) <= depth
    ensures RunsTo(code, pc, pc + |Code(e)|, Eval(e), st, depth)
    decreases e, 0
  {
    LogicUnfolded(e);
    hide Run, At, Forward, Code, Eval, Need, Raise, AfterLeft, Continue;
    var a, mid, off := Eval(e.l), pc + |Code(e.l)|, |Code(e.r)| + 1;
    var jump := if e.And? then Jumpz(off) else Jumpnz(off);
    LogicParts(e, code, pc, mid, off, jump);
    CodeRuns(e.l, code, pc, st, depth);
    RunsToWhat(code, pc, mid, a, st, depth);
    if a.Fail? {
      ContinueFails(code, pc + |Code(e)|, st.stack, st.undef, a.error, depth);
    } else {
      var o := AfterLeft(e.And?, a.v, Eval(e.r));
      LogicTail(e.And?, e.r, code, mid, off, jump, st.stack, a.v, st.undef || a.undef, depth);
      ContinueRaised(code, mid + off + 1, st.stack, st.undef, o, a.undef, depth);
    }
  }

  lemma {:induction false} OrRuns(e: Expr, code: seq<Instr>, pc: nat, st: State, depth: nat)
    requires e.Or?
    requires Forward(code) && At(code, pc, Code(e)) && |st.stack| + Need(e) <= depth
    ensures RunsTo(code, pc, pc + |Code(e)|, Eval(e), st, depth)
    decreases e, 0
  {
    LogicUnfolded(e);
    hide Run, At, Forward, Code, Eval, Need, Raise, AfterLeft, Continue;
    var a, mid, off := Eval(e.l), pc + |Code(e.l)|, |Code(e.r)| + 1;
    var jump := if e.And? then Jumpz(off) else Jumpnz(off);
    LogicParts(e, code, pc, mid, off, jump);
    CodeRuns(e.l, code, pc, st, depth);
    RunsToWhat(code, pc, mid, a, st, depth);
    if a.Fail? {
      ContinueFails(code, pc + |Code(e)|, st.stack, st.undef, a.error, depth);
    } else {
      var o := AfterLeft(e.And?, a.v, Eval(e.r));
      LogicTail(e.And?, e.r, code, mid, off, jump, st.stack, a.v, st.undef || a.undef, depth);
      ContinueRaised(code, mid + off + 1, st.stack, st.undef, o, a.undef, depth);
    }
  }

  /** From the jump on. */
  lemma {:induction false} LogicTail(conj: bool, r: Expr, code: seq<Instr>, mid: nat, off: nat, jump: Instr, below: seq<Value>,
                                     a: Value, undef: bool, depth: nat)
    requires off == |Code(r)| + 1 && |below| + Need(r) <= depth
    requires Forward(code) && At(code, mid, [jump]) && jump == if conj then Jumpz(off) else Jumpnz(off)
    requires At(code, mid + 1, Code(r)) && At(code, mid + off, [Bool])
    ensures Run(code, mid, State(below + [a], undef), depth) ==
            Continue(code, mid + off + 1, below, undef, AfterLeft(conj, a, Eval(r)), depth)
    decreases r, 4
  {
    hide Run, At, Forward, Step, Code, Eval, Need, ToBool, AsBool;
    if !a.Int? {
      JumpStops(below, a, undef, off, depth);
      RunOne(code, mid, jump, State(below + [a], undef), depth);
    } else {
      JumpCases(below, a.i, undef, off, depth);
      if (a.i == 0) == conj {
        JumpThenBool(code, mid, jump, off, below, a, undef, depth);
      } else {
        PopThenRest(r, code, mid, jump, off, below, a, undef, depth);
      }
    }
  }

  /** A jump that leaves its cell, to a Bool. */
  lemma JumpThenBool(code: seq<Instr>, pc: nat, jump: Instr, off: nat, below: seq<Value>, a: Value, undef: bool, depth: nat)
    requires Forward(code) && At(code, pc, [jump]) && At(code, pc + off, [Bool])
    requires Step(jump, State(below + [a], undef), depth) == Next(State(below + [a], undef), off)
    ensures Run(code, pc, State(below + [a], undef), depth) == Continue(code, pc + off + 1, below, undef, ToBool(a), depth)
  {
    hide Run, At, Forward, Step, Pushed, ToBool, Continue;
    RunOne(code, pc, jump, State(below + [a], undef), depth);
    BoolStep(below, a, undef, depth);
    RunPushed(code, pc + off, Bool, below, [a], undef, ToBool(a), depth);
  }

  /** A jump that pops its cell, with the right operand and a Bool behind it. */
  lemma {:induction false} PopThenRest(r: Expr, code: seq<Instr>, pc: nat, jump: Instr, off: nat, below: seq<Value>, a: Value,
                                       undef: bool, depth: nat)
    requires off == |Code(r)| + 1
    requires Forward(code) && At(code, pc, [jump]) && At(code, pc + 1, Code(r)) && At(code, pc + off, [Bool])
    requires Step(jump, State(below + [a], undef), depth) == Next(State(below, undef), 1) && |below| + Need(r) <= depth
    ensures Run(code, pc, State(below + [a], undef), depth) ==
            Continue(code, pc + off + 1, below, undef, AsBool(Eval(r)), depth)
    decreases r, 3
  {
    hide Run, At, Forward, Step, ToBool, AsBool, Code, Eval, Need, Continue;
    RunOne(code, pc, jump, State(below + [a], undef), depth);
    RestRuns(r, code, pc + 1, State(below, undef), depth);
  }

  /** The right operand of && and || with the Bool behind it. */
  lemma {:induction false} RestRuns(r: Expr, code: seq<Instr>, pc: nat, st: State, depth: nat)
    requires Forward(code) && At(code, pc, Code(r)) && At(code, pc + |Code(r)|, [Bool])
    requires |st.stack| + Need(r) <= depth
    ensures RunsTo(code, pc, pc + |Code(r)| + 1, AsBool(Eval(r)), st, depth)
    decreases r, 2
  {
    hide Run, At, Forward, Step, Pushed, Code, Eval, Need, ToBool, Raise;
    CodeRuns(r, code, pc, st, depth);
    var b, end := Eval(r), pc + |Code(r)|;
    if b.Val? {
      BoolStep(st.stack, b.v, st.undef || b.undef, depth);
      RunPushed(code, end, Bool, st.stack, [b.v], st.undef || b.undef, ToBool(b.v), depth);
      ContinueRaised(code, end + 1, st.stack, st.undef, ToBool(b.v), b.undef, depth);
    }
  }

  lemma CondParts(e: Expr, code: seq<Instr>, pc: nat)
    requires e.Cond? && At(code, pc, Code(e))
    ensures var cc, ct, cf := Code(e.test), Code(e.yes), Code(e.no);
      && At(code, pc, cc)
      && At(code, pc + |cc|, [Jtern(|ct| + 2)])
      && At(code, pc + |cc| + 1, ct)
      && At(code, pc + |cc| + 1 + |ct|, [Jump(|cf| + 1)])
      && At(code, pc + |cc| + |ct| + 2, cf)
  {
    hide At;
    var cc, ct, cf := Code(e.test), Code(e.yes), Code(e.no);
    var tern, jump := [Jtern(|ct| + 2)], [Jump(|cf| + 1)];
    AtParts(code, pc, cc + tern + ct + jump, cf);
    AtParts(code, pc, cc + tern + ct, jump);
    AtParts(code, pc, cc + tern, ct);
    AtParts(code, pc, cc, tern);
  }

  lemma {:induction false} CondRuns(e: Expr, code: seq<Instr>, pc: nat, st: State, depth: nat)
    requires e.Cond?
    requires Forward(code) && At(code, pc, Code(e)) && |st.stack| + Need(e) <= depth
    ensures RunsTo(code, pc, pc + |Code(e)|, Eval(e), st, depth)
    decreases e, 0
  {
    hide Run, At, Forward, Pushed;
    var cc, ct, cf := Code(e.test), Code(e.yes), Code(e.no);
    var tern, jump := [Jtern(|ct| + 2)], [Jump(|cf| + 1)];
    CondParts(e, code, pc);
    CodeRuns(e.test, code, pc, st, depth);
    var a := Eval(e.test);
    if a.Val? {
      var st1 := State(st.stack + [a.v], st.undef || a.undef);
      RunOne(code, pc + |cc|, tern[0], st1, depth);
      assert st1.stack[..|st.stack|] == st.stack;
      var st2 := State(st.stack, st1.undef);
      if a.v.Int? && a.v.i != 0 {
        CodeRuns(e.yes, code, pc + |cc| + 1, st2, depth);
        var o := Eval(e.yes);
        if o.Val? {
          RunOne(code, pc + |cc| + 1 + |ct|, jump[0], State(st.stack + [o.v], st2.undef || o.undef), depth);
        }
      } else if a.v.Int? {
        CodeRuns(e.no, code, pc + |cc| + |ct| + 2, st2, depth);
      }
    }
  }

  /** A whole program: from any stack with room, the old stack plus the value, or the error. */
  lemma ProgramRuns(e: Expr, st: State, depth: nat)
    requires |st.stack| + Need(e) <= depth
    ensures Forward(Code(e))
    ensures Run(Code(e), 0, st, depth) ==
            match Eval(e)
            case Fail(x) => Halted(x)
            case Val(v, u) => Done(State(st.stack + [v], st.undef || u))
  {
    CodeIsForward(e);
    assert Code(e)[0..0 + |Code(e)|] == Code(e);
    hide Code, Eval, Need;
    CodeRuns(e, Code(e), 0, st, depth);
  }

  /** Logical results are 0 or 1, whatever the operands were. */
  lemma LogicIsNormal(e: Expr)
    requires e.And? || e.Or?
    ensures Eval(e).Val? ==> Eval(e).v == Int(0) || Eval(e).v == Int(1)
  {
  }

  /** Negating && is || of the negations: the same value, flag and error in every case. */
  lemma DeMorgan(l: Expr, r: Expr)
    ensures Eval(Un(Lnot, And(l, r))) == Eval(Or(Un(Lnot, l), Un(Lnot, r)))
    ensures Eval(Un(Lnot, Or(l, r))) == Eval(And(Un(Lnot, l), Un(Lnot, r)))
  {
    NotOf(And(l, r));
    NotOf(Or(l, r));
    NotOf(l);
    NotOf(r);
  }

  lemma NotOf(e: Expr)
    ensures Eval(Un(Lnot, e)) ==
            match Eval(e)
            case Fail(x) => Fail(x)
            case Val(v, u) => if v.Int? then Val(FromBool(v.i == 0), u) else Fail(NonInteger)
  {
  }

  /** With integer operands the strict operators give the value of the short-circuit ones, which raise the flag no more often. */
  lemma ShortCircuitAgrees(l: Expr, r: Expr)
    requires Eval(l).Val? && Eval(l).v.Int? && Eval(r).Val? && Eval(r).v.Int?
    ensures Eval(And(l, r)).Val? && Eval(And(l, r)).v == Eval(Bin(Land, l, r)).v
    ensures Eval(And(l, r)).undef ==> Eval(Bin(Land, l, r)).undef
    ensures Eval(Or(l, r)).Val? && Eval(Or(l, r)).v == Eval(Bin(Lor, l, r)).v
    ensures Eval(Or(l, r)).undef ==> Eval(Bin(Lor, l, r)).undef
  {
  }

  /** Moving a number by d makes it greater exactly for d with a positive real part, and leaves it equal exactly for d = 0. */
  lemma ComparisonDirection(x: Complex, d: Complex)
    ensures Compares(Gt, CAdd(x, d), x) <==> d.re > 0.0
    ensures Compares(Eq, CAdd(x, d), x) <==> d == ZERO
  {
    assert CAdd(x, d) == x ==> x.re + d.re == x.re && x.im + d.im == x.im;
  }

  /** On integers the instructions leave 1 where the numbers compare, else 0. */
  lemma ComparisonOfWords(i: Word, j: Word)
    ensures Apply2(Compare(Eq), Int(i), Int(j)) == Val(Int(if i == j then 1 else 0), false)
    ensures Apply2(Compare(Ne), Int(i), Int(j)) == Val(Int(if i != j then 1 else 0), false)
    ensures Apply2(Compare(Gt), Int(i), Int(j)) == Val(Int(if i > j then 1 else 0), false)
    ensures Apply2(Compare(Lt), Int(i), Int(j)) == Val(Int(if i < j then 1 else 0), false)
    ensures Apply2(Compare(Ge), Int(i), Int(j)) == Val(Int(if i >= j then 1 else 0), false)
    ensures Apply2(Compare(Le), Int(i), Int(j)) == Val(Int(if i <= j then 1 else 0), false)
  {
  }

  /** The result of f_mod: a word that differs from the dividend by a multiple of the divisor, or 0 with the flag. */
  lemma ModOfWords(i: Word, j: Word)
    ensures j == 0 ==> Apply2(Mod, Int(i), Int(j)) == Val(Int(0), true)
    ensures j != 0 ==> Apply2(Mod, Int(i), Int(j)) == Val(Int(Remainder(i, j)), false)
  {
    hide Remainder;
    if j != 0 { RemainderSign(i, j); }
  }

  /** The logical operations on integers, in numbers. */
  lemma LogicOfWords(i: Word, j: Word)
    ensures Apply2(Land, Int(i), Int(j)) == Val(Int(if i == 0 || j == 0 then 0 else 1), false)
    ensures Apply2(Lor, Int(i), Int(j)) == Val(Int(if i == 0 && j == 0 then 0 else 1), false)
    ensures Apply1(Lnot, Int(i)) == Val(Int(if i == 0 then 1 else 0), false)
    ensures ToBool(Int(i)) == Val(Int(if i == 0 then 0 else 1), false)
  {
  }

  /** After a 0 the right operand of && is left out, whatever it is, and after anything else that of ||. */
  lemma SkipsRight(l: Expr, r: Expr)
    requires Eval(l).Val? && Eval(l).v.Int?
    ensures Eval(l).v.i == 0 ==> Eval(And(l, r)) == Val(Int(0), Eval(l).undef)
    ensures Eval(l).v.i != 0 ==> Eval(Or(l, r)) == Val(Int(1), Eval(l).undef)
  {
  }

  /** The test of ?: chooses: 0 the second branch, anything else the first; the other one is left out. */
  lemma CondChooses(c: Expr, t: Expr, f: Expr)
    requires Eval(c).Val? && Eval(c).v.Int? && !Eval(c).undef
    ensures Eval(c).v.i != 0 ==> Eval(Cond(c, t, f)) == Eval(t)
    ensures Eval(c).v.i == 0 ==> Eval(Cond(c, t, f)) == Eval(f)
  {
  }

  /** Expressions without jumps. */
  predicate Straight(e: Expr) {
    match e
    case Const(_) => true
    case Un(_, e1) => Straight(e1)
    case Bin(_, l, r) => Straight(l) && Straight(r)
    case And(_, _) => false
    case Or(_, _) => false
    case Cond(_, _, _) => false
  }

  /** The code of an expression without jumps that has a value overflows every stack without the room it needs. */
  lemma {:induction false} Overflows(e: Expr, code: seq<Instr>, pc: nat, st: State, depth: nat)
    requires Forward(code) && At(code, pc, Code(e)) && Straight(e) && Eval(e).Val?
    requires |st.stack| <= depth < |st.stack| + Need(e)
    ensures Run(code, pc, st, depth) == Halted(StackOverflow)
    decreases e, 1
  {
    match e
    case Const(v) => RunOne(code, pc, PushC(v), st, depth);
    case Un(op, e1) =>
      hide Run, At, Forward, Apply1;
      AtParts(code, pc, Code(e1), [Op1(op)]);
      Overflows(e1, code, pc, st, depth);
    case Bin(_, _, _) => OverflowsBin(e, code, pc, st, depth);
  }

  lemma {:induction false} OverflowsBin(e: Expr, code: seq<Instr>, pc: nat, st: State, depth: nat)
    requires e.Bin?
    requires Forward(code) && At(code, pc, Code(e)) && Straight(e) && Eval(e).Val?
    requires |st.stack| <= depth < |st.stack| + Need(e)
    ensures Run(code, pc, st, depth) == Halted(StackOverflow)
    decreases e, 0
  {
    hide Run, At, Forward, Apply2, Divide;
    var cl, cr := Code(e.l), Code(e.r);
    AtParts(code, pc, cl + cr, [Op2(e.bop)]);
    AtParts(code, pc, cl, cr);
    assert Eval(e.l).Val? && Eval(e.r).Val?;
    if depth < |st.stack| + Need(e.l) {
      Overflows(e.l, code, pc, st, depth);
    } else {
      CodeRuns(e.l, code, pc, st, depth);
      var a := Eval(e.l);
      Overflows(e.r, code, pc + |cl|, State(st.stack + [a.v], st.undef || a.undef), depth);
    }
  }

  /** So the room a program is said to need is what it needs: with less it overflows. */
  lemma NeedIsExact(e: Expr, st: State, depth: nat)
    requires Straight(e) && Eval(e).Val? && |st.stack| <= depth
    ensures Forward(Code(e))
    ensures Run(Code(e), 0, st, depth) == Halted(StackOverflow) <==> depth < |st.stack| + Need(e)
  {
    CodeIsForward(e);
    assert Code(e)[0..0 + |Code(e)|] == Code(e);
    hide Code, Eval, Need, Run;
    if depth < |st.stack| + Need(e) {
      Overflows(e, Code(e), 0, st, depth);
    } else {
      ProgramRuns(e, st, depth);
    }
  }

  /** No instruction takes the flag back, and none but a division or remainder raises it. */
  lemma UndefinedStays(i: Instr, st: State, depth: nat)
    requires Step(i, st, depth).Next?
    ensures st.undef ==> Step(i, st, depth).st.undef
    ensures !(i.Op2? && (i.bop.Div? || i.bop.Mod?)) ==> Step(i, st, depth).st.undef == st.undef
  {
    hide Divide, Remainder, Quotient, Arithmetic;
  }

  /** The flag of an expression is up exactly if an operand raises it or the operation on their values does. */
  lemma UndefinedOfParts(op: Binary, l: Expr, r: Expr)
    requires Eval(Bin(op, l, r)).Val?
    ensures Eval(l).Val? && Eval(r).Val? && Apply2(op, Eval(l).v, Eval(r).v).Val?
    ensures Eval(Bin(op, l, r)).undef <==> Eval(l).undef || Eval(r).undef || Apply2(op, Eval(l).v, Eval(r).v).undef
  {
    hide Apply2;
  }

  /** The six comparisons come in complementary pairs, and the order ones in mirrored pairs. */
  lemma ComparisonLaws(x: Complex, y: Complex)
    ensures Compares(Ne, x, y) == !Compares(Eq, x, y)
    ensures Compares(Lt, x, y) == Compares(Gt, y, x) == !Compares(Ge, x, y)
    ensures Compares(Le, x, y) == Compares(Ge, y, x) == !Compares(Gt, x, y)
  {
  }
}
