/** What contract programs compute: expressions over transaction fields, their value, and their postfix code. */
module Expressions {
  import opened Primitives
  import opened BigEndians
  import opened SpecEngine

  datatype Expr =
    | Const(n: U64)
    | Field(name: string)
    | Plus(left: Expr, right: Expr)
    | Minus(left: Expr, right: Expr)
    | Times(left: Expr, right: Expr)
    | Modulo(left: Expr, right: Expr)
    | Compare(left: Expr, right: Expr)
    | Choose(yes: Expr, no: Expr, cond: Expr)

  // ----- values, over the integers -----

  /** A number of 64 bits, or the reason why there is none. */
  function Fit(v: int, reason: Reason): Result<U64, Reason> {
    if 0 <= v <= U64_MAX then Success(v) else Failure(reason)
  }

  /** The first eight bytes of a field, with zeros in front of a short one. */
  function EightBytes(b: Bytes): (r: Bytes)
    ensures |r| == 8
  {
    if |b| >= 8 then b[..8] else seq(8 - |b|, _ => 0) + b
  }

  function FieldValue(input: Input, name: string): Result<int, Reason> {
    match name
    case "amount" => if input.amount.Some? then Success(input.amount.value as int) else Failure(AmountNotSet)
    case "sequence_number" => Success(input.sequenceNumber as int)
    case "gas_limit" => Success(input.gasLimit as int)
    case "sender" => Success(FromBigEndian(EightBytes(input.sender)))
    case "receiver" => Success(FromBigEndian(EightBytes(input.receiver)))
    case "token_id" => Success(FromBigEndian(EightBytes(input.tokenId)))
    case "payload" => Success(FromBigEndian(EightBytes(input.payload)))
    case _ => Failure(UndeclaredField(name))
  }

  /** The value of one operation on the values of its operands: the integer result where it has 64 bits. */
  function Combine(e: Expr, l: U64, r: U64): Result<U64, Reason>
    requires e.Plus? || e.Minus? || e.Times? || e.Modulo? || e.Compare?
  {
    match e
    case Plus(_, _) => Fit(l as int + r as int, AdditionOverflow)
    case Minus(_, _) => Fit(l as int - r as int, SubtractionUnderflow)
    case Times(_, _) => Fit(l as int * r as int, MultiplicationOverflow)
    case Modulo(_, _) => if r == 0 then Failure(ModuloByZero) else Success(l as int - l as int / r as int * r as int)
    case Compare(_, _) => Success(if l < r then 3 else if r < l then 1 else 2)
  }

  /** Left before right, and both arms of a choice. */
  function Value(input: Input, e: Expr): Result<U64, Reason> {
    match e
    case Const(n) => Success(n)
    case Field(name) =>
      (match FieldValue(input, name) case Success(v) => Fit(v, AmountNotSet) case Failure(why) => Failure(why))
    case Choose(yes, no, cond) =>
      (match (Value(input, yes), Value(input, no), Value(input, cond))
       case (Success(a), Success(b), Success(c)) => Success(if c == 0 then b else a)
       case (Failure(why), _, _) => Failure(why)
       case (_, Failure(why), _) => Failure(why)
       case (_, _, Failure(why)) => Failure(why))
    case _ =>
      match (Value(input, e.left), Value(input, e.right))
      case (Success(l), Success(r)) => Combine(e, l, r)
      case (Failure(why), _) => Failure(why)
      case (_, Failure(why)) => Failure(why)
  }

  // ----- code -----

  function Code(e: Expr): (ops: seq<Op>)
    ensures ops != []
  {
    match e
    case Const(n) => [LoadConst(n)]
    case Field(name) => [LoadTx(name)]
    case Plus(l, r) => Code(l) + Code(r) + [Add]
    case Minus(l, r) => Code(l) + Code(r) + [Sub]
    case Times(l, r) => Code(l) + Code(r) + [Mul]
    case Modulo(l, r) => Code(l) + Code(r) + [Mod]
    case Compare(l, r) => Code(l) + Code(r) + [Cmp]
    case Choose(yes, no, cond) => Code(yes) + Code(no) + Code(cond) + [Select]
  }

  /** There is gas for that many operations. */
  predicate Room(input: Input, gasUsed: nat, k: nat) {
    gasUsed + k <= if input.gasLimit > 0 then input.gasLimit else U64_MAX
  }

  /** The machine after an expression has left its value on the stack. */
  function Pushed(m: Machine, v: U64, k: nat): Machine
    requires m.gasUsed as int + k <= U64_MAX
  {
    m.(stack := m.stack + [v], gasUsed := m.gasUsed as int + k)
  }

  /** A way of running code from a machine. */
  type Runner = (seq<Op>, Machine) -> Outcome

  /** Running `k` operations of code for a value: it is pushed, or its failure is the outcome. */
  function AfterCode(run: Runner, k: nat, v: Result<U64, Reason>, m: Machine, more: seq<Op>): Outcome
    requires m.gasUsed as int + k <= U64_MAX
  {
    match v
    case Success(x) => run(more, Pushed(m, x, k))
    case Failure(why) => Err(Reverted(why))
  }

  /** The seven fields, and only they. */
  lemma FieldLoads(input: Input, name: string)
    ensures
      match FieldValue(input, name)
      case Success(v) => 0 <= v <= U64_MAX && LoadTxField(input, name) == Success(v)
      case Failure(why) => LoadTxField(input, name) == Failure(why)
  {
    BytesLoaded(input.sender);
    BytesLoaded(input.receiver);
    BytesLoaded(input.tokenId);
    BytesLoaded(input.payload);
  }

  lemma BytesLoaded(b: Bytes)
    ensures BytesToU64(b) as int == FromBigEndian(EightBytes(b))
  {
    if |b| < 8 {
      PaddedFieldValue(b, 8 - |b|);
    } else {
      assert |b| == 8 ==> b[..8] == b;
    }
  }

  function Continue(input: Input, step: StepResult, more: seq<Op>): Outcome {
    match step
    case Next(m) => Exec(input, more, m)
    case Stop(m) => Done(m.resultData, m.gasUsed)
    case Fail(e) => Err(e)
    case Overflow => Panic
  }

  lemma OneOp(input: Input, op: Op, m: Machine, more: seq<Op>)
    ensures Exec(input, [op] + more, m) == Continue(input, Step(input, op, m), more)
  {
    assert ([op] + more)[1..] == more;
  }

  lemma Remainder(l: nat, r: nat)
    requires r > 0
    ensures l % r == l - l / r * r
  {
  }

  predicate IsBinary(e: Expr) { e.Plus? || e.Minus? || e.Times? || e.Modulo? || e.Compare? }

  function LastOp(e: Expr): Op
    requires IsBinary(e)
  {
    match e
    case Plus(_, _) => Add case Minus(_, _) => Sub case Times(_, _) => Mul case Modulo(_, _) => Mod case _ => Cmp
  }

  /** The engine's operations are those of the integers, where they fit. */
  lemma CombineIsBinary(e: Expr, l: U64, r: U64)
    requires IsBinary(e)
    ensures Binary(LastOp(e), l, r) == Combine(e, l, r)
  {
    if e.Modulo? && r != 0 { Remainder(l, r); }
  }

  /** One binary operation on two pushed values. */
  lemma BinaryStep(input: Input, op: Op, m: Machine, below: seq<U64>, l: U64, r: U64)
    requires op.Add? || op.Sub? || op.Mul? || op.Mod? || op.Cmp?
    requires m.stack == below + [l] + [r] && Room(input, m.gasUsed, 1)
    ensures Step(input, op, m)
         == (match Binary(op, l, r)
             case Success(v) => Next(Machine(below + [v], m.resultData, m.gasUsed + 1))
             case Failure(why) => Fail(Reverted(why)))
  {
    assert Drop(m.stack, 2) == below;
  }

  lemma SelectStep(input: Input, m: Machine, below: seq<U64>, a: U64, b: U64, c: U64)
    requires m.stack == below + [a] + [b] + [c] && Room(input, m.gasUsed, 1)
    ensures Step(input, Select, m) == Next(Machine(below + [if c == 0 then b else a], m.resultData, m.gasUsed + 1))
  {
    assert Drop(m.stack, 3) == below;
  }

  // ----- what the code of an expression needs of a runner -----

  predicate LeafRight(run: Runner, input: Input, op: Op, m: Machine, more: seq<Op>)
    requires Room(input, m.gasUsed, 1) && (op.LoadConst? || op.LoadTx?)
  {
    run([op] + more, m)
    == AfterCode(run, 1, if op.LoadConst? then Success(op.n) else LoadTxField(input, op.field), m, more)
  }

  predicate LastOpRight(run: Runner, input: Input, e: Expr, l: U64, r: U64, m: Machine, i: nat, j: nat, more: seq<Op>)
    requires IsBinary(e) && Room(input, m.gasUsed, i + j + 1)
  {
    run([LastOp(e)] + more, Pushed(Pushed(m, l, i), r, j)) == AfterCode(run, i + j + 1, Combine(e, l, r), m, more)
  }

  predicate SelectRight(run: Runner, input: Input, a: U64, b: U64, c: U64, m: Machine, i: nat, j: nat, k: nat,
                        more: seq<Op>)
    requires Room(input, m.gasUsed, i + j + k + 1)
  {
    run([Select] + more, Pushed(Pushed(Pushed(m, a, i), b, j), c, k))
    == AfterCode(run, i + j + k + 1, Success(if c == 0 then b else a), m, more)
  }

  /** It runs loads, binary operations and selections right, whatever is on the stack and in the code behind them. */
  ghost predicate RunsRight(run: Runner, input: Input) {
    && (forall op: Op, m: Machine, more :: (op.LoadConst? || op.LoadTx?) && Room(input, m.gasUsed, 1) ==>
          LeafRight(run, input, op, m, more))
    && (forall e, l: U64, r: U64, m: Machine, i: nat, j: nat, more ::
          IsBinary(e) && Room(input, m.gasUsed, i + j + 1) ==> LastOpRight(run, input, e, l, r, m, i, j, more))
    && (forall a: U64, b: U64, c: U64, m: Machine, i: nat, j: nat, k: nat, more ::
          Room(input, m.gasUsed, i + j + k + 1) ==> SelectRight(run, input, a, b, c, m, i, j, k, more))
  }

  function Engine(input: Input): Runner { (ops, m) => Exec(input, ops, m) }

  lemma EngineLeaf(input: Input, run: Runner, op: Op, m: Machine, more: seq<Op>)
    requires run == Engine(input) && Room(input, m.gasUsed, 1) && (op.LoadConst? || op.LoadTx?)
    ensures LeafRight(run, input, op, m, more)
  {
    OneOp(input, op, m, more);
  }

  lemma EngineLastOp(input: Input, run: Runner, e: Expr, l: U64, r: U64, m: Machine, i: nat, j: nat, more: seq<Op>)
    requires run == Engine(input) && IsBinary(e) && Room(input, m.gasUsed, i + j + 1)
    ensures LastOpRight(run, input, e, l, r, m, i, j, more)
  {
    var m2 := Pushed(Pushed(m, l, i), r, j);
    OneOp(input, LastOp(e), m2, more);
    BinaryStep(input, LastOp(e), m2, m.stack, l, r);
    CombineIsBinary(e, l, r);
  }

  lemma EngineSelect(input: Input, run: Runner, a: U64, b: U64, c: U64, m: Machine, i: nat, j: nat, k: nat,
                     more: seq<Op>)
    requires run == Engine(input) && Room(input, m.gasUsed, i + j + k + 1)
    ensures SelectRight(run, input, a, b, c, m, i, j, k, more)
  {
    var m3 := Pushed(Pushed(Pushed(m, a, i), b, j), c, k);
    OneOp(input, Select, m3, more);
    SelectStep(input, m3, m.stack, a, b, c);
  }

  /** The engine does. */
  lemma EngineRunsRight(input: Input, run: Runner)
    requires run == Engine(input)
    ensures RunsRight(run, input)
  {
    forall op: Op, m: Machine, more | (op.LoadConst? || op.LoadTx?) && Room(input, m.gasUsed, 1)
      ensures LeafRight(run, input, op, m, more)
    {
      EngineLeaf(input, run, op, m, more);
    }
    forall e, l: U64, r: U64, m: Machine, i: nat, j: nat, more | IsBinary(e) && Room(input, m.gasUsed, i + j + 1)
      ensures LastOpRight(run, input, e, l, r, m, i, j, more)
    {
      EngineLastOp(input, run, e, l, r, m, i, j, more);
    }
    forall a: U64, b: U64, c: U64, m: Machine, i: nat, j: nat, k: nat, more | Room(input, m.gasUsed, i + j + k + 1)
      ensures SelectRight(run, input, a, b, c, m, i, j, k, more)
    {
      EngineSelect(input, run, a, b, c, m, i, j, k, more);
    }
  }

  lemma BinaryCode(e: Expr, more: seq<Op>)
    requires IsBinary(e)
    ensures Code(e) + more == Code(e.left) + (Code(e.right) + ([LastOp(e)] + more))
    ensures |Code(e)| == |Code(e.left)| + |Code(e.right)| + 1
  {
  }

  lemma ChoiceCode(e: Expr, more: seq<Op>)
    requires e.Choose?
    ensures Code(e) + more == Code(e.yes) + (Code(e.no) + (Code(e.cond) + ([Select] + more)))
    ensures |Code(e)| == |Code(e.yes)| + |Code(e.no)| + |Code(e.cond)| + 1
  {
  }

  /** In any machine and before any code, the code of an expression pushes its value or reverts with its failure. */
  lemma {:induction false} CodeRuns(run: Runner, input: Input, e: Expr, m: Machine, more: seq<Op>)
    requires RunsRight(run, input) && Room(input, m.gasUsed, |Code(e)|)
    ensures run(Code(e) + more, m) == AfterCode(run, |Code(e)|, Value(input, e), m, more)
    decreases e
  {
    if e.Const? {
      assert LeafRight(run, input, LoadConst(e.n), m, more);
    } else if e.Field? {
      FieldLoads(input, e.name);
      assert LeafRight(run, input, LoadTx(e.name), m, more);
    } else if e.Choose? {
      ChoiceRuns(run, input, e, m, more);
    } else {
      BinaryRuns(run, input, e, m, more);
    }
  }

  lemma BinaryChains(run: Runner, e: Expr, l: Result<U64, Reason>, r: Result<U64, Reason>, v: Result<U64, Reason>,
                     m: Machine, i: nat, j: nat, all: seq<Op>, rest: seq<Op>, last: seq<Op>, more: seq<Op>)
    requires IsBinary(e) && m.gasUsed as int + i + j + 1 <= U64_MAX
    requires v == if l.Failure? then l else if r.Failure? then r else Combine(e, l.value, r.value)
    requires run(all, m) == AfterCode(run, i, l, m, rest)
    requires l.Success? ==> run(rest, Pushed(m, l.value, i)) == AfterCode(run, j, r, Pushed(m, l.value, i), last)
    requires l.Success? && r.Success? ==>
               run(last, Pushed(Pushed(m, l.value, i), r.value, j))
               == AfterCode(run, i + j + 1, Combine(e, l.value, r.value), m, more)
    ensures run(all, m) == AfterCode(run, i + j + 1, v, m, more)
  {
  }

  lemma {:induction false} BinaryRuns(run: Runner, input: Input, e: Expr, m: Machine, more: seq<Op>)
    requires IsBinary(e) && RunsRight(run, input) && Room(input, m.gasUsed, |Code(e)|)
    ensures run(Code(e) + more, m) == AfterCode(run, |Code(e)|, Value(input, e), m, more)
    decreases e, 0
  {
    BinaryCode(e, more);
    var last := [LastOp(e)] + more;
    var l, r, i, j := Value(input, e.left), Value(input, e.right), |Code(e.left)|, |Code(e.right)|;
    CodeRuns(run, input, e.left, m, Code(e.right) + last);
    if l.Success? {
      CodeRuns(run, input, e.right, Pushed(m, l.value, i), last);
      if r.Success? { assert LastOpRight(run, input, e, l.value, r.value, m, i, j, more); }
    }
    BinaryChains(run, e, l, r, Value(input, e), m, i, j, Code(e) + more, Code(e.right) + last, last, more);
  }

  lemma {:induction false} ChoiceRuns(run: Runner, input: Input, e: Expr, m: Machine, more: seq<Op>)
    requires e.Choose? && RunsRight(run, input) && Room(input, m.gasUsed, |Code(e)|)
    ensures run(Code(e) + more, m) == AfterCode(run, |Code(e)|, Value(input, e), m, more)
    decreases e, 0
  {
    ChoiceCode(e, more);
    var last := [Select] + more;
    var a, b, c := Value(input, e.yes), Value(input, e.no), Value(input, e.cond);
    var i, j, k := |Code(e.yes)|, |Code(e.no)|, |Code(e.cond)|;
    CodeRuns(run, input, e.yes, m, Code(e.no) + (Code(e.cond) + last));
    if a.Success? {
      var m1 := Pushed(m, a.value, i);
      CodeRuns(run, input, e.no, m1, Code(e.cond) + last);
      if b.Success? {
        CodeRuns(run, input, e.cond, Pushed(m1, b.value, j), last);
        if c.Success? { assert SelectRight(run, input, a.value, b.value, c.value, m, i, j, k, more); }
      }
    }
  }

  /**
   Given the gas, the code of an expression followed by `Emit` completes with eight bytes that are the value of the
   expression, least significant first, for one unit of gas per operation. It reverts exactly where a subterm has no
   value of 64 bits.
   */
  lemma EmitsValue(input: Input, e: Expr)
    requires Room(input, 0, |Code(e)| + 1)
    ensures
      match Value(input, e)
      case Success(v) =>
        var r := Exec(input, Code(e) + [Emit], START);
        && r.Done? && |r.resultData| == 8 && LeValue(r.resultData) == v && r.gasUsed == |Code(e)| + 1
      case Failure(why) => Exec(input, Code(e) + [Emit], START) == Err(Reverted(why))
  {
    EngineRunsRight(input, Engine(input));
    CodeRuns(Engine(input), input, e, START, [Emit]);
    if Value(input, e).Success? {
      var v := Value(input, e).value;
      var m := Pushed(START, v, |Code(e)|);
      OneOp(input, Emit, m, []);
      assert [Emit] + [] == [Emit];
      FitsEight(v);
      LeRoundTrip(v, 8);
    }
  }

  lemma FitsEight(v: U64)
    ensures v as int < Range(8)
  {
    assert Range(4) == 0x1_0000_0000;
    assert Range(8) == 256 * (256 * (256 * (256 * Range(4))));
  }
}
