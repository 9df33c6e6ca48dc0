/** The Spec-AST stack machine: checked arithmetic, counted gas, cross-contract calls under a sub-budget. */
module SpecEngine {
  import opened Primitives
  import opened BigEndians

  datatype Op =
    | LoadTx(field: string)
    | LoadConst(n: U64)
    | Add
    | Sub
    | Mul
    | Mod
    | Cmp
    | Select
    | Emit
    | Halt
    | Call(targetToken: Bytes, entryPoint: string, callPayload: Bytes, refHeight: U64, refHash: Bytes)

  datatype Program = Program(version: nat, ops: seq<Op>)

  datatype Reason =
    | StackUnderflow(op: string)
    | AdditionOverflow
    | SubtractionUnderflow
    | MultiplicationOverflow
    | ModuloByZero
    | AmountNotSet
    | UndeclaredField(field: string)
    | NoCallContext

  datatype ContractError =
    | GasExhausted
    | UndecodableAst
    | UnsupportedVersion(version: nat)
    | Reverted(reason: Reason)

  /** The answer of a callee: whether it succeeded and what it cost. */
  datatype CallOutcome = CallOutcome(success: bool, gasUsed: U64)

  /** `execute_call` with its context: any function of the call's immediates and the sub-budget. */
  type Callee = (Op, U64) -> CallOutcome

  datatype Input = Input(
    amount: Option<U64>,
    sequenceNumber: U64,
    sender: Bytes,
    receiver: Bytes,
    tokenId: Bytes,
    payload: Bytes,
    gasLimit: U64,
    callCtx: Option<Callee>)

  /** `Panic` is an overflow of the gas counter itself, where checked builds abort. */
  datatype Outcome = Done(resultData: Bytes, gasUsed: U64) | Err(error: ContractError) | Panic

  const CALL_BASE: U64 := 10

  // ----- operands -----

  /** Little-endian bytes of a 64-bit value. */
  function LeBytes(v: nat, n: nat): (r: Bytes)
    ensures |r| == n
  {
    if n == 0 then [] else [v % 256] + LeBytes(v / 256, n - 1)
  }

  lemma {:induction false} RangeMonotone(m: nat, n: nat)
    requires m <= n
    ensures Range(m) <= Range(n)
  {
    if m < n { RangeMonotone(m, n - 1); }
  }

  /** First at most eight bytes, read big-endian as if padded with zeros on the left. */
  function BytesToU64(b: Bytes): (r: U64) {
    var head := if |b| <= 8 then b else b[..8];
    FromBigEndianRoundTrip(head);
    RangeMonotone(|head|, 8);
    assert Range(8) == U64_MAX + 1 by {
      assert Range(4) == 0x1_0000_0000;
      assert Range(8) == 256 * (256 * (256 * (256 * Range(4))));
    }
    FromBigEndian(head)
  }

  /** Left-padding a short field to eight bytes, as the source does, reads the same number. */
  lemma {:induction false} PaddedFieldValue(b: Bytes, zeros: nat)
    ensures FromBigEndian(seq(zeros, _ => 0) + b) == FromBigEndian(b)
    decreases zeros
  {
    if zeros == 0 {
      assert seq(zeros, _ => 0) + b == b;
    } else {
      var rest: Bytes := seq(zeros - 1, _ => 0) + b;
      assert seq(zeros, _ => 0) + b == [0] + rest;
      MostSignificantFirst(0, rest);
      PaddedFieldValue(b, zeros - 1);
    }
  }

  function LeValue(b: Bytes): nat {
    if b == [] then 0 else b[0] + 256 * LeValue(b[1..])
  }

  /** The emitted bytes are the value: `n` little-endian bytes give back every value that fits them. */
  lemma {:induction false} LeRoundTrip(v: nat, n: nat)
    requires v < Range(n)
    ensures LeValue(LeBytes(v, n)) == v
  {
    if n > 0 {
      LeRoundTrip(v / 256, n - 1);
      assert LeBytes(v, n)[1..] == LeBytes(v / 256, n - 1);
    }
  }

  function LoadTxField(input: Input, field: string): Result<U64, Reason> {
    if field == "amount" then
      if input.amount.Some? then Success(input.amount.value) else Failure(AmountNotSet)
    else if field == "sequence_number" then Success(input.sequenceNumber)
    else if field == "gas_limit" then Success(input.gasLimit)
    else if field == "sender" then Success(BytesToU64(input.sender))
    else if field == "receiver" then Success(BytesToU64(input.receiver))
    else if field == "token_id" then Success(BytesToU64(input.tokenId))
    else if field == "payload" then Success(BytesToU64(input.payload))
    else Failure(UndeclaredField(field))
  }

  // ----- one operation -----

  datatype Machine = Machine(stack: seq<U64>, resultData: Bytes, gasUsed: U64)

  datatype StepResult = Next(m: Machine) | Stop(halted: Machine) | Fail(error: ContractError) | Overflow

  function Top(s: seq<U64>): U64
    requires s != []
  {
    s[|s| - 1]
  }

  function Drop(s: seq<U64>, n: nat): seq<U64>
    requires n <= |s|
  {
    s[..|s| - n]
  }

  function OpName(op: Op): string {
    match op
    case LoadTx(_) => "load_tx" case LoadConst(_) => "load_const" case Add => "add" case Sub => "sub"
    case Mul => "mul" case Mod => "mod" case Cmp => "cmp" case Select => "select" case Emit => "emit"
    case Halt => "halt" case Call(_, _, _, _, _) => "call"
  }

  /** `b op a` for the binary operations, `a` being the former top. */
  function Binary(op: Op, b: U64, a: U64): Result<U64, Reason>
    requires op.Add? || op.Sub? || op.Mul? || op.Mod? || op.Cmp?
  {
    match op
    case Add => if b + a <= U64_MAX then Success(b + a) else Failure(AdditionOverflow)
    case Sub => if a <= b then Success(b - a) else Failure(SubtractionUnderflow)
    case Mul => if b * a <= U64_MAX then Success(b * a) else Failure(MultiplicationOverflow)
    case Mod => if a == 0 then Failure(ModuloByZero) else Success(b % a)
    case Cmp => Success(if b > a then 1 else if b == a then 2 else 3)
  }

  function SaturatingSub(x: U64, y: U64): U64 { if y <= x then x - y else 0 }

  /** Gas left after `gasUsed`; an undeclared cap leaves everything. */
  function Remaining(limit: U64, gasUsed: U64): U64 {
    if limit > 0 then SaturatingSub(limit, gasUsed) else U64_MAX
  }

  function DoCall(input: Input, op: Op, m: Machine): StepResult
    requires op.Call?
  {
    if input.callCtx.None? then Fail(Reverted(NoCallContext))
    else
      var outcome := input.callCtx.value(op, SaturatingSub(Remaining(input.gasLimit, m.gasUsed), CALL_BASE));
      if CALL_BASE + outcome.gasUsed > U64_MAX then Overflow
      else
        var total := m.gasUsed + CALL_BASE + outcome.gasUsed;
        var gas: U64 := if total <= U64_MAX then total else U64_MAX;
        if input.gasLimit > 0 && gas > input.gasLimit then Fail(GasExhausted)
        else Next(Machine(m.stack + [if outcome.success then 1 else 0], m.resultData, gas))
  }

  /** The operation itself, after its unit of gas has been charged. */
  function Perform(input: Input, op: Op, m: Machine): StepResult {
    var s := m.stack;
    match op
    case LoadTx(field) =>
      (match LoadTxField(input, field)
       case Success(v) => Next(m.(stack := s + [v]))
       case Failure(reason) => Fail(Reverted(reason)))
    case LoadConst(n) => Next(m.(stack := s + [n]))
    case Select =>
      if |s| < 3 then Fail(Reverted(StackUnderflow("select")))
      else Next(m.(stack := Drop(s, 3) + [if Top(s) != 0 then s[|s| - 3] else s[|s| - 2]]))
    case Emit =>
      if s == [] then Fail(Reverted(StackUnderflow("emit")))
      else Next(m.(stack := Drop(s, 1), resultData := LeBytes(Top(s), 8)))
    case Halt => Stop(m)
    case Call(_, _, _, _, _) => DoCall(input, op, m)
    case _ =>
      if |s| < 2 then Fail(Reverted(StackUnderflow(OpName(op))))
      else
        match Binary(op, s[|s| - 2], Top(s))
        case Success(v) => Next(m.(stack := Drop(s, 2) + [v]))
        case Failure(reason) => Fail(Reverted(reason))
  }

  /** Charge one unit, refusing at the cap, then perform. */
  function Step(input: Input, op: Op, m: Machine): StepResult {
    if input.gasLimit > 0 && m.gasUsed >= input.gasLimit then Fail(GasExhausted)
    else if m.gasUsed == U64_MAX then Overflow
    else Perform(input, op, m.(gasUsed := m.gasUsed + 1))
  }

  /** The meaning of a program: its operations one after the other. */
  function Exec(input: Input, ops: seq<Op>, m: Machine): Outcome {
    if ops == [] then Done(m.resultData, m.gasUsed)
    else
      match Step(input, ops[0], m)
      case Next(m') => Exec(input, ops[1..], m')
      case Stop(m') => Done(m'.resultData, m'.gasUsed)
      case Fail(e) => Err(e)
      case Overflow => Panic
  }

  const START: Machine := Machine([], [], 0)

  /** `execute`, from the decoded bytecode. */
  function Run(program: Option<Program>, input: Input): Outcome {
    match program
    case None => Err(UndecodableAst)
    case Some(p) => if p.version != 1 then Err(UnsupportedVersion(p.version)) else Exec(input, p.ops, START)
  }

  // ----- the interpreter loop -----

  method PopOne(stack: seq<U64>) returns (rest: seq<U64>, v: Option<U64>)
    ensures v.Some? <==> stack != []
    ensures v.Some? ==> stack == rest + [v.value]
    ensures v.None? ==> rest == stack
  {
    if stack == [] { return stack, None; }
    rest, v := stack[..|stack| - 1], Some(stack[|stack| - 1]);
  }

  method PopTwo(stack: seq<U64>) returns (rest: seq<U64>, v: Option<(U64, U64)>)
    ensures v.Some? <==> |stack| >= 2
    ensures v.Some? ==> stack == rest + [v.value.1, v.value.0]
  {
    var a, b: Option<U64>;
    rest, a := PopOne(stack);
    if a.None? { return rest, None; }
    rest, b := PopOne(rest);
    if b.None? { return rest, None; }
    v := Some((a.value, b.value));
  }

  method SelectOp(input: Input, m: Machine) returns (r: StepResult)
    ensures r == Perform(input, Select, m)
  {
    var stack := m.stack;
    var cond, b, a: Option<U64>;
    stack, cond := PopOne(stack);
    if cond.None? { return Fail(Reverted(StackUnderflow("select"))); }
    stack, b := PopOne(stack);
    if b.None? { return Fail(Reverted(StackUnderflow("select"))); }
    stack, a := PopOne(stack);
    if a.None? { return Fail(Reverted(StackUnderflow("select"))); }
    assert stack == Drop(m.stack, 3);
    r := Next(m.(stack := stack + [if cond.value != 0 then a.value else b.value]));
  }

  method CallOp(input: Input, op: Op, m: Machine) returns (r: StepResult)
    requires op.Call?
    ensures r == DoCall(input, op, m)
  {
    if input.callCtx.None? { return Fail(Reverted(NoCallContext)); }
    var remaining := if input.gasLimit > 0 then SaturatingSub(input.gasLimit, m.gasUsed) else U64_MAX;
    var outcome := input.callCtx.value(op, SaturatingSub(remaining, CALL_BASE));
    if CALL_BASE + outcome.gasUsed > U64_MAX { return Overflow; }
    var total := m.gasUsed + CALL_BASE + outcome.gasUsed;
    var gasUsed: U64 := if total <= U64_MAX then total else U64_MAX;
    if input.gasLimit > 0 && gasUsed > input.gasLimit { return Fail(GasExhausted); }
    r := Next(Machine(m.stack + [if outcome.success then 1 else 0], m.resultData, gasUsed));
  }

  /** The body of the loop: pop the operands one by one, compute, push. */
  method Dispatch(input: Input, op: Op, m: Machine) returns (r: StepResult)
    ensures r == Perform(input, op, m)
  {
    var stack := m.stack;
    match op {
      case LoadTx(field) =>
        var v := LoadTxField(input, field);
        if v.Failure? { return Fail(Reverted(v.error)); }
        r := Next(m.(stack := stack + [v.value]));
      case LoadConst(n) =>
        r := Next(m.(stack := stack + [n]));
      case Select =>
        r := SelectOp(input, m);
      case Emit =>
        var value: Option<U64>;
        stack, value := PopOne(stack);
        if value.None? { return Fail(Reverted(StackUnderflow("emit"))); }
        r := Next(m.(stack := stack, resultData := LeBytes(value.value, 8)));
      case Halt =>
        r := Stop(m);
      case Call(_, _, _, _, _) =>
        r := CallOp(input, op, m);
      case _ =>
        var operands: Option<(U64, U64)>;
        stack, operands := PopTwo(stack);
        if operands.None? { return Fail(Reverted(StackUnderflow(OpName(op)))); }
        assert stack == Drop(m.stack, 2);
        match Binary(op, operands.value.1, operands.value.0) {
          case Success(v) => r := Next(m.(stack := stack + [v]));
          case Failure(reason) => r := Fail(Reverted(reason));
        }
    }
  }

  /** The loop over the instructions computes the meaning of the program. */
  method Execute(program: Option<Program>, input: Input) returns (r: Outcome)
    ensures r == Run(program, input)
  {
    if program.None? { return Err(UndecodableAst); }
    if program.value.version != 1 { return Err(UnsupportedVersion(program.value.version)); }
    var ops := program.value.ops;
    var m := START;
    for i := 0 to |ops|
      invariant Exec(input, ops[i..], m) == Exec(input, ops, START)
    {
      assert ops[i..][0] == ops[i] && ops[i..][1..] == ops[i + 1..];
      if input.gasLimit > 0 && m.gasUsed >= input.gasLimit { return Err(GasExhausted); }
      if m.gasUsed == U64_MAX { return Panic; }
      m := m.(gasUsed := m.gasUsed + 1);
      var step := Dispatch(input, ops[i], m);
      match step {
        case Next(m') => m := m';
        case Stop(m') => return Done(m'.resultData, m'.gasUsed);
        case Fail(e) => return Err(e);
        case Overflow => return Panic;
      }
    }
    r := Done(m.resultData, m.gasUsed);
  }

  // ----- gas threshold -----

  predicate CallFree(ops: seq<Op>) {
    forall i :: 0 <= i < |ops| ==> !ops[i].Call?
  }

  predicate ReadsNoLimit(ops: seq<Op>) {
    forall i :: 0 <= i < |ops| ==> ops[i] != LoadTx("gas_limit")
  }

  /** How many operations a run starts, the one it halts or reverts at included. */
  function Started(input: Input, ops: seq<Op>, m: Machine): (k: nat)
    ensures k <= |ops|
  {
    if ops == [] then 0
    else
      match Step(input, ops[0], m)
      case Next(m') => 1 + Started(input, ops[1..], m')
      case _ => 1
  }

  lemma PerformIgnoresLimit(input: Input, op: Op, m: Machine, limit: U64)
    requires !op.Call? && op != LoadTx("gas_limit")
    ensures Perform(input.(gasLimit := limit), op, m) == Perform(input, op, m)
    ensures Perform(input, op, m).Next? ==> Perform(input, op, m).m.gasUsed == m.gasUsed
  {
  }

  /** Below its cap a step does not see the cap. */
  lemma StepIgnoresLimit(input: Input, op: Op, m: Machine, limit: U64)
    requires !op.Call? && op != LoadTx("gas_limit")
    requires input.gasLimit == 0 && m.gasUsed < limit
    ensures Step(input.(gasLimit := limit), op, m) == Step(input, op, m)
    ensures Step(input, op, m).Next? ==> Step(input, op, m).m.gasUsed == m.gasUsed + 1
  {
    PerformIgnoresLimit(input, op, m.(gasUsed := m.gasUsed + 1), limit);
  }

  /** The threshold from an arbitrary machine that has not passed its cap. */
  lemma {:induction false} ThresholdFrom(input: Input, ops: seq<Op>, m: Machine, limit: U64)
    requires CallFree(ops) && ReadsNoLimit(ops)
    requires input.gasLimit == 0 && 0 < limit && m.gasUsed <= limit
    ensures Exec(input.(gasLimit := limit), ops, m)
         == if m.gasUsed + Started(input, ops, m) <= limit then Exec(input, ops, m) else Err(GasExhausted)
  {
    if ops != [] && m.gasUsed < limit {
      StepIgnoresLimit(input, ops[0], m, limit);
      if Step(input, ops[0], m).Next? {
        ThresholdFrom(input, ops[1..], Step(input, ops[0], m).m, limit);
      }
    }
  }

  /**
   A call-free program that does not read `gas_limit` has one threshold: from the number of operations its
   uncapped run starts upwards the cap is invisible, and below it every run is out of gas.
   */
  lemma GasThreshold(input: Input, ops: seq<Op>, limit: U64)
    requires CallFree(ops) && ReadsNoLimit(ops)
    requires input.gasLimit == 0 && 0 < limit
    ensures limit >= Started(input, ops, START) ==>
              Exec(input.(gasLimit := limit), ops, START) == Exec(input, ops, START)
    ensures limit < Started(input, ops, START) ==> Exec(input.(gasLimit := limit), ops, START) == Err(GasExhausted)
    ensures Exec(input, ops, START) != Err(GasExhausted)
  {
    ThresholdFrom(input, ops, START, limit);
    UncappedNeverExhausts(input, ops, START);
  }

  lemma {:induction false} UncappedNeverExhausts(input: Input, ops: seq<Op>, m: Machine)
    requires input.gasLimit == 0
    ensures Exec(input, ops, m) != Err(GasExhausted)
  {
    if ops != [] && Step(input, ops[0], m).Next? {
      UncappedNeverExhausts(input, ops[1..], Step(input, ops[0], m).m);
    }
  }

  // ----- static stack depth -----

  function Needs(op: Op): nat {
    match op
    case LoadTx(_) => 0 case LoadConst(_) => 0 case Halt => 0 case Call(_, _, _, _, _) => 0
    case Emit => 1
    case Select => 3
    case _ => 2
  }

  /** The stack height after an operation that ran at height `d`. */
  function DepthAfter(op: Op, d: nat): nat
    requires d >= Needs(op)
  {
    match op
    case LoadTx(_) => d + 1 case LoadConst(_) => d + 1 case Call(_, _, _, _, _) => d + 1
    case Halt => d
    case Select => d - 2
    case _ => d - 1
  }

  /** Every operation up to the first `Halt` finds enough operands, starting at height `d`. */
  predicate DepthOk(ops: seq<Op>, d: nat) {
    ops == [] || ops[0].Halt? || (d >= Needs(ops[0]) && DepthOk(ops[1..], DepthAfter(ops[0], d)))
  }

  lemma StepDepth(input: Input, op: Op, m: Machine)
    ensures Step(input, op, m).Next? ==>
              |m.stack| >= Needs(op) && |Step(input, op, m).m.stack| == DepthAfter(op, |m.stack|) && !op.Halt?
    ensures |m.stack| >= Needs(op) ==>
              forall name :: Step(input, op, m) != Fail(Reverted(StackUnderflow(name)))
  {
  }

  /** A program that passes the depth check never underflows its stack, on any input, cap or callee. */
  lemma {:induction false} DepthCheckSound(input: Input, ops: seq<Op>, m: Machine, name: string)
    requires DepthOk(ops, |m.stack|)
    ensures Exec(input, ops, m) != Err(Reverted(StackUnderflow(name)))
  {
    if ops != [] {
      StepDepth(input, ops[0], m);
      if Step(input, ops[0], m).Next? {
        DepthCheckSound(input, ops[1..], Step(input, ops[0], m).m, name);
      }
    }
  }

  /** A program that fails the depth check never succeeds, on any input, cap or callee. */
  lemma {:induction false} DepthCheckNecessary(input: Input, ops: seq<Op>, m: Machine)
    requires !DepthOk(ops, |m.stack|)
    ensures !Exec(input, ops, m).Done?
  {
    StepDepth(input, ops[0], m);
    if Step(input, ops[0], m).Next? {
      DepthCheckNecessary(input, ops[1..], Step(input, ops[0], m).m);
    }
  }

  /** Bytecode that does not decode and other versions are refused as such, and nothing else is. */
  lemma VersionGate(program: Option<Program>, input: Input)
    ensures Run(program, input) == Err(UndecodableAst) <==> program.None?
    ensures forall v :: Run(program, input) == Err(UnsupportedVersion(v)) <==>
                        program.Some? && program.value.version == v && v != 1
  {
    if program.Some? { ExecNeverRefuses(input, program.value.ops, START); }
  }

  lemma {:induction false} ExecNeverRefuses(input: Input, ops: seq<Op>, m: Machine)
    ensures Exec(input, ops, m) != Err(UndecodableAst)
    ensures forall v :: Exec(input, ops, m) != Err(UnsupportedVersion(v))
  {
    if ops != [] && Step(input, ops[0], m).Next? {
      ExecNeverRefuses(input, ops[1..], Step(input, ops[0], m).m);
    }
  }

  /** A call-free run that completes has used one unit for every operation it started. */
  lemma {:induction false} GasCountsOps(input: Input, ops: seq<Op>, m: Machine)
    requires CallFree(ops)
    ensures Exec(input, ops, m).Done? ==> Exec(input, ops, m).gasUsed == m.gasUsed + Started(input, ops, m)
  {
    if ops != [] && Step(input, ops[0], m).Next? {
      GasCountsOps(input, ops[1..], Step(input, ops[0], m).m);
    }
  }

  /** What follows a `Halt` never matters. */
  lemma {:induction false} DeadCodeAfterHalt(input: Input, before: seq<Op>, after: seq<Op>, m: Machine)
    ensures Exec(input, before + [Halt] + after, m) == Exec(input, before + [Halt], m)
  {
    if before != [] {
      assert (before + [Halt] + after)[1..] == before[1..] + [Halt] + after;
      assert (before + [Halt])[1..] == before[1..] + [Halt];
      if Step(input, before[0], m).Next? {
        DeadCodeAfterHalt(input, before[1..], after, Step(input, before[0], m).m);
      }
    }
  }

  // ----- calls -----

  /** Whatever the callees do, a capped run that succeeds stays within its cap. */
  lemma {:induction false} CappedGas(input: Input, ops: seq<Op>, m: Machine)
    requires input.gasLimit > 0 && m.gasUsed <= input.gasLimit
    ensures Exec(input, ops, m).Done? ==> m.gasUsed <= Exec(input, ops, m).gasUsed <= input.gasLimit
  {
    if ops != [] && Step(input, ops[0], m).Next? {
      CappedGas(input, ops[1..], Step(input, ops[0], m).m);
    }
  }

  /** Callees whose cost still fits in 64 bits with the call base added. */
  ghost predicate ModestCallee(input: Input) {
    input.callCtx.Some? ==> forall op, sub :: input.callCtx.value(op, sub).gasUsed + CALL_BASE <= U64_MAX
  }

  lemma {:induction false} CappedNeverPanics(input: Input, ops: seq<Op>, m: Machine)
    requires input.gasLimit > 0 && m.gasUsed <= input.gasLimit && ModestCallee(input)
    ensures Exec(input, ops, m) != Panic
  {
    if ops != [] && Step(input, ops[0], m).Next? {
      CappedNeverPanics(input, ops[1..], Step(input, ops[0], m).m);
    }
  }

  /** The operation a run ends at. */
  function EndsAt(input: Input, ops: seq<Op>, m: Machine): (k: nat)
    ensures k <= |ops|
  {
    if ops == [] || !Step(input, ops[0], m).Next? then 0 else 1 + EndsAt(input, ops[1..], Step(input, ops[0], m).m)
  }

  /** A run that reverts ends at a `Call` exactly when it has no call context: a failing callee only pushes a status. */
  lemma {:induction false} CallNeverReverts(input: Input, ops: seq<Op>, m: Machine)
    requires Exec(input, ops, m).Err? && Exec(input, ops, m).error.Reverted?
    ensures EndsAt(input, ops, m) < |ops|
    ensures ops[EndsAt(input, ops, m)].Call? <==> Exec(input, ops, m).error.reason == NoCallContext
    ensures ops[EndsAt(input, ops, m)].Call? ==> input.callCtx.None?
  {
    if Step(input, ops[0], m).Next? {
      CallNeverReverts(input, ops[1..], Step(input, ops[0], m).m);
    }
  }

  /** What a call leaves to its callee of the cap, or of everything, after the unit and the call base. */
  function Budget(input: Input, gasUsed: U64): U64 {
    var left := input.gasLimit as int - gasUsed as int - 1 - CALL_BASE as int;
    if input.gasLimit == 0 then U64_MAX - CALL_BASE else if left < 0 then 0 else left
  }

  /**
   A call pushes 1 when the callee succeeded on its budget and 0 when it failed, charges the unit, the call base and
   the callee's cost, or runs out of gas; it leaves the rest of the machine alone.
   */
  lemma CallPushesStatus(input: Input, op: Op, m: Machine)
    requires op.Call? && input.callCtx.Some?
    ensures
      var callee := input.callCtx.value(op, Budget(input, m.gasUsed));
      var cost := m.gasUsed as int + 1 + CALL_BASE as int + callee.gasUsed as int;
      match Step(input, op, m)
      case Next(m') =>
        && m'.stack == m.stack + [if callee.success then 1 else 0] && m'.resultData == m.resultData
        && m'.gasUsed as int == (if cost <= U64_MAX then cost else U64_MAX)
      case Stop(_) => false
      case Fail(e) =>
        e == GasExhausted && 0 < input.gasLimit && (input.gasLimit <= m.gasUsed || input.gasLimit as int < cost)
      case Overflow => m.gasUsed == U64_MAX || CALL_BASE as int + callee.gasUsed as int > U64_MAX
  {
  }

  /**
   A callee that keeps to its sub-budget exhausts the caller exactly when the call base itself does not fit, with
   one exception: under the largest cap the saturated total is never above it.
   */
  lemma BudgetedCallExhausts(input: Input, op: Op, m: Machine)
    requires op.Call? && input.callCtx.Some? && 0 < input.gasLimit && m.gasUsed < input.gasLimit
    requires forall sub :: input.callCtx.value(op, sub).gasUsed <= sub
    ensures Step(input, op, m) == Fail(GasExhausted) <==>
            input.gasLimit - (m.gasUsed + 1) < CALL_BASE && input.gasLimit < U64_MAX
  {
    var sub := SaturatingSub(Remaining(input.gasLimit, m.gasUsed + 1), CALL_BASE);
    assert input.callCtx.value(op, sub).gasUsed <= sub;
  }
}
