/** Each folding rule keeps the value of the instruction it rewrites.

    A rule is locally sound when, whatever the environment and whatever fuel
    the visited instruction has a value with, what the outcome puts in its
    place has the same value: the replacing value, the instruction with its
    new arguments or opcode, or the emitted multiplication (with one step
    less, since it is reached through the redirected instruction).
 */
module Soundness {
  import opened Arith
  import opened IR
  import opened Folds
  import opened Semantics

  /** The outcome `o` of a rule on `inst` agrees with the value `r` that
      `inst` has with fuel `f`. */
  predicate Agrees(p: Program, env: Env, inst: Inst, o: Outcome, f: nat, r: SVal) {
    match o
    case Unchanged => true
    case Fail(_) => true
    case ReplaceUses(w) => Eval(p, env, w, f) == Some(r)
    case SetArgs(args) => EvalInst(p, env, inst.(args := args), f) == Some(r)
    case SetOpcode(op, args) => EvalInst(p, env, inst.(op := op, args := args), f) == Some(r)
    case EmitIMul32(a, c) => f >= 1 && EvalInst(p, env, Inst(IMul32, [a, c], false, false), f - 1) == Some(r)
  }

  ghost predicate LocallySound(p: Program, inst: Inst, o: Outcome) {
    forall env, f: nat | EvalInst(p, env, inst, f).Some? ::
      Agrees(p, env, inst, o, f, EvalInst(p, env, inst, f).value)
  }

  // ---------------------------------------------------------------------------
  // Operands of an evaluated instruction

  lemma {:induction false} EvalInstArgs(p: Program, env: Env, inst: Inst, f: nat)
    requires EvalInst(p, env, inst, f).Some?
    ensures EvalArgs(p, env, inst.args, f).Some?
    ensures EvalOp(env, inst.op, EvalArgs(p, env, inst.args, f).value) == EvalInst(p, env, inst, f)
    ensures forall i | 0 <= i < |inst.args| ::
      Eval(p, env, inst.args[i], f) == Some(EvalArgs(p, env, inst.args, f).value[i])
  {
    EvalArgsPointwise(p, env, inst.args, f, EvalArgs(p, env, inst.args, f).value);
  }

  lemma {:induction false} EvalInstFromArgs(p: Program, env: Env, inst: Inst, f: nat, vals: seq<SVal>)
    requires |vals| == |inst.args|
    requires forall i | 0 <= i < |inst.args| :: Eval(p, env, inst.args[i], f) == Some(vals[i])
    ensures EvalInst(p, env, inst, f) == EvalOp(env, inst.op, vals)
  {
    EvalArgsPointwise(p, env, inst.args, f, vals);
  }

  /** The operands keep their values with more fuel. */
  lemma {:induction false} EvalArgsLift(p: Program, env: Env, args: seq<Value>, n: nat, m: nat)
    requires n <= m && EvalArgs(p, env, args, n).Some?
    ensures forall i | 0 <= i < |args| :: Eval(p, env, args[i], m) == Some(EvalArgs(p, env, args, n).value[i])
  {
    EvalArgsPointwise(p, env, args, n, EvalArgs(p, env, args, n).value);
    forall i | 0 <= i < |args|
      ensures Eval(p, env, args[i], m) == Some(EvalArgs(p, env, args, n).value[i])
    {
      EvalMono(p, env, args[i], n, m);
    }
  }

  /** The operands of the instruction producing `v` have values, with the
      same fuel as `v`, from which that instruction computes the value of `v`. */
  lemma {:induction false} OperandValues(p: Program, env: Env, v: Value, op: Opcode, f: nat)
    requires WellFormed(p) && OperandsOf(p, v, op).Some? && Eval(p, env, v, f).Some?
    ensures var a := OperandsOf(p, v, op).value;
      && f >= 1 && EvalArgs(p, env, a, f - 1).Some?
      && EvalOp(env, op, EvalArgs(p, env, a, f - 1).value) == Eval(p, env, v, f)
      && forall i | 0 <= i < |a| :: Eval(p, env, a[i], f) == Some(EvalArgs(p, env, a, f - 1).value[i])
  {
    var q := Producer(p, v).value;
    ProducerEval(p, env, v, f);
    EvalInstArgs(p, env, q, f - 1);
    EvalArgsLift(p, env, q.args, f - 1, f);
  }

  /** The same, with the operands' values at the fuel of the producing
      instruction, one below that of `v`. */
  lemma {:induction false} OperandValuesBelow(p: Program, env: Env, v: Value, op: Opcode, f: nat)
    requires WellFormed(p) && OperandsOf(p, v, op).Some? && Eval(p, env, v, f).Some?
    ensures var a := OperandsOf(p, v, op).value;
      && f >= 1 && EvalArgs(p, env, a, f - 1).Some?
      && EvalOp(env, op, EvalArgs(p, env, a, f - 1).value) == Eval(p, env, v, f)
      && forall i | 0 <= i < |a| :: Eval(p, env, a[i], f - 1) == Some(EvalArgs(p, env, a, f - 1).value[i])
  {
    var q := Producer(p, v).value;
    ProducerEval(p, env, v, f);
    EvalInstArgs(p, env, q, f - 1);
  }

  // ---------------------------------------------------------------------------
  // Register, predicate and select folds

  lemma {:induction false} GetRegisterSound(p: Program, inst: Inst)
    requires inst.op.GetRegister? && ArityOk(inst)
    ensures LocallySound(p, inst, FoldGetRegister(p, inst))
  {
    forall env, f: nat | EvalInst(p, env, inst, f).Some?
      ensures Agrees(p, env, inst, FoldGetRegister(p, inst), f, EvalInst(p, env, inst, f).value)
    {
      EvalInstArgs(p, env, inst, f);
      if ArgReg(p, inst.args[0]).Ok? {
        ImmOfEval(p, env, inst.args[0], f);
      }
    }
  }

  lemma {:induction false} GetPredSound(p: Program, inst: Inst)
    requires inst.op.GetPred? && ArityOk(inst)
    ensures LocallySound(p, inst, FoldGetPred(p, inst))
  {
    forall env, f: nat | EvalInst(p, env, inst, f).Some?
      ensures Agrees(p, env, inst, FoldGetPred(p, inst), f, EvalInst(p, env, inst, f).value)
    {
      EvalInstArgs(p, env, inst, f);
      if ArgPred(p, inst.args[0]).Ok? {
        ImmOfEval(p, env, inst.args[0], f);
      }
    }
  }

  lemma {:induction false} SelectSound(p: Program, inst: Inst)
    requires inst.op.Select? && ArityOk(inst)
    ensures LocallySound(p, inst, FoldSelect(p, inst))
  {
    forall env, f: nat | EvalInst(p, env, inst, f).Some?
      ensures Agrees(p, env, inst, FoldSelect(p, inst), f, EvalInst(p, env, inst, f).value)
    {
      EvalInstArgs(p, env, inst, f);
      if ArgBool(p, inst.args[0]).Ok? {
        ImmOfEval(p, env, inst.args[0], f);
      }
    }
  }

  // ---------------------------------------------------------------------------
  // Negation, casts and their inverses

  lemma {:induction false} LogicalNotAgrees(p: Program, env: Env, inst: Inst, f: nat)
    requires WellFormed(p) && inst.op.LogicalNot? && ArityOk(inst)
    requires EvalInst(p, env, inst, f).Some?
    ensures Agrees(p, env, inst, FoldLogicalNot(p, inst), f, EvalInst(p, env, inst, f).value)
  {
    EvalInstArgs(p, env, inst, f);
    var v := inst.args[0];
    if IsImmediate(p, v) {
      if ArgBool(p, v).Ok? {
        ImmOfEval(p, env, v, f);
      }
    } else if ProducedBy(p, v, LogicalNot) {
      OperandValues(p, env, v, LogicalNot, f);
    }
  }

  lemma {:induction false} LogicalNotSound(p: Program, inst: Inst)
    requires WellFormed(p) && inst.op.LogicalNot? && ArityOk(inst)
    ensures LocallySound(p, inst, FoldLogicalNot(p, inst))
  {
    forall env, f: nat | EvalInst(p, env, inst, f).Some?
      ensures Agrees(p, env, inst, FoldLogicalNot(p, inst), f, EvalInst(p, env, inst, f).value)
    {
      LogicalNotAgrees(p, env, inst, f);
    }
  }

  /** Casting back what a cast computed gives the cast's operand. */
  lemma {:induction false} CastsCancel(env: Env, cast: Opcode, inner: seq<SVal>, outer: seq<SVal>)
    requires cast.BitCastF32U32? || cast.BitCastU32F32?
    requires EvalOp(env, cast, inner).Some? && |outer| > 0 && outer[0] == EvalOp(env, cast, inner).value
    ensures EvalOp(env, ReverseCast(cast), outer) == Some(inner[0])
  {
  }

  /** A cast of a cast in the other direction gives back the operand. */
  lemma {:induction false} CastOfReverseCast(p: Program, env: Env, inst: Inst, f: nat)
    requires WellFormed(p) && (inst.op.BitCastF32U32? || inst.op.BitCastU32F32?) && ArityOk(inst)
    requires EvalInst(p, env, inst, f).Some? && ProducedBy(p, inst.args[0], ReverseCast(inst.op))
    ensures Eval(p, env, OperandsOf(p, inst.args[0], ReverseCast(inst.op)).value[0], f) == EvalInst(p, env, inst, f)
  {
    var v := inst.args[0];
    var rev := ReverseCast(inst.op);
    EvalInstArgs(p, env, inst, f);
    OperandValues(p, env, v, rev, f);
    var a := OperandsOf(p, v, rev).value;
    CastsCancel(env, rev, EvalArgs(p, env, a, f - 1).value, EvalArgs(p, env, inst.args, f).value);
  }

  /** A float cast of a u32 constant-buffer read is the float read of the same word. */
  lemma {:induction false} CastOfCbufRead(p: Program, env: Env, inst: Inst, f: nat)
    requires WellFormed(p) && inst.op.BitCastF32U32? && ArityOk(inst)
    requires EvalInst(p, env, inst, f).Some? && ProducedBy(p, inst.args[0], GetCbufU32)
    ensures var a := OperandsOf(p, inst.args[0], GetCbufU32).value;
      EvalInst(p, env, inst.(op := GetCbufF32, args := [a[0], a[1]]), f) == EvalInst(p, env, inst, f)
  {
    EvalInstArgs(p, env, inst, f);
    var a := OperandsOf(p, inst.args[0], GetCbufU32).value;
    OperandValues(p, env, inst.args[0], GetCbufU32, f);
    var vals := EvalArgs(p, env, a, f - 1).value;
    EvalInstFromArgs(p, env, inst.(op := GetCbufF32, args := [a[0], a[1]]), f, vals[..2]);
  }

  /** A cast of an immediate reinterprets its bits. */
  lemma {:induction false} CastOfImmediate(p: Program, env: Env, inst: Inst, f: nat)
    requires (inst.op.BitCastF32U32? || inst.op.BitCastU32F32?) && ArityOk(inst)
    requires EvalInst(p, env, inst, f).Some? && IsImmediate(p, inst.args[0])
    ensures inst.op.BitCastF32U32? ==> (ArgU32(p, inst.args[0]).Ok? &&
      EvalInst(p, env, inst, f) == Some(Scalar(F32(ArgU32(p, inst.args[0]).value))))
    ensures inst.op.BitCastU32F32? ==> (ArgF32(p, inst.args[0]).Ok? &&
      EvalInst(p, env, inst, f) == Some(Scalar(U32(ArgF32(p, inst.args[0]).value))))
  {
    EvalInstArgs(p, env, inst, f);
    ImmOfEval(p, env, inst.args[0], f);
  }

  lemma {:induction false} BitCastAgrees(p: Program, env: Env, inst: Inst, f: nat)
    requires WellFormed(p) && (inst.op.BitCastF32U32? || inst.op.BitCastU32F32?) && ArityOk(inst)
    requires EvalInst(p, env, inst, f).Some?
    ensures Agrees(p, env, inst, FoldBitCast(p, inst), f, EvalInst(p, env, inst, f).value)
  {
    var v := inst.args[0];
    if IsImmediate(p, v) {
      CastOfImmediate(p, env, inst, f);
    } else if ProducedBy(p, v, ReverseCast(inst.op)) {
      CastOfReverseCast(p, env, inst, f);
    } else if inst.op.BitCastF32U32? && ProducedBy(p, v, GetCbufU32) {
      CastOfCbufRead(p, env, inst, f);
    }
  }

  lemma {:induction false} BitCastSound(p: Program, inst: Inst)
    requires WellFormed(p) && (inst.op.BitCastF32U32? || inst.op.BitCastU32F32?) && ArityOk(inst)
    ensures LocallySound(p, inst, FoldBitCast(p, inst))
  {
    forall env, f: nat | EvalInst(p, env, inst, f).Some?
      ensures Agrees(p, env, inst, FoldBitCast(p, inst), f, EvalInst(p, env, inst, f).value)
    {
      BitCastAgrees(p, env, inst, f);
    }
  }

  /** The half-float packings and the float multiplication have no value in
      the model, so every outcome of their rules agrees with it. */
  lemma {:induction false} FloatRulesSound(p: Program, inst: Inst, o: Outcome)
    requires inst.op.PackHalf2x16? || inst.op.UnpackHalf2x16? || inst.op.FPMul32?
    ensures LocallySound(p, inst, o)
  {
  }

  // ---------------------------------------------------------------------------
  // Conditional branch

  /** A negation has the opposite value of its operand. */
  lemma {:induction false} NegationValue(p: Program, env: Env, v: Value, f: nat) returns (b: bool)
    requires WellFormed(p) && ProducedBy(p, v, LogicalNot) && Eval(p, env, v, f).Some?
    ensures Eval(p, env, OperandsOf(p, v, LogicalNot).value[0], f) == Some(Scalar(U1(b)))
    ensures Eval(p, env, v, f) == Some(Scalar(U1(!b)))
  {
    OperandValues(p, env, v, LogicalNot, f);
    b := Eval(p, env, OperandsOf(p, v, LogicalNot).value[0], f).value.imm.b;
  }

  /** A branch on `c` to the exchanged targets takes the same target as a
      branch on `!c`. */
  lemma {:induction false} SwappedBranch(p: Program, env: Env, inst: Inst, c: Value, b: bool, f: nat)
    requires inst.op.BranchConditional? && ArityOk(inst) && EvalInst(p, env, inst, f).Some?
    requires Eval(p, env, inst.args[0], f) == Some(Scalar(U1(!b))) && Eval(p, env, c, f) == Some(Scalar(U1(b)))
    ensures EvalInst(p, env, inst.(args := SwapTargets(inst.args, c)), f) == EvalInst(p, env, inst, f)
  {
    EvalInstArgs(p, env, inst, f);
    var vals := EvalArgs(p, env, inst.args, f).value;
    var swapped := [Scalar(U1(b)), vals[2], vals[1]] + vals[3..];
    EvalInstFromArgs(p, env, inst.(args := SwapTargets(inst.args, c)), f, swapped);
  }

  lemma {:induction false} BranchConditionalAgrees(p: Program, env: Env, inst: Inst, f: nat)
    requires WellFormed(p) && inst.op.BranchConditional? && ArityOk(inst)
    requires EvalInst(p, env, inst, f).Some? && ProducedBy(p, inst.args[0], LogicalNot)
    ensures var c := OperandsOf(p, inst.args[0], LogicalNot).value[0];
      EvalInst(p, env, inst.(args := SwapTargets(inst.args, c)), f) == EvalInst(p, env, inst, f)
  {
    EvalInstArgs(p, env, inst, f);
    var b := NegationValue(p, env, inst.args[0], f);
    SwappedBranch(p, env, inst, OperandsOf(p, inst.args[0], LogicalNot).value[0], b, f);
  }

  lemma {:induction false} BranchConditionalSound(p: Program, inst: Inst)
    requires WellFormed(p) && inst.op.BranchConditional? && ArityOk(inst)
    ensures LocallySound(p, inst, FoldBranchConditional(p, inst))
  {
    forall env, f: nat | EvalInst(p, env, inst, f).Some?
      ensures Agrees(p, env, inst, FoldBranchConditional(p, inst), f, EvalInst(p, env, inst, f).value)
    {
      if ProducedBy(p, inst.args[0], LogicalNot) {
        BranchConditionalAgrees(p, env, inst, f);
      }
    }
  }

  // ---------------------------------------------------------------------------
  // Composite extract

  /** The lanes of a construct are the values of its operands. */
  lemma {:induction false} ConstructLanes(p: Program, env: Env, v: Value, vec: VectorType, n: nat)
    requires WellFormed(p) && ProducedBy(p, v, CompositeConstruct(vec)) && Eval(p, env, v, n).Some?
    ensures var a := OperandsOf(p, v, CompositeConstruct(vec)).value;
      && Eval(p, env, v, n).value.Vector? && |Eval(p, env, v, n).value.lanes| == |a|
      && forall i | 0 <= i < |a| :: Eval(p, env, a[i], n) == Some(Eval(p, env, v, n).value.lanes[i])
  {
    OperandValues(p, env, v, CompositeConstruct(vec), n);
  }

  /** Lane `index` of an insert at an immediate lane: the inserted value at
      that lane, and the vector operand's lane anywhere else. */
  lemma {:induction false} InsertLane(p: Program, env: Env, v: Value, vec: VectorType, index: u32, n: nat)
    requires WellFormed(p) && ProducedBy(p, v, CompositeInsert(vec))
    requires ArgU32(p, OperandsOf(p, v, CompositeInsert(vec)).value[2]).Ok?
    requires Eval(p, env, v, n).Some? && Eval(p, env, v, n).value.Vector? && index < |Eval(p, env, v, n).value.lanes|
    ensures var a := OperandsOf(p, v, CompositeInsert(vec)).value;
      var lane := Eval(p, env, v, n).value.lanes[index];
      if index == ArgU32(p, a[2]).value then Eval(p, env, a[1], n) == Some(lane)
      else
        && Eval(p, env, a[0], n).Some? && Eval(p, env, a[0], n).value.Vector?
        && index < |Eval(p, env, a[0], n).value.lanes| && Eval(p, env, a[0], n).value.lanes[index] == lane
  {
    var a := OperandsOf(p, v, CompositeInsert(vec)).value;
    OperandValues(p, env, v, CompositeInsert(vec), n);
    ImmOfEval(p, env, a[2], n);
  }

  /** One step of a chase that finds a value: a construct's operand, the
      value of an insert at the lane, or the rest of the chase below an
      insert at another lane. */
  lemma {:induction false} ChaseStep(p: Program, v: Value, vec: VectorType, index: u32, fuel: nat)
    requires WellFormed(p) && ExtractChase(p, v, vec, index, fuel).Ok? && ExtractChase(p, v, vec, index, fuel).value.Some?
    ensures var r := ExtractChase(p, v, vec, index, fuel).value.value;
      if ProducedBy(p, v, CompositeConstruct(vec)) then
        var lanes := OperandsOf(p, v, CompositeConstruct(vec)).value;
        index < |lanes| && r == lanes[index]
      else
        && ProducedBy(p, v, CompositeInsert(vec))
        && var a := OperandsOf(p, v, CompositeInsert(vec)).value;
        && ArgU32(p, a[2]).Ok?
        && (index == ArgU32(p, a[2]).value ==> r == a[1])
        && (index != ArgU32(p, a[2]).value ==>
              fuel >= 1 && ExtractChase(p, a[0], vec, index, fuel - 1) == ExtractChase(p, v, vec, index, fuel))
  {
  }

  /** The value the chase finds is lane `index` of the composite it starts
      from: a construct's operand, or the value an insert put at that lane. */
  lemma {:induction false} ExtractChaseEval(p: Program, env: Env, v: Value, vec: VectorType, index: u32, fuel: nat, n: nat)
    requires WellFormed(p) && ExtractChase(p, v, vec, index, fuel).Ok? && ExtractChase(p, v, vec, index, fuel).value.Some?
    requires Eval(p, env, v, n).Some? && Eval(p, env, v, n).value.Vector? && index < |Eval(p, env, v, n).value.lanes|
    ensures Eval(p, env, ExtractChase(p, v, vec, index, fuel).value.value, n) == Some(Eval(p, env, v, n).value.lanes[index])
    decreases fuel
  {
    ChaseStep(p, v, vec, index, fuel);
    if ProducedBy(p, v, CompositeConstruct(vec)) {
      ConstructLanes(p, env, v, vec, n);
    } else {
      var a := OperandsOf(p, v, CompositeInsert(vec)).value;
      InsertLane(p, env, v, vec, index, n);
      if index != ArgU32(p, a[2]).value {
        ExtractChaseEval(p, env, a[0], vec, index, fuel - 1, n);
      }
    }
  }

  /** An extract reads lane `index` of its composite operand. */
  lemma {:induction false} ExtractValue(p: Program, env: Env, inst: Inst, f: nat)
    requires inst.op.CompositeExtract? && ArityOk(inst) && EvalInst(p, env, inst, f).Some?
    requires ArgU32(p, inst.args[1]).Ok?
    ensures var index := ArgU32(p, inst.args[1]).value;
      && Eval(p, env, inst.args[0], f).Some? && Eval(p, env, inst.args[0], f).value.Vector?
      && index < |Eval(p, env, inst.args[0], f).value.lanes|
      && EvalInst(p, env, inst, f) == Some(Eval(p, env, inst.args[0], f).value.lanes[index])
  {
    EvalInstArgs(p, env, inst, f);
    ImmOfEval(p, env, inst.args[1], f);
  }

  lemma {:induction false} CompositeExtractAgrees(p: Program, env: Env, inst: Inst, f: nat)
    requires WellFormed(p) && inst.op.CompositeExtract? && ArityOk(inst) && EvalInst(p, env, inst, f).Some?
    ensures Agrees(p, env, inst, FoldCompositeExtract(p, inst), f, EvalInst(p, env, inst, f).value)
  {
    var comp, idx := inst.args[0], inst.args[1];
    if !IsImmediate(p, comp) && IsImmediate(p, idx) && ArgU32(p, idx).Ok? {
      var chase := ExtractChase(p, comp, inst.op.vec, ArgU32(p, idx).value, ChainBound(p));
      if chase.Ok? && chase.value.Some? {
        ExtractValue(p, env, inst, f);
        ExtractChaseEval(p, env, comp, inst.op.vec, ArgU32(p, idx).value, ChainBound(p), f);
      }
    }
  }

  lemma {:induction false} CompositeExtractSound(p: Program, inst: Inst)
    requires WellFormed(p) && inst.op.CompositeExtract? && ArityOk(inst)
    ensures LocallySound(p, inst, FoldCompositeExtract(p, inst))
  {
    forall env, f: nat | EvalInst(p, env, inst, f).Some?
      ensures Agrees(p, env, inst, FoldCompositeExtract(p, inst), f, EvalInst(p, env, inst, f).value)
    {
      CompositeExtractAgrees(p, env, inst, f);
    }
  }
}
