/** The integer and logical folding rules keep the values they rewrite.

    Each proof splits in two: a fact about `EvalOp` on computed operands,
    stated without the program, and the glue that reads those operands off
    the program with `EvalInstArgs` and `OperandValues`.
 */
module IntSoundness {
  import opened Arith
  import opened IR
  import opened Folds
  import opened Semantics
  import opened Soundness

  // ---------------------------------------------------------------------------
  // Folding immediates

  /** Operands computed from immediates are those immediates. */
  predicate ImmediateOperands(p: Program, args: seq<Value>, vals: seq<SVal>) {
    && |vals| == |args|
    && forall i | 0 <= i < |args| :: ImmOf(p, args[i]).Some? && vals[i] == Scalar(ImmOf(p, args[i]).value)
  }

  /** The bit-field extractions as the folder computes them agree with the
      reference extraction, in every case the folder does not refuse. */
  lemma {:induction false} ExtractImmediates(p: Program, env: Env, inst: Inst, vals: seq<SVal>)
    requires (inst.op.BitFieldUExtract? || inst.op.BitFieldSExtract?) && ArityOk(inst)
    requires ImmediateOperands(p, inst.args, vals) && EvalImmediates(p, inst).Ok?
    ensures EvalOp(env, inst.op, vals) == Some(Scalar(EvalImmediates(p, inst).value))
  {
    var base, shift, count := ArgU32(p, inst.args[0]).value, ArgU32(p, inst.args[1]).value, ArgU32(p, inst.args[2]).value;
    assert U32At(vals, 0) == Some(base) && U32At(vals, 1) == Some(shift) && U32At(vals, 2) == Some(count);
    if count == 0 {
      assert BitField(base, shift, 0) < Pow2(0) == 1;
    }
  }

  lemma {:induction false} CompareImmediates(p: Program, env: Env, inst: Inst, vals: seq<SVal>)
    requires FoldsImmediates(inst.op) && !inst.op.BitFieldUExtract? && !inst.op.BitFieldSExtract?
    requires ArityOk(inst) && ImmediateOperands(p, inst.args, vals) && EvalImmediates(p, inst).Ok?
    ensures EvalOp(env, inst.op, vals) == Some(Scalar(EvalImmediates(p, inst).value))
  {
    assert U32At(vals, 0) == Some(ArgU32(p, inst.args[0]).value);
    assert U32At(vals, 1) == Some(ArgU32(p, inst.args[1]).value);
  }

  /** What `FoldWhenAllImmediates` puts in place of an instruction is its value. */
  lemma {:induction false} ImmediatesAgrees(p: Program, env: Env, inst: Inst, f: nat)
    requires FoldsImmediates(inst.op) && ArityOk(inst)
    requires EvalInst(p, env, inst, f).Some?
    ensures Agrees(p, env, inst, FoldWhenAllImmediates(p, inst), f, EvalInst(p, env, inst, f).value)
  {
    if AllArgsImmediate(p, inst) && !inst.pseudoOp && EvalImmediates(p, inst).Ok? {
      EvalInstArgs(p, env, inst, f);
      var vals := EvalArgs(p, env, inst.args, f).value;
      forall i | 0 <= i < |inst.args|
        ensures ImmOf(p, inst.args[i]).Some? && vals[i] == Scalar(ImmOf(p, inst.args[i]).value)
      {
        ImmOfEval(p, env, inst.args[i], f);
      }
      if inst.op.BitFieldUExtract? || inst.op.BitFieldSExtract? {
        ExtractImmediates(p, env, inst, vals);
      } else {
        CompareImmediates(p, env, inst, vals);
      }
    }
  }

  lemma {:induction false} ImmediatesSound(p: Program, inst: Inst)
    requires FoldsImmediates(inst.op) && ArityOk(inst)
    ensures LocallySound(p, inst, FoldWhenAllImmediates(p, inst))
  {
    forall env, f: nat | EvalInst(p, env, inst, f).Some?
      ensures Agrees(p, env, inst, FoldWhenAllImmediates(p, inst), f, EvalInst(p, env, inst, f).value)
    {
      ImmediatesAgrees(p, env, inst, f);
    }
  }

  // ---------------------------------------------------------------------------
  // Commutative operations: the operation on computed operands

  /** A commutative operation, and a subtraction, reads its first two operands only. */
  lemma {:induction false} BinaryPrefix(env: Env, op: Opcode, vals: seq<SVal>)
    requires (IsCommutative(op) || op.ISub32?) && |vals| >= 2
    ensures EvalOp(env, op, vals) == EvalOp(env, op, [vals[0], vals[1]])
  {
    assert U32At(vals, 0) == U32At([vals[0], vals[1]], 0) && U32At(vals, 1) == U32At([vals[0], vals[1]], 1);
    assert U64At(vals, 0) == U64At([vals[0], vals[1]], 0) && U64At(vals, 1) == U64At([vals[0], vals[1]], 1);
    assert BoolAt(vals, 0) == BoolAt([vals[0], vals[1]], 0) && BoolAt(vals, 1) == BoolAt([vals[0], vals[1]], 1);
  }

  lemma {:induction false} OpCommutes(env: Env, op: Opcode, x: SVal, y: SVal)
    requires IsCommutative(op)
    ensures EvalOp(env, op, [x, y]) == EvalOp(env, op, [y, x])
  {
  }

  /** `x op (y op z) == y op (x op z)`, both sides defined together. */
  lemma {:induction false} OpRegroups(env: Env, op: Opcode, x: SVal, y: SVal, z: SVal)
    requires IsCommutative(op) && EvalOp(env, op, [y, z]).Some?
    requires EvalOp(env, op, [x, EvalOp(env, op, [y, z]).value]).Some?
    ensures EvalOp(env, op, [x, z]).Some?
    ensures EvalOp(env, op, [x, EvalOp(env, op, [y, z]).value]) == EvalOp(env, op, [y, EvalOp(env, op, [x, z]).value])
  {
    if op.IAdd32? {
      AddU32Regroup(x.imm.u32bits, y.imm.u32bits, z.imm.u32bits);
    } else if op.IAdd64? {
      AddU64Regroup(x.imm.u64bits, y.imm.u64bits, z.imm.u64bits);
    }
  }

  /** `CombineImm` computes the operation on the two immediates. */
  lemma {:induction false} CombineImmEval(p: Program, env: Env, op: Opcode, a: Value, b: Value, x: SVal, y: SVal)
    requires IsCommutative(op) && CombineImm(p, op, a, b).Ok?
    requires ImmOf(p, a).Some? && x == Scalar(ImmOf(p, a).value)
    requires ImmOf(p, b).Some? && y == Scalar(ImmOf(p, b).value)
    ensures EvalOp(env, op, [x, y]) == Some(Scalar(CombineImm(p, op, a, b).value))
  {
  }

  // ---------------------------------------------------------------------------
  // Commutative operations: reading the operands off the program

  /** The value of a commutative instruction is the operation on the values
      of its first two operands. */
  lemma {:induction false} BinaryValue(p: Program, env: Env, inst: Inst, f: nat)
    requires IsCommutative(inst.op) && ArityOk(inst) && EvalInst(p, env, inst, f).Some?
    ensures Eval(p, env, inst.args[0], f).Some? && Eval(p, env, inst.args[1], f).Some?
    ensures EvalInst(p, env, inst, f)
      == EvalOp(env, inst.op, [Eval(p, env, inst.args[0], f).value, Eval(p, env, inst.args[1], f).value])
  {
    EvalInstArgs(p, env, inst, f);
    BinaryPrefix(env, inst.op, EvalArgs(p, env, inst.args, f).value);
  }

  /** Replacing the first two operands of an operand list by values with
      given values changes those two lanes only. */
  lemma {:induction false} EvalArgsUpdate(p: Program, env: Env, args: seq<Value>, f: nat, a: Value, b: Value, x: SVal, y: SVal)
    requires |args| >= 2 && EvalArgs(p, env, args, f).Some?
    requires Eval(p, env, a, f) == Some(x) && Eval(p, env, b, f) == Some(y)
    ensures EvalArgs(p, env, args[0 := a][1 := b], f) == Some(EvalArgs(p, env, args, f).value[0 := x][1 := y])
  {
    var vals := EvalArgs(p, env, args, f).value;
    EvalArgsPointwise(p, env, args, f, vals);
    EvalArgsPointwise(p, env, args[0 := a][1 := b], f, vals[0 := x][1 := y]);
  }

  /** The instruction with new first two operands computes the operation on
      their values. */
  lemma {:induction false} BinaryRewritten(p: Program, env: Env, inst: Inst, f: nat, a: Value, b: Value, x: SVal, y: SVal)
    requires IsCommutative(inst.op) && ArityOk(inst) && EvalInst(p, env, inst, f).Some?
    requires Eval(p, env, a, f) == Some(x) && Eval(p, env, b, f) == Some(y)
    ensures EvalInst(p, env, inst.(args := inst.args[0 := a][1 := b]), f) == EvalOp(env, inst.op, [x, y])
  {
    var vals := EvalArgs(p, env, inst.args, f).value;
    EvalArgsUpdate(p, env, inst.args, f, a, b, x, y);
    BinaryPrefix(env, inst.op, vals[0 := x][1 := y]);
  }

  /** Folding an immediate `k` into an operand `w == q0 op q1` whose second
      operand is an immediate: `k op w == q0 op (k op q1)`. */
  lemma {:induction false} FoldIntoOperand(p: Program, env: Env, op: Opcode, k: Value, w: Value, f: nat)
    requires WellFormed(p) && IsCommutative(op)
    requires ImmOf(p, k).Some? && OperandsOf(p, w, op).Some?
    requires var q := OperandsOf(p, w, op).value; ImmOf(p, q[1]).Some? && CombineImm(p, op, k, q[1]).Ok?
    requires Eval(p, env, k, f).Some? && Eval(p, env, w, f).Some?
    requires EvalOp(env, op, [Eval(p, env, k, f).value, Eval(p, env, w, f).value]).Some?
    ensures var q := OperandsOf(p, w, op).value;
      && Eval(p, env, q[0], f).Some?
      && EvalOp(env, op, [Eval(p, env, k, f).value, Eval(p, env, w, f).value])
         == EvalOp(env, op, [Eval(p, env, q[0], f).value, Scalar(CombineImm(p, op, k, q[1]).value)])
  {
    var q := OperandsOf(p, w, op).value;
    OperandValues(p, env, w, op, f);
    var inner := EvalArgs(p, env, q, f - 1).value;
    BinaryPrefix(env, op, inner);
    ImmOfEval(p, env, k, f);
    ImmOfEval(p, env, q[1], f);
    OpRegroups(env, op, Eval(p, env, k, f).value, inner[0], inner[1]);
    CombineImmEval(p, env, op, k, q[1], Eval(p, env, k, f).value, inner[1]);
  }

  /** An immediate on the left is folded into a right operand of the same
      operation, or moved to the right. */
  lemma {:induction false} CommuteLeftImmediate(p: Program, env: Env, inst: Inst, f: nat)
    requires WellFormed(p) && IsCommutative(inst.op) && ArityOk(inst) && EvalInst(p, env, inst, f).Some?
    requires IsImmediate(p, inst.args[0]) && !IsImmediate(p, inst.args[1])
    ensures FoldCommutative(p, inst).Continue? ==>
      EvalInst(p, env, inst.(args := FoldCommutative(p, inst).args), f) == EvalInst(p, env, inst, f)
  {
    var lhs, rhs := inst.args[0], inst.args[1];
    var q := OperandsOf(p, rhs, inst.op);
    BinaryValue(p, env, inst, f);
    if q.Some? && IsImmediate(p, q.value[1]) {
      if CombineImm(p, inst.op, lhs, q.value[1]).Ok? {
        FoldIntoOperand(p, env, inst.op, lhs, rhs, f);
        BinaryRewritten(p, env, inst, f, q.value[0], Imm(CombineImm(p, inst.op, lhs, q.value[1]).value),
          Eval(p, env, q.value[0], f).value, Scalar(CombineImm(p, inst.op, lhs, q.value[1]).value));
      }
    } else {
      OpCommutes(env, inst.op, Eval(p, env, lhs, f).value, Eval(p, env, rhs, f).value);
      BinaryRewritten(p, env, inst, f, rhs, lhs, Eval(p, env, rhs, f).value, Eval(p, env, lhs, f).value);
    }
  }

  /** An immediate on the right is folded into a left operand of the same
      operation. */
  lemma {:induction false} CommuteRightImmediate(p: Program, env: Env, inst: Inst, f: nat)
    requires WellFormed(p) && IsCommutative(inst.op) && ArityOk(inst) && EvalInst(p, env, inst, f).Some?
    requires !IsImmediate(p, inst.args[0]) && IsImmediate(p, inst.args[1])
    ensures FoldCommutative(p, inst).Continue? ==>
      EvalInst(p, env, inst.(args := FoldCommutative(p, inst).args), f) == EvalInst(p, env, inst, f)
  {
    var lhs, rhs := inst.args[0], inst.args[1];
    var q := OperandsOf(p, lhs, inst.op);
    if q.Some? && IsImmediate(p, q.value[1]) && CombineImm(p, inst.op, rhs, q.value[1]).Ok? {
      BinaryValue(p, env, inst, f);
      OpCommutes(env, inst.op, Eval(p, env, lhs, f).value, Eval(p, env, rhs, f).value);
      FoldIntoOperand(p, env, inst.op, rhs, lhs, f);
      BinaryRewritten(p, env, inst, f, q.value[0], Imm(CombineImm(p, inst.op, rhs, q.value[1]).value),
        Eval(p, env, q.value[0], f).value, Scalar(CombineImm(p, inst.op, rhs, q.value[1]).value));
    }
  }

  /** Two immediates fold to the operation on them. */
  lemma {:induction false} CommuteBothImmediate(p: Program, env: Env, inst: Inst, f: nat)
    requires WellFormed(p) && IsCommutative(inst.op) && ArityOk(inst) && EvalInst(p, env, inst, f).Some?
    requires IsImmediate(p, inst.args[0]) && IsImmediate(p, inst.args[1])
    ensures Agrees(p, env, inst, FoldCommutative(p, inst).outcome, f, EvalInst(p, env, inst, f).value)
  {
    var lhs, rhs := inst.args[0], inst.args[1];
    if CombineImm(p, inst.op, lhs, rhs).Ok? {
      BinaryValue(p, env, inst, f);
      ImmOfEval(p, env, lhs, f);
      ImmOfEval(p, env, rhs, f);
      CombineImmEval(p, env, inst.op, lhs, rhs, Eval(p, env, lhs, f).value, Eval(p, env, rhs, f).value);
    }
  }

  /** `FoldCommutative` keeps the value: a fold replaces the instruction by
      its value, and the operands it leaves compute the same value. */
  lemma {:induction false} CommutativeAgrees(p: Program, env: Env, inst: Inst, f: nat)
    requires WellFormed(p) && IsCommutative(inst.op) && ArityOk(inst) && EvalInst(p, env, inst, f).Some?
    ensures FoldCommutative(p, inst).Folded? ==>
      Agrees(p, env, inst, FoldCommutative(p, inst).outcome, f, EvalInst(p, env, inst, f).value)
    ensures FoldCommutative(p, inst).Continue? ==>
      EvalInst(p, env, inst.(args := FoldCommutative(p, inst).args), f) == EvalInst(p, env, inst, f)
  {
    var lhsImm, rhsImm := IsImmediate(p, inst.args[0]), IsImmediate(p, inst.args[1]);
    if lhsImm && rhsImm {
      CommuteBothImmediate(p, env, inst, f);
    } else if lhsImm {
      CommuteLeftImmediate(p, env, inst, f);
    } else if rhsImm {
      CommuteRightImmediate(p, env, inst, f);
    } else {
      assert inst.(args := inst.args) == inst;
    }
  }

  // ---------------------------------------------------------------------------
  // Logical and, logical or

  /** `x && true == x`, `x && false == false`, and dually for `||`. */
  lemma {:induction false} LogicalWithImmediate(env: Env, op: Opcode, x: SVal, b: bool)
    requires (op.LogicalAnd? || op.LogicalOr?) && EvalOp(env, op, [x, Scalar(U1(b))]).Some?
    ensures EvalOp(env, op, [x, Scalar(U1(b))]) == (if b == (op.LogicalAnd?) then Some(x) else Some(Scalar(U1(b))))
  {
  }

  /** The value of a commutative instruction whose operands the commutative
      fold rewrote, when the new second operand is an immediate. */
  lemma {:induction false} ContinuedWithImmediate(p: Program, env: Env, inst: Inst, f: nat)
    requires WellFormed(p) && IsCommutative(inst.op) && ArityOk(inst) && EvalInst(p, env, inst, f).Some?
    requires FoldCommutative(p, inst).Continue?
    requires ImmOf(p, FoldCommutative(p, inst).args[1]).Some?
    ensures var args := FoldCommutative(p, inst).args;
      && Eval(p, env, args[0], f).Some?
      && EvalInst(p, env, inst, f)
         == EvalOp(env, inst.op, [Eval(p, env, args[0], f).value, Scalar(ImmOf(p, args[1]).value)])
  {
    var args := FoldCommutative(p, inst).args;
    CommutativeAgrees(p, env, inst, f);
    BinaryValue(p, env, inst.(args := args), f);
    ImmOfEval(p, env, args[1], f);
  }

  lemma {:induction false} LogicalAgrees(p: Program, env: Env, inst: Inst, f: nat)
    requires WellFormed(p) && (inst.op.LogicalAnd? || inst.op.LogicalOr?) && ArityOk(inst)
    requires EvalInst(p, env, inst, f).Some?
    ensures inst.op.LogicalAnd? ==> Agrees(p, env, inst, FoldLogicalAnd(p, inst), f, EvalInst(p, env, inst, f).value)
    ensures inst.op.LogicalOr? ==> Agrees(p, env, inst, FoldLogicalOr(p, inst), f, EvalInst(p, env, inst, f).value)
  {
    CommutativeAgrees(p, env, inst, f);
    var r := FoldCommutative(p, inst);
    if r.Continue? && IsImmediate(p, r.args[1]) && ArgBool(p, r.args[1]).Ok? {
      ContinuedWithImmediate(p, env, inst, f);
      LogicalWithImmediate(env, inst.op, Eval(p, env, r.args[0], f).value, ArgBool(p, r.args[1]).value);
    }
  }

  lemma {:induction false} LogicalAndSound(p: Program, inst: Inst)
    requires WellFormed(p) && inst.op.LogicalAnd? && ArityOk(inst)
    ensures LocallySound(p, inst, FoldLogicalAnd(p, inst))
  {
    forall env, f: nat | EvalInst(p, env, inst, f).Some?
      ensures Agrees(p, env, inst, FoldLogicalAnd(p, inst), f, EvalInst(p, env, inst, f).value)
    {
      LogicalAgrees(p, env, inst, f);
    }
  }

  lemma {:induction false} LogicalOrSound(p: Program, inst: Inst)
    requires WellFormed(p) && inst.op.LogicalOr? && ArityOk(inst)
    ensures LocallySound(p, inst, FoldLogicalOr(p, inst))
  {
    forall env, f: nat | EvalInst(p, env, inst, f).Some?
      ensures Agrees(p, env, inst, FoldLogicalOr(p, inst), f, EvalInst(p, env, inst, f).value)
    {
      LogicalAgrees(p, env, inst, f);
    }
  }

  // ---------------------------------------------------------------------------
  // XMAD multiply reconstruction

  /** Values that name the same resolved value have the same value. */
  lemma {:induction false} SameResolveEval(p: Program, env: Env, v: Value, w: Value, n: nat)
    requires Resolve(p, v) == Resolve(p, w) && Eval(p, env, v, n).Some? && Eval(p, env, w, n).Some?
    ensures Eval(p, env, v, n) == Eval(p, env, w, n)
  {
    ResolveEval(p, env, v, n);
    ResolveEval(p, env, w, n);
  }

  lemma {:induction false} ShiftedBy16Eval(p: Program, env: Env, v: Value, w: Value, n: nat) returns (x: u32)
    requires WellFormed(p) && ShiftedBy16(p, v) == Some(w) && Eval(p, env, v, n).Some?
    ensures n >= 1 && Eval(p, env, w, n) == Some(Scalar(U32(x)))
    ensures Eval(p, env, v, n) == Some(Scalar(U32(ShlU32(x, 16))))
  {
    OperandValuesBelow(p, env, v, ShiftLeftLogical32, n);
    x := Eval(p, env, w, n - 1).value.imm.u32bits;
    EvalMono(p, env, w, n - 1, n);
  }

  lemma {:induction false} MulOfEval(p: Program, env: Env, v: Value, m: Factors, n: nat) returns (x: u32, y: u32)
    requires WellFormed(p) && MulOf(p, v) == Some(m) && Eval(p, env, v, n).Some?
    ensures n >= 1 && Eval(p, env, m.a, n - 1) == Some(Scalar(U32(x))) && Eval(p, env, m.b, n - 1) == Some(Scalar(U32(y)))
    ensures Eval(p, env, v, n) == Some(Scalar(U32(MulU32(x, y))))
  {
    OperandValuesBelow(p, env, v, IMul32, n);
    x := Eval(p, env, m.a, n - 1).value.imm.u32bits;
    y := Eval(p, env, m.b, n - 1).value.imm.u32bits;
  }

  lemma {:induction false} HalfOfEval(p: Program, env: Env, v: Value, offset: u32, h: Value, n: nat) returns (x: u32, r: u32)
    requires WellFormed(p) && (offset == 0 || offset == 16) && HalfOf(p, v, offset) == Some(h) && Eval(p, env, v, n).Some?
    ensures n >= 1 && Eval(p, env, h, n) == Some(Scalar(U32(x)))
    ensures Eval(p, env, v, n) == Some(Scalar(U32(r))) && r == BitField(x, offset, 16)
  {
    OperandValuesBelow(p, env, v, BitFieldUExtract, n);
    x := Eval(p, env, h, n - 1).value.imm.u32bits;
    r := Eval(p, env, v, n).value.imm.u32bits;
    EvalMono(p, env, h, n - 1, n);
  }

  /** A product of a 16-bit half and a factor: `((a >> offset) & 0xffff) * b`. */
  lemma {:induction false} HalfProduct(p: Program, env: Env, v: Value, m: Factors, offset: u32, h: Value, n: nat)
    returns (a: u32, b: u32)
    requires WellFormed(p) && (offset == 0 || offset == 16) && MulOf(p, v) == Some(m) && HalfOf(p, m.a, offset) == Some(h)
    requires Eval(p, env, v, n).Some?
    ensures n >= 1 && Eval(p, env, h, n - 1) == Some(Scalar(U32(a))) && Eval(p, env, m.b, n - 1) == Some(Scalar(U32(b)))
    ensures Eval(p, env, v, n) == Some(Scalar(U32(MulU32(BitField(a, offset, 16), b))))
  {
    var _, y := MulOfEval(p, env, v, m, n);
    var x, _ := HalfOfEval(p, env, m.a, offset, h, n - 1);
    a, b := x, y;
  }

  /** The shifted high half: `((a >> 16) * b) << 16`. */
  lemma {:induction false} XmadHighPart(p: Program, env: Env, lhs: Value, shl: Value, m: Factors, hi: Value, f: nat)
    returns (a: u32, b: u32)
    requires WellFormed(p) && ShiftedBy16(p, lhs) == Some(shl) && MulOf(p, shl) == Some(m) && HalfOf(p, m.a, 16) == Some(hi)
    requires Eval(p, env, lhs, f).Some?
    ensures f >= 1 && Eval(p, env, hi, f - 1) == Some(Scalar(U32(a))) && Eval(p, env, m.b, f - 1) == Some(Scalar(U32(b)))
    ensures Eval(p, env, lhs, f) == Some(Scalar(U32(ShlU32(MulU32(BitField(a, 16, 16), b), 16))))
  {
    var _ := ShiftedBy16Eval(p, env, lhs, shl, f);
    a, b := HalfProduct(p, env, shl, m, 16, hi, f);
  }

  /** The two halves add up to the product of the factors, once the reads
      of each factor are known to agree. */
  lemma {:induction false} XmadSum(p: Program, env: Env, inst: Inst, hi: Value, lo: Value, lb: Value, rb: Value,
                                   a: u32, b: u32, x: u32, y: u32, f: nat)
    requires inst.op.IAdd32? && ArityOk(inst) && EvalInst(p, env, inst, f).Some?
    requires Resolve(p, hi) == Resolve(p, lo) && Resolve(p, lb) == Resolve(p, rb)
    requires f >= 1 && Eval(p, env, hi, f - 1) == Some(Scalar(U32(a))) && Eval(p, env, lb, f - 1) == Some(Scalar(U32(b)))
    requires Eval(p, env, lo, f - 1) == Some(Scalar(U32(x))) && Eval(p, env, rb, f - 1) == Some(Scalar(U32(y)))
    requires Eval(p, env, inst.args[0], f) == Some(Scalar(U32(ShlU32(MulU32(BitField(a, 16, 16), b), 16))))
    requires Eval(p, env, inst.args[1], f) == Some(Scalar(U32(MulU32(BitField(x, 0, 16), y))))
    ensures EvalInst(p, env, Inst(IMul32, [hi, lb], false, false), f - 1) == EvalInst(p, env, inst, f)
  {
    SameResolveEval(p, env, hi, lo, f - 1);
    SameResolveEval(p, env, lb, rb, f - 1);
    BinaryValue(p, env, inst, f);
    XmadProduct(a, b);
    EvalInstFromArgs(p, env, Inst(IMul32, [hi, lb], false, false), f - 1, [Scalar(U32(a)), Scalar(U32(b))]);
  }

  /** The multiplication emitted for an XMAD pattern computes the add it
      replaces. */
  lemma {:induction false} XmadAgrees(p: Program, env: Env, inst: Inst, f: nat)
    requires WellFormed(p) && inst.op.IAdd32? && ArityOk(inst) && EvalInst(p, env, inst, f).Some?
    requires FoldXmadMultiply(p, inst.args[0], inst.args[1]).Some?
    ensures var fa := FoldXmadMultiply(p, inst.args[0], inst.args[1]).value;
      f >= 1 && EvalInst(p, env, Inst(IMul32, [fa.a, fa.b], false, false), f - 1) == EvalInst(p, env, inst, f)
  {
    var lhs, rhs := inst.args[0], inst.args[1];
    var shl := ShiftedBy16(p, lhs).value;
    var lm, rm := MulOf(p, shl).value, MulOf(p, rhs).value;
    var hi, lo := HalfOf(p, lm.a, 16).value, HalfOf(p, rm.a, 0).value;
    EvalInstArgs(p, env, inst, f);
    var a, b := XmadHighPart(p, env, lhs, shl, lm, hi, f);
    var x, y := HalfProduct(p, env, rhs, rm, 0, lo, f);
    XmadSum(p, env, inst, hi, lo, lm.b, rm.b, a, b, x, y, f);
  }

  // ---------------------------------------------------------------------------
  // Integer add

  /** `x + 0 == x` in 32 and in 64 bits. */
  lemma {:induction false} AddZero(env: Env, op: Opcode, x: SVal, k: Immediate)
    requires (op.IAdd32? && k == U32(0)) || (op.IAdd64? && k == U64(0))
    requires EvalOp(env, op, [x, Scalar(k)]).Some?
    ensures EvalOp(env, op, [x, Scalar(k)]) == Some(x)
  {
  }

  /** What `FoldAdd` puts in place of an add is its value: the folded
      immediates, the left operand when the right one is zero, the regrouped
      operands, or the product the XMAD pattern computes. */
  lemma {:induction false} AddAgrees(p: Program, env: Env, inst: Inst, f: nat)
    requires WellFormed(p) && (inst.op.IAdd32? || inst.op.IAdd64?) && ArityOk(inst)
    requires EvalInst(p, env, inst, f).Some?
    ensures Agrees(p, env, inst, FoldAdd(p, inst), f, EvalInst(p, env, inst, f).value)
  {
    if !inst.pseudoOp {
      CommutativeAgrees(p, env, inst, f);
      var r := FoldCommutative(p, inst);
      if r.Continue? {
        var rhs := r.args[1];
        if IsImmediate(p, rhs) {
          var k := ImmOf(p, rhs).value;
          if (inst.op.IAdd32? && k == U32(0)) || (inst.op.IAdd64? && k == U64(0)) {
            ContinuedWithImmediate(p, env, inst, f);
            AddZero(env, inst.op, Eval(p, env, r.args[0], f).value, k);
          }
        } else if inst.op.IAdd32? && FoldXmadMultiply(p, r.args[0], rhs).Some? {
          assert r.args == inst.args;
          XmadAgrees(p, env, inst, f);
        }
      }
    }
  }

  lemma {:induction false} AddSound(p: Program, inst: Inst)
    requires WellFormed(p) && (inst.op.IAdd32? || inst.op.IAdd64?) && ArityOk(inst)
    ensures LocallySound(p, inst, FoldAdd(p, inst))
  {
    forall env, f: nat | EvalInst(p, env, inst, f).Some?
      ensures Agrees(p, env, inst, FoldAdd(p, inst), f, EvalInst(p, env, inst, f).value)
    {
      AddAgrees(p, env, inst, f);
    }
  }

  // ---------------------------------------------------------------------------
  // Integer subtract

  /** Two reads of the same constant-buffer word have the same value. */
  lemma {:induction false} SameCbufReadEval(p: Program, env: Env, u: Value, w: Value, n: nat)
    requires SameCbufRead(Producer(p, u), Producer(p, w))
    requires Eval(p, env, u, n).Some? && Eval(p, env, w, n).Some?
    ensures Eval(p, env, u, n) == Eval(p, env, w, n)
  {
    ProducerEval(p, env, u, n);
    ProducerEval(p, env, w, n);
    EvalInstArgs(p, env, Producer(p, u).value, n - 1);
    EvalInstArgs(p, env, Producer(p, w).value, n - 1);
  }

  /** `(x + c) - c == x` on computed values, whichever side of the add `c` is on. */
  lemma {:induction false} SubOfAddCancels(env: Env, u: SVal, v: SVal, keepFirst: bool, c: SVal)
    requires EvalOp(env, IAdd32, [u, v]).Some? && c == (if keepFirst then v else u)
    requires EvalOp(env, ISub32, [EvalOp(env, IAdd32, [u, v]).value, c]).Some?
    ensures EvalOp(env, ISub32, [EvalOp(env, IAdd32, [u, v]).value, c]) == Some(if keepFirst then u else v)
  {
    var x, y := u.imm.u32bits, v.imm.u32bits;
    if keepFirst {
      SubAddCancel(x, y);
    } else {
      assert AddU32(x, y) == AddU32(y, x);
      SubAddCancel(y, x);
    }
  }

  /** `(X + cbuf) - cbuf` is `X` when both reads name the same word. */
  lemma {:induction false} CancelAgrees(p: Program, env: Env, inst: Inst, f: nat)
    requires WellFormed(p) && inst.op.ISub32? && ArityOk(inst) && EvalInst(p, env, inst, f).Some?
    requires ProducedBy(p, inst.args[0], IAdd32)
    requires CancelAddedCbuf(p, Producer(p, inst.args[0]).value, Producer(p, inst.args[1])).ReplaceUses?
    ensures Eval(p, env, CancelAddedCbuf(p, Producer(p, inst.args[0]).value, Producer(p, inst.args[1])).value, f)
            == EvalInst(p, env, inst, f)
  {
    var add := Producer(p, inst.args[0]).value;
    var keepFirst := !IsImmediate(p, add.args[1]);
    var x := if keepFirst then add.args[0] else add.args[1];
    var y := if keepFirst then add.args[1] else add.args[0];
    EvalInstArgs(p, env, inst, f);
    OperandValues(p, env, inst.args[0], IAdd32, f);
    var vals := EvalArgs(p, env, add.args, f - 1).value;
    SameCbufReadEval(p, env, y, inst.args[1], f);
    BinaryPrefix(env, IAdd32, vals);
    BinaryPrefix(env, ISub32, EvalArgs(p, env, inst.args, f).value);
    SubOfAddCancels(env, vals[0], vals[1], keepFirst, Eval(p, env, y, f).value);
  }

  /** What the corrected `FoldISub32` puts in place of a subtraction is its
      value: the folded immediates, zero for a word minus itself, or `X` for
      `(X + cbuf) - cbuf`. */
  lemma {:induction false} ISub32Agrees(p: Program, env: Env, inst: Inst, f: nat)
    requires WellFormed(p) && inst.op.ISub32? && ArityOk(inst) && EvalInst(p, env, inst, f).Some?
    ensures Agrees(p, env, inst, FoldISub32(p, inst), f, EvalInst(p, env, inst, f).value)
  {
    ImmediatesAgrees(p, env, inst, f);
    if FoldWhenAllImmediates(p, inst) == Unchanged && !IsImmediate(p, inst.args[0]) && !IsImmediate(p, inst.args[1]) {
      var a, b := Producer(p, inst.args[0]), Producer(p, inst.args[1]);
      EvalInstArgs(p, env, inst, f);
      if SameCbufRead(a, b) {
        SameCbufReadEval(p, env, inst.args[0], inst.args[1], f);
        BinaryPrefix(env, ISub32, EvalArgs(p, env, inst.args, f).value);
      } else if b.Some? && b.value.op.GetCbufU32? && a.Some? && a.value.op.IAdd32? {
        if CancelAddedCbuf(p, a.value, b).ReplaceUses? {
          CancelAgrees(p, env, inst, f);
        }
      }
    }
  }

  lemma {:induction false} ISub32Sound(p: Program, inst: Inst)
    requires WellFormed(p) && inst.op.ISub32? && ArityOk(inst)
    ensures LocallySound(p, inst, FoldISub32(p, inst))
  {
    forall env, f: nat | EvalInst(p, env, inst, f).Some?
      ensures Agrees(p, env, inst, FoldISub32(p, inst), f, EvalInst(p, env, inst, f).value)
    {
      ISub32Agrees(p, env, inst, f);
    }
  }
}
