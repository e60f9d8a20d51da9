/** The folding rules of the constant-propagation pass, one pure function per
    rule. A rule looks at one instruction and at the instructions producing
    its operands, and says what to do with it as an `Outcome`; it changes
    nothing itself (the pass applies the outcome).
 */
module Folds {
  import opened Arith
  import opened IR

  /** What a rule does to the instruction it visits. */
  datatype Outcome =
    | Unchanged
      /** `ReplaceUsesWith(value)`: every use now reads `value`. */
    | ReplaceUses(value: Value)
      /** The instruction keeps its opcode and gets these arguments. */
    | SetArgs(args: seq<Value>)
      /** `ReplaceOpcode` followed by new arguments. */
    | SetOpcode(op: Opcode, args: seq<Value>)
      /** A fresh `IMul32 factorA, factorB` is emitted before the instruction
          and every use of the instruction reads it instead. */
    | EmitIMul32(factorA: Value, factorB: Value)
      /** Compilation of the program stops. */
    | Fail(fault: Fault)

  /** Keeping an instruction's opcode with the given arguments. */
  function Rewritten(inst: Inst, args: seq<Value>): (o: Outcome)
    ensures o == Unchanged <==> args == inst.args
    ensures o != Unchanged ==> o == SetArgs(args)
  {
    if args == inst.args then Unchanged else SetArgs(args)
  }

  // ---------------------------------------------------------------------------
  // Fold when all arguments are immediates

  predicate AllArgsImmediate(p: Program, inst: Inst) {
    forall i | 0 <= i < |inst.args| :: IsImmediate(p, inst.args[i])
  }

  predicate FoldsImmediates(op: Opcode) {
    || op.ISub32? || op.BitFieldUExtract? || op.BitFieldSExtract?
    || op.SLessThan? || op.ULessThan? || op.SLessThanEqual? || op.ULessThanEqual?
    || op.SGreaterThan? || op.UGreaterThan? || op.SGreaterThanEqual? || op.UGreaterThanEqual?
    || op.IEqual? || op.INotEqual?
  }

  /** The function each immediate-folding opcode applies to its typed
      operands: s32 reads for the signed comparisons, u32 reads otherwise. */
  function EvalImmediates(p: Program, inst: Inst): Result<Immediate>
    requires FoldsImmediates(inst.op) && ArityOk(inst)
  {
    var a := inst.args;
    match inst.op
    case ISub32 =>
      var x :- ArgU32(p, a[0]); var y :- ArgU32(p, a[1]); Ok(U32(SubU32(x, y)))
    case SLessThan =>
      var x :- ArgS32(p, a[0]); var y :- ArgS32(p, a[1]); Ok(U1(x < y))
    case ULessThan =>
      var x :- ArgU32(p, a[0]); var y :- ArgU32(p, a[1]); Ok(U1(x < y))
    case SLessThanEqual =>
      var x :- ArgS32(p, a[0]); var y :- ArgS32(p, a[1]); Ok(U1(x <= y))
    case ULessThanEqual =>
      var x :- ArgU32(p, a[0]); var y :- ArgU32(p, a[1]); Ok(U1(x <= y))
    case SGreaterThan =>
      var x :- ArgS32(p, a[0]); var y :- ArgS32(p, a[1]); Ok(U1(x > y))
    case UGreaterThan =>
      var x :- ArgU32(p, a[0]); var y :- ArgU32(p, a[1]); Ok(U1(x > y))
    case SGreaterThanEqual =>
      var x :- ArgS32(p, a[0]); var y :- ArgS32(p, a[1]); Ok(U1(x >= y))
    case UGreaterThanEqual =>
      var x :- ArgU32(p, a[0]); var y :- ArgU32(p, a[1]); Ok(U1(x >= y))
    case IEqual =>
      var x :- ArgU32(p, a[0]); var y :- ArgU32(p, a[1]); Ok(U1(x == y))
    case INotEqual =>
      var x :- ArgU32(p, a[0]); var y :- ArgU32(p, a[1]); Ok(U1(x != y))
    case BitFieldUExtract =>
      var base :- ArgU32(p, a[0]); var shift :- ArgU32(p, a[1]); var count :- ArgU32(p, a[2]);
      if shift + count > 32 then Err(UndefinedBitField)
      else if count == 32 then Err(UndefinedBehaviour)  // `1U << 32`
      else if shift == 32 then Err(UndefinedBehaviour)  // `base >> 32`, with count 0
      else Ok(U32(UExtractAsWritten(base, shift, count)))
    case BitFieldSExtract =>
      var base :- ArgU32(p, a[0]); var shift :- ArgU32(p, a[1]); var count :- ArgU32(p, a[2]);
      if shift + count > 32 then Err(UndefinedBitField)
      else if count == 0 then Err(UndefinedBehaviour)   // an s32 shifted right by 32
      else Ok(U32(SExtractAsWritten(base, shift, count)))
  }

  /** `FoldWhenAllImmediates`: folds exactly when every argument is an
      immediate and no pseudo-operation hangs off the instruction. */
  function FoldWhenAllImmediates(p: Program, inst: Inst): (o: Outcome)
    requires FoldsImmediates(inst.op) && ArityOk(inst)
    ensures o == Unchanged <==> !AllArgsImmediate(p, inst) || inst.pseudoOp
    ensures o != Unchanged ==> o.Fail? || (o.ReplaceUses? && o.value.Imm?)
    ensures o.Fail? && !inst.op.BitFieldUExtract? && !inst.op.BitFieldSExtract? ==>
              o == Fail(WrongImmediateType) && (ArgU32(p, inst.args[0]).Err? || ArgU32(p, inst.args[1]).Err?)
  {
    if !AllArgsImmediate(p, inst) || inst.pseudoOp then Unchanged
    else match EvalImmediates(p, inst)
      case Ok(x) => ReplaceUses(Imm(x))
      case Err(f) => Fail(f)
  }


  /** A bit-field extraction of three u32 immediates: `shift + count > 32`
      raises the logic error; otherwise the result is the field of `count`
      bits at `shift`, zero-extended or sign-extended. A shift by the full
      width (`1U << 32`, `base >> 32`) has no defined value in the unsigned
      extraction. */
  lemma {:induction false} ExtractFolds(p: Program, inst: Inst, base: u32, shift: u32, count: u32)
    requires (inst.op.BitFieldUExtract? || inst.op.BitFieldSExtract?) && ArityOk(inst) && !inst.pseudoOp
    requires ImmOf(p, inst.args[0]) == Some(U32(base)) && ImmOf(p, inst.args[1]) == Some(U32(shift))
    requires ImmOf(p, inst.args[2]) == Some(U32(count))
    requires forall i | 3 <= i < |inst.args| :: IsImmediate(p, inst.args[i])
    ensures shift + count > 32 ==> FoldWhenAllImmediates(p, inst) == Fail(UndefinedBitField)
    ensures shift + count <= 32 && inst.op.BitFieldUExtract? && (count == 32 || shift == 32) ==>
      FoldWhenAllImmediates(p, inst) == Fail(UndefinedBehaviour)
    ensures shift + count <= 32 && inst.op.BitFieldUExtract? && count < 32 && shift < 32 ==>
      var o := FoldWhenAllImmediates(p, inst);
      o.ReplaceUses? && o.value.Imm? && o.value.imm.U32? && o.value.imm.u32bits == BitField(base, shift, count)
    ensures shift + count <= 32 && inst.op.BitFieldSExtract? && count >= 1 ==>
      var o := FoldWhenAllImmediates(p, inst);
      && o.ReplaceUses? && o.value.Imm? && o.value.imm.U32?
      && o.value.imm.u32bits == SignExtend(BitField(base, shift, count), count) % TWO32
  {
    assert AllArgsImmediate(p, inst) by {
      forall i | 0 <= i < |inst.args| ensures IsImmediate(p, inst.args[i]) {
        if i >= 3 {
          assert IsImmediate(p, inst.args[i]);
        }
      }
    }
  }

  /** Below in the two's-complement order: a negative pattern (top bit set)
      is below a non-negative one, and two of the same sign compare as
      unsigned values. */
  predicate SignedBelow(x: u32, y: u32, orEqual: bool) {
    if (x >= TWO31) != (y >= TWO31) then x >= TWO31
    else x < y || (orEqual && x == y)
  }

  /** The ten comparisons of two u32 immediates always fold, to the
      comparison's truth value: the signed ones order the patterns as two's
      complement, the others as unsigned values. */
  lemma {:induction false} ComparisonsFold(p: Program, inst: Inst, x: u32, y: u32)
    requires FoldsImmediates(inst.op) && !inst.op.ISub32? && !inst.op.BitFieldUExtract? && !inst.op.BitFieldSExtract?
    requires ArityOk(inst) && !inst.pseudoOp
    requires ImmOf(p, inst.args[0]) == Some(U32(x)) && ImmOf(p, inst.args[1]) == Some(U32(y))
    requires forall i | 2 <= i < |inst.args| :: IsImmediate(p, inst.args[i])
    ensures var o := FoldWhenAllImmediates(p, inst);
      o.ReplaceUses? && o.value.Imm? && o.value.imm.U1?
    ensures var b := FoldWhenAllImmediates(p, inst).value.imm.b;
      && (inst.op.ULessThan? ==> b == (x < y))
      && (inst.op.ULessThanEqual? ==> b == (x <= y))
      && (inst.op.UGreaterThan? ==> b == (y < x))
      && (inst.op.UGreaterThanEqual? ==> b == (y <= x))
      && (inst.op.SLessThan? ==> b == SignedBelow(x, y, false))
      && (inst.op.SLessThanEqual? ==> b == SignedBelow(x, y, true))
      && (inst.op.SGreaterThan? ==> b == SignedBelow(y, x, false))
      && (inst.op.SGreaterThanEqual? ==> b == SignedBelow(y, x, true))
      && (inst.op.IEqual? ==> b == (x == y))
      && (inst.op.INotEqual? ==> b == (x != y))
  {
    assert AllArgsImmediate(p, inst) by {
      forall i | 0 <= i < |inst.args| ensures IsImmediate(p, inst.args[i]) {
      }
    }
  }

  // ---------------------------------------------------------------------------
  // Commutative operations

  predicate IsCommutative(op: Opcode) {
    op.IAdd32? || op.IAdd64? || op.LogicalAnd? || op.LogicalOr?
  }

  /** The `imm_fn` of each commutative opcode, on typed reads of two immediates. */
  function CombineImm(p: Program, op: Opcode, a: Value, b: Value): Result<Immediate>
    requires IsCommutative(op)
  {
    match op
    case IAdd32 => var x :- ArgU32(p, a); var y :- ArgU32(p, b); Ok(U32(AddU32(x, y)))
    case IAdd64 => var x :- ArgU64(p, a); var y :- ArgU64(p, b); Ok(U64(AddU64(x, y)))
    case LogicalAnd => var x :- ArgBool(p, a); var y :- ArgBool(p, b); Ok(U1(x && y))
    case _ => var x :- ArgBool(p, a); var y :- ArgBool(p, b); Ok(U1(x || y))
  }

  /** `FoldCommutative` returns false after replacing the uses (`Folded`) and
      true otherwise, with the arguments it leaves on the instruction. */
  datatype Commuted = Folded(outcome: Outcome) | Continue(args: seq<Value>)

  function FoldCommutative(p: Program, inst: Inst): (r: Commuted)
    requires WellFormed(p) && IsCommutative(inst.op) && ArityOk(inst)
    ensures IsImmediate(p, inst.args[0]) && IsImmediate(p, inst.args[1]) ==> r.Folded?
    ensures r.Folded? ==> r.outcome.Fail? || (r.outcome.ReplaceUses? && r.outcome.value.Imm?)
    ensures r.Folded? && !r.outcome.Fail? ==> IsImmediate(p, inst.args[0]) && IsImmediate(p, inst.args[1])
    ensures r.Continue? ==> |r.args| == |inst.args| && r.args[2..] == inst.args[2..]
    ensures r.Continue? && (IsImmediate(p, inst.args[0]) || IsImmediate(p, inst.args[1]))
            ==> IsImmediate(p, r.args[1])
    ensures !IsImmediate(p, inst.args[0]) && !IsImmediate(p, inst.args[1]) ==> r == Continue(inst.args)
    ensures !IsImmediate(p, inst.args[0]) && IsImmediate(p, inst.args[1]) && NotMergeable(p, inst.args[0], inst.op)
            ==> r == Continue(inst.args)
    ensures r.Folded? && r.outcome.Fail? ==> IsImmediate(p, inst.args[0]) || IsImmediate(p, inst.args[1])
  {
    var lhs, rhs := inst.args[0], inst.args[1];
    var lhsImm, rhsImm := IsImmediate(p, lhs), IsImmediate(p, rhs);
    if lhsImm && rhsImm then
      match CombineImm(p, inst.op, lhs, rhs)
      case Ok(c) => Folded(ReplaceUses(Imm(c)))
      case Err(f) => Folded(Fail(f))
    else if lhsImm then
      var q := OperandsOf(p, rhs, inst.op);
      if q.Some? && IsImmediate(p, q.value[1]) then
        match CombineImm(p, inst.op, lhs, q.value[1])
        case Ok(c) => Continue(inst.args[0 := q.value[0]][1 := Imm(c)])
        case Err(f) => Folded(Fail(f))
      else
        Continue(inst.args[0 := rhs][1 := lhs])
    else if rhsImm then
      var q := OperandsOf(p, lhs, inst.op);
      if q.Some? && IsImmediate(p, q.value[1]) then
        match CombineImm(p, inst.op, rhs, q.value[1])
        case Ok(c) => Continue(inst.args[0 := q.value[0]][1 := Imm(c)])
        case Err(f) => Folded(Fail(f))
      else
        Continue(inst.args)
    else
      Continue(inst.args)
  }


  /** A lone constant on the left moves to the right: `c op x` becomes
      `x op c` when `x` has no constant to merge `c` into. */
  lemma {:induction false} ConstantMovesRight(p: Program, inst: Inst)
    requires WellFormed(p) && IsCommutative(inst.op) && ArityOk(inst)
    requires IsImmediate(p, inst.args[0]) && !IsImmediate(p, inst.args[1]) && NotMergeable(p, inst.args[1], inst.op)
    ensures FoldCommutative(p, inst) == Continue(inst.args[0 := inst.args[1]][1 := inst.args[0]])
  {
  }

  /** `c1 op (x op c2)` and `(x op c2) op c1` both become `x op (c1 op c2)`. */
  lemma {:induction false} ConstantsMerge(p: Program, inst: Inst, k: Value, w: Value)
    requires WellFormed(p) && IsCommutative(inst.op) && ArityOk(inst)
    requires (inst.args[0] == k && inst.args[1] == w) || (inst.args[0] == w && inst.args[1] == k)
    requires IsImmediate(p, k) && !IsImmediate(p, w) && !NotMergeable(p, w, inst.op)
    requires CombineImm(p, inst.op, k, OperandsOf(p, w, inst.op).value[1]).Ok?
    ensures var q := OperandsOf(p, w, inst.op).value;
      FoldCommutative(p, inst)
        == Continue(inst.args[0 := q[0]][1 := Imm(CombineImm(p, inst.op, k, q[1]).value)])
  {
  }

  // ---------------------------------------------------------------------------
  // Register and predicate reads

  function FoldGetRegister(p: Program, inst: Inst): (o: Outcome)
    requires inst.op.GetRegister? && ArityOk(inst)
    ensures o.ReplaceUses? <==> ArgReg(p, inst.args[0]) == Ok(RZ)
    ensures o.ReplaceUses? ==> o.value == Imm(U32(0))
    ensures o.Fail? <==> ArgReg(p, inst.args[0]).Err?
    ensures o.Fail? ==> o == Fail(WrongImmediateType)
    ensures o == Unchanged || o.ReplaceUses? || o.Fail?
  {
    match ArgReg(p, inst.args[0])
    case Err(f) => Fail(f)
    case Ok(r) => if r == RZ then ReplaceUses(Imm(U32(0))) else Unchanged
  }

  function FoldGetPred(p: Program, inst: Inst): (o: Outcome)
    requires inst.op.GetPred? && ArityOk(inst)
    ensures o.ReplaceUses? <==> ArgPred(p, inst.args[0]) == Ok(PT)
    ensures o.ReplaceUses? ==> o.value == Imm(U1(true))
    ensures o.Fail? <==> ArgPred(p, inst.args[0]).Err?
    ensures o.Fail? ==> o == Fail(WrongImmediateType)
    ensures o == Unchanged || o.ReplaceUses? || o.Fail?
  {
    match ArgPred(p, inst.args[0])
    case Err(f) => Fail(f)
    case Ok(q) => if q == PT then ReplaceUses(Imm(U1(true))) else Unchanged
  }

  // ---------------------------------------------------------------------------
  // XMAD multiply reconstruction

  datatype Factors = Factors(a: Value, b: Value)

  /** `x` when `v` is produced by `ShiftLeftLogical32 x, #16`. */
  function ShiftedBy16(p: Program, v: Value): Option<Value>
    requires WellFormed(p)
  {
    match OperandsOf(p, v, ShiftLeftLogical32)
    case Some(a) => if a[1] == Imm(U32(16)) then Some(a[0]) else None
    case None => None
  }

  /** `x` when `v` is produced by `BitFieldUExtract x, #offset, #16`. */
  function HalfOf(p: Program, v: Value, offset: u32): Option<Value>
    requires WellFormed(p)
  {
    match OperandsOf(p, v, BitFieldUExtract)
    case Some(a) => if a[1] == Imm(U32(offset)) && a[2] == Imm(U32(16)) then Some(a[0]) else None
    case None => None
  }

  /** The two factors when `v` is produced by `IMul32 x, y`. */
  function MulOf(p: Program, v: Value): Option<Factors>
    requires WellFormed(p)
  {
    match OperandsOf(p, v, IMul32)
    case Some(a) => Some(Factors(a[0], a[1]))
    case None => None
  }

  /** The six-instruction XMAD pattern ending in `IAdd32 lhs, rhs`:
        lhs = ShiftLeftLogical32 (IMul32 (BitFieldUExtract a, #16, #16), b), #16
        rhs = IMul32 (BitFieldUExtract a', #0, #16), b'
      with a, a' and b, b' resolving to the same values. */
  predicate IsXmadPattern(p: Program, lhs: Value, rhs: Value, f: Factors)
    requires WellFormed(p)
  {
    var shl := ShiftedBy16(p, lhs);
    && shl.Some?
    && var lmul, rmul := MulOf(p, shl.value), MulOf(p, rhs);
    && lmul.Some? && rmul.Some?
    && Resolve(p, lmul.value.b) == Resolve(p, rmul.value.b) == Resolve(p, f.b)
    && var hi, lo := HalfOf(p, lmul.value.a, 16), HalfOf(p, rmul.value.a, 0);
    && hi.Some? && lo.Some?
    && Resolve(p, hi.value) == Resolve(p, lo.value) == Resolve(p, f.a)
  }

  /** `FoldXmadMultiply`: the factors of the XMAD pattern, when the operands
      of the add form it exactly. An immediate has no producer, so the
      source's early exits on immediate operands are the `None` cases here. */
  function FoldXmadMultiply(p: Program, lhs: Value, rhs: Value): (r: Option<Factors>)
    requires WellFormed(p)
    ensures r.Some? ==> IsXmadPattern(p, lhs, rhs, r.value)
  {
    var shl := ShiftedBy16(p, lhs);
    if shl.None? then None
    else
      var lmul, rmul := MulOf(p, shl.value), MulOf(p, rhs);
      if lmul.None? || rmul.None? || Resolve(p, lmul.value.b) != Resolve(p, rmul.value.b) then None
      else
        var hi, lo := HalfOf(p, lmul.value.a, 16), HalfOf(p, rmul.value.a, 0);
        if hi.None? || lo.None? || Resolve(p, hi.value) != Resolve(p, lo.value) then None
        else Some(Factors(hi.value, lmul.value.b))
  }

  /** The search misses no instance of the pattern. */
  lemma {:induction false} XmadFound(p: Program, lhs: Value, rhs: Value, f: Factors)
    requires WellFormed(p) && IsXmadPattern(p, lhs, rhs, f)
    ensures FoldXmadMultiply(p, lhs, rhs).Some?
  {
  }

  // ---------------------------------------------------------------------------
  // Integer add and subtract

  /** `FoldAdd<u32>` and `FoldAdd<u64>`. */
  function FoldAdd(p: Program, inst: Inst): (o: Outcome)
    requires WellFormed(p) && (inst.op.IAdd32? || inst.op.IAdd64?) && ArityOk(inst)
    ensures inst.pseudoOp ==> o == Unchanged
    ensures o.SetArgs? ==> |o.args| == |inst.args|
    ensures !o.SetOpcode?
    ensures o.EmitIMul32? ==> inst.op.IAdd32? && IsXmadPattern(p, inst.args[0], inst.args[1], Factors(o.factorA, o.factorB))
    ensures o.Fail? ==> IsImmediate(p, inst.args[0]) || IsImmediate(p, inst.args[1])
    ensures && !inst.pseudoOp && !IsImmediate(p, inst.args[0]) && !IsImmediate(p, inst.args[1])
            && (inst.op.IAdd64? || FoldXmadMultiply(p, inst.args[0], inst.args[1]).None?)
            ==> o == Unchanged
  {
    if inst.pseudoOp then Unchanged
    else match FoldCommutative(p, inst)
      case Folded(o) => o
      case Continue(args) =>
        var rhs := args[1];
        if IsImmediate(p, rhs) then
          var zero := if inst.op.IAdd32? then (var x :- ArgU32(p, rhs); Ok(x == 0))
                      else (var x :- ArgU64(p, rhs); Ok(x == 0));
          match zero
          case Err(f) => Fail(f)
          case Ok(true) => ReplaceUses(args[0])
          case Ok(false) => Rewritten(inst, args)
        else if inst.op.IAdd32? then
          // FoldCommutative moved no operand, so these are the add's own.
          match FoldXmadMultiply(p, args[0], args[1])
          case Some(f) => EmitIMul32(f.a, f.b)
          case None => Rewritten(inst, args)
        else
          Rewritten(inst, args)
  }

  /** `x` is not an instruction of opcode `op` whose second operand is an
      immediate, which the commutative fold would merge a constant into. */
  predicate NotMergeable(p: Program, x: Value, op: Opcode)
    requires WellFormed(p) && IsCommutative(op)
  {
    var q := OperandsOf(p, x, op);
    !(q.Some? && IsImmediate(p, q.value[1]))
  }

  /** `0 + x` and `x + 0` both fold to `x`, in 32 and in 64 bits, once the
      commutative fold has nothing to merge the zero into. */
  lemma {:induction false} AddOfZero(p: Program, inst: Inst, x: Value, zero: Value)
    requires WellFormed(p) && (inst.op.IAdd32? || inst.op.IAdd64?) && ArityOk(inst) && !inst.pseudoOp
    requires (inst.args[0] == x && inst.args[1] == zero) || (inst.args[0] == zero && inst.args[1] == x)
    requires ImmOf(p, zero) == Some(if inst.op.IAdd32? then U32(0) else U64(0))
    requires !IsImmediate(p, x) && NotMergeable(p, x, inst.op)
    ensures FoldAdd(p, inst) == ReplaceUses(x)
  {
    var r := FoldCommutative(p, inst);
    assert r.Continue? && r.args[0] == x && r.args[1] == zero;
  }

  /** Any other constant is only moved to the right: `x + c` stays and
      `c + x` becomes `x + c`, when `x` has no constant to merge `c` into. */
  lemma {:induction false} AddOfNonzero(p: Program, inst: Inst, x: Value, c: Value, n: nat)
    requires WellFormed(p) && (inst.op.IAdd32? || inst.op.IAdd64?) && ArityOk(inst) && !inst.pseudoOp
    requires (inst.args[0] == x && inst.args[1] == c) || (inst.args[0] == c && inst.args[1] == x)
    requires n != 0 && n < (if inst.op.IAdd32? then TWO32 else TWO64)
    requires ImmOf(p, c) == Some(if inst.op.IAdd32? then U32(n) else U64(n))
    requires !IsImmediate(p, x) && NotMergeable(p, x, inst.op)
    ensures inst.args[0] == x ==> FoldAdd(p, inst) == Unchanged
    ensures inst.args[0] == c ==> FoldAdd(p, inst) == SetArgs(inst.args[0 := x][1 := c])
  {
    var r := FoldCommutative(p, inst);
    assert r.Continue? && r.args[0] == x && r.args[1] == c;
  }

  /** Two immediates fold to their sum, wrapped to 32 or 64 bits. */
  lemma {:induction false} AddOfImmediates(p: Program, inst: Inst, x: nat, y: nat)
    requires WellFormed(p) && (inst.op.IAdd32? || inst.op.IAdd64?) && ArityOk(inst) && !inst.pseudoOp
    requires inst.op.IAdd32? ==>
      x < TWO32 && y < TWO32 && ImmOf(p, inst.args[0]) == Some(U32(x)) && ImmOf(p, inst.args[1]) == Some(U32(y))
    requires inst.op.IAdd64? ==>
      x < TWO64 && y < TWO64 && ImmOf(p, inst.args[0]) == Some(U64(x)) && ImmOf(p, inst.args[1]) == Some(U64(y))
    ensures FoldAdd(p, inst).ReplaceUses? && FoldAdd(p, inst).value.Imm?
    ensures inst.op.IAdd32? ==> FoldAdd(p, inst).value.imm == U32((x + y) % TWO32)
    ensures inst.op.IAdd64? ==> FoldAdd(p, inst).value.imm == U64((x + y) % TWO64)
  {
  }

  /** The two instructions read the same constant buffer word: both are
      `GetCbufU32` with equal slot and offset operands. */
  predicate SameCbufRead(a: Option<Inst>, b: Option<Inst>) {
    && a.Some? && b.Some?
    && a.value.op.GetCbufU32? && b.value.op.GetCbufU32?
    && |a.value.args| >= 2 && |b.value.args| >= 2
    && a.value.args[0] == b.value.args[0] && a.value.args[1] == b.value.args[1]
  }

  /** `add - cbuf` where `add` is an `IAdd32` one of whose operands reads the
      same word as `cbuf`: the other operand, when the read one is not an
      immediate (an immediate operand is moved to the front first). */
  function CancelAddedCbuf(p: Program, add: Inst, cbuf: Option<Inst>): (o: Outcome)
    requires add.op.IAdd32? && ArityOk(add)
    ensures o == Unchanged || o.ReplaceUses?
    ensures o.ReplaceUses? ==> o.value == add.args[0] || o.value == add.args[1]
  {
    var swap := IsImmediate(p, add.args[1]);
    var x := if swap then add.args[1] else add.args[0];
    var y := if swap then add.args[0] else add.args[1];
    if IsImmediate(p, y) then Unchanged
    else if SameCbufRead(Producer(p, y), cbuf) then ReplaceUses(x)
    else Unchanged
  }

  /** `FoldISub32` as the source writes it: when the SUBTRAHEND is an add, the
      two operands are swapped before the add/cbuf cancellation, so
      `cbuf - (X + cbuf)` is folded to `X` as well. */
  function FoldISub32AsWritten(p: Program, inst: Inst): (o: Outcome)
    requires WellFormed(p) && inst.op.ISub32? && ArityOk(inst)
    ensures o == Unchanged || o.ReplaceUses? || o.Fail?
    ensures o.Fail? ==> AllArgsImmediate(p, inst) && o == Fail(WrongImmediateType)
    ensures !AllArgsImmediate(p, inst) && (IsImmediate(p, inst.args[0]) || IsImmediate(p, inst.args[1])) ==> o == Unchanged
    ensures && !AllArgsImmediate(p, inst)
            && !SameCbufRead(Producer(p, inst.args[0]), Producer(p, inst.args[1]))
            && !(ProducedBy(p, inst.args[0], IAdd32) && ProducedBy(p, inst.args[1], GetCbufU32))
            && !(ProducedBy(p, inst.args[1], IAdd32) && ProducedBy(p, inst.args[0], GetCbufU32))
            ==> o == Unchanged
  {
    var folded := FoldWhenAllImmediates(p, inst);
    if folded != Unchanged then folded
    else if IsImmediate(p, inst.args[0]) || IsImmediate(p, inst.args[1]) then Unchanged
    else
      var a, b := Producer(p, inst.args[0]), Producer(p, inst.args[1]);
      if SameCbufRead(a, b) then ReplaceUses(Imm(U32(0)))
      else
        var swap := b.Some? && b.value.op.IAdd32?;
        var opA := if swap then b else a;
        var opB := if swap then a else b;
        if !(opB.Some? && opB.value.op.GetCbufU32?) then Unchanged
        else if !(opA.Some? && opA.value.op.IAdd32?) then Unchanged
        else CancelAddedCbuf(p, opA.value, opB)
  }

  /** `FoldISub32` with the cancellation limited to `(X + cbuf) - cbuf`, the
      case the comment in the source describes; this is the rule the pass
      applies. */
  function FoldISub32(p: Program, inst: Inst): (o: Outcome)
    requires WellFormed(p) && inst.op.ISub32? && ArityOk(inst)
    ensures o == Unchanged || o.ReplaceUses? || o.Fail?
    ensures o.ReplaceUses? && !AllArgsImmediate(p, inst) ==>
              o.value == Imm(U32(0)) || ProducedBy(p, inst.args[0], IAdd32)
    ensures o.Fail? ==> AllArgsImmediate(p, inst) && o == Fail(WrongImmediateType)
    ensures && !AllArgsImmediate(p, inst)
            && !SameCbufRead(Producer(p, inst.args[0]), Producer(p, inst.args[1]))
            && !(ProducedBy(p, inst.args[0], IAdd32) && ProducedBy(p, inst.args[1], GetCbufU32))
            ==> o == Unchanged
  {
    var folded := FoldWhenAllImmediates(p, inst);
    if folded != Unchanged then folded
    else if IsImmediate(p, inst.args[0]) || IsImmediate(p, inst.args[1]) then Unchanged
    else
      var a, b := Producer(p, inst.args[0]), Producer(p, inst.args[1]);
      if SameCbufRead(a, b) then ReplaceUses(Imm(U32(0)))
      else if !(b.Some? && b.value.op.GetCbufU32?) then Unchanged
      else if !(a.Some? && a.value.op.IAdd32?) then Unchanged
      else CancelAddedCbuf(p, a.value, b)
  }

  /** Two u32 immediates fold to their difference wrapped to 32 bits, in both
      variants of the rule. */
  lemma {:induction false} SubOfImmediates(p: Program, inst: Inst, x: nat, y: nat)
    requires WellFormed(p) && inst.op.ISub32? && ArityOk(inst) && !inst.pseudoOp
    requires x < TWO32 && y < TWO32
    requires ImmOf(p, inst.args[0]) == Some(U32(x)) && ImmOf(p, inst.args[1]) == Some(U32(y))
    requires forall i | 2 <= i < |inst.args| :: IsImmediate(p, inst.args[i])
    ensures FoldISub32(p, inst).ReplaceUses? && FoldISub32(p, inst).value.Imm?
    ensures FoldISub32(p, inst).value.imm == U32(if x >= y then x - y else x + TWO32 - y)
    ensures FoldISub32AsWritten(p, inst) == FoldISub32(p, inst)
  {
    assert AllArgsImmediate(p, inst) by {
      forall i | 0 <= i < |inst.args| ensures IsImmediate(p, inst.args[i]) {
      }
    }
  }

  /** `cbuf - cbuf`, two reads of the same word, folds to zero. */
  lemma {:induction false} SubtractSameRead(p: Program, inst: Inst)
    requires WellFormed(p) && inst.op.ISub32? && ArityOk(inst)
    requires !IsImmediate(p, inst.args[0]) && !IsImmediate(p, inst.args[1])
    requires SameCbufRead(Producer(p, inst.args[0]), Producer(p, inst.args[1]))
    ensures FoldISub32(p, inst) == ReplaceUses(Imm(U32(0)))
    ensures FoldISub32AsWritten(p, inst) == ReplaceUses(Imm(U32(0)))
  {
  }

  /** `(x + cbuf) - cbuf` folds to `x` when `cbuf` is not an immediate; the
      add's operands may come in either order when `x` is an immediate. */
  lemma {:induction false} SubtractAddedRead(p: Program, inst: Inst, x: Value, c: Value)
    requires WellFormed(p) && inst.op.ISub32? && ArityOk(inst)
    requires !IsImmediate(p, inst.args[0]) && !IsImmediate(p, inst.args[1])
    requires OperandsOf(p, inst.args[0], IAdd32).Some?
    requires var a := OperandsOf(p, inst.args[0], IAdd32).value;
      (a[0] == x && a[1] == c) || (a[0] == c && a[1] == x && IsImmediate(p, x))
    requires !IsImmediate(p, c) && SameCbufRead(Producer(p, c), Producer(p, inst.args[1]))
    ensures FoldISub32(p, inst) == ReplaceUses(x)
  {
  }

  /** The rule as written cancels the read whichever side of the subtraction
      the add is on: `(x + cbuf) - cbuf` and `cbuf - (x + cbuf)` both fold to
      `x`, for any `x`. `side` is the operand of the subtraction holding the add. */
  lemma {:induction false} SubtractAddedReadAsWritten(p: Program, inst: Inst, side: nat, x: Value, c: Value)
    requires WellFormed(p) && inst.op.ISub32? && ArityOk(inst) && side <= 1
    requires !IsImmediate(p, inst.args[0]) && !IsImmediate(p, inst.args[1])
    requires OperandsOf(p, inst.args[side], IAdd32).Some?
    requires var a := OperandsOf(p, inst.args[side], IAdd32).value;
      (a[0] == x && a[1] == c) || (a[0] == c && a[1] == x && IsImmediate(p, x))
    requires !IsImmediate(p, c) && SameCbufRead(Producer(p, c), Producer(p, inst.args[1 - side]))
    ensures FoldISub32AsWritten(p, inst) == ReplaceUses(x)
    ensures side == 1 ==> FoldISub32(p, inst) == Unchanged
  {
  }

  // ---------------------------------------------------------------------------
  // Select, float multiply, logical operations

  function FoldSelect(p: Program, inst: Inst): (o: Outcome)
    requires inst.op.Select? && ArityOk(inst)
    ensures o.ReplaceUses? <==> ArgBool(p, inst.args[0]).Ok?
    ensures ArgBool(p, inst.args[0]) == Ok(true) ==> o == ReplaceUses(inst.args[1])
    ensures ArgBool(p, inst.args[0]) == Ok(false) ==> o == ReplaceUses(inst.args[2])
    ensures !IsImmediate(p, inst.args[0]) ==> o == Unchanged
    ensures o == Unchanged || o.ReplaceUses? || o.Fail?
  {
    if IsImmediate(p, inst.args[0]) then
      match ArgBool(p, inst.args[0])
      case Ok(c) => ReplaceUses(if c then inst.args[1] else inst.args[2])
      case Err(f) => Fail(f)
    else Unchanged
  }

  /** The attribute that `v` reads, when it is produced by `GetAttribute`. */
  function AttributeRead(p: Program, v: Value): Option<Result<nat>>
    requires WellFormed(p)
  {
    match OperandsOf(p, v, GetAttribute)
    case Some(a) => Some(ArgAttr(p, a[0]))
    case None => None
  }

  /** `FoldFPMul32`: `(x * attr) * (1 / attr)` becomes `x` when both reads name
      the same attribute and contraction is allowed. An immediate has no
      producer, so the source's early exits on immediates are the `None` cases. */
  function FoldFPMul32(p: Program, inst: Inst): (o: Outcome)
    requires WellFormed(p) && inst.op.FPMul32? && ArityOk(inst)
    ensures inst.noContraction ==> o == Unchanged
    ensures o.ReplaceUses? ==>
      && ProducedBy(p, inst.args[1], FPRecip32)
      && OperandsOf(p, inst.args[0], FPMul32).Some?
      && o.value == OperandsOf(p, inst.args[0], FPMul32).value[0]
    ensures o.ReplaceUses? ==>
      var a := AttributeRead(p, OperandsOf(p, inst.args[1], FPRecip32).value[0]);
      && a.Some? && a.value.Ok?
      && a == AttributeRead(p, Resolve(p, OperandsOf(p, inst.args[0], FPMul32).value[1]))
    ensures !ProducedBy(p, inst.args[0], FPMul32) || !ProducedBy(p, inst.args[1], FPRecip32) ==> o == Unchanged
    ensures o.Fail? ==>
      var a := AttributeRead(p, OperandsOf(p, inst.args[1], FPRecip32).value[0]);
      var b := AttributeRead(p, Resolve(p, OperandsOf(p, inst.args[0], FPMul32).value[1]));
      && a.Some? && b.Some? && (a.value.Err? || b.value.Err?)
      && o == Fail(WrongImmediateType)
    ensures o == Unchanged || o.ReplaceUses? || o.Fail?
  {
    if inst.noContraction then Unchanged
    else match (OperandsOf(p, inst.args[0], FPMul32), OperandsOf(p, inst.args[1], FPRecip32))
      case (Some(mul), Some(recip)) =>
        (match (AttributeRead(p, recip[0]), AttributeRead(p, Resolve(p, mul[1])))
         case (Some(Err(f)), Some(_)) => Fail(f)
         case (Some(Ok(_)), Some(Err(f))) => Fail(f)
         case (Some(Ok(x)), Some(Ok(y))) => if x == y then ReplaceUses(mul[0]) else Unchanged
         case _ => Unchanged)
      case _ => Unchanged
  }

  /** The converse: with contraction allowed, `(x * attr) * (1 / attr')` over
      two attribute reads becomes `x` when they name the same attribute, and
      stays when they name different ones. */
  lemma {:induction false} FPMulOfReciprocal(p: Program, inst: Inst)
    requires WellFormed(p) && inst.op.FPMul32? && ArityOk(inst) && !inst.noContraction
    requires OperandsOf(p, inst.args[0], FPMul32).Some? && OperandsOf(p, inst.args[1], FPRecip32).Some?
    requires var a := AttributeRead(p, OperandsOf(p, inst.args[1], FPRecip32).value[0]);
      a.Some? && a.value.Ok?
    requires var b := AttributeRead(p, Resolve(p, OperandsOf(p, inst.args[0], FPMul32).value[1]));
      b.Some? && b.value.Ok?
    ensures var mul := OperandsOf(p, inst.args[0], FPMul32).value;
      var a := AttributeRead(p, OperandsOf(p, inst.args[1], FPRecip32).value[0]);
      var b := AttributeRead(p, Resolve(p, mul[1]));
      FoldFPMul32(p, inst) == if a == b then ReplaceUses(mul[0]) else Unchanged
  {
  }

  function FoldLogicalAnd(p: Program, inst: Inst): (o: Outcome)
    requires WellFormed(p) && inst.op.LogicalAnd? && ArityOk(inst)
    ensures o.SetArgs? ==> |o.args| == |inst.args|
    ensures !o.SetOpcode? && !o.EmitIMul32?
    ensures o.Fail? ==> IsImmediate(p, inst.args[0]) || IsImmediate(p, inst.args[1])
    ensures !IsImmediate(p, inst.args[0]) && !IsImmediate(p, inst.args[1]) ==> o == Unchanged
  {
    match FoldCommutative(p, inst)
    case Folded(o) => o
    case Continue(args) =>
      if IsImmediate(p, args[1]) then
        match ArgBool(p, args[1])
        case Ok(true) => ReplaceUses(args[0])
        case Ok(false) => ReplaceUses(Imm(U1(false)))
        case Err(f) => Fail(f)
      else Rewritten(inst, args)
  }

  function FoldLogicalOr(p: Program, inst: Inst): (o: Outcome)
    requires WellFormed(p) && inst.op.LogicalOr? && ArityOk(inst)
    ensures o.SetArgs? ==> |o.args| == |inst.args|
    ensures !o.SetOpcode? && !o.EmitIMul32?
    ensures o.Fail? ==> IsImmediate(p, inst.args[0]) || IsImmediate(p, inst.args[1])
    ensures !IsImmediate(p, inst.args[0]) && !IsImmediate(p, inst.args[1]) ==> o == Unchanged
  {
    match FoldCommutative(p, inst)
    case Folded(o) => o
    case Continue(args) =>
      if IsImmediate(p, args[1]) then
        match ArgBool(p, args[1])
        case Ok(true) => ReplaceUses(Imm(U1(true)))
        case Ok(false) => ReplaceUses(args[0])
        case Err(f) => Fail(f)
      else Rewritten(inst, args)
  }

  /** `x && true == x`, `x && false == false`, `x || true == true` and
      `x || false == x`, with the constant on either side. */
  lemma {:induction false} LogicalWithConstant(p: Program, inst: Inst, x: Value, c: Value, b: bool)
    requires WellFormed(p) && (inst.op.LogicalAnd? || inst.op.LogicalOr?) && ArityOk(inst)
    requires (inst.args[0] == x && inst.args[1] == c) || (inst.args[0] == c && inst.args[1] == x)
    requires ImmOf(p, c) == Some(U1(b)) && !IsImmediate(p, x) && NotMergeable(p, x, inst.op)
    ensures inst.op.LogicalAnd? ==> FoldLogicalAnd(p, inst) == (if b then ReplaceUses(x) else ReplaceUses(Imm(U1(false))))
    ensures inst.op.LogicalOr? ==> FoldLogicalOr(p, inst) == (if b then ReplaceUses(Imm(U1(true))) else ReplaceUses(x))
  {
    var r := FoldCommutative(p, inst);
    assert r.Continue? && r.args[0] == x && r.args[1] == c;
  }

  function FoldLogicalNot(p: Program, inst: Inst): (o: Outcome)
    requires WellFormed(p) && inst.op.LogicalNot? && ArityOk(inst)
    ensures ArgBool(p, inst.args[0]).Ok? ==> o == ReplaceUses(Imm(U1(!ArgBool(p, inst.args[0]).value)))
    ensures ProducedBy(p, inst.args[0], LogicalNot) ==> o == ReplaceUses(OperandsOf(p, inst.args[0], LogicalNot).value[0])
    ensures o.Fail? <==> IsImmediate(p, inst.args[0]) && ArgBool(p, inst.args[0]).Err?
    ensures !IsImmediate(p, inst.args[0]) && !ProducedBy(p, inst.args[0], LogicalNot) ==> o == Unchanged
    ensures o == Unchanged || o.ReplaceUses? || o.Fail?
  {
    if IsImmediate(p, inst.args[0]) then
      match ArgBool(p, inst.args[0])
      case Ok(b) => ReplaceUses(Imm(U1(!b)))
      case Err(f) => Fail(f)
    else
      match OperandsOf(p, inst.args[0], LogicalNot)
      case Some(a) => ReplaceUses(a[0])
      case None => Unchanged
  }

  // ---------------------------------------------------------------------------
  // Casts and their inverses

  /** The cast in the opposite direction. */
  function ReverseCast(op: Opcode): Opcode
    requires op.BitCastF32U32? || op.BitCastU32F32?
  {
    if op.BitCastF32U32? then BitCastU32F32 else BitCastF32U32
  }

  /** `FoldBitCast`: reinterpret an immediate, cancel a cast in the reverse
      direction, and turn a float cast of a u32 constant-buffer read into a
      float read of the same word. */
  function FoldBitCast(p: Program, inst: Inst): (o: Outcome)
    requires WellFormed(p) && (inst.op.BitCastF32U32? || inst.op.BitCastU32F32?) && ArityOk(inst)
    ensures ProducedBy(p, inst.args[0], ReverseCast(inst.op)) ==>
      o == ReplaceUses(OperandsOf(p, inst.args[0], ReverseCast(inst.op)).value[0])
    ensures o.SetOpcode? ==>
      && inst.op.BitCastF32U32? && o.op.GetCbufF32? && |o.args| == 2
      && ProducedBy(p, inst.args[0], GetCbufU32) && o.args == OperandsOf(p, inst.args[0], GetCbufU32).value[..2]
    ensures inst.op.BitCastF32U32? && ProducedBy(p, inst.args[0], GetCbufU32) ==>
      o == SetOpcode(GetCbufF32, OperandsOf(p, inst.args[0], GetCbufU32).value[..2])
    ensures inst.op.BitCastF32U32? && ArgU32(p, inst.args[0]).Ok? ==>
      o == ReplaceUses(Imm(F32(ArgU32(p, inst.args[0]).value)))
    ensures inst.op.BitCastU32F32? && ArgF32(p, inst.args[0]).Ok? ==>
      o == ReplaceUses(Imm(U32(ArgF32(p, inst.args[0]).value)))
    ensures IsImmediate(p, inst.args[0]) ==> o.ReplaceUses? || o == Fail(WrongImmediateType)
    ensures o.Fail? ==> IsImmediate(p, inst.args[0])
    ensures && !IsImmediate(p, inst.args[0]) && !ProducedBy(p, inst.args[0], ReverseCast(inst.op))
            && !(inst.op.BitCastF32U32? && ProducedBy(p, inst.args[0], GetCbufU32))
            ==> o == Unchanged
    ensures !o.SetArgs? && !o.EmitIMul32?
  {
    var value := inst.args[0];
    if IsImmediate(p, value) then
      if inst.op.BitCastF32U32? then
        match ArgU32(p, value)
        case Ok(x) => ReplaceUses(Imm(F32(x)))
        case Err(f) => Fail(f)
      else
        match ArgF32(p, value)
        case Ok(x) => ReplaceUses(Imm(U32(x)))
        case Err(f) => Fail(f)
    else
      match OperandsOf(p, value, ReverseCast(inst.op))
      case Some(a) => ReplaceUses(a[0])
      case None =>
        if !inst.op.BitCastF32U32? then Unchanged
        else match OperandsOf(p, value, GetCbufU32)
          case Some(a) => SetOpcode(GetCbufF32, [a[0], a[1]])
          case None => Unchanged
  }

  /** `FoldInverseFunc`: an operation applied to the result of its inverse
      gives back the inverse's operand. */
  function FoldInverseFunc(p: Program, inst: Inst, reverse: Opcode): (o: Outcome)
    requires WellFormed(p) && ArityOk(inst) && MinArgs(inst.op) >= 1 && MinArgs(reverse) >= 1
    ensures ProducedBy(p, inst.args[0], reverse) <==> o.ReplaceUses?
    ensures o.ReplaceUses? ==> o.value == OperandsOf(p, inst.args[0], reverse).value[0]
    ensures o == Unchanged || o.ReplaceUses?
  {
    var value := inst.args[0];
    if IsImmediate(p, value) then Unchanged
    else
      match OperandsOf(p, value, reverse)
      case Some(a) => ReplaceUses(a[0])
      case None => Unchanged
  }

  // ---------------------------------------------------------------------------
  // Conditional branch

  /** The arguments of a conditional branch on `cond` with its two targets
      exchanged. */
  function SwapTargets(args: seq<Value>, cond: Value): (r: seq<Value>)
    requires |args| >= 3
    ensures |r| == |args| && r[0] == cond && r[1] == args[2] && r[2] == args[1]
    ensures forall i | 3 <= i < |r| :: r[i] == args[i]
  {
    [cond, args[2], args[1]] + args[3..]
  }

  /** `BranchConditional (LogicalNot c), t, f` becomes `BranchConditional c, f, t`;
      a branch on an immediate is left for a later pass. */
  function FoldBranchConditional(p: Program, inst: Inst): (o: Outcome)
    requires WellFormed(p) && inst.op.BranchConditional? && ArityOk(inst)
    ensures o == Unchanged || o.SetArgs?
    ensures o.SetArgs? <==> ProducedBy(p, inst.args[0], LogicalNot)
    ensures o.SetArgs? ==> o.args == SwapTargets(inst.args, OperandsOf(p, inst.args[0], LogicalNot).value[0])
  {
    // an immediate condition has no producer
    match OperandsOf(p, inst.args[0], LogicalNot)
    case Some(a) => SetArgs(SwapTargets(inst.args, a[0]))
    case None => Unchanged
  }

  // ---------------------------------------------------------------------------
  // Composite extract

  /** `FoldCompositeExtractImpl`: lane `index` of the composite `v`, chased
      through inserts of the same vector type down to a construct. `Ok(None)`
      when the chase gives up; the chase takes at most `fuel` steps. */
  function ExtractChase(p: Program, v: Value, vec: VectorType, index: u32, fuel: nat): (r: Result<Option<Value>>)
    requires WellFormed(p)
    decreases fuel
  {
    if fuel == 0 then Ok(None)
    else
      match OperandsOf(p, v, CompositeConstruct(vec))
      case Some(lanes) =>
        // `Arg(first_index)` past the last operand
        if index < |lanes| then Ok(Some(lanes[index])) else Err(UndefinedBehaviour)
      case None =>
        match OperandsOf(p, v, CompositeInsert(vec))
        case None => Ok(None)
        case Some(a) =>
          if !IsImmediate(p, a[2]) then Ok(None)
          else
            var second :- ArgU32(p, a[2]);
            if index != second then
              if IsImmediate(p, a[0]) then Ok(None)
              else ExtractChase(p, a[0], vec, index, fuel - 1)
            else Ok(Some(a[1]))
  }

  function FoldCompositeExtract(p: Program, inst: Inst): (o: Outcome)
    requires WellFormed(p) && inst.op.CompositeExtract? && ArityOk(inst)
    ensures IsImmediate(p, inst.args[0]) || !IsImmediate(p, inst.args[1]) ==> o == Unchanged
    ensures o == Unchanged || o.ReplaceUses? || o.Fail?
  {
    if IsImmediate(p, inst.args[0]) then Unchanged
    else if !IsImmediate(p, inst.args[1]) then Unchanged
    else
      match ArgU32(p, inst.args[1])
      case Err(f) => Fail(f)
      case Ok(index) =>
        match ExtractChase(p, inst.args[0], inst.op.vec, index, ChainBound(p))
        case Err(f) => Fail(f)
        case Ok(None) => Unchanged
        case Ok(Some(v)) => ReplaceUses(v)
  }

  /** A produced value names an instruction, so the chase has a step to take. */
  lemma {:induction false} ProducedBounds(p: Program, v: Value, op: Opcode)
    requires WellFormed(p) && ProducedBy(p, v, op)
    ensures ChainBound(p) >= 1
  {
    assert Resolve(p, v).id in p.insts;
  }

  /** `Extract(Construct(a0 .. an), #i)` is `ai`; an index past the last lane
      is undefined. */
  lemma {:induction false} ExtractOfConstruct(p: Program, inst: Inst)
    requires WellFormed(p) && inst.op.CompositeExtract? && ArityOk(inst)
    requires ProducedBy(p, inst.args[0], CompositeConstruct(inst.op.vec)) && ArgU32(p, inst.args[1]).Ok?
    ensures var lanes, i := OperandsOf(p, inst.args[0], CompositeConstruct(inst.op.vec)).value, ArgU32(p, inst.args[1]).value;
      FoldCompositeExtract(p, inst) == if i < |lanes| then ReplaceUses(lanes[i]) else Fail(UndefinedBehaviour)
  {
    ProducedBounds(p, inst.args[0], CompositeConstruct(inst.op.vec));
  }

  /** `Extract(Insert(c, v, #i), #i)` is `v`, whatever `c` is. */
  lemma {:induction false} ExtractOfInsert(p: Program, inst: Inst)
    requires WellFormed(p) && inst.op.CompositeExtract? && ArityOk(inst)
    requires ProducedBy(p, inst.args[0], CompositeInsert(inst.op.vec)) && ArgU32(p, inst.args[1]).Ok?
    requires ArgU32(p, OperandsOf(p, inst.args[0], CompositeInsert(inst.op.vec)).value[2]) == ArgU32(p, inst.args[1])
    ensures FoldCompositeExtract(p, inst) == ReplaceUses(OperandsOf(p, inst.args[0], CompositeInsert(inst.op.vec)).value[1])
  {
    ProducedBounds(p, inst.args[0], CompositeInsert(inst.op.vec));
  }

  /** The chase gives up, and the extract stays, when the composite comes
      from neither a construct nor an insert of the same vector type, or
      from an insert whose lane index is not an immediate. */
  lemma {:induction false} ExtractGivesUp(p: Program, inst: Inst)
    requires WellFormed(p) && inst.op.CompositeExtract? && ArityOk(inst) && ArgU32(p, inst.args[1]).Ok?
    requires !ProducedBy(p, inst.args[0], CompositeConstruct(inst.op.vec))
    requires || !ProducedBy(p, inst.args[0], CompositeInsert(inst.op.vec))
             || !IsImmediate(p, OperandsOf(p, inst.args[0], CompositeInsert(inst.op.vec)).value[2])
    ensures FoldCompositeExtract(p, inst) == Unchanged
  {
  }

  // ---------------------------------------------------------------------------
  // Dispatcher

  /** The opcodes `ConstantPropagation` has a rule for. */
  predicate Dispatched(op: Opcode) {
    || op.GetRegister? || op.GetPred? || op.IAdd32? || op.IAdd64? || op.ISub32?
    || op.BitCastF32U32? || op.BitCastU32F32? || op.PackHalf2x16? || op.UnpackHalf2x16?
    || op.Select? || op.FPMul32? || op.LogicalAnd? || op.LogicalOr? || op.LogicalNot?
    || FoldsImmediates(op) || op.BranchConditional? || op.CompositeExtract?
  }

  /** `ConstantPropagation`: at most one rule per opcode; every other opcode
      is left alone. */
  function Fold(p: Program, inst: Inst): (o: Outcome)
    requires WellFormed(p) && ArityOk(inst)
    ensures o.SetArgs? ==> |o.args| == |inst.args|
    ensures o.SetOpcode? ==> inst.op.BitCastF32U32? && o.op.GetCbufF32? && |o.args| == 2
    ensures o.EmitIMul32? ==> inst.op.IAdd32?
    ensures !Dispatched(inst.op) ==> o == Unchanged
  {
    match inst.op
    case GetRegister => FoldGetRegister(p, inst)
    case GetPred => FoldGetPred(p, inst)
    case IAdd32 => FoldAdd(p, inst)
    case ISub32 => FoldISub32(p, inst)
    case BitCastF32U32 => FoldBitCast(p, inst)
    case BitCastU32F32 => FoldBitCast(p, inst)
    case IAdd64 => FoldAdd(p, inst)
    case PackHalf2x16 => FoldInverseFunc(p, inst, UnpackHalf2x16)
    case UnpackHalf2x16 => FoldInverseFunc(p, inst, PackHalf2x16)
    case Select(_) => FoldSelect(p, inst)
    case FPMul32 => FoldFPMul32(p, inst)
    case LogicalAnd => FoldLogicalAnd(p, inst)
    case LogicalOr => FoldLogicalOr(p, inst)
    case LogicalNot => FoldLogicalNot(p, inst)
    case SLessThan | ULessThan | SLessThanEqual | ULessThanEqual => FoldWhenAllImmediates(p, inst)
    case SGreaterThan | UGreaterThan | SGreaterThanEqual | UGreaterThanEqual => FoldWhenAllImmediates(p, inst)
    case IEqual | INotEqual => FoldWhenAllImmediates(p, inst)
    case BitFieldUExtract | BitFieldSExtract => FoldWhenAllImmediates(p, inst)
    case BranchConditional => FoldBranchConditional(p, inst)
    case CompositeExtract(_) => FoldCompositeExtract(p, inst)
    case _ => Unchanged
  }
}
