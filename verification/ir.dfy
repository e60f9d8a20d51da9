/** The shader IR as the constant-propagation pass sees it.

    An instruction is named by a stable identifier; a program maps
    identifiers to instructions and lists, per block, the identifiers in
    program order. Blocks are stored in post-order, as the program exposes
    them. Replacing the uses of an instruction is recorded in a substitution
    map `repl` instead of editing every user: the instruction stays where it
    is, and every later look-up of a value that refers to it follows the
    substitution, exactly as a look-up follows an `Identity` instruction.
 */
module IR {
  import opened Arith

  type InstId = nat

  datatype Option<+T> = None | Some(value: T) {
    predicate IsFailure() { None? }
    function PropagateFailure<U>(): Option<U> requires None? { None }
    function Extract(): T requires Some? { value }
  }

  /** Why folding can stop the compilation of a program. */
  datatype Fault =
    | UndefinedBitField     // the LogicError raised for shift + count > 32
    | WrongImmediateType    // a typed read of an immediate with another tag
    | UndefinedBehaviour    // a C++ expression without a defined value

  datatype Result<+T> = Ok(value: T) | Err(fault: Fault) {
    predicate IsFailure() { Err? }
    function PropagateFailure<U>(): Result<U> requires Err? { Err(fault) }
    function Extract(): T requires Ok? { value }
  }

  datatype Reg = RZ | R(index: nat)
  datatype Pred = PT | P(index: nat)

  /** A tagged immediate. Floating-point immediates are kept as bit patterns. */
  datatype Immediate =
    | U1(b: bool)
    | U8(u8bits: nat)
    | U16(u16bits: nat)
    | U32(u32bits: u32)
    | U64(u64bits: u64)
    | F16(f16bits: nat)
    | F32(f32bits: u32)
    | F64(f64bits: u64)
    | RegImm(reg: Reg)
    | PredImm(pred: Pred)
    | AttrImm(attr: nat)
    | LabelImm(target: nat)

  datatype Value = Imm(imm: Immediate) | Ref(id: InstId)

  datatype SelectType = SelU1 | SelU8 | SelU16 | SelU32 | SelU64 | SelF16 | SelF32 | SelF64

  /** The six composite vector shapes the pass folds extracts of. */
  datatype VectorType = F32x2 | F32x3 | F32x4 | F16x2 | F16x3 | F16x4 {
    function Lanes(): nat {
      match this
      case F32x2 | F16x2 => 2
      case F32x3 | F16x3 => 3
      case F32x4 | F16x4 => 4
    }
  }

  datatype Opcode =
    | Identity
    | GetRegister | GetPred | GetCbufU32 | GetCbufF32 | GetAttribute
    | IAdd32 | IAdd64 | ISub32 | IMul32 | ShiftLeftLogical32
    | BitFieldUExtract | BitFieldSExtract
    | SLessThan | ULessThan | SLessThanEqual | ULessThanEqual
    | SGreaterThan | UGreaterThan | SGreaterThanEqual | UGreaterThanEqual
    | IEqual | INotEqual
    | LogicalAnd | LogicalOr | LogicalNot
    | BitCastF32U32 | BitCastU32F32
    | PackHalf2x16 | UnpackHalf2x16
    | Select(ty: SelectType)
    | FPMul32 | FPRecip32
    | BranchConditional
    | CompositeConstruct(vec: VectorType)
    | CompositeInsert(vec: VectorType)
    | CompositeExtract(vec: VectorType)
    | OtherOp(code: nat)

  /** The number of arguments the pass may read of an instruction. */
  function MinArgs(op: Opcode): nat {
    match op
    case CompositeConstruct(_) | OtherOp(_) => 0
    case Identity | GetRegister | GetPred | GetAttribute | LogicalNot | BitCastF32U32 | BitCastU32F32
       | PackHalf2x16 | UnpackHalf2x16 | FPRecip32 => 1
    case BitFieldUExtract | BitFieldSExtract | Select(_) | BranchConditional | CompositeInsert(_) => 3
    case _ => 2  // the cbuf reads, the binary operations and CompositeExtract
  }

  /** `pseudoOp`: an associated pseudo-operation (such as a carry-out) hangs
      off this instruction. `noContraction`: the floating-point control flag. */
  datatype Inst = Inst(op: Opcode, args: seq<Value>, pseudoOp: bool, noContraction: bool)

  predicate ArityOk(inst: Inst) {
    MinArgs(inst.op) <= |inst.args|
  }

  datatype Program = Program(
    insts: map<InstId, Inst>,
    repl: map<InstId, Value>,
    postOrder: seq<seq<InstId>>,
    nextId: InstId)

  /** Every instruction has the arguments the pass reads, identifiers below
      `nextId` are the only ones in use, only known instructions are
      substituted, and blocks list known instructions. */
  predicate WellFormed(p: Program) {
    && (forall id | id in p.insts :: ArityOk(p.insts[id]) && id < p.nextId)
    && (forall id | id in p.repl :: id in p.insts)
    && (forall b, k | 0 <= b < |p.postOrder| && 0 <= k < |p.postOrder[b]| :: p.postOrder[b][k] in p.insts)
  }

  // ---------------------------------------------------------------------------
  // Resolution through replaced and Identity instructions

  /** More steps than any acyclic chain of substitutions and identities can
      take: every instruction it passes has an identifier below `nextId`. */
  function ChainBound(p: Program): nat {
    p.nextId
  }

  function ResolveFuel(p: Program, v: Value, fuel: nat): (r: Value)
    ensures v.Imm? ==> r == v
    decreases fuel
  {
    if fuel == 0 then v
    else match v
      case Imm(_) => v
      case Ref(id) =>
        if id in p.repl then ResolveFuel(p, p.repl[id], fuel - 1)
        else if id in p.insts && p.insts[id].op.Identity? && |p.insts[id].args| > 0 then
          ResolveFuel(p, p.insts[id].args[0], fuel - 1)
        else v
  }

  /** `Value::Resolve`: the value behind a chain of substitutions and identities. */
  function Resolve(p: Program, v: Value): Value {
    ResolveFuel(p, v, ChainBound(p))
  }

  /** `Value::IsImmediate`, which looks through identities. */
  predicate IsImmediate(p: Program, v: Value) {
    Resolve(p, v).Imm?
  }

  /** `Value::InstRecursive`: the instruction that produces a non-immediate value.
      `None` for an immediate, for an identifier that names no instruction,
      and for a chain of substitutions that does not end within the bound
      (which only a cyclic chain fails to do). */
  function Producer(p: Program, v: Value): (r: Option<Inst>)
    ensures r.Some? ==> !IsImmediate(p, v)
    ensures r.Some? ==> !r.value.op.Identity?
    ensures WellFormed(p) && r.Some? ==> ArityOk(r.value)
  {
    match Resolve(p, v)
    case Imm(_) => None
    case Ref(id) =>
      if id !in p.repl && id in p.insts && !p.insts[id].op.Identity? then Some(p.insts[id]) else None
  }

  /** The instruction producing `v`, when it has opcode `op`. */
  predicate ProducedBy(p: Program, v: Value, op: Opcode) {
    var q := Producer(p, v);
    q.Some? && q.value.op == op
  }

  /** The arguments of the instruction producing `v`, when it has opcode `op`;
      there are at least as many as the pass reads. */
  function OperandsOf(p: Program, v: Value, op: Opcode): (r: Option<seq<Value>>)
    requires WellFormed(p)
    ensures r.Some? <==> ProducedBy(p, v, op)
    ensures r.Some? ==> MinArgs(op) <= |r.value|
  {
    var q := Producer(p, v);
    if q.Some? && q.value.op == op then Some(q.value.args) else None
  }

  // ---------------------------------------------------------------------------
  // Typed reads of immediates (`Value::U1`, `U32`, `U64`, `F32`, `Reg`, ...)

  function ImmOf(p: Program, v: Value): Option<Immediate> {
    match Resolve(p, v)
    case Imm(x) => Some(x)
    case Ref(_) => None
  }

  function ArgBool(p: Program, v: Value): Result<bool> {
    match ImmOf(p, v)
    case Some(U1(b)) => Ok(b)
    case _ => Err(WrongImmediateType)
  }

  function ArgU32(p: Program, v: Value): Result<u32> {
    match ImmOf(p, v)
    case Some(U32(x)) => Ok(x)
    case _ => Err(WrongImmediateType)
  }

  function ArgS32(p: Program, v: Value): (r: Result<int>)
    ensures r.Ok? ==> -TWO31 <= r.value < TWO31
  {
    var x :- ArgU32(p, v);
    Ok(ToS32(x))
  }

  function ArgU64(p: Program, v: Value): Result<u64> {
    match ImmOf(p, v)
    case Some(U64(x)) => Ok(x)
    case _ => Err(WrongImmediateType)
  }

  function ArgF32(p: Program, v: Value): Result<u32> {
    match ImmOf(p, v)
    case Some(F32(x)) => Ok(x)
    case _ => Err(WrongImmediateType)
  }

  function ArgReg(p: Program, v: Value): Result<Reg> {
    match ImmOf(p, v)
    case Some(RegImm(r)) => Ok(r)
    case _ => Err(WrongImmediateType)
  }

  function ArgPred(p: Program, v: Value): Result<Pred> {
    match ImmOf(p, v)
    case Some(PredImm(q)) => Ok(q)
    case _ => Err(WrongImmediateType)
  }

  function ArgAttr(p: Program, v: Value): Result<nat> {
    match ImmOf(p, v)
    case Some(AttrImm(a)) => Ok(a)
    case _ => Err(WrongImmediateType)
  }
}
