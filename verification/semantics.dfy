/** What the values of a shader program are, as a reference for the folding
    rules.

    A value is evaluated against an environment that fixes the registers,
    predicates, constant buffers and attributes the shader reads. Evaluation
    follows substitutions and instruction operands with a fuel bound, so a
    cyclic chain has no value. Floating-point arithmetic and the half-float
    packing have no value in this model: the rules that rewrite them are
    sound only up to IEEE rounding, which the model does not describe.
 */
module Semantics {
  import opened Arith
  import opened IR

  /** The inputs of a shader invocation. */
  datatype Env = Env(
    regs: nat -> u32,
    preds: nat -> bool,
    cbuf: (u32, u32) -> u32,
    attrs: nat -> u32)

  /** A computed value: an immediate, or the lanes of a composite. */
  datatype SVal = Scalar(imm: Immediate) | Vector(lanes: seq<SVal>)

  // ---------------------------------------------------------------------------
  // Typed reads of computed operands

  function ImmAt(vals: seq<SVal>, i: nat): Option<Immediate> {
    if i < |vals| && vals[i].Scalar? then Some(vals[i].imm) else None
  }

  function U32At(vals: seq<SVal>, i: nat): Option<u32> {
    if i < |vals| && vals[i].Scalar? && vals[i].imm.U32? then Some(vals[i].imm.u32bits) else None
  }

  function U64At(vals: seq<SVal>, i: nat): Option<u64> {
    if i < |vals| && vals[i].Scalar? && vals[i].imm.U64? then Some(vals[i].imm.u64bits) else None
  }

  function BoolAt(vals: seq<SVal>, i: nat): Option<bool> {
    if i < |vals| && vals[i].Scalar? && vals[i].imm.U1? then Some(vals[i].imm.b) else None
  }

  function F32At(vals: seq<SVal>, i: nat): Option<u32> {
    if i < |vals| && vals[i].Scalar? && vals[i].imm.F32? then Some(vals[i].imm.f32bits) else None
  }

  /** A signed and an unsigned comparison of two u32 operands. */
  function Compare(op: Opcode, x: u32, y: u32): bool
    requires op in {SLessThan, ULessThan, SLessThanEqual, ULessThanEqual,
                    SGreaterThan, UGreaterThan, SGreaterThanEqual, UGreaterThanEqual,
                    IEqual, INotEqual}
  {
    match op
    case SLessThan => ToS32(x) < ToS32(y)
    case ULessThan => x < y
    case SLessThanEqual => ToS32(x) <= ToS32(y)
    case ULessThanEqual => x <= y
    case SGreaterThan => ToS32(x) > ToS32(y)
    case UGreaterThan => x > y
    case SGreaterThanEqual => ToS32(x) >= ToS32(y)
    case UGreaterThanEqual => x >= y
    case IEqual => x == y
    case INotEqual => x != y
  }

  /** Bits `shift .. shift + count` of `base`, zero- or sign-extended; `None`
      when the field does not lie inside the word. */
  function ExtractField(signed: bool, base: u32, shift: u32, count: u32): Option<u32> {
    if shift + count > 32 then None
    else if count == 0 then Some(0)
    else
      var field := BitField(base, shift, count);
      if !signed then
        assert field < TWO32 by { Pow2Monotone(count, 32); Pow2Values(); }
        Some(field)
      else Some(SignExtend(field, count) % TWO32)
  }

  /** The value an operation computes from its evaluated operands. */
  function EvalOp(env: Env, op: Opcode, vals: seq<SVal>): Option<SVal> {
    match op
    case Identity => if |vals| > 0 then Some(vals[0]) else None
    case GetRegister =>
      (match ImmAt(vals, 0)
       case Some(RegImm(RZ)) => Some(Scalar(U32(0)))
       case Some(RegImm(R(i))) => Some(Scalar(U32(env.regs(i))))
       case _ => None)
    case GetPred =>
      (match ImmAt(vals, 0)
       case Some(PredImm(PT)) => Some(Scalar(U1(true)))
       case Some(PredImm(P(i))) => Some(Scalar(U1(env.preds(i))))
       case _ => None)
    case GetCbufU32 =>
      var slot :- U32At(vals, 0); var offset :- U32At(vals, 1);
      Some(Scalar(U32(env.cbuf(slot, offset))))
    case GetCbufF32 =>
      var slot :- U32At(vals, 0); var offset :- U32At(vals, 1);
      Some(Scalar(F32(env.cbuf(slot, offset))))
    case GetAttribute =>
      (match ImmAt(vals, 0)
       case Some(AttrImm(a)) => Some(Scalar(F32(env.attrs(a))))
       case _ => None)
    case IAdd32 => var x :- U32At(vals, 0); var y :- U32At(vals, 1); Some(Scalar(U32(AddU32(x, y))))
    case IAdd64 => var x :- U64At(vals, 0); var y :- U64At(vals, 1); Some(Scalar(U64(AddU64(x, y))))
    case ISub32 => var x :- U32At(vals, 0); var y :- U32At(vals, 1); Some(Scalar(U32(SubU32(x, y))))
    case IMul32 => var x :- U32At(vals, 0); var y :- U32At(vals, 1); Some(Scalar(U32(MulU32(x, y))))
    case ShiftLeftLogical32 =>
      var x :- U32At(vals, 0); var s :- U32At(vals, 1);
      if s < 32 then Some(Scalar(U32(ShlU32(x, s)))) else None
    case BitFieldUExtract =>
      var base :- U32At(vals, 0); var shift :- U32At(vals, 1); var count :- U32At(vals, 2);
      var r :- ExtractField(false, base, shift, count); Some(Scalar(U32(r)))
    case BitFieldSExtract =>
      var base :- U32At(vals, 0); var shift :- U32At(vals, 1); var count :- U32At(vals, 2);
      var r :- ExtractField(true, base, shift, count); Some(Scalar(U32(r)))
    case SLessThan | ULessThan | SLessThanEqual | ULessThanEqual
       | SGreaterThan | UGreaterThan | SGreaterThanEqual | UGreaterThanEqual
       | IEqual | INotEqual =>
      var x :- U32At(vals, 0); var y :- U32At(vals, 1); Some(Scalar(U1(Compare(op, x, y))))
    case LogicalAnd => var x :- BoolAt(vals, 0); var y :- BoolAt(vals, 1); Some(Scalar(U1(x && y)))
    case LogicalOr => var x :- BoolAt(vals, 0); var y :- BoolAt(vals, 1); Some(Scalar(U1(x || y)))
    case LogicalNot => var x :- BoolAt(vals, 0); Some(Scalar(U1(!x)))
    case BitCastF32U32 => var x :- U32At(vals, 0); Some(Scalar(F32(x)))
    case BitCastU32F32 => var x :- F32At(vals, 0); Some(Scalar(U32(x)))
    case PackHalf2x16 | UnpackHalf2x16 | FPMul32 | FPRecip32 => None
    case Select(_) | BranchConditional =>
      // a branch evaluates to the target it takes
      var c :- BoolAt(vals, 0);
      if |vals| >= 3 then Some(if c then vals[1] else vals[2]) else None
    case CompositeConstruct(_) => Some(Vector(vals))
    case CompositeInsert(_) =>
      var i :- U32At(vals, 2);
      if vals[0].Vector? && i < |vals[0].lanes| then Some(Vector(vals[0].lanes[i := vals[1]])) else None
    case CompositeExtract(_) =>
      var i :- U32At(vals, 1);
      if vals[0].Vector? && i < |vals[0].lanes| then Some(vals[0].lanes[i]) else None
    case OtherOp(_) => None
  }

  // ---------------------------------------------------------------------------
  // Evaluation of values, instructions and operand lists

  /** The value of `v` in `p` under `env`, within `n` steps through
      references; `None` when it has none (or needs more steps). */
  function Eval(p: Program, env: Env, v: Value, n: nat): Option<SVal>
    decreases n, 0
  {
    match v
    case Imm(x) => Some(Scalar(x))
    case Ref(id) =>
      if n == 0 then None
      else if id in p.repl then Eval(p, env, p.repl[id], n - 1)
      else if id in p.insts then EvalInst(p, env, p.insts[id], n - 1)
      else None
  }

  function EvalInst(p: Program, env: Env, inst: Inst, n: nat): Option<SVal>
    decreases n, 2
  {
    var vals :- EvalArgs(p, env, inst.args, n);
    EvalOp(env, inst.op, vals)
  }

  function EvalArgs(p: Program, env: Env, args: seq<Value>, n: nat): (r: Option<seq<SVal>>)
    ensures r.Some? ==> |r.value| == |args|
    decreases n, 1, |args|
  {
    if args == [] then Some([])
    else
      var h :- Eval(p, env, args[0], n);
      var t :- EvalArgs(p, env, args[1..], n);
      Some([h] + t)
  }

  // ---------------------------------------------------------------------------
  // Basic facts about evaluation

  /** An operand list evaluates exactly when each operand does, lane for lane. */
  lemma {:induction false} EvalArgsPointwise(p: Program, env: Env, args: seq<Value>, n: nat, vals: seq<SVal>)
    ensures EvalArgs(p, env, args, n) == Some(vals) <==>
      (|vals| == |args| && forall i | 0 <= i < |args| :: Eval(p, env, args[i], n) == Some(vals[i]))
  {
    if args != [] && |vals| == |args| {
      EvalArgsPointwise(p, env, args[1..], n, vals[1..]);
      if forall i | 0 <= i < |args| :: Eval(p, env, args[i], n) == Some(vals[i]) {
        assert forall i | 0 <= i < |args| - 1 :: args[1..][i] == args[i + 1] && vals[1..][i] == vals[i + 1];
        assert vals == [vals[0]] + vals[1..];
      }
      if EvalArgs(p, env, args, n) == Some(vals) {
        forall i | 0 <= i < |args|
          ensures Eval(p, env, args[i], n) == Some(vals[i])
        {
          if i > 0 {
            assert args[1..][i - 1] == args[i];
          }
        }
      }
    }
  }

  /** More fuel never changes a value that exists. */
  lemma {:induction false} EvalMono(p: Program, env: Env, v: Value, n: nat, m: nat)
    requires n <= m && Eval(p, env, v, n).Some?
    ensures Eval(p, env, v, m) == Eval(p, env, v, n)
    decreases n, 0
  {
    if v.Ref? {
      if v.id in p.repl {
        EvalMono(p, env, p.repl[v.id], n - 1, m - 1);
      } else {
        EvalInstMono(p, env, p.insts[v.id], n - 1, m - 1);
      }
    }
  }

  lemma {:induction false} EvalInstMono(p: Program, env: Env, inst: Inst, n: nat, m: nat)
    requires n <= m && EvalInst(p, env, inst, n).Some?
    ensures EvalInst(p, env, inst, m) == EvalInst(p, env, inst, n)
    decreases n, 2
  {
    EvalArgsMono(p, env, inst.args, n, m);
  }

  lemma {:induction false} EvalArgsMono(p: Program, env: Env, args: seq<Value>, n: nat, m: nat)
    requires n <= m && EvalArgs(p, env, args, n).Some?
    ensures EvalArgs(p, env, args, m) == EvalArgs(p, env, args, n)
    decreases n, 1, |args|
  {
    if args != [] {
      EvalMono(p, env, args[0], n, m);
      EvalArgsMono(p, env, args[1..], n, m);
    }
  }

  /** A value has at most one value, whatever the fuel. */
  lemma {:induction false} EvalUnique(p: Program, env: Env, v: Value, n: nat, m: nat)
    requires Eval(p, env, v, n).Some? && Eval(p, env, v, m).Some?
    ensures Eval(p, env, v, n) == Eval(p, env, v, m)
  {
    if n <= m {
      EvalMono(p, env, v, n, m);
    } else {
      EvalMono(p, env, v, m, n);
    }
  }

  /** Following substitutions and identities keeps the value. */
  lemma {:induction false} ResolveFuelEval(p: Program, env: Env, v: Value, fuel: nat, n: nat)
    requires Eval(p, env, v, n).Some?
    ensures Eval(p, env, ResolveFuel(p, v, fuel), n) == Eval(p, env, v, n)
    decreases fuel
  {
    if fuel > 0 && v.Ref? {
      var id := v.id;
      if id in p.repl {
        EvalMono(p, env, p.repl[id], n - 1, n);
        ResolveFuelEval(p, env, p.repl[id], fuel - 1, n);
      } else if id in p.insts && p.insts[id].op.Identity? && |p.insts[id].args| > 0 {
        var inst := p.insts[id];
        var vals := EvalArgs(p, env, inst.args, n - 1).value;
        EvalArgsPointwise(p, env, inst.args, n - 1, vals);
        EvalMono(p, env, inst.args[0], n - 1, n);
        ResolveFuelEval(p, env, inst.args[0], fuel - 1, n);
      }
    }
  }

  lemma {:induction false} ResolveEval(p: Program, env: Env, v: Value, n: nat)
    requires Eval(p, env, v, n).Some?
    ensures Eval(p, env, Resolve(p, v), n) == Eval(p, env, v, n)
  {
    ResolveFuelEval(p, env, v, ChainBound(p), n);
  }

  /** A value produced by an instruction is the value of that instruction. */
  lemma {:induction false} ProducerEval(p: Program, env: Env, v: Value, n: nat)
    requires Producer(p, v).Some? && Eval(p, env, v, n).Some?
    ensures n >= 1 && EvalInst(p, env, Producer(p, v).value, n - 1) == Eval(p, env, v, n)
  {
    ResolveEval(p, env, v, n);
  }

  /** A value that resolves to an immediate has that immediate's value. */
  lemma {:induction false} ImmOfEval(p: Program, env: Env, v: Value, n: nat)
    requires ImmOf(p, v).Some? && Eval(p, env, v, n).Some?
    ensures Eval(p, env, v, n) == Some(Scalar(ImmOf(p, v).value))
  {
    ResolveEval(p, env, v, n);
  }
}
