/** The pass keeps the value of everything the program computes.

    `Refines(p, q)`: every value that has a value in `p` has the same value
    in `q`, for every environment and with the same fuel. One step of the
    driver redirects a single instruction; when the rule is locally sound,
    a mutual induction over the fuel shows that the redirected program
    refines the old one, and refinement composes along the run.
 */
module Refinement {
  import opened IR
  import opened Folds
  import opened IntSoundness
  import opened Pass
  import opened Semantics
  import opened Soundness

  ghost predicate Refines(p: Program, q: Program) {
    forall env, v, n | Eval(p, env, v, n).Some? :: Eval(q, env, v, n) == Eval(p, env, v, n)
  }

  /** Every outcome of the rule keeps the value of the instruction it is about. */
  ghost predicate RuleSound(rule: Rule) {
    forall p, inst {:trigger rule(p, inst)} | WellFormed(p) && ArityOk(inst) && rule.requires(p, inst) ::
      LocallySound(p, inst, rule(p, inst))
  }

  // ---------------------------------------------------------------------------
  // One redirected instruction

  /** What `q` holds at `id` once the outcome `o` is carried out there. */
  predicate RedirectedAt(p: Program, q: Program, id: InstId, o: Outcome)
    requires id in p.insts
  {
    match o
    case ReplaceUses(w) => id in q.repl && q.repl[id] == w
    case SetArgs(args) => id !in q.repl && id in q.insts && q.insts[id] == p.insts[id].(args := args)
    case SetOpcode(op, args) =>
      id !in q.repl && id in q.insts && q.insts[id] == p.insts[id].(op := op, args := args)
    case EmitIMul32(a, c) =>
      && id in q.repl && q.repl[id].Ref?
      && q.repl[id].id !in q.repl && q.repl[id].id in q.insts
      && q.insts[q.repl[id].id] == Inst(IMul32, [a, c], false, false)
    case _ => id !in q.repl && id in q.insts && q.insts[id] == p.insts[id]
  }

  /** `q` is `p` with the outcome `o` carried out at the unreplaced
      instruction `id`, and nothing else changed that evaluation reads. */
  predicate Redirects(p: Program, q: Program, id: InstId, o: Outcome) {
    && id in p.insts && id !in p.repl
    && (forall j | j in p.repl :: j in q.repl && q.repl[j] == p.repl[j])
    && (forall j | j in q.repl && j != id :: j in p.repl)
    && (forall j | j in p.insts && j != id && j !in p.repl :: j in q.insts && q.insts[j] == p.insts[j])
    && RedirectedAt(p, q, id, o)
  }

  lemma {:induction false} RedirectEval(p: Program, q: Program, id: InstId, o: Outcome, env: Env, v: Value, n: nat)
    requires Redirects(p, q, id, o) && LocallySound(p, p.insts[id], o)
    requires Eval(p, env, v, n).Some?
    ensures Eval(q, env, v, n) == Eval(p, env, v, n)
    decreases n, 1
  {
    if v.Ref? {
      var j := v.id;
      if j in p.repl {
        RedirectEval(p, q, id, o, env, p.repl[j], n - 1);
      } else if j != id {
        RedirectInst(p, q, id, o, env, p.insts[j], n - 1);
      } else {
        RedirectSelf(p, q, id, o, env, n);
      }
    }
  }

  /** The redirected instruction itself, by the local soundness of `o`. */
  lemma {:induction false} RedirectSelf(p: Program, q: Program, id: InstId, o: Outcome, env: Env, n: nat)
    requires Redirects(p, q, id, o) && LocallySound(p, p.insts[id], o)
    requires Eval(p, env, Ref(id), n).Some?
    ensures Eval(q, env, Ref(id), n) == Eval(p, env, Ref(id), n)
    decreases n, 0
  {
    var inst := p.insts[id];
    var r := EvalInst(p, env, inst, n - 1).value;
    assert Agrees(p, env, inst, o, n - 1, r);
    match o
    case ReplaceUses(w) =>
      RedirectEval(p, q, id, o, env, w, n - 1);
    case SetArgs(args) =>
      RedirectInst(p, q, id, o, env, inst.(args := args), n - 1);
    case SetOpcode(op, args) =>
      RedirectInst(p, q, id, o, env, inst.(op := op, args := args), n - 1);
    case EmitIMul32(a, c) =>
      RedirectInst(p, q, id, o, env, Inst(IMul32, [a, c], false, false), n - 2);
    case Unchanged =>
      RedirectInst(p, q, id, o, env, inst, n - 1);
    case Fail(_) =>
      RedirectInst(p, q, id, o, env, inst, n - 1);
  }

  lemma {:induction false} RedirectInst(p: Program, q: Program, id: InstId, o: Outcome, env: Env, inst: Inst, n: nat)
    requires Redirects(p, q, id, o) && LocallySound(p, p.insts[id], o)
    requires EvalInst(p, env, inst, n).Some?
    ensures EvalInst(q, env, inst, n) == EvalInst(p, env, inst, n)
    decreases n, 3
  {
    RedirectArgs(p, q, id, o, env, inst.args, n);
  }

  lemma {:induction false} RedirectArgs(p: Program, q: Program, id: InstId, o: Outcome, env: Env, args: seq<Value>, n: nat)
    requires Redirects(p, q, id, o) && LocallySound(p, p.insts[id], o)
    requires EvalArgs(p, env, args, n).Some?
    ensures EvalArgs(q, env, args, n) == EvalArgs(p, env, args, n)
    decreases n, 2, |args|
  {
    if args != [] {
      RedirectEval(p, q, id, o, env, args[0], n);
      RedirectArgs(p, q, id, o, env, args[1..], n);
    }
  }

  /** A locally sound outcome carried out at one instruction refines the program. */
  lemma {:induction false} RedirectRefines(p: Program, q: Program, id: InstId, o: Outcome)
    requires Redirects(p, q, id, o) && LocallySound(p, p.insts[id], o)
    ensures Refines(p, q)
  {
    forall env, v, n | Eval(p, env, v, n).Some?
      ensures Eval(q, env, v, n) == Eval(p, env, v, n)
    {
      RedirectEval(p, q, id, o, env, v, n);
    }
  }

  lemma {:induction false} RefinesRefl(p: Program)
    ensures Refines(p, p)
  {
  }

  lemma {:induction false} RefinesTrans(p: Program, q: Program, s: Program)
    requires Refines(p, q) && Refines(q, s)
    ensures Refines(p, s)
  {
    forall env, v, n | Eval(p, env, v, n).Some?
      ensures Eval(s, env, v, n) == Eval(p, env, v, n)
    {
      assert Eval(q, env, v, n) == Eval(p, env, v, n);
    }
  }

  // ---------------------------------------------------------------------------
  // The driver

  /** Carrying out an outcome other than a failure redirects the visited
      instruction and nothing else. */
  lemma {:induction false} ApplyRedirects(p: Program, b: nat, k: nat, o: Outcome)
    requires WellFormed(p) && b < |p.postOrder| && k < |p.postOrder[b]|
    requires p.postOrder[b][k] !in p.repl && !o.Fail?
    ensures Apply(p, b, k, o).Ok?
    ensures Redirects(p, Apply(p, b, k, o).value.0, p.postOrder[b][k], o)
  {
    if o.EmitIMul32? {
      assert p.nextId !in p.insts;
    }
  }

  /** A step of a locally sound rule refines the program. */
  lemma {:induction false} StepRefines(rule: Rule, p: Program, b: nat, k: nat)
    requires RuleFits(rule) && RuleSound(rule) && WellFormed(p)
    requires b < |p.postOrder| && k < |p.postOrder[b]|
    ensures Step(rule, p, b, k).Ok? ==> Refines(p, Step(rule, p, b, k).value.0)
  {
    var id := p.postOrder[b][k];
    if id in p.repl {
      RefinesRefl(p);
    } else {
      var inst := p.insts[id];
      var o := rule(p, inst);
      assert LocallySound(p, inst, o);
      if !o.Fail? {
        ApplyRedirects(p, b, k, o);
        RedirectRefines(p, Apply(p, b, k, o).value.0, id, o);
      }
    }
  }

  lemma {:induction false} RunBlockRefines(rule: Rule, p: Program, b: nat, k: nat)
    requires RuleFits(rule) && RuleSound(rule) && WellFormed(p)
    requires b < |p.postOrder| && k <= |p.postOrder[b]|
    ensures RunBlock(rule, p, b, k).Ok? ==> Refines(p, RunBlock(rule, p, b, k).value)
    decreases |p.postOrder[b]| - k
  {
    if k == |p.postOrder[b]| {
      RefinesRefl(p);
    } else {
      StepAdvances(rule, p, b, k);
      StepRefines(rule, p, b, k);
      if Step(rule, p, b, k).Ok? {
        var (q, k') := Step(rule, p, b, k).value;
        RunBlockRefines(rule, q, b, k');
        if RunBlock(rule, q, b, k').Ok? {
          RefinesTrans(p, q, RunBlock(rule, q, b, k').value);
        }
      }
    }
  }

  lemma {:induction false} RunFromRefines(rule: Rule, p: Program, j: nat)
    requires RuleFits(rule) && RuleSound(rule) && WellFormed(p) && j <= |p.postOrder|
    ensures RunFrom(rule, p, j).Ok? ==> Refines(p, RunFrom(rule, p, j).value)
    decreases j
  {
    if j == 0 {
      RefinesRefl(p);
    } else {
      var first := RunBlock(rule, p, j - 1, 0);
      if first.Ok? {
        var q := first.value;
        RunBlockRefines(rule, p, j - 1, 0);
        RunFromRefines(rule, q, j - 1);
        if RunFrom(rule, q, j - 1).Ok? {
          RefinesTrans(p, q, RunFrom(rule, q, j - 1).value);
        }
      }
    }
  }

  // ---------------------------------------------------------------------------
  // The pass

  /** Every rule of the dispatcher keeps the value of what it rewrites. */
  lemma {:induction false} FoldLocallySound(p: Program, inst: Inst)
    requires WellFormed(p) && ArityOk(inst)
    ensures LocallySound(p, inst, Fold(p, inst))
  {
    match inst.op
    case GetRegister => GetRegisterSound(p, inst);
    case GetPred => GetPredSound(p, inst);
    case IAdd32 => AddSound(p, inst);
    case IAdd64 => AddSound(p, inst);
    case ISub32 => ISub32Sound(p, inst);
    case BitCastF32U32 => BitCastSound(p, inst);
    case BitCastU32F32 => BitCastSound(p, inst);
    case PackHalf2x16 => FloatRulesSound(p, inst, Fold(p, inst));
    case UnpackHalf2x16 => FloatRulesSound(p, inst, Fold(p, inst));
    case FPMul32 => FloatRulesSound(p, inst, Fold(p, inst));
    case Select(_) => SelectSound(p, inst);
    case LogicalAnd => LogicalAndSound(p, inst);
    case LogicalOr => LogicalOrSound(p, inst);
    case LogicalNot => LogicalNotSound(p, inst);
    case BranchConditional => BranchConditionalSound(p, inst);
    case CompositeExtract(_) => CompositeExtractSound(p, inst);
    case _ =>
      if FoldsImmediates(inst.op) {
        ImmediatesSound(p, inst);
      }
  }

  lemma {:induction false} FoldSound()
    ensures RuleSound(Fold)
  {
    forall p, inst | WellFormed(p) && ArityOk(inst) && Fold.requires(p, inst)
      ensures LocallySound(p, inst, Fold(p, inst))
    {
      FoldLocallySound(p, inst);
    }
  }

  /** The pass keeps the value of everything the program computes, in every
      environment: whatever has a value before it has the same value after. */
  lemma {:induction false} PassRefines(p: Program)
    requires WellFormed(p)
    ensures PassSpec(p).Ok? ==> Refines(p, PassSpec(p).value)
  {
    FoldFits();
    FoldSound();
    RunFromRefines(Fold, p, |p.postOrder|);
  }
}
