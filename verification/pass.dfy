/** `ConstantPropagationPass`: a rule applied to every instruction of every
    block, blocks taken in reverse post-order, instructions in program order.

    The driver is written for any rule whose outcomes fit the instruction
    they are about (`RuleFits`), and `ConstantPropagationPass` runs it with
    the dispatcher `Fold`; the driver's properties are proved once, without
    looking inside the rules.
 */
module Pass {
  import opened IR
  import opened Folds

  /** The rule run on each instruction. */
  type Rule = (Program, Inst) --> Outcome

  /** Arguments are replaced by as many arguments; the only new opcode is a
      two-argument float constant-buffer read replacing a float cast. */
  predicate FitsOutcome(inst: Inst, o: Outcome) {
    && (o.SetArgs? ==> |o.args| == |inst.args|)
    && (o.SetOpcode? ==> inst.op.BitCastF32U32? && o.op.GetCbufF32? && |o.args| == 2)
  }

  ghost predicate RuleFits(rule: Rule) {
    forall p, inst {:trigger rule.requires(p, inst)} | WellFormed(p) && ArityOk(inst) ::
      rule.requires(p, inst) && FitsOutcome(inst, rule(p, inst))
  }

  /** The dispatcher is a rule the driver can run. */
  lemma FoldFits()
    ensures RuleFits(Fold)
  {
    forall p, inst | WellFormed(p) && ArityOk(inst)
      ensures Fold.requires(p, inst) && FitsOutcome(inst, Fold(p, inst))
    {
      var o := Fold(p, inst);
    }
  }

  // ---------------------------------------------------------------------------
  // Block order

  /** `ids` with `x` inserted before position `k`. */
  function InsertAt(ids: seq<InstId>, k: nat, x: InstId): (r: seq<InstId>)
    requires k <= |ids|
    ensures |r| == |ids| + 1 && r[k] == x
    ensures forall i | 0 <= i < k :: r[i] == ids[i]
    ensures forall i | k < i < |r| :: r[i] == ids[i - 1]
  {
    ids[..k] + [x] + ids[k..]
  }

  /** The identifiers of `ids` below `bound`, in order. */
  function Older(ids: seq<InstId>, bound: nat): (r: seq<InstId>)
    ensures |r| <= |ids|
    ensures forall i | 0 <= i < |r| :: r[i] < bound && r[i] in ids
  {
    if ids == [] then []
    else if ids[0] < bound then [ids[0]] + Older(ids[1..], bound)
    else Older(ids[1..], bound)
  }

  lemma {:induction false} OlderOfOld(ids: seq<InstId>, bound: nat)
    requires forall i | 0 <= i < |ids| :: ids[i] < bound
    ensures Older(ids, bound) == ids
  {
    if ids != [] {
      OlderOfOld(ids[1..], bound);
    }
  }

  lemma {:induction false} OlderInsert(ids: seq<InstId>, k: nat, x: InstId, bound: nat)
    requires k <= |ids| && bound <= x
    ensures Older(InsertAt(ids, k, x), bound) == Older(ids, bound)
  {
    var r := InsertAt(ids, k, x);
    if k == 0 {
      assert r[1..] == ids;
    } else {
      assert r[0] == ids[0];
      assert r[1..] == InsertAt(ids[1..], k - 1, x);
      OlderInsert(ids[1..], k - 1, x, bound);
    }
  }

  lemma {:induction false} OlderTwice(ids: seq<InstId>, lo: nat, hi: nat)
    requires lo <= hi
    ensures Older(Older(ids, hi), lo) == Older(ids, lo)
  {
    if ids != [] {
      OlderTwice(ids[1..], lo, hi);
      if ids[0] < hi {
        assert ([ids[0]] + Older(ids[1..], hi))[1..] == Older(ids[1..], hi);
      }
    }
  }

  // ---------------------------------------------------------------------------
  // What a run keeps

  predicate KeptOpcode(before: Opcode, after: Opcode) {
    before == after || (before.BitCastF32U32? && after.GetCbufF32?)
  }

  /** What the pass keeps of a program: the blocks, with the old
      instructions in their old order and nothing but fresh instructions
      added; every old instruction keeps its opcode except a float cast of a
      u32 constant-buffer read turned into a float read; fresh instructions
      are multiplications; substitutions once made stay. */
  predicate Keeps(p: Program, q: Program) {
    && |q.postOrder| == |p.postOrder|
    && p.nextId <= q.nextId
    && (forall b | 0 <= b < |p.postOrder| :: Older(q.postOrder[b], p.nextId) == p.postOrder[b])
    && (forall id | id in p.insts :: id in q.insts && KeptOpcode(p.insts[id].op, q.insts[id].op))
    && (forall id | id in q.insts && id !in p.insts :: p.nextId <= id && q.insts[id].op.IMul32?)
    && (forall id | id in p.repl :: id in q.repl && q.repl[id] == p.repl[id])
  }

  lemma {:induction false} KeepsRefl(p: Program)
    requires WellFormed(p)
    ensures Keeps(p, p)
  {
    forall b | 0 <= b < |p.postOrder|
      ensures Older(p.postOrder[b], p.nextId) == p.postOrder[b]
    {
      OlderOfOld(p.postOrder[b], p.nextId);
    }
  }

  lemma {:induction false} KeepsTrans(p: Program, q: Program, s: Program)
    requires Keeps(p, q) && Keeps(q, s)
    ensures Keeps(p, s)
  {
    forall b | 0 <= b < |p.postOrder|
      ensures Older(s.postOrder[b], p.nextId) == p.postOrder[b]
    {
      OlderTwice(s.postOrder[b], p.nextId, q.nextId);
    }
  }

  /** What one step may change besides what `Keeps` allows: the visited
      instruction `id`, and fresh instructions. */
  predicate ChangesOnly(p: Program, q: Program, id: InstId) {
    && (forall j | j in p.insts && j != id :: j in q.insts && q.insts[j] == p.insts[j])
    && (forall j | j in q.repl && j != id :: j in p.repl && q.repl[j] == p.repl[j])
  }

  // ---------------------------------------------------------------------------
  // One instruction

  /** `p` with a fresh `IMul32 a, c` inserted before position `k` of block
      `b` and the uses of the instruction there redirected to it. */
  function Emitted(p: Program, b: nat, k: nat, a: Value, c: Value): Program
    requires b < |p.postOrder| && k < |p.postOrder[b]|
  {
    var newId := p.nextId;
    Program(
      p.insts[newId := Inst(IMul32, [a, c], false, false)],
      p.repl[p.postOrder[b][k] := Ref(newId)],
      p.postOrder[b := InsertAt(p.postOrder[b], k, newId)],
      p.nextId + 1)
  }

  /** The outcome of a rule carried out on the instruction at position `k`
      of block `b`, with the position of the next instruction to visit. A
      multiplication emitted for the XMAD pattern goes before the visited
      instruction and is not visited itself. */
  function Apply(p: Program, b: nat, k: nat, o: Outcome): Result<(Program, nat)>
    requires b < |p.postOrder| && k < |p.postOrder[b]| && p.postOrder[b][k] in p.insts
  {
    var id := p.postOrder[b][k];
    match o
    case Unchanged => Ok((p, k + 1))
    case ReplaceUses(v) => Ok((p.(repl := p.repl[id := v]), k + 1))
    case SetArgs(args) => Ok((p.(insts := p.insts[id := p.insts[id].(args := args)]), k + 1))
    case SetOpcode(op, args) =>
      Ok((p.(insts := p.insts[id := p.insts[id].(op := op, args := args)]), k + 1))
    case EmitIMul32(a, c) => Ok((Emitted(p, b, k, a, c), k + 2))
    case Fail(f) => Err(f)
  }

  /** The instruction at position `k` of block `b` after the rule ran on it.
      An instruction whose uses were already replaced is an `Identity`, which
      no rule touches. */
  function Step(rule: Rule, p: Program, b: nat, k: nat): Result<(Program, nat)>
    requires RuleFits(rule) && WellFormed(p) && b < |p.postOrder| && k < |p.postOrder[b]|
  {
    var id := p.postOrder[b][k];
    if id in p.repl then Ok((p, k + 1))
    else Apply(p, b, k, rule(p, p.insts[id]))
  }

  lemma {:induction false} EmittedKeeps(p: Program, b: nat, k: nat, a: Value, c: Value)
    requires WellFormed(p) && b < |p.postOrder| && k < |p.postOrder[b]|
    requires p.postOrder[b][k] !in p.repl
    ensures var q := Emitted(p, b, k, a, c);
      && WellFormed(q) && Keeps(p, q) && ChangesOnly(p, q, p.postOrder[b][k])
      && |q.postOrder[b]| == |p.postOrder[b]| + 1
  {
    var q := Emitted(p, b, k, a, c);
    var newId := p.nextId;
    forall d | 0 <= d < |p.postOrder|
      ensures Older(q.postOrder[d], p.nextId) == p.postOrder[d]
    {
      OlderOfOld(p.postOrder[d], p.nextId);
      if d == b {
        OlderInsert(p.postOrder[b], k, newId, p.nextId);
      }
    }
    forall d, i | 0 <= d < |q.postOrder| && 0 <= i < |q.postOrder[d]|
      ensures q.postOrder[d][i] in q.insts
    {
      if d == b && i != k {
        assert q.postOrder[d][i] == p.postOrder[b][if i < k then i else i - 1];
      }
    }
  }

  lemma {:induction false} RewrittenKeeps(p: Program, id: InstId, inst: Inst)
    requires WellFormed(p) && id in p.insts && ArityOk(inst)
    requires KeptOpcode(p.insts[id].op, inst.op)
    ensures var q := p.(insts := p.insts[id := inst]);
      WellFormed(q) && Keeps(p, q) && ChangesOnly(p, q, id)
  {
    KeepsRefl(p);
  }

  lemma {:induction false} ReplacedKeeps(p: Program, id: InstId, v: Value)
    requires WellFormed(p) && id in p.insts && id !in p.repl
    ensures var q := p.(repl := p.repl[id := v]);
      WellFormed(q) && Keeps(p, q) && ChangesOnly(p, q, id)
  {
    KeepsRefl(p);
  }

  /** Carrying out an outcome that fits the visited instruction keeps what
      `Keeps` keeps and moves towards the end of the block. */
  lemma {:induction false} ApplyKeeps(p: Program, b: nat, k: nat, o: Outcome)
    requires WellFormed(p) && b < |p.postOrder| && k < |p.postOrder[b]|
    requires p.postOrder[b][k] !in p.repl && FitsOutcome(p.insts[p.postOrder[b][k]], o)
    ensures Apply(p, b, k, o).Ok? ==>
      var (q, k') := Apply(p, b, k, o).value;
      && WellFormed(q) && Keeps(p, q) && ChangesOnly(p, q, p.postOrder[b][k])
      && k < k' <= |q.postOrder[b]|
      && |q.postOrder[b]| - k' < |p.postOrder[b]| - k
  {
    var id := p.postOrder[b][k];
    var inst := p.insts[id];
    match o
    case Unchanged => KeepsRefl(p);
    case ReplaceUses(v) => ReplacedKeeps(p, id, v);
    case SetArgs(args) => RewrittenKeeps(p, id, inst.(args := args));
    case SetOpcode(op, args) => RewrittenKeeps(p, id, inst.(op := op, args := args));
    case EmitIMul32(a, c) => EmittedKeeps(p, b, k, a, c);
    case Fail(_) =>
  }

  /** A step changes no instruction but the one visited, apart from adding a
      fresh one, keeps everything `Keeps` keeps, and moves towards the end of
      the block. */
  lemma {:induction false} StepKeeps(rule: Rule, p: Program, b: nat, k: nat)
    requires RuleFits(rule) && WellFormed(p) && b < |p.postOrder| && k < |p.postOrder[b]|
    ensures Step(rule, p, b, k).Ok? ==>
      var (q, k') := Step(rule, p, b, k).value;
      && WellFormed(q) && Keeps(p, q) && ChangesOnly(p, q, p.postOrder[b][k])
      && k < k' <= |q.postOrder[b]|
      && |q.postOrder[b]| - k' < |p.postOrder[b]| - k
  {
    var id := p.postOrder[b][k];
    if id in p.repl {
      KeepsRefl(p);
    } else {
      ApplyKeeps(p, b, k, rule(p, p.insts[id]));
    }
  }

  /** The part of `StepKeeps` the driver needs to go on. */
  lemma {:induction false} StepAdvances(rule: Rule, p: Program, b: nat, k: nat)
    requires RuleFits(rule) && WellFormed(p) && b < |p.postOrder| && k < |p.postOrder[b]|
    ensures Step(rule, p, b, k).Ok? ==>
      var (q, k') := Step(rule, p, b, k).value;
      && WellFormed(q) && |q.postOrder| == |p.postOrder|
      && k < k' <= |q.postOrder[b]|
      && |q.postOrder[b]| - k' < |p.postOrder[b]| - k
  {
    StepKeeps(rule, p, b, k);
  }

  // ---------------------------------------------------------------------------
  // Blocks and the pass

  /** The rule applied to block `b` from position `k` to its end. */
  function RunBlock(rule: Rule, p: Program, b: nat, k: nat): (r: Result<Program>)
    requires RuleFits(rule) && WellFormed(p) && b < |p.postOrder| && k <= |p.postOrder[b]|
    ensures r.Ok? ==> WellFormed(r.value) && |r.value.postOrder| == |p.postOrder|
    decreases |p.postOrder[b]| - k
  {
    if k == |p.postOrder[b]| then Ok(p)
    else
      StepAdvances(rule, p, b, k);
      match Step(rule, p, b, k)
      case Err(f) => Err(f)
      case Ok((q, k')) => RunBlock(rule, q, b, k')
  }

  /** The rule applied to blocks `j - 1` down to `0` of the post-order. */
  function RunFrom(rule: Rule, p: Program, j: nat): (r: Result<Program>)
    requires RuleFits(rule) && WellFormed(p) && j <= |p.postOrder|
    ensures r.Ok? ==> WellFormed(r.value) && |r.value.postOrder| == |p.postOrder|
    decreases j
  {
    if j == 0 then Ok(p)
    else
      match RunBlock(rule, p, j - 1, 0)
      case Err(f) => Err(f)
      case Ok(q) => RunFrom(rule, q, j - 1)
  }

  lemma {:induction false} RunBlockKeeps(rule: Rule, p: Program, b: nat, k: nat)
    requires RuleFits(rule) && WellFormed(p) && b < |p.postOrder| && k <= |p.postOrder[b]|
    ensures RunBlock(rule, p, b, k).Ok? ==> Keeps(p, RunBlock(rule, p, b, k).value)
    decreases |p.postOrder[b]| - k
  {
    if k == |p.postOrder[b]| {
      KeepsRefl(p);
    } else {
      StepKeeps(rule, p, b, k);
      if Step(rule, p, b, k).Ok? {
        var (q, k') := Step(rule, p, b, k).value;
        RunBlockKeeps(rule, q, b, k');
        if RunBlock(rule, q, b, k').Ok? {
          KeepsTrans(p, q, RunBlock(rule, q, b, k').value);
        }
      }
    }
  }

  lemma {:induction false} RunFromKeeps(rule: Rule, p: Program, j: nat)
    requires RuleFits(rule) && WellFormed(p) && j <= |p.postOrder|
    ensures RunFrom(rule, p, j).Ok? ==> Keeps(p, RunFrom(rule, p, j).value)
    decreases j
  {
    if j == 0 {
      KeepsRefl(p);
    } else {
      var first := RunBlock(rule, p, j - 1, 0);
      if first.Ok? {
        var q := first.value;
        RunFromKeeps(rule, q, j - 1);
        if RunFrom(rule, q, j - 1).Ok? {
          RunBlockKeeps(rule, p, j - 1, 0);
          KeepsTrans(p, q, RunFrom(rule, q, j - 1).value);
        }
      }
    }
  }

  /** The driver with its two loops: blocks from the last of the post-order
      to the first, instructions of each block in order. */
  method RunPass(rule: Rule, p: Program) returns (r: Result<Program>)
    requires RuleFits(rule) && WellFormed(p)
    ensures r == RunFrom(rule, p, |p.postOrder|)
  {
    var q := p;
    var j: nat := |p.postOrder|;
    while j > 0
      invariant WellFormed(q) && j <= |q.postOrder|
      invariant RunFrom(rule, q, j) == RunFrom(rule, p, |p.postOrder|)
      decreases j
    {
      var cur := q;
      var k: nat := 0;
      while k < |cur.postOrder[j - 1]|
        invariant WellFormed(cur) && |cur.postOrder| == |q.postOrder|
        invariant k <= |cur.postOrder[j - 1]|
        invariant RunBlock(rule, cur, j - 1, k) == RunBlock(rule, q, j - 1, 0)
        decreases |cur.postOrder[j - 1]| - k
      {
        StepAdvances(rule, cur, j - 1, k);
        var s := Step(rule, cur, j - 1, k);
        if s.Err? {
          return Err(s.fault);
        }
        cur, k := s.value.0, s.value.1;
      }
      q := cur;
      j := j - 1;
    }
    return Ok(q);
  }

  // ---------------------------------------------------------------------------
  // A program the rule leaves alone

  /** Every instruction of every block is already replaced or left alone by
      the rule. */
  ghost predicate Settled(rule: Rule, p: Program)
    requires WellFormed(p)
  {
    forall b, k | 0 <= b < |p.postOrder| && 0 <= k < |p.postOrder[b]| ::
      || p.postOrder[b][k] in p.repl
      || (rule.requires(p, p.insts[p.postOrder[b][k]]) && rule(p, p.insts[p.postOrder[b][k]]) == Unchanged)
  }

  lemma {:induction false} RunBlockSettled(rule: Rule, p: Program, b: nat, k: nat)
    requires RuleFits(rule) && WellFormed(p) && Settled(rule, p)
    requires b < |p.postOrder| && k <= |p.postOrder[b]|
    ensures RunBlock(rule, p, b, k) == Ok(p)
    decreases |p.postOrder[b]| - k
  {
    if k < |p.postOrder[b]| {
      assert Step(rule, p, b, k) == Ok((p, k + 1));
      RunBlockSettled(rule, p, b, k + 1);
    }
  }

  lemma {:induction false} RunFromSettled(rule: Rule, p: Program, j: nat)
    requires RuleFits(rule) && WellFormed(p) && Settled(rule, p) && j <= |p.postOrder|
    ensures RunFrom(rule, p, j) == Ok(p)
    decreases j
  {
    if j > 0 {
      RunBlockSettled(rule, p, j - 1, 0);
      RunFromSettled(rule, p, j - 1);
    }
  }

  // ---------------------------------------------------------------------------
  // The pass

  /** The whole pass: every block, in reverse post-order, through `Fold`. */
  function PassSpec(p: Program): (r: Result<Program>)
    requires WellFormed(p)
    ensures r.Ok? ==> WellFormed(r.value) && |r.value.postOrder| == |p.postOrder|
  {
    FoldFits();
    RunFrom(Fold, p, |p.postOrder|)
  }

  /** `ConstantPropagationPass`. */
  method ConstantPropagationPass(p: Program) returns (r: Result<Program>)
    requires WellFormed(p)
    ensures r == PassSpec(p)
  {
    FoldFits();
    r := RunPass(Fold, p);
  }

  /** The pass never changes the block structure: the blocks keep their
      instructions in order, only fresh multiplications are added, and the
      only opcode it changes turns a float cast of a u32 constant-buffer read
      into a float read. */
  lemma {:induction false} PassKeeps(p: Program)
    requires WellFormed(p)
    ensures PassSpec(p).Ok? ==> Keeps(p, PassSpec(p).value)
  {
    FoldFits();
    RunFromKeeps(Fold, p, |p.postOrder|);
  }

  /** A program on which no rule fires is a fixed point of the pass. */
  lemma {:induction false} SettledIsFixedPoint(p: Program)
    requires WellFormed(p) && Settled(Fold, p)
    ensures PassSpec(p) == Ok(p)
  {
    FoldFits();
    RunFromSettled(Fold, p, |p.postOrder|);
  }
}
