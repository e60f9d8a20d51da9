# Constant propagation over the shader IR

This project models yuzu's shader-recompiler constant-propagation pass
(`src/shader_recompiler/ir_opt/constant_propagation_pass.cpp`) and proves
that it keeps the value of everything a shader computes.

The model has four parts.

- **The IR** (`ir.dfy`, module `IR`). An instruction has an opcode, argument
  values, a pseudo-operation flag and the no-contraction flag. A value is an
  immediate or a reference to an instruction. A program maps instruction
  identifiers to instructions and lists each block's instructions, blocks in
  post-order.
  - `Inst::ReplaceUsesWith` turns the instruction into an `Identity` of the new
    value. The model records this in a substitution map `repl`.
  - `Value::Resolve` follows that map and `Identity` instructions alike.
  - `InstRecursive` is `Producer`.
  - Typed reads of immediates (`U1()`, `U32()`, `Reg()`, ...) return `Err` for
    the wrong tag.
- **The folding rules** (`folds.dfy`, module `Folds`). There is one function per
  `Fold*` routine, and `Fold` is the dispatcher `ConstantPropagation`. Each rule
  returns an `Outcome`, one of:
  - leave the instruction alone;
  - replace its uses with a value;
  - set its arguments;
  - set its opcode;
  - emit a 32-bit multiply before it and redirect its uses there (the XMAD idiom);
  - fail (`Fault`): an undefined bit field raises `LogicError`, a typed read
    meets the wrong tag, or the C++ has no defined value.

  u32/u64 arithmetic wraps explicitly (`arith.dfy`, module `Arith`).
- **The driver** (`pass.dfy`, module `Pass`). `ConstantPropagationPass` walks
  blocks in reverse post-order and instructions in program order, applying the
  dispatcher. `PassKeeps` shows what the pass keeps:
  - blocks and the old instructions keep their order;
  - the only new instructions are multiplies;
  - an opcode changes only from a float cast of a u32 constant-buffer read to a
    float read;
  - substitutions persist.
- **Meaning and soundness** (`semantics.dfy`, `soundness.dfy`,
  `int_soundness.dfy`, `refinement.dfy`).
  - `Eval` gives each value its value under an environment: registers,
    predicates, constant buffer and attributes are parameters. It takes fuel.
  - Every rule is proved *locally sound*: what the outcome puts in place of an
    instruction has the instruction's value.
  - `Refinement.PassRefines` lifts this to the whole pass. Every value the input
    program defines is unchanged in the output program.

`findings.dfy` holds a concrete program on which the `ISub32` rule, as
written, replaces a subtraction with a different value (see Findings).

## Model

| member | source | states |
|---|---|---|
| Folds.FoldWhenAllImmediates | src/shader_recompiler/ir_opt/constant_propagation_pass.cpp:83-90 | the instruction is folded exactly when every argument is an immediate and no pseudo-operation hangs off it. A fold is an immediate result or a fault. Apart from the bit-field extractions, the only fault is a wrong tag on one of the first two operands |
| IntSoundness.ImmediatesAgrees | src/shader_recompiler/ir_opt/constant_propagation_pass.cpp:350-354 | when all operands are immediates, the folded immediate is the value the instruction computes |
| IntSoundness.CompareImmediates | src/shader_recompiler/ir_opt/constant_propagation_pass.cpp:452-481 | folding the ten comparisons reads s32 operands for the signed ones and u32 for the others, and gives the comparison's value |
| Arith.UExtractAsWritten | src/shader_recompiler/ir_opt/constant_propagation_pass.cpp:482-490 | `(base >> shift) & ((1 << count) - 1)` in u32 is the field of `count` bits of `base` starting at bit `shift` |
| Arith.SExtractAsWritten | src/shader_recompiler/ir_opt/constant_propagation_pass.cpp:491-502 | the left shift, then the arithmetic right shift in s32, is the same field sign-extended from `count` bits, wrapped to 32 bits |
| IntSoundness.ExtractImmediates | src/shader_recompiler/ir_opt/constant_propagation_pass.cpp:482-502 | the folded bit-field extraction equals the reference extraction whenever the folder does not raise the error for `shift + count > 32` |
| Folds.ExtractFolds | src/shader_recompiler/ir_opt/constant_propagation_pass.cpp:482-502 | with three u32 immediates, `shift + count > 32` raises the logic error for both extractions; otherwise the fold is the `count`-bit field at `shift`, zero-extended or sign-extended. The unsigned shifts by the full width (`count == 32`, or `shift == 32` with `count == 0`) have no defined value |
| Folds.ComparisonsFold | src/shader_recompiler/ir_opt/constant_propagation_pass.cpp:452-481 | the ten comparisons of two u32 immediates always fold to the comparison's truth value. The unsigned ones and the equalities compare the values; the signed ones use the two's-complement order, where a pattern with the top bit set is below one without it |
| Folds.FoldCommutative | src/shader_recompiler/ir_opt/constant_propagation_pass.cpp:47-80 | two immediates always fold. A fold that does not fail needs two immediates, and one that fails needs at least one. When one operand is an immediate, the immediate ends up in the second slot. `x op c` with `x` having no constant to merge keeps its arguments, and with no immediate the arguments are untouched. Other arguments are kept |
| Folds.ConstantMovesRight | src/shader_recompiler/ir_opt/constant_propagation_pass.cpp:59-70 | `c op x` becomes `x op c` when `x` is not a same-opcode instruction with an immediate second operand |
| Folds.ConstantsMerge | src/shader_recompiler/ir_opt/constant_propagation_pass.cpp:59-78 | `c1 op (x op c2)` and `(x op c2) op c1` both become `x op (c1 op c2)` |
| IntSoundness.CommutativeAgrees | src/shader_recompiler/ir_opt/constant_propagation_pass.cpp:47-80 | a fold of two immediates has the instruction's value; moving the immediate to the right and merging it into a same-opcode operand keeps the value (by commutativity and regrouping) |
| Folds.FoldGetRegister | src/shader_recompiler/ir_opt/constant_propagation_pass.cpp:92-96 | a register read is replaced, and then by u32 zero, exactly when the register is RZ. It fails exactly when the operand is not a register immediate. Any other register is left alone |
| Soundness.GetRegisterSound | src/shader_recompiler/ir_opt/constant_propagation_pass.cpp:92-96 | replacing a read of RZ by zero keeps its value |
| Folds.FoldGetPred | src/shader_recompiler/ir_opt/constant_propagation_pass.cpp:98-102 | a predicate read is replaced, and then by true, exactly when the predicate is PT. It fails exactly when the operand is not a predicate immediate. Any other predicate is left alone |
| Soundness.GetPredSound | src/shader_recompiler/ir_opt/constant_propagation_pass.cpp:98-102 | replacing a read of PT by true keeps its value |
| Folds.FoldXmadMultiply | src/shader_recompiler/ir_opt/constant_propagation_pass.cpp:105-166 | a match is only reported for the exact six-instruction shape. The shape is `(BFE(a,16,16) * b) << 16` plus `BFE(a,0,16) * b`, with the shared factors compared after resolution |
| Folds.XmadFound | src/shader_recompiler/ir_opt/constant_propagation_pass.cpp:105-166 | the converse: every instance of the exact six-instruction shape is reported as a match |
| Arith.XmadProduct | src/shader_recompiler/ir_opt/constant_propagation_pass.cpp:105-118 | the high 16-bit half of `a` times `b`, shifted left by 16, plus the low half times `b`, is `a * b` modulo 2^32 |
| IntSoundness.XmadAgrees | src/shader_recompiler/ir_opt/constant_propagation_pass.cpp:105-166 | when the XMAD shape is found, the emitted `IMul32` of the two shared factors has the value of the add it replaces |
| Folds.FoldAdd | src/shader_recompiler/ir_opt/constant_propagation_pass.cpp:169-186 | an add with a pseudo-operation is left alone. The opcode never changes. A multiply is emitted only for a 32-bit add matching the XMAD shape. A failure needs an immediate operand. An add of two non-immediates is left alone unless it is a 32-bit XMAD match |
| Folds.AddOfImmediates | src/shader_recompiler/ir_opt/constant_propagation_pass.cpp:169-175 | two u32 immediates fold to their sum modulo 2^32, two u64 immediates to their sum modulo 2^64 |
| Folds.AddOfZero | src/shader_recompiler/ir_opt/constant_propagation_pass.cpp:176-179 | adding an immediate zero, on either side, to a non-immediate that cannot be merged replaces the add by that operand |
| Folds.AddOfNonzero | src/shader_recompiler/ir_opt/constant_propagation_pass.cpp:173-186 | a non-zero immediate is only moved to the right of a non-immediate that cannot be merged: `x + c` is left alone, `c + x` becomes `x + c` |
| IntSoundness.AddAgrees | src/shader_recompiler/ir_opt/constant_propagation_pass.cpp:169-186 | every outcome of the add rule, including the zero elision and the XMAD multiply, keeps the add's value |
| Folds.FoldISub32AsWritten | src/shader_recompiler/ir_opt/constant_propagation_pass.cpp:188-233 | the subtraction rule with the operand swap as written. It only leaves the instruction, replaces it, or fails, and it fails only on immediates with a wrong tag. One immediate operand leaves it alone. Two non-immediates are left alone unless they read the same word, or one is an add and the other a u32 constant-buffer read, on either side |
| Folds.SubtractAddedReadAsWritten | src/shader_recompiler/ir_opt/constant_propagation_pass.cpp:208-232 | the rule as written folds both `(x + cbuf) - cbuf` and `cbuf - (x + cbuf)` to `x`, for any `x`; the corrected rule leaves the second alone |
| Folds.FoldISub32 | src/shader_recompiler/ir_opt/constant_propagation_pass.cpp:188-233 | the corrected rule. It fails only on immediates with a wrong tag. One immediate operand leaves it alone. A subtraction of non-immediates is replaced only by zero (same constant-buffer word on both sides) or when the minuend is an add. It is left alone unless it reads the same word twice, or subtracts a u32 constant-buffer read from an add |
| Folds.SubOfImmediates | src/shader_recompiler/ir_opt/constant_propagation_pass.cpp:188-190 | two u32 immediates fold to their difference wrapped to 32 bits, in both variants of the rule |
| Folds.SubtractSameRead | src/shader_recompiler/ir_opt/constant_propagation_pass.cpp:196-207 | two reads of the same constant-buffer slot and offset subtract to zero, in the rule as written and in the corrected one |
| Folds.SubtractAddedRead | src/shader_recompiler/ir_opt/constant_propagation_pass.cpp:208-232 | `(x + cbuf) - cbuf` folds to `x`; with the read first in the add, only when `x` is an immediate |
| IntSoundness.CancelAgrees | src/shader_recompiler/ir_opt/constant_propagation_pass.cpp:215-232 | `(x + cbuf) - cbuf`, with the add's operands in either order, has the value of `x` |
| IntSoundness.ISub32Agrees | src/shader_recompiler/ir_opt/constant_propagation_pass.cpp:188-233 | every outcome of the corrected subtraction rule keeps the subtraction's value |
| Folds.FoldSelect | src/shader_recompiler/ir_opt/constant_propagation_pass.cpp:235-240 | an immediate true condition selects the second argument and false the third; a non-immediate condition leaves the select alone |
| Soundness.SelectSound | src/shader_recompiler/ir_opt/constant_propagation_pass.cpp:235-240 | replacing a select on an immediate condition by the chosen argument keeps its value |
| Folds.FoldFPMul32 | src/shader_recompiler/ir_opt/constant_propagation_pass.cpp:242-273 | a no-contraction multiply is left alone, and so is any multiply that is not `FPMul32(x, m) * FPRecip32(r)`. A replacement needs that shape, where `r` and `m` read the same attribute, and gives `x`. It fails only when one of the two reads is an attribute read whose operand is not an attribute immediate |
| Folds.FPMulOfReciprocal | src/shader_recompiler/ir_opt/constant_propagation_pass.cpp:259-271 | the converse: with contraction allowed and both reads attribute reads, the multiply becomes `x` when they name the same attribute and stays when they differ |
| Folds.LogicalWithConstant | src/shader_recompiler/ir_opt/constant_propagation_pass.cpp:275-301 | with an immediate on either side: `x && true` is `x`, `x && false` is false, `x \|\| true` is true, `x \|\| false` is `x` |
| Folds.FoldLogicalAnd | src/shader_recompiler/ir_opt/constant_propagation_pass.cpp:275-287 | a logical and fails only with an immediate operand, and an and of two non-immediates is left alone |
| Folds.FoldLogicalOr | src/shader_recompiler/ir_opt/constant_propagation_pass.cpp:289-301 | a logical or fails only with an immediate operand, and an or of two non-immediates is left alone |
| IntSoundness.LogicalAgrees | src/shader_recompiler/ir_opt/constant_propagation_pass.cpp:275-301 | every outcome of the `LogicalAnd` and `LogicalOr` rules keeps the instruction's value |
| Folds.FoldLogicalNot | src/shader_recompiler/ir_opt/constant_propagation_pass.cpp:303-313 | the negation of an immediate becomes the negated immediate, and a double negation becomes the inner operand. It fails exactly on an immediate that is not a boolean. Any other operand is left alone |
| Soundness.LogicalNotAgrees | src/shader_recompiler/ir_opt/constant_propagation_pass.cpp:303-313 | both rewrites of a negation keep its value |
| Folds.FoldBitCast | src/shader_recompiler/ir_opt/constant_propagation_pass.cpp:316-336 | an immediate is reinterpreted (a wrong tag fails); a cast of the reverse cast becomes the original value; a float cast of a u32 constant-buffer read becomes a float read of the same slot and offset, and that is the only opcode change. It fails only on an immediate, and a cast of any other non-immediate is left alone |
| Soundness.BitCastAgrees | src/shader_recompiler/ir_opt/constant_propagation_pass.cpp:316-336 | cancelling a cast pair and reading the constant buffer as a float both keep the cast's value |
| Soundness.CastOfCbufRead | src/shader_recompiler/ir_opt/constant_propagation_pass.cpp:327-334 | a float read of the same constant-buffer word has the value of the cast of its u32 read |
| Folds.FoldInverseFunc | src/shader_recompiler/ir_opt/constant_propagation_pass.cpp:338-348 | the instruction is replaced exactly when its operand is produced by the inverse operation, and then by that operation's operand |
| Folds.FoldBranchConditional | src/shader_recompiler/ir_opt/constant_propagation_pass.cpp:356-372 | the arguments change exactly when the condition is a negation. The condition becomes the negated operand and the two targets swap |
| Soundness.BranchConditionalAgrees | src/shader_recompiler/ir_opt/constant_propagation_pass.cpp:356-372 | branching on `x` to swapped targets takes the same target as branching on `!x` |
| Folds.ExtractOfConstruct | src/shader_recompiler/ir_opt/constant_propagation_pass.cpp:374-379 | extracting lane `i` of a construct gives its argument `i`; an index past the lanes is undefined behaviour |
| Folds.ExtractOfInsert | src/shader_recompiler/ir_opt/constant_propagation_pass.cpp:383-395 | extracting the lane an insert wrote gives the inserted value, whatever the base composite |
| Soundness.ExtractChaseEval | src/shader_recompiler/ir_opt/constant_propagation_pass.cpp:374-396 | what the chase through inserts down to a construct finds has the value of the requested lane |
| Folds.ExtractGivesUp | src/shader_recompiler/ir_opt/constant_propagation_pass.cpp:374-396 | the extract stays when the composite comes from neither a construct nor an insert of its vector type, or from an insert with a non-immediate lane index |
| Soundness.CompositeExtractAgrees | src/shader_recompiler/ir_opt/constant_propagation_pass.cpp:398-413 | replacing an extract by the chased value keeps its value |
| Folds.Fold | src/shader_recompiler/ir_opt/constant_propagation_pass.cpp:415-526 | the dispatcher leaves every opcode without a rule alone, among them `GetCbufF32`, `GetAttribute`, `ShiftLeftLogical32` and `FPRecip32`. It sets as many arguments as there were. It changes an opcode only from a float cast to a float constant-buffer read, and emits a multiply only for a 32-bit add |
| Refinement.FoldLocallySound | src/shader_recompiler/ir_opt/constant_propagation_pass.cpp:415-526 | whatever rule the dispatcher picks, its outcome keeps the value of the instruction |
| Pass.RunPass | src/shader_recompiler/ir_opt/constant_propagation_pass.cpp:529-535 | the two nested loops compute the run of the rule over every block in reverse post-order |
| Pass.ConstantPropagationPass | src/shader_recompiler/ir_opt/constant_propagation_pass.cpp:529-535 | the pass computes `PassSpec`, which keeps the program well formed with its blocks |
| Pass.PassKeeps | src/shader_recompiler/ir_opt/constant_propagation_pass.cpp:529-535 | the pass keeps block order and old instructions, adds only multiplies, changes only the cbuf cast opcode, and never undoes a replacement |
| Pass.StepKeeps | src/shader_recompiler/ir_opt/constant_propagation_pass.cpp:531-532 | one visit changes only the visited instruction, and the walk moves past it and any instruction emitted before it |
| Pass.SettledIsFixedPoint | src/shader_recompiler/ir_opt/constant_propagation_pass.cpp:529-535 | on a program where the dispatcher leaves every instruction alone, the pass returns the program itself |
| Refinement.RunFromRefines | src/shader_recompiler/ir_opt/constant_propagation_pass.cpp:530-534 | running any locally sound rule over the blocks keeps the value of everything that has one |
| Refinement.PassRefines | src/shader_recompiler/ir_opt/constant_propagation_pass.cpp:529-535 | whenever the pass completes, every value of the input program has the same value in the output program |
| Findings.SubtrahendSumMisfolded | src/shader_recompiler/ir_opt/constant_propagation_pass.cpp:209-212 | on `cbuf - (R0 + cbuf)` the rule as written replaces the subtraction by `R0`, an outcome that is not sound, while the corrected rule leaves it alone |

## Left out

- Floating point. `FPMul32`, `FPRecip32`, `PackHalf2x16` and `UnpackHalf2x16` have no value in `Eval`. Float immediates are bit patterns, and the two bit casts are the identity on bits.
- Soundness.FloatRulesSound: the soundness of the float multiply and pack/unpack rules holds vacuously, because IEEE arithmetic is not modelled.
- `LambdaTraits` and the `EvalImmediates` template are written out per opcode: each folded opcode names its operand types.
- `Inst::ReplaceUsesWith`, `Value::Resolve`, `InstRecursive` and the typed immediate reads are in `value.cpp` and `microinstruction.cpp`, which are not part of this model. Their behaviour is modelled as described above. A read of an immediate with another tag stops with `WrongImmediateType`.
- Use lists and the removal of dead instructions: uses are redirected through the substitution map, and nothing is removed.
- The `IREmitter` inserts the new multiply just before the add. The model inserts a fresh identifier at that position in the block.
- Resolution and the composite-extract chase stop after `nextId` steps. Only a cyclic chain, which well-formed IR does not have, reaches the bound. The source would then recurse forever; the model gives up.
- Evaluation uses fuel. Refinement is stated for the same fuel in both programs.
- C++ expressions without a defined value stop the pass with `UndefinedBehaviour`:
  - a shift by 32 in the unsigned immediate extraction (`1U << 32` for `count == 32`, and `base >> 32` for `shift == 32`, `count == 0`);
  - a signed shift by the full width (`count == 0` in the sign-extending extraction);
  - a construct index past its lanes.
- The `LogicError` for `shift + count > 32` stops the pass with `UndefinedBitField`. No exception handling is modelled.
- A reference to an instruction that does not exist is treated like a value with no producer: no rule matches it.
- The traversal of `post_order_blocks` is modelled on a list of identifiers per block. Control flow between blocks plays no part in the pass.
- The subtraction rule used by the pass is the code's rule without the operand swap described under Findings. The swapped fold changes the value of the subtraction.

## Findings

| source | as written | input that shows it | evidently intended | confidence | as-written member | corrected member |
|---|---|---|---|---|---|---|
| src/shader_recompiler/ir_opt/constant_propagation_pass.cpp:209-212 | when the subtrahend is an `IAdd32`, the operands are swapped, and `cbuf - (x + cbuf)` is folded to `x` | `cbuf - (R0 + cbuf)` with `R0 = 7` and the cbuf word `5`: the subtraction is `0xFFFFFFF9`, the fold gives `7` | only `(x + cbuf) - cbuf` folds to `x`; with the add as subtrahend the value is `-x`, so no fold | not executed | Findings.SubtrahendSumMisfolded | IntSoundness.ISub32Sound |
