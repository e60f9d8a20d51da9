/** A discrepancy between the subtraction fold as written and the identity
    it is meant to apply.

    The fold is documented as `(X + cbuf) - cbuf => X`. As written, it also
    exchanges the two operands when the SUBTRAHEND is the add, so it folds
    `cbuf - (X + cbuf)` to `X` as well, although that difference is `-X`.
    The program below has the shape
        %1 = GetCbufU32 #0, #0
        %2 = GetRegister R0
        %3 = IAdd32 %2, %1
        %4 = ISub32 %1, %3
    and with `R0 = 7` and the word equal to 5, `%4` is `5 - 12`, while the
    fold as written makes its uses read `%2`, which is 7.
 */
module Findings {
  import opened Arith
  import opened IR
  import opened Folds
  import opened Semantics
  import opened Soundness
  import opened IntSoundness

  function CbufMinusSum(): Program {
    Program(
      map[1 := Inst(GetCbufU32, [Imm(U32(0)), Imm(U32(0))], false, false),
          2 := Inst(GetRegister, [Imm(RegImm(R(0)))], false, false),
          3 := Inst(IAdd32, [Ref(2), Ref(1)], false, false),
          4 := Inst(ISub32, [Ref(1), Ref(3)], false, false)],
      map[],
      [[1, 2, 3, 4]],
      5)
  }

  /** `R0 = 7` and every constant-buffer word is 5. */
  function SevenAndFive(): Env {
    Env(_ => 7, _ => false, (_, _) => 5, _ => 0)
  }

  /** Every operand of the program names an instruction that produces it. */
  lemma {:induction false} CbufMinusSumProducers()
    ensures WellFormed(CbufMinusSum())
    ensures Producer(CbufMinusSum(), Ref(1)) == Some(CbufMinusSum().insts[1])
    ensures Producer(CbufMinusSum(), Ref(2)) == Some(CbufMinusSum().insts[2])
    ensures Producer(CbufMinusSum(), Ref(3)) == Some(CbufMinusSum().insts[3])
  {
    var p := CbufMinusSum();
    assert Resolve(p, Ref(1)) == Ref(1) && Resolve(p, Ref(2)) == Ref(2) && Resolve(p, Ref(3)) == Ref(3);
  }

  /** The fold as written cancels the read against the subtrahend's add;
      the corrected fold does not. */
  lemma {:induction false} CbufMinusSumFolds()
    ensures FoldISub32AsWritten(CbufMinusSum(), CbufMinusSum().insts[4]) == ReplaceUses(Ref(2))
    ensures FoldISub32(CbufMinusSum(), CbufMinusSum().insts[4]) == Unchanged
  {
    CbufMinusSumProducers();
    var p := CbufMinusSum();
    assert p.insts[4].args[0] == Ref(1) && !IsImmediate(p, Ref(1)) && !IsImmediate(p, Ref(3));
  }

  /** With `R0 = 7` and the word 5, `%2` is 7 and `%4` is `5 - 12`. */
  lemma {:induction false} CbufMinusSumValues()
    ensures EvalInst(CbufMinusSum(), SevenAndFive(), CbufMinusSum().insts[4], 2) == Some(Scalar(U32(0xFFFF_FFF9)))
    ensures Eval(CbufMinusSum(), SevenAndFive(), Ref(2), 2) == Some(Scalar(U32(7)))
  {
    var p, env := CbufMinusSum(), SevenAndFive();
    assert Eval(p, env, Ref(2), 1) == Some(Scalar(U32(7)));
    assert Eval(p, env, Ref(1), 1) == Some(Scalar(U32(5)));
    assert Eval(p, env, Ref(3), 2) == Some(Scalar(U32(12)));
    assert Eval(p, env, Ref(1), 2) == Some(Scalar(U32(5)));
    EvalInstFromArgs(p, env, p.insts[4], 2, [Scalar(U32(5)), Scalar(U32(12))]);
    assert SubU32(5, 12) == 0xFFFF_FFF9;
    assert Eval(p, env, Ref(2), 2) == Some(Scalar(U32(7)));
  }

  /** The fold as written replaces `cbuf - (X + cbuf)` by `X`, which has
      another value, so it is not locally sound; the corrected fold leaves
      the subtraction alone. */
  lemma {:induction false} SubtrahendSumMisfolded()
    ensures WellFormed(CbufMinusSum())
    ensures FoldISub32AsWritten(CbufMinusSum(), CbufMinusSum().insts[4]) == ReplaceUses(Ref(2))
    ensures !LocallySound(CbufMinusSum(), CbufMinusSum().insts[4], FoldISub32AsWritten(CbufMinusSum(), CbufMinusSum().insts[4]))
    ensures FoldISub32(CbufMinusSum(), CbufMinusSum().insts[4]) == Unchanged
  {
    CbufMinusSumProducers();
    CbufMinusSumFolds();
    CbufMinusSumValues();
    var p, env := CbufMinusSum(), SevenAndFive();
    assert !Agrees(p, env, p.insts[4], ReplaceUses(Ref(2)), 2, Scalar(U32(0xFFFF_FFF9)));
  }
}
