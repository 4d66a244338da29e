/**
 The verifier evaluates the bytecode once, at the inner point followed by the last challenges, and
 corrects it by the others: this is the fingerprint of the instruction columns
 (crates/sub_protocols/src/logup.rs).
 */
module LogupBytecode {
  import opened Arith
  import opened Field
  import opened Multilinear
  import opened WhirConstraints
  import opened Sections
  import opened LogupParts

  /** The product of 1 - x over the challenges. */
  function Complements(xs: seq<Fe>): Fe { if xs == [] then 1 else Mul(Sub(1, xs[0]), Complements(xs[1..])) }

  lemma MulComplement(s: Fe, p: Fe)
    ensures Sub(s, Mul(s, p)) == Mul(s, Sub(1, p))
  {
    LiftSelf(s);
    LiftSelf(p);
    LiftSelf(1);
    LiftMul(s, p);
    LiftSub(s, s * p);
    LiftSub(1, p);
    LiftMul(s, 1 - p);
    assert s - s * p == s * (1 - p);
  }

  /** The first weights are those of the last challenges, scaled by the complements of the others. */
  lemma {:induction false} EqVecHead(head: seq<Fe>, tail: seq<Fe>, s: Fe)
    ensures Pow2(|tail|) <= Pow2(|head + tail|)
    ensures EqVec(head + tail, s)[..Pow2(|tail|)] == EqVec(tail, Mul(s, Complements(head)))
    decreases |head|
  {
    Pow2Monotone(|tail|, |head + tail|);
    if head == [] {
      assert head + tail == tail;
      MulOne(s);
    } else {
      assert (head + tail)[1..] == head[1..] + tail;
      EqVecHead(head[1..], tail, Sub(s, Mul(s, head[0])));
      MulComplement(s, head[0]);
      MulAssoc(s, Sub(1, head[0]), Complements(head[1..]));
      Pow2Monotone(|tail|, |head[1..] + tail|);
      var rest := EqVec(head[1..] + tail, Sub(s, Mul(s, head[0])));
      assert EqVec(head + tail, s)[..|rest|] == rest;
      assert EqVec(head + tail, s)[..Pow2(|tail|)] == rest[..Pow2(|tail|)];
    }
  }

  function AllColumns(inp: Input): (cols: seq<seq<Fe>>)
    requires InputFits(inp)
    ensures |cols| == BYTECODE_STRIDE && SameLength(cols, Pow2(inp.logBytecode))
  {
    seq(BYTECODE_STRIDE, k requires 0 <= k < BYTECODE_STRIDE => InstructionColumn(inp, k))
  }

  /** Row i of the bytecode is block i of its flat form. */
  lemma RowIsBlock(inp: Input, i: nat)
    requires InputFits(inp) && i < Pow2(inp.logBytecode)
    ensures 0 <= i * BYTECODE_STRIDE <= (i + 1) * BYTECODE_STRIDE <= |inp.bytecode|
    ensures Row(AllColumns(inp), i) == inp.bytecode[i * BYTECODE_STRIDE..(i + 1) * BYTECODE_STRIDE]
  {
    BytecodeLength(inp.logBytecode);
    BlockBounds(i, Pow2(inp.logBytecode), BYTECODE_STRIDE);
    var l, r := Row(AllColumns(inp), i), inp.bytecode[i * BYTECODE_STRIDE..(i + 1) * BYTECODE_STRIDE];
    forall k | 0 <= k < BYTECODE_STRIDE ensures l[k] == r[k] {
      assert l[k] == InstructionColumn(inp, k)[i] == inp.bytecode[BytecodeCell(i, k)];
    }
  }

  function Tail(inp: Input): seq<Fe>
    requires |inp.alphas| >= 4
  {
    inp.alphas[|inp.alphas| - 4..]
  }

  function Head(inp: Input): seq<Fe>
    requires |inp.alphas| >= 4
  {
    inp.alphas[..|inp.alphas| - 4]
  }

  lemma FirstWeights(inp: Input)
    requires |inp.alphas| >= 4
    ensures |AlphasEq(inp)| >= 16 && |EqVec(Tail(inp), 1)| == 16
    ensures IsScaled(Complements(Head(inp)), EqVec(Tail(inp), 1), AlphasEq(inp)[..16])
  {
    AlphasLong(inp);
    assert Pow2(4) == 16;
    assert Head(inp) + Tail(inp) == inp.alphas;
    EqVecHead(Head(inp), Tail(inp), 1);
    MulOne(Complements(Head(inp)));
    EqVecScaled(Tail(inp), Complements(Head(inp)), 1);
  }

  /** Scaling the bytecode's value scales every row's weighted sum. */
  lemma WeightedRows(inp: Input)
    requires InputFits(inp)
    ensures |AlphasEq(inp)| >= 16
    ensures IsScaled(Complements(Head(inp)), EvalBlocks(inp.bytecode, inp.logBytecode, Tail(inp)),
                     DotRows(AlphasEq(inp)[..16], AllColumns(inp), Pow2(inp.logBytecode)))
  {
    FirstWeights(inp);
    hide AlphasEq, AllColumns, EqVec, EvalBlocks, InputFits, Complements;
    var w, e := AlphasEq(inp)[..16], EqVec(Tail(inp), 1);
    var rows, blocks := DotRows(w, AllColumns(inp), Pow2(inp.logBytecode)), EvalBlocks(inp.bytecode, inp.logBytecode, Tail(inp));
    forall i | 0 <= i < Pow2(inp.logBytecode) ensures rows[i] == Mul(Complements(Head(inp)), blocks[i]) {
      RowIsBlock(inp, i);
      assert Pow2(4) == 16;
      EvalBlocksAt(inp.bytecode, inp.logBytecode, Tail(inp), i, 16);
      var block := inp.bytecode[i * BYTECODE_STRIDE..(i + 1) * BYTECODE_STRIDE];
      MleIsDot(block, Tail(inp));
      DotScaled(Complements(Head(inp)), block, e, w);
      DotCommute(w, block);
    }
  }

  lemma PaddingColumnsVanish(inp: Input, z: seq<Fe>)
    requires InputFits(inp) && |z| == inp.logBytecode
    ensures forall k {:trigger Evaluations(AllColumns(inp), z)[12..][k]} | 0 <= k < 4 :: Evaluations(AllColumns(inp), z)[12..][k] == 0
  {
    BytecodeLength(inp.logBytecode);
    forall k {:trigger Evaluations(AllColumns(inp), z)[12..][k]} | 0 <= k < 4 ensures Evaluations(AllColumns(inp), z)[12..][k] == 0 {
      CellsBelow(Pow2(inp.logBytecode), k + 12);
      var col := InstructionColumn(inp, k + 12);
      forall i {:trigger col[i]} | 0 <= i < |col| ensures col[i] == 0 {
        assert col[i] == inp.bytecode[BytecodeCell(i, k + 12)];
      }
      MleConstant(col, z, 0);
    }
  }

  lemma DropPadding(inp: Input, z: seq<Fe>)
    requires InputFits(inp) && |z| == inp.logBytecode && |AlphasEq(inp)| >= 16
    ensures Dot(AlphasEq(inp)[..16], Evaluations(AllColumns(inp), z)) == Dot(AlphasEq(inp)[..12], Evaluations(AllColumns(inp), z)[..12])
  {
    PaddingColumnsVanish(inp, z);
    hide Mle, EqVec, AllColumns, AlphasEq, InputFits;
    var w, evals := AlphasEq(inp)[..16], Evaluations(AllColumns(inp), z);
    DotSplit(w, evals, 12);
    DotCommute(w[12..], evals[12..]);
    DotZero(evals[12..], w[12..]);
    AddZero(Dot(w[..12], evals[..12]));
    assert w[..12] == AlphasEq(inp)[..12];
  }

  /** bytecode_value_corrected is the weighted sum of the instruction columns' evaluations. */
  lemma CorrectedValue(inp: Input, z: seq<Fe>)
    requires InputFits(inp) && |z| == inp.logBytecode
    ensures |AlphasEq(inp)| >= 16 && |z + Tail(inp)| == inp.logBytecode + 4
    ensures Mul(Mle(inp.bytecode, z + Tail(inp)), Complements(Head(inp))) == Dot(AlphasEq(inp)[..12], Evaluations(AllColumns(inp), z)[..12])
  {
    WeightedRows(inp);
    DropPadding(inp, z);
    MleSplit(inp.bytecode, z, Tail(inp));
    hide Mle, EqVec, EvalBlocks, AllColumns, AlphasEq, InputFits, Evaluations, DotRows;
    var blocks := EvalBlocks(inp.bytecode, inp.logBytecode, Tail(inp));
    var w := AlphasEq(inp)[..16];
    MleScaled(Complements(Head(inp)), blocks, DotRows(w, AllColumns(inp), Pow2(inp.logBytecode)), z);
    MulComm(Complements(Head(inp)), Mle(blocks, z));
    DotRowsEvaluate(w, AllColumns(inp), z);
  }

  /** The verifier's denominator term of the bytecode section. */
  function BytecodeTerm(c: Fe, alphas: seq<Fe>, bytecode: seq<Fe>, log: nat, z: seq<Fe>): Fe
    requires |alphas| >= 4 && |z| == log && |bytecode| == Pow2(log + 4)
  {
    var eq := EqVec(alphas, 1);
    var corrected := Mul(Mle(bytecode, z + alphas[|alphas| - 4..]), Complements(alphas[..|alphas| - 4]));
    Pow2Monotone(4, |alphas|);
    assert Pow2(4) == 16;
    Sub(c, Add(Add(corrected, Mul(MleOf01234567(z), eq[N_INSTRUCTION_COLUMNS])), Mul(eq[|eq| - 1], LOGUP_BYTECODE_DOMAINSEP)))
  }

  lemma BytecodeAgrees(inp: Input, z: seq<Fe>)
    requires InputFits(inp) && |z| == inp.logBytecode
    ensures Mle(BytecodePart(inp).num, z) == Neg(Mle(inp.bytecodeAcc, z))
    ensures Mle(BytecodePart(inp).den, z) == BytecodeTerm(inp.c, inp.alphas, inp.bytecode, inp.logBytecode, z)
  {
    AlphasLong(inp);
    hide Mle, EqVec, AllColumns;
    MinusEvaluates(0, inp.bytecodeAcc, z);
    CorrectedValue(inp, z);
    var eq, size := AlphasEq(inp), Pow2(inp.logBytecode);
    var ds, cols := Repeated(LOGUP_BYTECODE_DOMAINSEP, size), InstructionColumns(inp);
    MinusEvaluates(inp.c, FingerRows(ds, cols, eq), z);
    FingerEvaluates(ds, cols, eq, z);
    MleConstant(ds, z, LOGUP_BYTECODE_DOMAINSEP);
    IndicesEvaluate(z);
    InstructionEvaluations(inp, z);
    var evals := Evaluations(cols, z);
    DotSplit(eq[..13], evals, 12);
    assert eq[..13][..12] == eq[..12] && eq[..13][12..] == [eq[12]];
    assert evals[12..] == [MleOf01234567(z)];
    LastProduct(eq[12], MleOf01234567(z));
  }

  lemma LastProduct(a: Fe, b: Fe)
    ensures Dot([a], [b]) == Mul(b, a)
  {
    assert [a][1..] == [] && [b][1..] == [];
    AddZero(Mul(a, b));
    MulComm(a, b);
  }

  lemma InstructionEvaluations(inp: Input, z: seq<Fe>)
    requires InputFits(inp) && |z| == inp.logBytecode
    ensures Evaluations(InstructionColumns(inp), z)[..12] == Evaluations(AllColumns(inp), z)[..12]
    ensures Evaluations(InstructionColumns(inp), z)[12] == Mle(Indices(Pow2(inp.logBytecode)), z)
  {
    hide Mle;
    var l, r := Evaluations(InstructionColumns(inp), z), Evaluations(AllColumns(inp), z);
    forall k | 0 <= k < 12 ensures l[k] == r[k] {
      assert InstructionColumns(inp)[k] == InstructionColumn(inp, k);
    }
  }
}
