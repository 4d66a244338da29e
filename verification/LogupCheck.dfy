/** The logup verifier, run on the prover's values (verify_generic_logup, crates/sub_protocols/src/logup.rs). */
module LogupCheck {
  import opened Arith
  import opened Sequences
  import opened Field
  import opened Multilinear
  import opened StorageLayout
  import opened WhirConstraints
  import opened Sections
  import opened LogupParts
  import opened Logup
  import opened LogupVerify
  import opened LogupBytecode

  function MaxLog(a: nat, b: nat): nat { if a >= b then a else b }

  /** Sizes the verifier has checked, and claims of the right shape. */
  ghost predicate WellShaped(pub: Public, lc: LogupClaims, y: seq<Fe>) {
    && pub.tables != [] && |lc.tables| == |pub.tables| && |pub.alphas| >= 4
    && pub.logMemory <= |y| && pub.logBytecode <= |y| && |pub.bytecode| == Pow2(pub.logBytecode + 4)
    && (forall j {:trigger pub.tables[j]} | 0 <= j < |pub.tables| :: pub.tables[j].log <= |y|)
    && (forall j {:trigger lc.tables[j]} | 0 <= j < |lc.tables| :: |lc.tables[j].instruction| <= N_INSTRUCTION_COLUMNS)
    && ShapesEnd(pub.tables, lc.tables, TablesStart(pub)) <= Pow2(|y|)
  }

  function PaddedLog(pub: Public): nat
    requires pub.tables != []
  {
    MaxLog(pub.logBytecode, pub.tables[0].log)
  }

  function TablesStart(pub: Public): nat
    requires pub.tables != []
  {
    Pow2(pub.logMemory) + Pow2(PaddedLog(pub))
  }

  function MemoryTerm(pub: Public, lc: LogupClaims, y: seq<Fe>): Claim
    requires pub.logMemory <= |y| && |pub.alphas| >= 4
  {
    EqLong(pub.alphas);
    Claim(0, pub.logMemory, Neg(lc.memoryAcc),
          Sub(pub.c, FingerPrint(LOGUP_MEMORY_DOMAINSEP, [lc.memory, MleOf01234567(FromEnd(y, pub.logMemory))], EqVec(pub.alphas, 1))))
  }

  lemma EqLong(alphas: seq<Fe>)
    requires |alphas| >= 4
    ensures |EqVec(alphas, 1)| >= 16
  {
    Pow2Monotone(4, |alphas|);
    assert Pow2(4) == 16;
  }

  function BytecodeClaim(pub: Public, lc: LogupClaims, y: seq<Fe>): Claim
    requires pub.logBytecode <= |y| && |pub.alphas| >= 4 && |pub.bytecode| == Pow2(pub.logBytecode + 4)
  {
    Claim(Pow2(pub.logMemory), pub.logBytecode, Neg(lc.bytecodeAcc),
          BytecodeTerm(pub.c, pub.alphas, pub.bytecode, pub.logBytecode, FromEnd(y, pub.logBytecode)))
  }

  function PaddingTerm(pub: Public, y: seq<Fe>): Claim
    requires pub.tables != [] && PaddedLog(pub) <= |y|
  {
    Pow2Monotone(pub.logBytecode, PaddedLog(pub));
    Claim(Pow2(pub.logMemory), PaddedLog(pub), 0, MleOfZerosThenOnes(Pow2(pub.logBytecode), FromEnd(y, PaddedLog(pub))))
  }

  /** Everything the verifier adds, in its order. */
  function Terms(pub: Public, lc: LogupClaims, y: seq<Fe>): seq<Claim>
    requires WellShaped(pub, lc, y)
  {
    assert pub.tables[0].log <= |y|;
    EqLong(pub.alphas);
    [MemoryTerm(pub, lc, y), BytecodeClaim(pub, lc, y), PaddingTerm(pub, y)]
    + AllTableTerms(pub.tables, lc.tables, TablesStart(pub), pub.c, EqVec(pub.alphas, 1))
  }

  // ----- accumulating

  lemma SubIsAddNeg(a: Fe, p: Fe, v: Fe)
    ensures Sub(a, Mul(p, v)) == Add(a, Mul(p, Neg(v)))
  {
    LiftSelf(a);
    LiftSelf(p);
    LiftSelf(v);
    LiftMul(p, v);
    LiftNeg(v);
    var n: int := 0 - v;
    LiftMul(p, n);
    LiftSub(a, p * v);
    LiftAdd(a, p * n);
    assert a - p * v == a + p * n;
  }

  lemma OneMoreClaim(cs: seq<Claim>, c: Claim, y: seq<Fe>)
    requires ClaimsFit(cs, |y|) && c.log <= |y|
    ensures ClaimsFit(cs + [c], |y|)
    ensures NumOf(cs + [c], y) == Add(NumOf(cs, y), Mul(PrefAt(c.offset, c.log, y), c.num))
    ensures DenOf(cs + [c], y) == Add(DenOf(cs, y), Mul(PrefAt(c.offset, c.log, y), c.den))
  {
    assert (cs + [c])[..|cs|] == cs;
  }

  /** What has been retrieved is the sum over the claims seen. */
  ghost predicate Retrieved(cs: seq<Claim>, y: seq<Fe>, num: Fe, den: Fe) { ClaimsFit(cs, |y|) && num == NumOf(cs, y) && den == DenOf(cs, y) }

  /** pref_at, through the product eq_poly_outside. */
  method Pref(offset: nat, log: nat, y: seq<Fe>) returns (pref: Fe)
    requires log <= |y|
    ensures pref == PrefAt(offset, log, y)
  {
    pref := EqPolyOutside(Bits(SectionIndex(offset, log), |y| - log), y[..|y| - log]);
  }

  /** The values of one lookup: numerator 1, denominator rebuilt from the index and value evaluations. */
  method RetrieveValues(l: LookupClaims, start: nat, offset0: nat, log: nat, c: Fe, alphasEq: seq<Fe>, y: seq<Fe>, num0: Fe, den0: Fe,
                        ghost cs: seq<Claim>, ghost done0: seq<AccessValue>) returns (offset: nat, num: Fe, den: Fe)
    requires log <= |y| && 2 < |alphasEq| && offset0 == start + |done0| * Pow2(log)
    requires Retrieved(cs + AccessClaims(done0, start, log, c, alphasEq), y, num0, den0)
    ensures offset == start + |done0 + ValuesOf(l, 0)| * Pow2(log)
    ensures Retrieved(cs + AccessClaims(done0 + ValuesOf(l, 0), start, log, c, alphasEq), y, num, den)
  {
    hide Retrieved, AccessClaims, FingerPrint, PrefAt;
    offset, num, den := offset0, num0, den0;
    ghost var done := done0;
    var i := 0;
    while i < |l.values|
      invariant 0 <= i <= |l.values| && offset == start + |done| * Pow2(log)
      invariant done + ValuesOf(l, i) == done0 + ValuesOf(l, 0)
      invariant Retrieved(cs + AccessClaims(done, start, log, c, alphasEq), y, num, den)
    {
      ghost var v := AccessValue(l.index, i, l.values[i]);
      var pref := Pref(offset, log, y);
      var value := Sub(c, FingerPrint(LOGUP_MEMORY_DOMAINSEP, [l.values[i], Add(l.index, Res(i))], alphasEq));
      AccessRetrieved(cs, done, v, start, offset, log, c, alphasEq, y, num, den);
      num := Add(num, pref);
      den := Add(den, Mul(pref, value));
      AppendAssoc(done, [v], ValuesOf(l, i + 1));
      OneMoreSize(|done|, Pow2(log));
      done := done + [v];
      offset := offset + Pow2(log);
      i := i + 1;
    }
    assert done + [] == done;
  }

  /** The lookups of one table. */
  method RetrieveLookups(ls: seq<LookupClaims>, start: nat, log: nat, c: Fe, alphasEq: seq<Fe>, y: seq<Fe>, num0: Fe, den0: Fe, ghost cs: seq<Claim>)
      returns (offset: nat, num: Fe, den: Fe)
    requires log <= |y| && 2 < |alphasEq| && Retrieved(cs, y, num0, den0)
    ensures offset == start + |AllValues(ls)| * Pow2(log)
    ensures Retrieved(cs + AccessClaims(AllValues(ls), start, log, c, alphasEq), y, num, den)
  {
    assert cs + AccessClaims([], start, log, c, alphasEq) == cs;
    hide Retrieved, AccessClaims, FingerPrint, ValuesOf, Pow2;
    offset, num, den := start, num0, den0;
    ghost var done: seq<AccessValue> := [];
    var k := 0;
    assert ls[0..] == ls && [] + AllValues(ls) == AllValues(ls);
    while k < |ls|
      invariant 0 <= k <= |ls| && done + AllValues(ls[k..]) == AllValues(ls) && offset == start + |done| * Pow2(log)
      invariant Retrieved(cs + AccessClaims(done, start, log, c, alphasEq), y, num, den)
    {
      TailFrom(ls, k);
      ghost var values := ValuesOf(ls[k], 0);
      offset, num, den := RetrieveValues(ls[k], start, offset, log, c, alphasEq, y, num, den, cs, done);
      AppendAssoc(done, values, AllValues(ls[k + 1..]));
      done := done + values;
      k := k + 1;
    }
    assert ls[k..] == [] && done + [] == done;
  }

  lemma OneMoreSize(n: nat, s: nat)
    ensures (n + 1) * s == n * s + s
  {
  }

  lemma {:induction false} AccessClaimsAppend(vs: seq<AccessValue>, v: AccessValue, start: nat, log: nat, c: Fe, alphasEq: seq<Fe>)
    requires 2 < |alphasEq|
    ensures AccessClaims(vs + [v], start, log, c, alphasEq)
         == AccessClaims(vs, start, log, c, alphasEq) + [AccessClaim(v, start + |vs| * Pow2(log), log, c, alphasEq)]
    decreases |vs|
  {
    hide AccessClaim;
    if vs == [] {
      assert (vs + [v])[1..] == [];
    } else {
      assert (vs + [v])[1..] == vs[1..] + [v];
      AccessClaimsAppend(vs[1..], v, start + Pow2(log), log, c, alphasEq);
      OneMoreSize(|vs| - 1, Pow2(log));
    }
  }

  lemma AccessRetrieved(cs: seq<Claim>, done: seq<AccessValue>, v: AccessValue, start: nat, offset: nat, log: nat, c: Fe, alphasEq: seq<Fe>,
                        y: seq<Fe>, num: Fe, den: Fe)
    requires log <= |y| && 2 < |alphasEq| && offset == start + |done| * Pow2(log)
    requires Retrieved(cs + AccessClaims(done, start, log, c, alphasEq), y, num, den)
    ensures Retrieved(cs + AccessClaims(done + [v], start, log, c, alphasEq), y, Add(num, PrefAt(offset, log, y)),
                      Add(den, Mul(PrefAt(offset, log, y), AccessClaim(v, offset, log, c, alphasEq).den)))
  {
    AccessClaimsAppend(done, v, start, log, c, alphasEq);
    var before, claim := cs + AccessClaims(done, start, log, c, alphasEq), AccessClaim(v, offset, log, c, alphasEq);
    OneMoreClaim(before, claim, y);
    MulOne(PrefAt(offset, log, y));
    assert cs + (AccessClaims(done, start, log, c, alphasEq) + [claim]) == before + [claim];
  }

  /** One table: bytecode lookup of the execution table, bus, lookups. */
  method RetrieveTable(s: Shape, t: TableClaims, start: nat, c: Fe, alphasEq: seq<Fe>, y: seq<Fe>, num0: Fe, den0: Fe, ghost cs: seq<Claim>)
      returns (offset: nat, num: Fe, den: Fe)
    requires s.log <= |y| && 2 < |alphasEq| && |t.instruction| + 1 < |alphasEq| && Retrieved(cs, y, num0, den0)
    ensures offset == ShapeEnd(s, t, start)
    ensures Retrieved(cs + TableTerms(s, t, start, c, alphasEq), y, num, den)
  {
    hide AccessClaims, FingerPrint, PrefAt;
    offset, num, den := start, num0, den0;
    ghost var done := cs;
    if s.isExecution {
      var pref := Pref(offset, s.log, y);
      OneMoreClaim(cs, ExecutionClaim(t, offset, s.log, c, alphasEq), y);
      MulOne(pref);
      num := Add(num, pref);
      den := Add(den, Mul(pref, Sub(c, FingerPrint(LOGUP_BYTECODE_DOMAINSEP, t.instruction + [t.pc], alphasEq))));
      done := cs + [ExecutionClaim(t, offset, s.log, c, alphasEq)];
      offset := offset + Pow2(s.log);
    }
    var pref := Pref(offset, s.log, y);
    ghost var bus := Claim(offset, s.log, t.multiplicity, t.data);
    OneMoreClaim(done, bus, y);
    num := Add(num, Mul(pref, t.multiplicity));
    den := Add(den, Mul(pref, t.data));
    done := done + [bus];
    offset := offset + Pow2(s.log);
    ghost var before := done;
    offset, num, den := RetrieveLookups(t.lookups, offset, s.log, c, alphasEq, y, num, den, before);
    ghost var claims := AccessClaims(AllValues(t.lookups), ShapeBus(s, start) + Pow2(s.log), s.log, c, alphasEq);
    assert before + claims == cs + TableTerms(s, t, start, c, alphasEq);
  }

  /** All tables, at the moving offset. */
  method RetrieveTables(ss: seq<Shape>, ts: seq<TableClaims>, start: nat, c: Fe, alphasEq: seq<Fe>, y: seq<Fe>, num0: Fe, den0: Fe, ghost cs: seq<Claim>)
      returns (offset: nat, num: Fe, den: Fe)
    requires |ss| == |ts| && 2 < |alphasEq| && Retrieved(cs, y, num0, den0)
    requires forall j {:trigger ss[j]} | 0 <= j < |ss| :: ss[j].log <= |y|
    requires forall j {:trigger ts[j]} | 0 <= j < |ts| :: |ts[j].instruction| + 1 < |alphasEq|
    ensures offset == ShapesEnd(ss, ts, start)
    ensures Retrieved(cs + AllTableTerms(ss, ts, start, c, alphasEq), y, num, den)
  {
    hide TableTerms, ShapeEnd, Retrieved;
    offset, num, den := start, num0, den0;
    ghost var done: seq<Claim> := [];
    ghost var all := AllTableTerms(ss, ts, start, c, alphasEq);
    var j := 0;
    assert ss[0..] == ss && ts[0..] == ts && [] + all == all && cs + [] == cs;
    while j < |ss|
      invariant 0 <= j <= |ss|
      invariant done + AllTableTerms(ss[j..], ts[j..], offset, c, alphasEq) == all
      invariant ShapesEnd(ss[j..], ts[j..], offset) == ShapesEnd(ss, ts, start)
      invariant Retrieved(cs + done, y, num, den)
    {
      assert ss[j..][0] == ss[j] && ts[j..][0] == ts[j] && ss[j..][1..] == ss[j + 1..] && ts[j..][1..] == ts[j + 1..];
      ghost var terms := TableTerms(ss[j], ts[j], offset, c, alphasEq);
      offset, num, den := RetrieveTable(ss[j], ts[j], offset, c, alphasEq, y, num, den, cs + done);
      assert cs + done + terms == cs + (done + terms);
      ghost var rest := AllTableTerms(ss[j + 1..], ts[j + 1..], offset, c, alphasEq);
      assert done + (terms + rest) == done + terms + rest;
      done := done + terms;
      j := j + 1;
    }
    assert ss[j..] == [] && done + [] == done;
  }

  /** verify_generic_logup once the quotient argument has given the point and the two values to match. */
  method VerifyGenericLogup(pub: Public, lc: LogupClaims, y: seq<Fe>, numeratorsValue: Fe, denominatorsValue: Fe) returns (ok: bool)
    requires WellShaped(pub, lc, y)
    ensures ClaimsFit(Terms(pub, lc, y), |y|)
    ensures ok <==> numeratorsValue == NumOf(Terms(pub, lc, y), y)
                    && denominatorsValue == Add(DenOf(Terms(pub, lc, y), y), MleOfZerosThenOnes(ShapesEnd(pub.tables, lc.tables, TablesStart(pub)), y))
  {
    hide MemoryTerm, BytecodeClaim, PaddingTerm, AllTableTerms, ShapesEnd, EqVec, MleOfZerosThenOnes;
    EqLong(pub.alphas);
    var num, den := RetrieveFixed(pub, lc, y);
    var offset := Pow2(pub.logMemory) + Pow2(PaddedLog(pub));
    offset, num, den := RetrieveTables(pub.tables, lc.tables, offset, pub.c, EqVec(pub.alphas, 1), y, num, den,
                                       [MemoryTerm(pub, lc, y), BytecodeClaim(pub, lc, y), PaddingTerm(pub, y)]);
    ok := numeratorsValue == num && denominatorsValue == Add(den, MleOfZerosThenOnes(offset, y));
  }

  lemma EmptySum(y: seq<Fe>)
    ensures ClaimsFit([], |y|) && NumOf([], y) == 0 && DenOf([], y) == 0
  {
  }

  /** Memory, bytecode and the bytecode's padding. */
  method RetrieveFixed(pub: Public, lc: LogupClaims, y: seq<Fe>) returns (num: Fe, den: Fe)
    requires WellShaped(pub, lc, y)
    ensures pub.tables[0].log <= |y| && Retrieved([MemoryTerm(pub, lc, y), BytecodeClaim(pub, lc, y), PaddingTerm(pub, y)], y, num, den)
  {
    assert pub.tables[0].log <= |y|;
    EqLong(pub.alphas);
    Pow2Monotone(pub.logBytecode, PaddedLog(pub));
    hide BytecodeTerm, FingerPrint, MleOf01234567, MleOfZerosThenOnes, PrefAt, EqVec, WellShaped, NumOf, DenOf;
    EmptySum(y);
    num, den := 0, 0;
    ghost var m, b, p := MemoryTerm(pub, lc, y), BytecodeClaim(pub, lc, y), PaddingTerm(pub, y);
    assert [] + [m] == [m] && [m] + [b] == [m, b] && [m, b] + [p] == [m, b, p];

    var pref := Pref(0, pub.logMemory, y);
    num := Sub(num, Mul(pref, lc.memoryAcc));
    den := Add(den, Mul(pref, Sub(pub.c, FingerPrint(LOGUP_MEMORY_DOMAINSEP, [lc.memory, MleOf01234567(FromEnd(y, pub.logMemory))], EqVec(pub.alphas, 1)))));
    SubIsAddNeg(0, pref, lc.memoryAcc);
    OneMoreClaim([], m, y);

    pref := Pref(Pow2(pub.logMemory), pub.logBytecode, y);
    ghost var num1 := num;
    num := Sub(num, Mul(pref, lc.bytecodeAcc));
    den := Add(den, Mul(pref, BytecodeTerm(pub.c, pub.alphas, pub.bytecode, pub.logBytecode, FromEnd(y, pub.logBytecode))));
    SubIsAddNeg(num1, pref, lc.bytecodeAcc);
    OneMoreClaim([m], b, y);

    var prefPadded := Pref(Pow2(pub.logMemory), PaddedLog(pub), y);
    den := Add(den, Mul(prefPadded, MleOfZerosThenOnes(Pow2(pub.logBytecode), FromEnd(y, PaddedLog(pub)))));
    MulOne(prefPadded);
    AddZero(num);
    OneMoreClaim([m, b], p, y);
  }

  // ----- the verifier's formulas are the polynomials of the padded buffers

  function PublicOf(inp: Input): Public {
    Public(inp.c, inp.alphas, inp.logMemory, inp.logBytecode, inp.bytecode, Shapes(inp.tables))
  }

  function HonestClaims(inp: Input, y: seq<Fe>): LogupClaims
    requires InputFits(inp) && inp.logMemory <= |y|
  {
    BelowAll(inp, |y|);
    LogupClaims(Mle(inp.memoryAcc, FromEnd(y, inp.logMemory)), Mle(inp.memory, FromEnd(y, inp.logMemory)),
                Mle(inp.bytecodeAcc, FromEnd(y, inp.logBytecode)), HonestTables(inp.tables, y, inp.c, AlphasEq(inp)))
  }

  lemma BelowAll(inp: Input, n: nat)
    requires InputFits(inp) && inp.logMemory <= n
    ensures Below(inp.tables, n)
  {
    forall j {:trigger inp.tables[j]} | 0 <= j < |inp.tables| ensures inp.tables[j].log <= n {
      if j > 0 {
        assert inp.tables[0].log >= inp.tables[j].log;
      }
    }
  }

  lemma MemoryAgrees(inp: Input, y: seq<Fe>)
    requires InputFits(inp) && inp.logMemory <= |y|
    ensures Agrees([MemoryPart(inp)], [MemoryTerm(PublicOf(inp), HonestClaims(inp, y), y)], y)
  {
    AlphasLong(inp);
    hide Mle, EqVec;
    var z, eq := FromEnd(y, inp.logMemory), AlphasEq(inp);
    var ds, cols := Repeated(LOGUP_MEMORY_DOMAINSEP, |inp.memory|), [inp.memory, Indices(|inp.memory|)];
    MinusEvaluates(0, inp.memoryAcc, z);
    MleConstant(ds, z, LOGUP_MEMORY_DOMAINSEP);
    IndicesEvaluate(z);
    FingerEvaluates(ds, cols, eq, z);
    assert Evaluations(cols, z) == [Mle(inp.memory, z), MleOf01234567(z)];
    MinusEvaluates(inp.c, FingerRows(ds, cols, eq), z);
  }

  lemma BytecodeClaimAgrees(inp: Input, y: seq<Fe>)
    requires InputFits(inp) && inp.logMemory <= |y|
    ensures Agrees([BytecodePart(inp)], [BytecodeClaim(PublicOf(inp), HonestClaims(inp, y), y)], y)
  {
    BytecodeAgrees(inp, FromEnd(y, inp.logBytecode));
    hide Mle, MemoryPart, MemoryTerm, FingerRows, BytecodeTerm, HonestTables, TablesFit;
  }

  lemma PaddingAgrees(inp: Input, y: seq<Fe>)
    requires InputFits(inp) && inp.logMemory <= |y|
    ensures PaddedLog(PublicOf(inp)) == BytecodeLog(inp) <= |y|
    ensures Agrees([BytecodePadding(inp)], [PaddingTerm(PublicOf(inp), y)], y)
  {
    assert Shapes(inp.tables)[0] == ShapeOf(inp.tables[0]);
    var z := FromEnd(y, BytecodeLog(inp));
    Pow2Monotone(inp.logBytecode, BytecodeLog(inp));
    ZerosThenOnesEvaluates(Pow2(inp.logBytecode), z);
    MleConstant(Repeated(0, Pow2(BytecodeLog(inp))), z, 0);
    hide Mle, TablesFit, MleOfZerosThenOnes;
  }

  lemma FixedAgree(inp: Input, y: seq<Fe>)
    requires InputFits(inp) && inp.logMemory <= |y|
    ensures PaddedLog(PublicOf(inp)) == BytecodeLog(inp) <= |y|
    ensures var pub, h := PublicOf(inp), HonestClaims(inp, y);
            Agrees([MemoryPart(inp), BytecodePart(inp), BytecodePadding(inp)], [MemoryTerm(pub, h, y), BytecodeClaim(pub, h, y), PaddingTerm(pub, y)], y)
  {
    MemoryAgrees(inp, y);
    BytecodeClaimAgrees(inp, y);
    PaddingAgrees(inp, y);
    hide Agrees, MemoryPart, BytecodePart, BytecodePadding, MemoryTerm, BytecodeClaim, PaddingTerm, HonestClaims, InputFits;
    var pub, h := PublicOf(inp), HonestClaims(inp, y);
    var m, b, p := MemoryPart(inp), BytecodePart(inp), BytecodePadding(inp);
    var tm, tb, tp := MemoryTerm(pub, h, y), BytecodeClaim(pub, h, y), PaddingTerm(pub, y);
    AgreesAppend([m], [tm], [b], [tb], y);
    assert [m] + [b] == [m, b] && [tm] + [tb] == [tm, tb];
    AgreesAppend([m, b], [tm, tb], [p], [tp], y);
    assert [m, b] + [p] == [m, b, p] && [tm, tb] + [tp] == [tm, tb, tp];
  }

  lemma HonestTablesShaped(inp: Input, y: seq<Fe>)
    requires InputFits(inp) && inp.logMemory <= |y|
    ensures var pub, h := PublicOf(inp), HonestClaims(inp, y);
            |h.tables| == |pub.tables| == |inp.tables| && |pub.alphas| >= 4
            && (forall j {:trigger pub.tables[j]} | 0 <= j < |pub.tables| :: pub.tables[j].log <= |y|)
            && (forall j {:trigger h.tables[j]} | 0 <= j < |h.tables| :: |h.tables[j].instruction| <= N_INSTRUCTION_COLUMNS)
            && TablesStart(pub) == FirstTable(inp)
  {
    BelowAll(inp, |y|);
    hide Mle, EqVec, ColumnsFit;
    var pub, h := PublicOf(inp), HonestClaims(inp, y);
    forall j {:trigger pub.tables[j]} | 0 <= j < |pub.tables| ensures pub.tables[j].log <= |y| {
      assert inp.tables[j].log <= |y|;
    }
    forall j {:trigger h.tables[j]} | 0 <= j < |h.tables| ensures |h.tables[j].instruction| <= N_INSTRUCTION_COLUMNS {
      InstructionCount(inp.tables[j], FromEnd(y, inp.tables[j].log), inp.c, AlphasEq(inp));
    }
    assert pub.tables[0] == ShapeOf(inp.tables[0]);
  }

  ghost predicate Honest(inp: Input, y: seq<Fe>, pub: Public, h: LogupClaims) {
    InputFits(inp) && TotalLen(inp) <= Pow2(|y|) && inp.logMemory <= |y| && pub == PublicOf(inp) && h == HonestClaims(inp, y)
  }

  lemma HonestTablesAgree(inp: Input, y: seq<Fe>, eq: seq<Fe>)
    requires InputFits(inp) && inp.logMemory <= |y| && eq == AlphasEq(inp)
    ensures |eq| >= 16 && TablesFit(inp.tables, eq) && Below(inp.tables, |y|)
    ensures forall j {:trigger HonestTables(inp.tables, y, inp.c, eq)[j]} | 0 <= j < |inp.tables| ::
              |HonestTables(inp.tables, y, inp.c, eq)[j].instruction| + 1 < |eq|
    ensures Agrees(AllTableParts(inp.tables, FirstTable(inp), inp.c, eq),
                   AllTableTerms(Shapes(inp.tables), HonestTables(inp.tables, y, inp.c, eq), FirstTable(inp), inp.c, eq), y)
    ensures ShapesEnd(Shapes(inp.tables), HonestTables(inp.tables, y, inp.c, eq), FirstTable(inp)) == TotalLen(inp)
  {
    AlphasLong(inp);
    BelowAll(inp, |y|);
    hide Agrees, AllTableParts, AllTableTerms, ShapesEnd, AlphasEq, EqVec, Mle, ColumnsFit, HonestTable, HonestTables, Shapes;
    TablesAgree(inp.tables, FirstTable(inp), inp.c, eq, y);
  }

  lemma HonestEnds(inp: Input, y: seq<Fe>)
    requires InputFits(inp) && inp.logMemory <= |y|
    ensures var pub, h := PublicOf(inp), HonestClaims(inp, y);
            pub.tables != [] && |h.tables| == |pub.tables| && ShapesEnd(pub.tables, h.tables, TablesStart(pub)) == TotalLen(inp)
  {
    HonestTablesShaped(inp, y);
    HonestTablesAgree(inp, y, AlphasEq(inp));
    HonestSizes(inp, y);
    hide Agrees, AllTableParts, AllTableTerms, ShapesEnd, EqVec, Mle, HonestTables, Shapes, AlphasEq, InputFits, FirstTable, TablesStart, TotalLen, Pow2;
  }

  lemma HonestShaped(inp: Input, y: seq<Fe>, pub: Public, h: LogupClaims)
    requires Honest(inp, y, pub, h)
    ensures WellShaped(pub, h, y) && ShapesEnd(pub.tables, h.tables, TablesStart(pub)) == TotalLen(inp)
  {
    HonestTablesShaped(inp, y);
    HonestEnds(inp, y);
    HonestSizes(inp, y);
    hide ShapesEnd, EqVec, Mle, HonestClaims, Shapes, AlphasEq, InputFits, FirstTable, TablesStart, TotalLen, Pow2;
  }

  lemma HonestSizes(inp: Input, y: seq<Fe>)
    requires InputFits(inp) && inp.logMemory <= |y|
    ensures inp.tables != [] && inp.logBytecode <= |y| && |inp.bytecode| == Pow2(inp.logBytecode + 4)
  {
  }

  lemma HonestAgrees(inp: Input, y: seq<Fe>, pub: Public, h: LogupClaims)
    requires Honest(inp, y, pub, h) && WellShaped(pub, h, y)
    ensures Agrees(Parts(inp), Terms(pub, h, y), y)
  {
    FixedAgree(inp, y);
    HonestTablesAgree(inp, y, AlphasEq(inp));
    assert pub.tables == Shapes(inp.tables) && h.tables == HonestTables(inp.tables, y, inp.c, AlphasEq(inp));
    assert TablesStart(pub) == FirstTable(inp);
    AppendTables(inp, y, pub, h);
  }

  lemma AppendTables(inp: Input, y: seq<Fe>, pub: Public, h: LogupClaims)
    requires InputFits(inp) && WellShaped(pub, h, y) && pub.c == inp.c && pub.alphas == inp.alphas && TablesStart(pub) == FirstTable(inp)
    requires PaddedLog(pub) <= |y| && |AlphasEq(inp)| >= 16
    requires Agrees([MemoryPart(inp), BytecodePart(inp), BytecodePadding(inp)], [MemoryTerm(pub, h, y), BytecodeClaim(pub, h, y), PaddingTerm(pub, y)], y)
    requires Agrees(AllTableParts(inp.tables, FirstTable(inp), inp.c, AlphasEq(inp)),
                    AllTableTerms(pub.tables, h.tables, FirstTable(inp), inp.c, AlphasEq(inp)), y)
    ensures Agrees(Parts(inp), Terms(pub, h, y), y)
  {
    hide Agrees, MemoryPart, BytecodePart, BytecodePadding, MemoryTerm, BytecodeClaim, PaddingTerm, AllTableParts, AllTableTerms, EqVec, TablesFit, ShapesEnd;
    AgreesAppend([MemoryPart(inp), BytecodePart(inp), BytecodePadding(inp)], [MemoryTerm(pub, h, y), BytecodeClaim(pub, h, y), PaddingTerm(pub, y)],
                 AllTableParts(inp.tables, FirstTable(inp), inp.c, AlphasEq(inp)),
                 AllTableTerms(pub.tables, h.tables, FirstTable(inp), inp.c, AlphasEq(inp)), y);
  }

  lemma InstructionCount(t: Trace, z: seq<Fe>, c: Fe, alphasEq: seq<Fe>)
    requires ColumnsFit(t, alphasEq) && |z| == t.log
    ensures |HonestTable(t, z, c, alphasEq).instruction| <= N_INSTRUCTION_COLUMNS
  {
  }

  lemma SameClaims(ps: seq<Part>, cs: seq<Claim>, y: seq<Fe>)
    requires AllFit(ps, |y|) && Agrees(ps, cs, y)
    ensures cs == ClaimsOf(ps, y)
  {
  }

  /**
   For an honest prover the verifier's two sums are the multilinear extensions, at any point, of the
   prover's buffers: numerators padded with zeros, denominators padded with ones.
   */
  lemma LogupAgrees(inp: Input, y: seq<Fe>, num: seq<Fe>, den: seq<Fe>)
    requires InputFits(inp) && TotalLen(inp) <= Pow2(|y|) && |num| == TotalLen(inp) && Filled(num, den, Parts(inp), |y|)
    ensures inp.logMemory <= |y| && WellShaped(PublicOf(inp), HonestClaims(inp, y), y)
    ensures var terms := Terms(PublicOf(inp), HonestClaims(inp, y), y);
            ClaimsFit(terms, |y|)
            && NumOf(terms, y) == Mle(PadZeros(num, Pow2(|y|)), y)
            && Add(DenOf(terms, y), MleOfZerosThenOnes(TotalLen(inp), y)) == Mle(PadOnes(den, Pow2(|y|)), y)
    ensures ShapesEnd(PublicOf(inp).tables, HonestClaims(inp, y).tables, TablesStart(PublicOf(inp))) == TotalLen(inp)
  {
    hide Mle, Terms, HonestClaims, Parts, InputFits, TotalLen, MleOfZerosThenOnes, Agrees, NumOf, DenOf, NumBuffer, DenBuffer, WellShaped, ClaimsOf;
    PartsFit(inp, |y|);
    MemoryBelow(inp, |y|);
    HonestShaped(inp, y, PublicOf(inp), HonestClaims(inp, y));
    HonestAgrees(inp, y, PublicOf(inp), HonestClaims(inp, y));
    SameClaims(Parts(inp), Terms(PublicOf(inp), HonestClaims(inp, y), y), y);
    BuffersEvaluate(Parts(inp), y);
    OnesAfter(den, y);
  }

  /** The same for the buffers as they are stored: their extensions are taken at the point with its low coordinates reversed. */
  lemma LogupAgreesStored(inp: Input, y: seq<Fe>, sn: seq<Fe>, sd: seq<Fe>, p: nat, z: seq<Fe>)
    requires InputFits(inp) && TotalLen(inp) <= Pow2(|y|) && inp.logMemory <= |y| && |sn| == |sd| == TotalLen(inp)
    requires p == Pivot(inp) && z == Permuted(y, |y| - p) && Laid(sn, sd, Parts(inp), |y|, p)
    ensures WellShaped(PublicOf(inp), HonestClaims(inp, y), y) && ClaimsFit(Terms(PublicOf(inp), HonestClaims(inp, y), y), |y|)
    ensures NumOf(Terms(PublicOf(inp), HonestClaims(inp, y), y), y) == Mle(PadZeros(sn, Pow2(|y|)), z)
    ensures Add(DenOf(Terms(PublicOf(inp), HonestClaims(inp, y), y), y), MleOfZerosThenOnes(TotalLen(inp), y)) == Mle(PadOnes(sd, Pow2(|y|)), z)
  {
    PivotFits(inp);
    hide *;
    var num, den := NaturalOf(inp, y, sn, sd, p);
    LogupAgrees(inp, y, num, den);
    StoredEvaluates(sn, num, p, y);
    StoredEvaluates(sd, den, p, y);
  }

  lemma NaturalOf(inp: Input, y: seq<Fe>, sn: seq<Fe>, sd: seq<Fe>, p: nat) returns (num: seq<Fe>, den: seq<Fe>)
    requires InputFits(inp) && Laid(sn, sd, Parts(inp), |y|, p)
    ensures Filled(num, den, Parts(inp), |y|) && StoredAs(sn, num, p) && StoredAs(sd, den, p) && |num| == |sn| && |den| == |sd|
    ensures |num| == |den| <= Pow2(|y|)
  {
    hide Parts, InputFits;
    num, den :| Filled(num, den, Parts(inp), |y|) && StoredAs(sn, num, p) && StoredAs(sd, den, p);
  }

  lemma MemoryBelow(inp: Input, n: nat)
    requires InputFits(inp) && TotalLen(inp) <= Pow2(n)
    ensures inp.logMemory <= n
  {
    TablesGrow(inp.tables, FirstTable(inp));
    LogFits(inp.logMemory, n);
  }

  // ----- the length of the buffers

  function LookupCount(ls: seq<Lookup>): nat { if ls == [] then 0 else |ls[0].values| + LookupCount(ls[1..]) }

  /** offset_for_table: one section for the bus, one for every looked-up value. */
  function OffsetForTable(t: Trace): nat { (LookupCount(t.table.lookups) + 1) * Pow2(t.log) }

  function SumOffsets(tables: seq<Trace>): nat { if tables == [] then 0 else OffsetForTable(tables[0]) + SumOffsets(tables[1..]) }

  /** compute_total_active_len; logCycles is the height of the execution table. */
  function ComputeTotalActiveLen(inp: Input, logCycles: nat): nat
    requires inp.tables != []
  {
    Pow2(inp.logMemory) + Pow2(BytecodeLog(inp)) + Pow2(logCycles) + SumOffsets(inp.tables)
  }

  function ExecutionCells(tables: seq<Trace>): nat {
    if tables == [] then 0 else (if tables[0].table.isExecution then Pow2(tables[0].log) else 0) + ExecutionCells(tables[1..])
  }

  lemma {:induction false} AccessesOfCount(l: Lookup, i: nat)
    requires i <= |l.values|
    ensures |AccessesOf(l, i)| == |l.values| - i
    decreases |l.values| - i
  {
    if i < |l.values| {
      AccessesOfCount(l, i + 1);
    }
  }

  lemma {:induction false} AccessesCount(ls: seq<Lookup>)
    ensures |Accesses(ls)| == LookupCount(ls)
    decreases |ls|
  {
    if ls != [] {
      AccessesOfCount(ls[0], 0);
      AccessesCount(ls[1..]);
    }
  }

  lemma {:induction false} AccessesEndIs(t: Trace, accesses: seq<Access>, offset: nat)
    ensures AccessesEnd(t, accesses, offset) == offset + |accesses| * Pow2(t.log)
    decreases |accesses|
  {
    if accesses != [] {
      AccessesEndIs(t, accesses[1..], offset + Pow2(t.log));
      OneMore(|accesses|, Pow2(t.log));
    }
  }

  lemma {:induction false} TablesEndIs(tables: seq<Trace>, offset: nat)
    ensures TablesEnd(tables, offset) == offset + SumOffsets(tables) + ExecutionCells(tables)
    decreases |tables|
  {
    if tables != [] {
      var t := tables[0];
      AccessesCount(t.table.lookups);
      AccessesEndIs(t, Accesses(t.table.lookups), BusOffset(t, offset) + Pow2(t.log));
      OneMoreSize(LookupCount(t.table.lookups), Pow2(t.log));
      TablesEndIs(tables[1..], TableEnd(t, offset));
    }
  }

  lemma {:induction false} OneExecution(tables: seq<Trace>, k: nat)
    requires k < |tables| && forall j {:trigger tables[j]} | 0 <= j < |tables| :: tables[j].table.isExecution <==> j == k
    ensures ExecutionCells(tables) == Pow2(tables[k].log)
    decreases |tables|
  {
    if k == 0 {
      NoExecution(tables[1..]);
    } else {
      OneExecution(tables[1..], k - 1);
    }
  }

  lemma {:induction false} NoExecution(tables: seq<Trace>)
    requires forall j {:trigger tables[j]} | 0 <= j < |tables| :: !tables[j].table.isExecution
    ensures ExecutionCells(tables) == 0
    decreases |tables|
  {
    if tables != [] {
      NoExecution(tables[1..]);
    }
  }

  /** With one execution table, the moving offset ends at the precomputed length. */
  lemma TotalLenIs(inp: Input, k: nat)
    requires inp.tables != [] && k < |inp.tables| && forall j {:trigger inp.tables[j]} | 0 <= j < |inp.tables| :: inp.tables[j].table.isExecution <==> j == k
    ensures TotalLen(inp) == ComputeTotalActiveLen(inp, inp.tables[k].log)
  {
    TablesEndIs(inp.tables, FirstTable(inp));
    OneExecution(inp.tables, k);
  }
}
