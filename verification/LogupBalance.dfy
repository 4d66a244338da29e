/**
 Honest sections balance: when every lookup reads the memory and the bytecode, the accumulators count
 the accesses, and every message is pulled from the bus as often as it is pushed, the quotients of all
 sections add up to zero (crates/sub_protocols/src/logup.rs, crates/lean_prover/src/prove_execution.rs).
 */
module LogupBalance {
  import opened Arith
  import opened Sequences
  import opened Field
  import opened Multilinear
  import opened StorageLayout
  import opened Sections
  import opened LogupParts
  import opened Logup
  import opened LogupSums
  import opened LogupTerms

  ghost predicate Honest(inp: Input)
    requires InputFits(inp)
  {
    BytecodeLength(inp.logBytecode);
    && TablesRead(inp.tables, inp)
    && inp.memoryAcc == Counts(MemoryCells(inp.tables, AlphasEq(inp)), |inp.memory|)
    && inp.bytecodeAcc == Counts(AllFetches(inp.tables, AlphasEq(inp)), Pow2(inp.logBytecode))
    && SameMultiplicities(OnBus(inp.tables, false, AlphasEq(inp)), OnBus(inp.tables, true, AlphasEq(inp)))
  }

  ghost predicate TablesRead(tables: seq<Trace>, inp: Input)
    requires TablesFit(tables, AlphasEq(inp)) && |inp.bytecode| == Pow2(inp.logBytecode) * BYTECODE_STRIDE
  {
    forall j {:trigger tables[j]} | 0 <= j < |tables| :: TableReads(tables[j], AlphasEq(inp), inp.memory, inp.bytecode, Pow2(inp.logBytecode))
  }

  // ----- tables

  function BytecodeWeights(inp: Input): (w: seq<Fe>)
    requires InputFits(inp)
    ensures |w| == Pow2(inp.logBytecode)
  {
    Inverses(BytecodePart(inp).den)
  }

  /** The bytecode lookup of the execution table adds the weights of the instructions it fetches. */
  lemma ExecutionSum(t: Trace, offset: nat, inp: Input)
    requires InputFits(inp) && ColumnsFit(t, AlphasEq(inp)) && t.table.isExecution && |inp.bytecode| == Pow2(inp.logBytecode) * BYTECODE_STRIDE
    requires TableReads(t, AlphasEq(inp), inp.memory, inp.bytecode, Pow2(inp.logBytecode))
    ensures var p := ExecutionPart(t, offset, inp.c, AlphasEq(inp));
            |p.num| == |p.den| && QuotientSum(p.num, p.den) == Weighted(Shifted(t.columns[COL_PC], 0), BytecodeWeights(inp))
  {
    hide FingerRows, Dot, Weighted, Shifted, InstructionAt, InputFits, BytecodePart, AlphasEq;
    var p := ExecutionPart(t, offset, inp.c, AlphasEq(inp));
    var pc, v, w := t.columns[COL_PC], Inverses(p.den), BytecodeWeights(inp);
    forall r {:trigger v[r]} | 0 <= r < |v| ensures pc[r] + 0 < |w| && v[r] == w[pc[r] + 0] {
      assert InstructionAt(t, r, inp.bytecode, Pow2(inp.logBytecode));
      FetchMeetsBytecode(t, offset, inp, r);
    }
    ColumnLooksUp(pc, 0, v, w);
    assert p.num == seq(|v|, _ => 1);
  }

  /** What a table's bus section adds. */
  function BusTerm(t: Trace, c: Fe, alphasEq: seq<Fe>): Fe
    requires ColumnsFit(t, alphasEq)
  {
    var s := MessageSum(Messages(t, alphasEq), c, alphasEq);
    if t.table.bus.pull then Neg(s) else s
  }

  /** The bytecode lookup, if there is one. */
  function FetchParts(t: Trace, offset: nat, c: Fe, alphasEq: seq<Fe>): seq<Part>
    requires ColumnsFit(t, alphasEq)
  {
    if t.table.isExecution then [ExecutionPart(t, offset, c, alphasEq)] else []
  }

  /** Bus and memory lookups. */
  function OtherParts(t: Trace, offset: nat, c: Fe, alphasEq: seq<Fe>): seq<Part>
    requires ColumnsFit(t, alphasEq)
  {
    LookupsFit(t, t.table.lookups);
    [BusPart(t, offset, c, alphasEq)] + AccessParts(t, Accesses(t.table.lookups), offset + Pow2(t.log), c, alphasEq)
  }

  lemma TablePartsAre(t: Trace, offset: nat, c: Fe, alphasEq: seq<Fe>)
    requires ColumnsFit(t, alphasEq)
    ensures TableParts(t, offset, c, alphasEq) == FetchParts(t, offset, c, alphasEq) + OtherParts(t, BusOffset(t, offset), c, alphasEq)
  {
    hide ExecutionPart, BusPart, AccessParts, Accesses;
    LookupsFit(t, t.table.lookups);
    AppendAssoc(FetchParts(t, offset, c, alphasEq), [BusPart(t, BusOffset(t, offset), c, alphasEq)],
                AccessParts(t, Accesses(t.table.lookups), BusOffset(t, offset) + Pow2(t.log), c, alphasEq));
  }

  lemma FetchSum(t: Trace, offset: nat, inp: Input)
    requires InputFits(inp) && ColumnsFit(t, AlphasEq(inp)) && |inp.bytecode| == Pow2(inp.logBytecode) * BYTECODE_STRIDE
    requires TableReads(t, AlphasEq(inp), inp.memory, inp.bytecode, Pow2(inp.logBytecode))
    ensures var ps := FetchParts(t, offset, inp.c, AlphasEq(inp));
            Even(ps) && PartsSum(ps) == Weighted(Fetches(t, AlphasEq(inp)), BytecodeWeights(inp))
  {
    hide ExecutionPart, Weighted, QuotientSum, BytecodeWeights, InputFits, ColumnsFit, TableReads, Shifted, AlphasEq;
    if t.table.isExecution {
      ExecutionSum(t, offset, inp);
      OnePart(ExecutionPart(t, offset, inp.c, AlphasEq(inp)));
    } else {
      WeightedNothing(BytecodeWeights(inp));
    }
  }

  lemma OtherSum(t: Trace, offset: nat, memory: seq<Fe>, c: Fe, alphasEq: seq<Fe>)
    requires ColumnsFit(t, alphasEq)
    requires forall j {:trigger t.table.lookups[j]} | 0 <= j < |t.table.lookups| :: LookupReads(t, t.table.lookups[j], memory)
    ensures var ps := OtherParts(t, offset, c, alphasEq);
            Even(ps) && PartsSum(ps) == Add(BusTerm(t, c, alphasEq), Weighted(TableCells(t, t.table.lookups), MemoryWeights(memory, c, alphasEq)))
  {
    hide BusPart, AccessParts, Accesses, Weighted, MemoryWeights, QuotientSum, PartsSum, TableCells, LookupReads, BusTerm, Even;
    AccessSections(t, offset + Pow2(t.log), memory, c, alphasEq);
    BusSection(t, offset, c, alphasEq);
    PartsSumAppend([BusPart(t, offset, c, alphasEq)], AccessParts(t, Accesses(t.table.lookups), offset + Pow2(t.log), c, alphasEq));
  }

  lemma TableSum(t: Trace, offset: nat, inp: Input)
    requires InputFits(inp) && ColumnsFit(t, AlphasEq(inp)) && |inp.bytecode| == Pow2(inp.logBytecode) * BYTECODE_STRIDE
    requires TableReads(t, AlphasEq(inp), inp.memory, inp.bytecode, Pow2(inp.logBytecode))
    ensures 2 < |AlphasEq(inp)|
    ensures var ps := TableParts(t, offset, inp.c, AlphasEq(inp));
            Even(ps) && PartsSum(ps) == Add(Weighted(Fetches(t, AlphasEq(inp)), BytecodeWeights(inp)),
                                            Add(BusTerm(t, inp.c, AlphasEq(inp)),
                                                Weighted(TableCells(t, t.table.lookups), MemoryWeights(inp.memory, inp.c, AlphasEq(inp)))))
  {
    hide TableParts, FetchParts, OtherParts, Fetches, Weighted, BusTerm, MemoryWeights, BytecodeWeights, InputFits, TableCells, AlphasEq, PartsSum, Even;
    var c, al := inp.c, AlphasEq(inp);
    TablePartsAre(t, offset, c, al);
    FetchSum(t, offset, inp);
    OtherSum(t, BusOffset(t, offset), inp.memory, c, al);
    PartsSumAppend(FetchParts(t, offset, c, al), OtherParts(t, BusOffset(t, offset), c, al));
  }

  lemma OnePart(p: Part)
    requires |p.num| == |p.den|
    ensures Even([p]) && PartsSum([p]) == QuotientSum(p.num, p.den)
  {
    hide QuotientSum;
    assert [p][1..] == [];
    AddZero(QuotientSum(p.num, p.den));
  }

  lemma BusSection(t: Trace, offset: nat, c: Fe, alphasEq: seq<Fe>)
    requires ColumnsFit(t, alphasEq)
    ensures Even([BusPart(t, offset, c, alphasEq)]) && PartsSum([BusPart(t, offset, c, alphasEq)]) == BusTerm(t, c, alphasEq)
  {
    hide BusPart, MessageSum, Messages, ColumnsFit, QuotientSum, PartsSum;
    BusSum(t, offset, c, alphasEq);
    OnePart(BusPart(t, offset, c, alphasEq));
  }

  lemma AccessSections(t: Trace, offset: nat, memory: seq<Fe>, c: Fe, alphasEq: seq<Fe>)
    requires ColumnsFit(t, alphasEq)
    requires forall j {:trigger t.table.lookups[j]} | 0 <= j < |t.table.lookups| :: LookupReads(t, t.table.lookups[j], memory)
    ensures AccessesFit(t, Accesses(t.table.lookups)) && SameLength(t.columns, Pow2(t.log)) && 2 < |alphasEq|
    ensures var ps := AccessParts(t, Accesses(t.table.lookups), offset, c, alphasEq);
            Even(ps) && PartsSum(ps) == Weighted(TableCells(t, t.table.lookups), MemoryWeights(memory, c, alphasEq))
  {
    hide AccessParts, Accesses, Weighted, MemoryWeights, QuotientSum, PartsSum, LookedUp, TableCells, AccessesFit, AccessesRead, LookupReads;
    TableAccessesRead(t, t.table.lookups, memory);
    AccessesSum(t, Accesses(t.table.lookups), offset, memory, c, alphasEq);
    AllLookups(t, t.table.lookups);
  }

  /** What is fetched, pushed, pulled and read, as it enters the sum. */
  function Together(fetched: Fe, pushed: Fe, pulled: Fe, read: Fe): Fe { Add(fetched, Add(Sub(pushed, pulled), read)) }

  lemma TogetherIs(f: Fe, p: Fe, q: Fe, r: Fe)
    ensures Together(f, p, q, r) == Res(f + (p - q + r))
  {
    LiftSelf(f);
    LiftSelf(p);
    LiftSelf(q);
    LiftSelf(r);
    LiftSub(p, q);
    LiftAdd(p - q, r);
    LiftAdd(f, p - q + r);
  }

  lemma TogetherAdds(f1: Fe, p1: Fe, q1: Fe, r1: Fe, f2: Fe, p2: Fe, q2: Fe, r2: Fe)
    ensures Add(Together(f1, p1, q1, r1), Together(f2, p2, q2, r2)) == Together(Add(f1, f2), Add(p1, p2), Add(q1, q2), Add(r1, r2))
  {
    TogetherIs(f1, p1, q1, r1);
    TogetherIs(f2, p2, q2, r2);
    LiftAdd(f1 + (p1 - q1 + r1), f2 + (p2 - q2 + r2));
    LiftSelf(f1);
    LiftSelf(p1);
    LiftSelf(q1);
    LiftSelf(r1);
    LiftSelf(f2);
    LiftSelf(p2);
    LiftSelf(q2);
    LiftSelf(r2);
    LiftAdd(f1, f2);
    LiftAdd(p1, p2);
    LiftAdd(q1, q2);
    LiftAdd(r1, r2);
    LiftSub(p1 + p2, q1 + q2);
    LiftAdd(p1 + p2 - (q1 + q2), r1 + r2);
    LiftAdd(f1 + f2, p1 + p2 - (q1 + q2) + (r1 + r2));
  }

  lemma BusDirections(t: Trace, rest: seq<Trace>, pull: bool, c: Fe, alphasEq: seq<Fe>)
    requires ColumnsFit(t, alphasEq) && TablesFit([t] + rest, alphasEq) && TablesFit(rest, alphasEq)
    ensures var s := MessageSum(Messages(t, alphasEq), c, alphasEq);
            MessageSum(OnBus([t] + rest, pull, alphasEq), c, alphasEq)
            == Add(if t.table.bus.pull == pull then s else 0, MessageSum(OnBus(rest, pull, alphasEq), c, alphasEq))
  {
    hide Messages, ColumnsFit;
    assert ([t] + rest)[1..] == rest;
    MessageSumAppend(if t.table.bus.pull == pull then Messages(t, alphasEq) else [], OnBus(rest, pull, alphasEq), c, alphasEq);
  }

  lemma OneTable(t: Trace, f: Fe, r: Fe, c: Fe, alphasEq: seq<Fe>)
    requires ColumnsFit(t, alphasEq)
    ensures var s := MessageSum(Messages(t, alphasEq), c, alphasEq); var pull := t.table.bus.pull;
            Add(f, Add(BusTerm(t, c, alphasEq), r)) == Together(f, if pull == false then s else 0, if pull == true then s else 0, r)
  {
    AddZero(MessageSum(Messages(t, alphasEq), c, alphasEq));
  }

  /** What all tables add, for the challenges of the input. */
  function Expected(tables: seq<Trace>, inp: Input): Fe
    requires InputFits(inp) && TablesFit(tables, AlphasEq(inp)) && 2 < |AlphasEq(inp)|
  {
    var al := AlphasEq(inp);
    Together(Weighted(AllFetches(tables, al), BytecodeWeights(inp)),
             MessageSum(OnBus(tables, false, al), inp.c, al), MessageSum(OnBus(tables, true, al), inp.c, al),
             Weighted(MemoryCells(tables, al), MemoryWeights(inp.memory, inp.c, al)))
  }

  lemma NothingExpected(inp: Input)
    requires InputFits(inp) && 2 < |AlphasEq(inp)|
    ensures Expected([], inp) == 0
  {
    hide Weighted, MemoryWeights, BytecodeWeights, InputFits, AlphasEq;
    WeightedNothing(BytecodeWeights(inp));
    WeightedNothing(MemoryWeights(inp.memory, inp.c, AlphasEq(inp)));
    AddZero(0);
  }

  lemma OneMoreExpected(t: Trace, rest: seq<Trace>, inp: Input)
    requires InputFits(inp) && ColumnsFit(t, AlphasEq(inp)) && TablesFit(rest, AlphasEq(inp)) && 2 < |AlphasEq(inp)|
    ensures TablesFit([t] + rest, AlphasEq(inp))
    ensures Expected([t] + rest, inp)
         == Add(Add(Weighted(Fetches(t, AlphasEq(inp)), BytecodeWeights(inp)),
                    Add(BusTerm(t, inp.c, AlphasEq(inp)), Weighted(TableCells(t, t.table.lookups), MemoryWeights(inp.memory, inp.c, AlphasEq(inp))))),
                Expected(rest, inp))
  {
    hide Fetches, Weighted, BusTerm, MemoryWeights, BytecodeWeights, InputFits, TableCells, AlphasEq, MessageSum, Messages, OnBus, Together;
    var c, al := inp.c, AlphasEq(inp);
    var wB, wM := BytecodeWeights(inp), MemoryWeights(inp.memory, c, al);
    var tables := [t] + rest;
    assert tables[0] == t && tables[1..] == rest;
    BusDirections(t, rest, false, c, al);
    BusDirections(t, rest, true, c, al);
    WeightedSum(Fetches(t, al), AllFetches(rest, al), wB);
    WeightedSum(TableCells(t, t.table.lookups), MemoryCells(rest, al), wM);
    OneTable(t, Weighted(Fetches(t, al), wB), Weighted(TableCells(t, t.table.lookups), wM), c, al);
    var s := MessageSum(Messages(t, al), c, al);
    TogetherAdds(Weighted(Fetches(t, al), wB), if t.table.bus.pull == false then s else 0, if t.table.bus.pull == true then s else 0,
                 Weighted(TableCells(t, t.table.lookups), wM),
                 Weighted(AllFetches(rest, al), wB), MessageSum(OnBus(rest, false, al), c, al), MessageSum(OnBus(rest, true, al), c, al),
                 Weighted(MemoryCells(rest, al), wM));
  }

  /** The sections of all tables add what they fetch, push and read, and take away what they pull. */
  lemma {:induction false} TablesSum(tables: seq<Trace>, offset: nat, inp: Input)
    requires InputFits(inp) && TablesFit(tables, AlphasEq(inp)) && |inp.bytecode| == Pow2(inp.logBytecode) * BYTECODE_STRIDE
    requires TablesRead(tables, inp) && 2 < |AlphasEq(inp)|
    ensures var ps := AllTableParts(tables, offset, inp.c, AlphasEq(inp)); Even(ps) && PartsSum(ps) == Expected(tables, inp)
    decreases |tables|
  {
    hide TableParts, TableEnd, TableReads, ColumnsFit, Fetches, Weighted, BusTerm, MemoryWeights, BytecodeWeights, InputFits, TableCells, AlphasEq, QuotientSum, Expected;
    if tables == [] {
      NothingExpected(inp);
    } else {
      var t, rest := tables[0], tables[1..];
      var next := TableEnd(t, offset);
      assert tables == [t] + rest;
      TableSum(t, offset, inp);
      TablesSum(rest, next, inp);
      PartsSumAppend(TableParts(t, offset, inp.c, AlphasEq(inp)), AllTableParts(rest, next, inp.c, AlphasEq(inp)));
      OneMoreExpected(t, rest, inp);
    }
  }

  // ----- the buffers

  function NumsOf(ps: seq<Part>): seq<Fe> { if ps == [] then [] else ps[0].num + NumsOf(ps[1..]) }

  function DensOf(ps: seq<Part>): seq<Fe> { if ps == [] then [] else ps[0].den + DensOf(ps[1..]) }

  lemma {:induction false} PartsQuotient(ps: seq<Part>)
    requires Even(ps)
    ensures |NumsOf(ps)| == |DensOf(ps)| && QuotientSum(NumsOf(ps), DensOf(ps)) == PartsSum(ps)
    decreases |ps|
  {
    if ps != [] {
      PartsQuotient(ps[1..]);
      QuotientAppend(ps[0].num, ps[0].den, NumsOf(ps[1..]), DensOf(ps[1..]));
    }
  }

  /** Sections behind one another are filled by their values in a row. */
  lemma {:induction false} FilledBehind(num: seq<Fe>, den: seq<Fe>, ps: seq<Part>, qs: seq<Part>, end: nat, n: nat)
    requires Filled(num, den, ps, n) && AllFit(qs, n) && Behind(qs, |num|, end)
    ensures Filled(num + NumsOf(qs), den + DensOf(qs), ps + qs, n)
    decreases |qs|
  {
    hide Filled, Pow2;
    if qs == [] {
      assert num + [] == num && den + [] == den && ps + [] == ps;
    } else {
      var q := qs[0];
      assert Fits(q, n);
      FilledNext(num, den, ps, q, n);
      FilledBehind(num + q.num, den + q.den, ps + [q], qs[1..], end, n);
      AppendAssoc(num, q.num, NumsOf(qs[1..]));
      AppendAssoc(den, q.den, DensOf(qs[1..]));
      assert ps + [q] + qs[1..] == ps + qs;
    }
  }

  /** Two fillings with the same sections have the same sum. */
  lemma SameFilling(num: seq<Fe>, den: seq<Fe>, num2: seq<Fe>, den2: seq<Fe>, ps: seq<Part>, n: nat)
    requires Filled(num, den, ps, n) && Filled(num2, den2, ps, n)
    ensures QuotientSum(num, den) == QuotientSum(num2, den2)
  {
    hide QuotientSum, PadZeros, Pow2;
    PaddingAddsNothing(num, den, Pow2(n));
    PaddingAddsNothing(num2, den2, Pow2(n));
  }

  /** Memory, bytecode and its padding in a row. */
  lemma FixedFilled(inp: Input, n: nat)
    requires InputFits(inp) && TotalLen(inp) <= Pow2(n)
    ensures Pow2(inp.logBytecode) <= Pow2(BytecodeLog(inp))
    ensures var k := Pow2(BytecodeLog(inp)) - Pow2(inp.logBytecode); var m, b := MemoryPart(inp), BytecodePart(inp);
            && |m.num + b.num + Repeated(0, k)| == FirstTable(inp)
            && Filled(m.num + b.num + Repeated(0, k), m.den + b.den + Repeated(1, k), [m, b, BytecodePadding(inp)], n)
  {
    hide FingerRows, AlphasEq, TablesFit, Filled, MultipleOf, Fits;
    Pow2Monotone(inp.logBytecode, BytecodeLog(inp));
    FixedPartsFit(inp, n);
    var m, b := MemoryPart(inp), BytecodePart(inp);
    FilledNothing(n);
    FilledNext([], [], [], m, n);
    assert [] + m.num == m.num && [] + m.den == m.den && [] + [m] == [m];
    FilledPadding(m.num, m.den, [m], b, BytecodePadding(inp), n);
    assert [m] + [b, BytecodePadding(inp)] == [m, b, BytecodePadding(inp)];
  }

  lemma FixedSum(inp: Input, k: nat)
    requires InputFits(inp)
    ensures var m, b := MemoryPart(inp), BytecodePart(inp);
            && |m.num| == |m.den| && |b.num| == |b.den|
            && QuotientSum(m.num + b.num + Repeated(0, k), m.den + b.den + Repeated(1, k)) == Add(QuotientSum(m.num, m.den), QuotientSum(b.num, b.den))
  {
    hide FingerRows, AlphasEq, TablesFit, Dot;
    var m, b := MemoryPart(inp), BytecodePart(inp);
    QuotientAppend(m.num, m.den, b.num, b.den);
    QuotientAppend(m.num + b.num, m.den + b.den, Repeated(0, k), Repeated(1, k));
    DotZero(Repeated(0, k), Inverses(Repeated(1, k)));
    AddZero(QuotientSum(m.num + b.num, m.den + b.den));
  }

  /** Whatever is filled with the sections of the input adds up to memory, bytecode and tables. */
  lemma FilledSum(inp: Input, num: seq<Fe>, den: seq<Fe>, n: nat)
    requires InputFits(inp) && TotalLen(inp) <= Pow2(n) && Filled(num, den, Parts(inp), n)
    requires Even(AllTableParts(inp.tables, FirstTable(inp), inp.c, AlphasEq(inp)))
    ensures var m, b := MemoryPart(inp), BytecodePart(inp);
            && |m.num| == |m.den| && |b.num| == |b.den|
            && QuotientSum(num, den) == Add(Add(QuotientSum(m.num, m.den), QuotientSum(b.num, b.den)),
                                            PartsSum(AllTableParts(inp.tables, FirstTable(inp), inp.c, AlphasEq(inp))))
  {
    hide MemoryPart, BytecodePart, BytecodePadding, AlphasEq, AllTableParts, Filled, QuotientSum, PartsSum, Fits, Even, NumsOf, DensOf, TotalLen, FirstTable, TablesFit;
    FixedFilled(inp, n);
    PartsFit(inp, n);
    var k := Pow2(BytecodeLog(inp)) - Pow2(inp.logBytecode);
    FixedSum(inp, k);
    var m, b := MemoryPart(inp), BytecodePart(inp);
    var fixed, qs := [m, b, BytecodePadding(inp)], AllTableParts(inp.tables, FirstTable(inp), inp.c, AlphasEq(inp));
    var num0, den0 := m.num + b.num + Repeated(0, k), m.den + b.den + Repeated(1, k);
    TailFits(fixed, qs, n);
    TablesBehind(inp.tables, FirstTable(inp), inp.c, AlphasEq(inp));
    FilledBehind(num0, den0, fixed, qs, TablesEnd(inp.tables, FirstTable(inp)), n);
    PartsQuotient(qs);
    QuotientAppend(num0, den0, NumsOf(qs), DensOf(qs));
    SameFilling(num, den, num0 + NumsOf(qs), den0 + DensOf(qs), Parts(inp), n);
  }

  lemma TailFits(ps: seq<Part>, qs: seq<Part>, n: nat)
    requires AllFit(ps + qs, n)
    ensures AllFit(qs, n)
  {
    hide Fits;
    forall k {:trigger qs[k]} | 0 <= k < |qs| ensures Fits(qs[k], n) {
      assert (ps + qs)[|ps| + k] == qs[k];
    }
  }

  // ----- zero

  /** Accumulators that count the accesses take away what the accesses add. */
  lemma AccumulatorsSum(inp: Input)
    requires InputFits(inp) && Honest(inp) && 2 < |AlphasEq(inp)|
    ensures var m, b := MemoryPart(inp), BytecodePart(inp); var al := AlphasEq(inp);
            && |m.num| == |m.den| && |b.num| == |b.den|
            && QuotientSum(m.num, m.den) == Neg(Weighted(MemoryCells(inp.tables, al), MemoryWeights(inp.memory, inp.c, al)))
            && QuotientSum(b.num, b.den) == Neg(Weighted(AllFetches(inp.tables, al), BytecodeWeights(inp)))
  {
    hide FingerRows, AlphasEq, Dot, Counts, MemoryCells, AllFetches;
    DotNegated(inp.memoryAcc, Inverses(MemoryPart(inp).den));
    DotNegated(inp.bytecodeAcc, Inverses(BytecodePart(inp).den));
  }

  lemma Cancels(f: Fe, s: Fe, r: Fe)
    ensures Add(Add(Neg(r), Neg(f)), Together(f, s, s, r)) == 0
  {
    TogetherIs(f, s, s, r);
    LiftSelf(r);
    LiftSelf(f);
    LiftSelf(0);
    LiftNeg(r);
    LiftNeg(f);
    var x: int, y: int := 0 - r, 0 - f;
    LiftAdd(x, y);
    LiftAdd(x + y, f + (s - s + r));
  }

  lemma FilledBalances(inp: Input, num: seq<Fe>, den: seq<Fe>, n: nat)
    requires InputFits(inp) && TotalLen(inp) <= Pow2(n) && Filled(num, den, Parts(inp), n) && Honest(inp)
    ensures QuotientSum(num, den) == 0
  {
    hide MemoryPart, BytecodePart, AlphasEq, AllTableParts, Filled, Parts, QuotientSum, Weighted, MessageSum, PartsSum, InputFits, TotalLen, FirstTable, TablesFit,
         Together, MemoryCells, AllFetches, MemoryWeights, BytecodeWeights;
    var al := AlphasEq(inp);
    BytecodeLength(inp.logBytecode);
    assert 2 < |al| && inp.tables != [] && TablesFit(inp.tables, al) && |inp.bytecode| == Pow2(inp.logBytecode) * BYTECODE_STRIDE by {
      InputShape(inp);
    }
    TablesSum(inp.tables, FirstTable(inp), inp);
    FilledSum(inp, num, den, n);
    AccumulatorsSum(inp);
    SameMessages(OnBus(inp.tables, false, al), OnBus(inp.tables, true, al), inp.c, al);
    Cancels(Weighted(AllFetches(inp.tables, al), BytecodeWeights(inp)), MessageSum(OnBus(inp.tables, false, al), inp.c, al),
            Weighted(MemoryCells(inp.tables, al), MemoryWeights(inp.memory, inp.c, al)));
  }

  lemma InputShape(inp: Input)
    requires InputFits(inp)
    ensures 2 < |AlphasEq(inp)| && inp.tables != [] && TablesFit(inp.tables, AlphasEq(inp)) && |inp.bytecode| == Pow2(inp.logBytecode + 4)
  {
    AlphasLong(inp);
  }

  /** The order in which the buffers are stored, and padding them, do not matter. */
  lemma StoredSum(s: seq<Fe>, d: seq<Fe>, num: seq<Fe>, den: seq<Fe>, n: nat, p: nat)
    requires StoredAs(s, num, p) && StoredAs(d, den, p) && |num| == |den| <= Pow2(n) && p <= n
    ensures |s| == |d| == |num| && QuotientSum(s, d) == QuotientSum(num, den)
  {
    hide QuotientSum, PadZeros, PadOnes, StoredAs, Pow2, ChunkReversed;
    StoredLength(s, num, p);
    StoredLength(d, den, p);
    var size := Pow2(n);
    PaddingAddsNothing(s, d, size);
    PaddingAddsNothing(num, den, size);
    StoredPadded(s, num, p, n - p, size);
    StoredPadded(d, den, p, n - p, size);
    QuotientReversed(PadZeros(num, size), PadZeros(den, size), n - p, p);
  }

  /** The buffers that prove_generic_logup fills from an honest execution have the sum it asserts. */
  lemma HonestSectionsBalance(inp: Input, sn: seq<Fe>, sd: seq<Fe>, n: nat)
    requires InputFits(inp) && TotalLen(inp) <= Pow2(n) && Honest(inp) && Laid(sn, sd, Parts(inp), n, Pivot(inp))
    ensures |sn| == |sd| <= Pow2(n) && QuotientSum(sn, sd) == 0 && QuotientSum(PadZeros(sn, Pow2(n)), PadOnes(sd, Pow2(n))) == 0
  {
    hide Filled, Parts, QuotientSum, Honest, TotalLen, StoredAs, PadZeros, PadOnes, Pivot, TablesFit, Pow2;
    var num: seq<Fe>, den: seq<Fe> :| Filled(num, den, Parts(inp), n) && StoredAs(sn, num, Pivot(inp)) && StoredAs(sd, den, Pivot(inp));
    FilledBalances(inp, num, den, n);
    PivotSmall(inp, n);
    FilledShape(num, den, Parts(inp), n);
    StoredSum(sn, sd, num, den, n, Pivot(inp));
    PaddingAddsNothing(sn, sd, Pow2(n));
  }

  lemma FilledShape(num: seq<Fe>, den: seq<Fe>, ps: seq<Part>, n: nat)
    requires Filled(num, den, ps, n)
    ensures |num| == |den| <= Pow2(n)
  {
  }

  lemma PivotSmall(inp: Input, n: nat)
    requires InputFits(inp) && TotalLen(inp) <= Pow2(n)
    ensures Pivot(inp) <= n
  {
    hide TablesFit, AlphasEq, MultipleOf;
    PivotFits(inp);
    FixedPartsFit(inp, n);
    LogFits(inp.logMemory, n);
  }

  /** prove_generic_logup up to its sanity check, on an honest execution. */
  method BalancedBuffers(inp: Input, ghost n: nat) returns (numerators: array<Fe>, denominators: array<Fe>)
    requires InputFits(inp) && TotalLen(inp) <= Pow2(n) && Honest(inp)
    ensures numerators.Length == denominators.Length == TotalLen(inp) && QuotientSum(numerators[..], denominators[..]) == 0
  {
    hide Laid, Honest, QuotientSum, Parts, Pivot, TablesFit, Pow2;
    numerators, denominators := FillBuffers(inp, n);
    HonestSectionsBalance(inp, numerators[..], denominators[..], n);
  }
}
