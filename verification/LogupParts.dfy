/**
 The sections of the logup argument: memory, bytecode, and for every table its bytecode lookup, its
 bus and its memory lookups; their values row by row, and the same values as the verifier forms them
 from column evaluations (crates/sub_protocols/src/logup.rs).
 */
module LogupParts {
  import opened Arith
  import opened Field
  import opened Multilinear
  import opened StorageLayout
  import opened WhirConstraints
  import opened Sections

  const N_RUNTIME_COLUMNS := 8
  const N_INSTRUCTION_COLUMNS := 12
  const BYTECODE_STRIDE := 16
  const COL_PC := 0
  const LOGUP_MEMORY_DOMAINSEP: Fe := 1
  const LOGUP_BYTECODE_DOMAINSEP: Fe := 2

  datatype BusData = Column(col: nat) | Constant(value: nat)

  datatype Bus = Bus(pull: bool, multiplicity: nat, domainsep: BusData, data: seq<BusData>)

  datatype Lookup = Lookup(index: nat, values: seq<nat>)

  datatype Table = Table(isExecution: bool, bus: Bus, lookups: seq<Lookup>)

  /** A table with its rows. */
  datatype Trace = Trace(table: Table, log: nat, columns: seq<seq<Fe>>)

  // ----- fingerprints

  /** finger_print. */
  function FingerPrint(domainsep: Fe, data: seq<Fe>, alphasEq: seq<Fe>): Fe
    requires |alphasEq| > |data|
  {
    Add(Dot(alphasEq[..|data|], data), Mul(alphasEq[|alphasEq| - 1], domainsep))
  }

  ghost predicate SameLength(cols: seq<seq<Fe>>, size: nat) { forall k {:trigger cols[k]} | 0 <= k < |cols| :: |cols[k]| == size }

  function Row(cols: seq<seq<Fe>>, i: nat): (r: seq<Fe>)
    requires forall k {:trigger cols[k]} | 0 <= k < |cols| :: i < |cols[k]|
    ensures |r| == |cols|
  {
    seq(|cols|, k requires 0 <= k < |cols| => cols[k][i])
  }

  function DotRows(alphas: seq<Fe>, cols: seq<seq<Fe>>, size: nat): (v: seq<Fe>)
    requires |alphas| == |cols| && SameLength(cols, size)
    ensures |v| == size
  {
    seq(size, i requires 0 <= i < size => Dot(alphas, Row(cols, i)))
  }

  /** The fingerprint of every row. */
  function FingerRows(domainsep: seq<Fe>, cols: seq<seq<Fe>>, alphasEq: seq<Fe>): (v: seq<Fe>)
    requires |alphasEq| > |cols| && SameLength(cols, |domainsep|)
    ensures |v| == |domainsep|
  {
    seq(|domainsep|, i requires 0 <= i < |domainsep| => FingerPrint(domainsep[i], Row(cols, i), alphasEq))
  }

  function Evaluations(cols: seq<seq<Fe>>, y: seq<Fe>): (r: seq<Fe>)
    requires SameLength(cols, Pow2(|y|))
    ensures |r| == |cols|
  {
    seq(|cols|, k requires 0 <= k < |cols| => Mle(cols[k], y))
  }

  lemma {:induction false} DotRowsEvaluate(alphas: seq<Fe>, cols: seq<seq<Fe>>, y: seq<Fe>)
    requires |alphas| == |cols| && SameLength(cols, Pow2(|y|))
    ensures Mle(DotRows(alphas, cols, Pow2(|y|)), y) == Dot(alphas, Evaluations(cols, y))
    decreases |cols|
  {
    hide Mle;
    var n := Pow2(|y|);
    var v := DotRows(alphas, cols, n);
    if cols == [] {
      MleConstant(v, y, 0);
    } else {
      var first, rest := Scaled(alphas[0], cols[0]), DotRows(alphas[1..], cols[1..], n);
      forall i {:trigger v[i]} | 0 <= i < n ensures v[i] == Add(first[i], rest[i]) {
        assert Row(cols, i)[1..] == Row(cols[1..], i);
      }
      assert IsSum(first, rest, v);
      MleSum(first, rest, v, y);
      MleScaled(alphas[0], cols[0], first, y);
      DotRowsEvaluate(alphas[1..], cols[1..], y);
      assert Evaluations(cols, y)[1..] == Evaluations(cols[1..], y);
    }
  }

  /** Fingerprinting commutes with evaluation. */
  lemma FingerEvaluates(domainsep: seq<Fe>, cols: seq<seq<Fe>>, alphasEq: seq<Fe>, y: seq<Fe>)
    requires |alphasEq| > |cols| && SameLength(cols, |domainsep|) && |domainsep| == Pow2(|y|)
    ensures Mle(FingerRows(domainsep, cols, alphasEq), y) == FingerPrint(Mle(domainsep, y), Evaluations(cols, y), alphasEq)
  {
    hide Mle;
    var last := alphasEq[|alphasEq| - 1];
    var u, w := DotRows(alphasEq[..|cols|], cols, |domainsep|), Scaled(last, domainsep);
    assert IsSum(u, w, FingerRows(domainsep, cols, alphasEq));
    MleSum(u, w, FingerRows(domainsep, cols, alphasEq), y);
    MleScaled(last, domainsep, w, y);
    DotRowsEvaluate(alphasEq[..|cols|], cols, y);
  }

  function Repeated(x: Fe, size: nat): (v: seq<Fe>)
    ensures |v| == size
  {
    seq(size, _ => x)
  }

  function Minus(c: Fe, v: seq<Fe>): (w: seq<Fe>)
    ensures |w| == |v|
  {
    seq(|v|, i requires 0 <= i < |v| => Sub(c, v[i]))
  }

  function PlusConst(c: Fe, v: seq<Fe>): (w: seq<Fe>)
    ensures |w| == |v|
  {
    seq(|v|, i requires 0 <= i < |v| => Add(c, v[i]))
  }

  lemma SubBack(a: Fe, b: Fe)
    ensures Add(Sub(a, b), b) == a && Sub(Add(a, b), b) == a
  {
    LiftSelf(a);
    LiftSelf(b);
    LiftSub(a, b);
    LiftAdd(a - b, b);
    LiftAdd(a, b);
    LiftSub(a + b, b);
  }

  lemma MinusEvaluates(c: Fe, v: seq<Fe>, y: seq<Fe>)
    requires |v| == Pow2(|y|)
    ensures Mle(Minus(c, v), y) == Sub(c, Mle(v, y))
  {
    hide Mle;
    forall i | 0 <= i < |v| ensures Repeated(c, |v|)[i] == Add(Minus(c, v)[i], v[i]) {
      SubBack(c, v[i]);
    }
    assert IsSum(Minus(c, v), v, Repeated(c, |v|));
    MleSum(Minus(c, v), v, Repeated(c, |v|), y);
    MleConstant(Repeated(c, |v|), y, c);
    SubBack(Mle(Minus(c, v), y), Mle(v, y));
  }

  lemma PlusEvaluates(c: Fe, v: seq<Fe>, y: seq<Fe>)
    requires |v| == Pow2(|y|)
    ensures Mle(PlusConst(c, v), y) == Add(c, Mle(v, y))
  {
    hide Mle;
    assert IsSum(Repeated(c, |v|), v, PlusConst(c, v));
    MleSum(Repeated(c, |v|), v, PlusConst(c, v), y);
    MleConstant(Repeated(c, |v|), y, c);
  }

  // ----- one table

  ghost predicate ColumnsFit(t: Trace, alphasEq: seq<Fe>) {
    && SameLength(t.columns, Pow2(t.log))
    && t.table.bus.multiplicity < |t.columns| && |t.table.bus.data| < |alphasEq| && 2 < |alphasEq|
    && EntryFits(t, t.table.bus.domainsep) && (forall j {:trigger t.table.bus.data[j]} | 0 <= j < |t.table.bus.data| :: EntryFits(t, t.table.bus.data[j]))
    && (forall j {:trigger t.table.lookups[j]} | 0 <= j < |t.table.lookups| :: LookupFits(t, t.table.lookups[j]))
    && (t.table.isExecution ==> N_RUNTIME_COLUMNS + N_INSTRUCTION_COLUMNS <= |t.columns| && N_INSTRUCTION_COLUMNS + 1 < |alphasEq|)
  }

  ghost predicate EntryFits(t: Trace, e: BusData) { e.Column? ==> e.col < |t.columns| }

  ghost predicate LookupFits(t: Trace, l: Lookup) {
    l.index < |t.columns| && forall i {:trigger l.values[i]} | 0 <= i < |l.values| :: l.values[i] < |t.columns|
  }

  function EntryColumn(t: Trace, e: BusData): (v: seq<Fe>)
    requires EntryFits(t, e) && SameLength(t.columns, Pow2(t.log))
    ensures |v| == Pow2(t.log)
  {
    match e case Column(c) => t.columns[c] case Constant(x) => Repeated(Res(x), Pow2(t.log))
  }

  function EntryValue(t: Trace, e: BusData, y: seq<Fe>): Fe
    requires EntryFits(t, e) && SameLength(t.columns, Pow2(t.log)) && |y| == t.log
  {
    match e case Column(c) => Mle(t.columns[c], y) case Constant(x) => Res(x)
  }

  function BusColumns(t: Trace, alphasEq: seq<Fe>): (cols: seq<seq<Fe>>)
    requires ColumnsFit(t, alphasEq)
    ensures |cols| == |t.table.bus.data| && SameLength(cols, Pow2(t.log))
  {
    seq(|t.table.bus.data|, j requires 0 <= j < |t.table.bus.data| => EntryColumn(t, t.table.bus.data[j]))
  }

  /** The instruction columns, then the program counter. */
  function BytecodeColumns(t: Trace, alphasEq: seq<Fe>): (cols: seq<seq<Fe>>)
    requires ColumnsFit(t, alphasEq) && t.table.isExecution
    ensures |cols| == N_INSTRUCTION_COLUMNS + 1 && SameLength(cols, Pow2(t.log))
  {
    t.columns[N_RUNTIME_COLUMNS..N_RUNTIME_COLUMNS + N_INSTRUCTION_COLUMNS] + [t.columns[COL_PC]]
  }

  function ExecutionPart(t: Trace, offset: nat, c: Fe, alphasEq: seq<Fe>): Part
    requires ColumnsFit(t, alphasEq) && t.table.isExecution
  {
    Part(offset, t.log, Repeated(1, Pow2(t.log)),
         Minus(c, FingerRows(Repeated(LOGUP_BYTECODE_DOMAINSEP, Pow2(t.log)), BytecodeColumns(t, alphasEq), alphasEq)))
  }

  function BusPart(t: Trace, offset: nat, c: Fe, alphasEq: seq<Fe>): Part
    requires ColumnsFit(t, alphasEq)
  {
    var m := t.columns[t.table.bus.multiplicity];
    Part(offset, t.log, if t.table.bus.pull then Minus(0, m) else m,
         PlusConst(c, FingerRows(EntryColumn(t, t.table.bus.domainsep), BusColumns(t, alphasEq), alphasEq)))
  }

  /** One looked-up value: its column, the column of the base address, and the distance from it. */
  datatype Access = Access(index: nat, distance: nat, value: nat)

  function AccessesOf(l: Lookup, i: nat): seq<Access>
    requires i <= |l.values|
    decreases |l.values| - i
  {
    if i == |l.values| then [] else [Access(l.index, i, l.values[i])] + AccessesOf(l, i + 1)
  }

  function Accesses(lookups: seq<Lookup>): seq<Access> {
    if lookups == [] then [] else AccessesOf(lookups[0], 0) + Accesses(lookups[1..])
  }

  ghost predicate AccessesFit(t: Trace, accesses: seq<Access>) {
    forall j {:trigger accesses[j]} | 0 <= j < |accesses| :: accesses[j].index < |t.columns| && accesses[j].value < |t.columns|
  }

  lemma {:induction false} AccessesOfFit(t: Trace, l: Lookup, i: nat)
    requires LookupFits(t, l) && i <= |l.values|
    ensures AccessesFit(t, AccessesOf(l, i))
    decreases |l.values| - i
  {
    if i < |l.values| {
      AccessesOfFit(t, l, i + 1);
      assert l.values[i] < |t.columns|;
    }
  }

  lemma {:induction false} LookupsFit(t: Trace, lookups: seq<Lookup>)
    requires forall j {:trigger lookups[j]} | 0 <= j < |lookups| :: LookupFits(t, lookups[j])
    ensures AccessesFit(t, Accesses(lookups))
    decreases |lookups|
  {
    if lookups != [] {
      AccessesOfFit(t, lookups[0], 0);
      LookupsFit(t, lookups[1..]);
    }
  }

  function AccessPart(t: Trace, a: Access, offset: nat, c: Fe, alphasEq: seq<Fe>): Part
    requires SameLength(t.columns, Pow2(t.log)) && a.index < |t.columns| && a.value < |t.columns| && 2 < |alphasEq|
  {
    Part(offset, t.log, Repeated(1, Pow2(t.log)),
         Minus(c, FingerRows(Repeated(LOGUP_MEMORY_DOMAINSEP, Pow2(t.log)),
                             [t.columns[a.value], PlusConst(Res(a.distance), t.columns[a.index])], alphasEq)))
  }

  function AccessParts(t: Trace, accesses: seq<Access>, offset: nat, c: Fe, alphasEq: seq<Fe>): (ps: seq<Part>)
    requires SameLength(t.columns, Pow2(t.log)) && AccessesFit(t, accesses) && 2 < |alphasEq|
    ensures |ps| == |accesses|
  {
    if accesses == [] then []
    else [AccessPart(t, accesses[0], offset, c, alphasEq)] + AccessParts(t, accesses[1..], offset + Pow2(t.log), c, alphasEq)
  }

  /** Where the bus section of the table starts: after the bytecode lookup of the execution table. */
  function BusOffset(t: Trace, offset: nat): nat { if t.table.isExecution then offset + Pow2(t.log) else offset }

  function TableParts(t: Trace, offset: nat, c: Fe, alphasEq: seq<Fe>): seq<Part>
    requires ColumnsFit(t, alphasEq)
  {
    LookupsFit(t, t.table.lookups);
    (if t.table.isExecution then [ExecutionPart(t, offset, c, alphasEq)] else [])
    + [BusPart(t, BusOffset(t, offset), c, alphasEq)]
    + AccessParts(t, Accesses(t.table.lookups), BusOffset(t, offset) + Pow2(t.log), c, alphasEq)
  }

  /** The offset after the table. */
  function TableEnd(t: Trace, offset: nat): nat { AccessesEnd(t, Accesses(t.table.lookups), BusOffset(t, offset) + Pow2(t.log)) }

  function AccessesEnd(t: Trace, accesses: seq<Access>, offset: nat): nat
    decreases |accesses|
  {
    if accesses == [] then offset else AccessesEnd(t, accesses[1..], offset + Pow2(t.log))
  }

  ghost predicate TablesFit(tables: seq<Trace>, alphasEq: seq<Fe>) { forall j {:trigger tables[j]} | 0 <= j < |tables| :: ColumnsFit(tables[j], alphasEq) }

  function AllTableParts(tables: seq<Trace>, offset: nat, c: Fe, alphasEq: seq<Fe>): seq<Part>
    requires TablesFit(tables, alphasEq)
    decreases |tables|
  {
    if tables == [] then []
    else TableParts(tables[0], offset, c, alphasEq) + AllTableParts(tables[1..], TableEnd(tables[0], offset), c, alphasEq)
  }

  function TablesEnd(tables: seq<Trace>, offset: nat): nat
    decreases |tables|
  {
    if tables == [] then offset else TablesEnd(tables[1..], TableEnd(tables[0], offset))
  }

  // ----- memory and bytecode

  /** Everything the prover holds; the bytecode is stored row by row, 16 values a row. */
  datatype Input = Input(c: Fe, alphas: seq<Fe>, logMemory: nat, memory: seq<Fe>, memoryAcc: seq<Fe>,
                         logBytecode: nat, bytecode: seq<Fe>, bytecodeAcc: seq<Fe>, tables: seq<Trace>)

  function AlphasEq(inp: Input): seq<Fe> { EqVec(inp.alphas, 1) }

  function BytecodeLog(inp: Input): nat
    requires inp.tables != []
  {
    if inp.logBytecode >= inp.tables[0].log then inp.logBytecode else inp.tables[0].log
  }

  ghost predicate Descending(tables: seq<Trace>) {
    forall i, j {:trigger tables[i], tables[j]} | 0 <= i < j < |tables| :: tables[i].log >= tables[j].log
  }

  /** Heights sorted, memory at least as tall as everything else, 12 instruction columns padded with zeros. */
  ghost predicate InputFits(inp: Input) {
    && inp.tables != [] && Descending(inp.tables) && inp.tables[0].log <= inp.logMemory && inp.logBytecode <= inp.logMemory
    && |inp.memory| == |inp.memoryAcc| == Pow2(inp.logMemory) && |inp.bytecodeAcc| == Pow2(inp.logBytecode)
    && |inp.bytecode| == Pow2(inp.logBytecode + 4)
    && (forall i: nat, k: nat {:trigger inp.bytecode[BytecodeCell(i, k)]} | BytecodeCell(i, k) < |inp.bytecode| && N_INSTRUCTION_COLUMNS <= k < BYTECODE_STRIDE ::
          inp.bytecode[BytecodeCell(i, k)] == 0)
    && |inp.alphas| >= 4 && TablesFit(inp.tables, AlphasEq(inp))
  }

  function BytecodeCell(i: nat, k: nat): nat { i * BYTECODE_STRIDE + k }

  function MemoryPart(inp: Input): Part
    requires InputFits(inp)
  {
    AlphasLong(inp);
    Part(0, inp.logMemory, Minus(0, inp.memoryAcc),
         Minus(inp.c, FingerRows(Repeated(LOGUP_MEMORY_DOMAINSEP, |inp.memory|), [inp.memory, Indices(|inp.memory|)], AlphasEq(inp))))
  }

  lemma AlphasLong(inp: Input)
    requires |inp.alphas| >= 4
    ensures |AlphasEq(inp)| >= 16
  {
    Pow2Monotone(4, |inp.alphas|);
    assert Pow2(4) == 16;
  }

  lemma BytecodeLength(log: nat)
    ensures Pow2(log + 4) == Pow2(log) * BYTECODE_STRIDE
  {
    Pow2Add(log, 4);
    assert Pow2(4) == 16;
  }

  function InstructionColumn(inp: Input, k: nat): (v: seq<Fe>)
    requires InputFits(inp) && k < BYTECODE_STRIDE
    ensures |v| == Pow2(inp.logBytecode)
  {
    BytecodeLength(inp.logBytecode);
    CellsBelow(Pow2(inp.logBytecode), k);
    seq(Pow2(inp.logBytecode), i requires 0 <= i < Pow2(inp.logBytecode) => inp.bytecode[BytecodeCell(i, k)])
  }

  lemma CellsBelow(rows: nat, k: nat)
    requires k < BYTECODE_STRIDE
    ensures forall i: nat {:trigger BytecodeCell(i, k)} | i < rows :: BytecodeCell(i, k) < rows * BYTECODE_STRIDE
  {
  }

  function InstructionColumns(inp: Input): (cols: seq<seq<Fe>>)
    requires InputFits(inp)
    ensures |cols| == N_INSTRUCTION_COLUMNS + 1 && SameLength(cols, Pow2(inp.logBytecode))
  {
    seq(N_INSTRUCTION_COLUMNS, k requires 0 <= k < N_INSTRUCTION_COLUMNS => InstructionColumn(inp, k)) + [Indices(Pow2(inp.logBytecode))]
  }

  function BytecodePart(inp: Input): Part
    requires InputFits(inp)
  {
    AlphasLong(inp);
    Part(Pow2(inp.logMemory), inp.logBytecode, Minus(0, inp.bytecodeAcc),
         Minus(inp.c, FingerRows(Repeated(LOGUP_BYTECODE_DOMAINSEP, Pow2(inp.logBytecode)), InstructionColumns(inp), AlphasEq(inp))))
  }

  /** Numerators 0 and denominators 1 up to the height of the tallest table. */
  ghost function BytecodePadding(inp: Input): Part
    requires InputFits(inp)
  {
    Part(Pow2(inp.logMemory), BytecodeLog(inp), Repeated(0, Pow2(BytecodeLog(inp))), ZerosThenOnes(Pow2(inp.logBytecode), Pow2(BytecodeLog(inp))))
  }

  function FirstTable(inp: Input): nat
    requires inp.tables != []
  {
    Pow2(inp.logMemory) + Pow2(BytecodeLog(inp))
  }

  ghost function Parts(inp: Input): seq<Part>
    requires InputFits(inp)
  {
    [MemoryPart(inp), BytecodePart(inp), BytecodePadding(inp)] + AllTableParts(inp.tables, FirstTable(inp), inp.c, AlphasEq(inp))
  }

  function TotalLen(inp: Input): nat
    requires inp.tables != []
  {
    TablesEnd(inp.tables, FirstTable(inp))
  }

  // ----- every section is selected by its shifted offset

  lemma {:induction false} AccessPartsFit(t: Trace, accesses: seq<Access>, offset: nat, c: Fe, alphasEq: seq<Fe>, n: nat)
    requires SameLength(t.columns, Pow2(t.log)) && AccessesFit(t, accesses) && 2 < |alphasEq|
    requires MultipleOf(Pow2(t.log), offset) && AccessesEnd(t, accesses, offset) <= Pow2(n) && t.log <= n
    ensures AllFit(AccessParts(t, accesses, offset, c, alphasEq), n) && MultipleOf(Pow2(t.log), AccessesEnd(t, accesses, offset))
    ensures offset <= AccessesEnd(t, accesses, offset)
    decreases |accesses|
  {
    hide MultipleOf;
    if accesses != [] {
      MultipleSelf(t.log, t.log);
      MultipleSum(Pow2(t.log), offset, Pow2(t.log));
      AccessesGrow(t, accesses[1..], offset + Pow2(t.log));
      AccessPartsFit(t, accesses[1..], offset + Pow2(t.log), c, alphasEq, n);
    }
  }

  lemma {:induction false} AccessesGrow(t: Trace, accesses: seq<Access>, offset: nat)
    ensures offset <= AccessesEnd(t, accesses, offset)
    decreases |accesses|
  {
    if accesses != [] {
      AccessesGrow(t, accesses[1..], offset + Pow2(t.log));
    }
  }

  lemma LogFits(log: nat, n: nat)
    requires Pow2(log) <= Pow2(n)
    ensures log <= n
  {
    if log > n {
      Pow2Monotone(n, log);
    }
  }

  lemma TablePartsFit(t: Trace, offset: nat, c: Fe, alphasEq: seq<Fe>, n: nat)
    requires ColumnsFit(t, alphasEq) && MultipleOf(Pow2(t.log), offset) && TableEnd(t, offset) <= Pow2(n)
    ensures AllFit(TableParts(t, offset, c, alphasEq), n) && MultipleOf(Pow2(t.log), TableEnd(t, offset)) && offset <= TableEnd(t, offset)
  {
    hide MultipleOf, FingerRows;
    var s := Pow2(t.log);
    var bus := BusOffset(t, offset);
    MultipleSelf(t.log, t.log);
    MultipleSum(s, offset, s);
    MultipleSum(s, bus, s);
    LookupsFit(t, t.table.lookups);
    AccessesGrow(t, Accesses(t.table.lookups), bus + s);
    LogFits(t.log, n);
    AccessPartsFit(t, Accesses(t.table.lookups), bus + s, c, alphasEq, n);
  }

  lemma {:induction false} AllTablePartsFit(tables: seq<Trace>, offset: nat, c: Fe, alphasEq: seq<Fe>, n: nat)
    requires TablesFit(tables, alphasEq) && Descending(tables) && TablesEnd(tables, offset) <= Pow2(n)
    requires tables != [] ==> MultipleOf(Pow2(tables[0].log), offset)
    ensures AllFit(AllTableParts(tables, offset, c, alphasEq), n) && offset <= TablesEnd(tables, offset)
    decreases |tables|
  {
    hide MultipleOf, TableParts, TableEnd, ColumnsFit;
    if tables != [] {
      var t := tables[0];
      TablesGrow(tables[1..], TableEnd(t, offset));
      TablePartsFit(t, offset, c, alphasEq, n);
      if |tables| > 1 {
        assert tables[1].log <= tables[0].log;
        MultiplePow(tables[1].log, t.log, TableEnd(t, offset));
      }
      AllTablePartsFit(tables[1..], TableEnd(t, offset), c, alphasEq, n);
    }
  }

  lemma {:induction false} TablesGrow(tables: seq<Trace>, offset: nat)
    ensures offset <= TablesEnd(tables, offset)
    decreases |tables|
  {
    if tables != [] {
      var t := tables[0];
      AccessesGrow(t, Accesses(t.table.lookups), BusOffset(t, offset) + Pow2(t.log));
      TablesGrow(tables[1..], TableEnd(t, offset));
    }
  }

  /** Every offset is a multiple of its section's size, and all sections fit in the table. */
  lemma PartsFit(inp: Input, n: nat)
    requires InputFits(inp) && TotalLen(inp) <= Pow2(n)
    ensures AllFit(Parts(inp), n)
  {
    hide MultipleOf, TablesFit, Fits, MemoryPart, BytecodePart, BytecodePadding, AllTableParts, AlphasEq, FingerRows, FirstTable, Pow2;
    FixedPartsFit(inp, n);
    FirstTableAligned(inp);
    AllTablePartsFit(inp.tables, FirstTable(inp), inp.c, AlphasEq(inp), n);
  }

  /** Memory and bytecode take a multiple of the tallest table's height. */
  lemma FirstTableAligned(inp: Input)
    requires InputFits(inp)
    ensures MultipleOf(Pow2(inp.tables[0].log), FirstTable(inp))
  {
    hide MultipleOf, TablesFit, AlphasEq;
    var t, m, b := inp.tables[0].log, inp.logMemory, BytecodeLog(inp);
    MultipleSelf(t, m);
    MultipleSelf(t, b);
    MultipleSum(Pow2(t), Pow2(m), Pow2(b));
  }

  /** The memory section, the bytecode section and its padding. */
  lemma FixedPartsFit(inp: Input, n: nat)
    requires InputFits(inp) && TotalLen(inp) <= Pow2(n)
    ensures Fits(MemoryPart(inp), n) && Fits(BytecodePart(inp), n) && Fits(BytecodePadding(inp), n) && Pow2(inp.logMemory) <= Pow2(n)
  {
    hide MultipleOf, FingerRows, TablesFit;
    var m, b := inp.logMemory, BytecodeLog(inp);
    TablesGrow(inp.tables, FirstTable(inp));
    LogFits(m, n);
    Pow2Monotone(inp.logBytecode, b);
    MultipleZero(Pow2(m));
    MultipleSelf(inp.logBytecode, m);
    MultipleSelf(b, m);
  }
}
