/**
 What the sections of an honest table add up to: every lookup the weight of the memory cells it reads,
 every fetch the weight of the instruction, and the bus the weights of the messages it carries
 (crates/sub_protocols/src/logup.rs).
 */
module LogupTerms {
  import opened Arith
  import opened Field
  import opened Multilinear
  import opened StorageLayout
  import opened WhirConstraints
  import opened Sections
  import opened LogupParts
  import opened Logup
  import opened LogupSums

  // ----- what an honest execution satisfies

  /** On every row, value i of the lookup is the memory cell i behind the looked-up one. */
  ghost predicate LookupReads(t: Trace, l: Lookup, memory: seq<Fe>)
    requires LookupFits(t, l) && SameLength(t.columns, Pow2(t.log))
  {
    forall i: nat, r: nat {:trigger t.columns[l.values[i]][r]} | i < |l.values| && r < Pow2(t.log) ::
      t.columns[l.index][r] + i < |memory| && t.columns[l.values[i]][r] == memory[t.columns[l.index][r] + i]
  }

  /** Row r holds the instruction its program counter points at. */
  ghost predicate InstructionAt(t: Trace, r: nat, bytecode: seq<Fe>, size: nat)
    requires SameLength(t.columns, Pow2(t.log)) && N_RUNTIME_COLUMNS + N_INSTRUCTION_COLUMNS <= |t.columns| && r < Pow2(t.log)
    requires |bytecode| == size * BYTECODE_STRIDE
  {
    var pc := t.columns[COL_PC][r];
    && pc < size
    && forall k: nat {:trigger BytecodeCell(pc, k)} | k < N_INSTRUCTION_COLUMNS ::
         t.columns[N_RUNTIME_COLUMNS + k][r] == bytecode[BytecodeCell(pc, k)]
  }

  ghost predicate TableReads(t: Trace, alphasEq: seq<Fe>, memory: seq<Fe>, bytecode: seq<Fe>, size: nat)
    requires ColumnsFit(t, alphasEq) && |bytecode| == size * BYTECODE_STRIDE
  {
    && (forall j {:trigger t.table.lookups[j]} | 0 <= j < |t.table.lookups| :: LookupReads(t, t.table.lookups[j], memory))
    && (t.table.isExecution ==> forall r: nat {:trigger InstructionAt(t, r, bytecode, size)} | r < Pow2(t.log) :: InstructionAt(t, r, bytecode, size))
  }

  /** The memory cells the lookups of one table read. */
  function TableCells(t: Trace, lookups: seq<Lookup>): multiset<nat>
    requires forall j {:trigger lookups[j]} | 0 <= j < |lookups| :: LookupFits(t, lookups[j])
  {
    if lookups == [] then multiset{}
    else
      assert LookupFits(t, lookups[0]);
      LookupCells(t.columns[lookups[0].index], |lookups[0].values|) + TableCells(t, lookups[1..])
  }

  function MemoryCells(tables: seq<Trace>, alphasEq: seq<Fe>): multiset<nat>
    requires TablesFit(tables, alphasEq)
  {
    if tables == [] then multiset{}
    else TableCells(tables[0], tables[0].table.lookups) + MemoryCells(tables[1..], alphasEq)
  }

  /** The instructions the execution table fetches. */
  function Fetches(t: Trace, alphasEq: seq<Fe>): multiset<nat>
    requires ColumnsFit(t, alphasEq)
  {
    if t.table.isExecution then Shifted(t.columns[COL_PC], 0) else multiset{}
  }

  function AllFetches(tables: seq<Trace>, alphasEq: seq<Fe>): multiset<nat>
    requires TablesFit(tables, alphasEq)
  {
    if tables == [] then multiset{} else Fetches(tables[0], alphasEq) + AllFetches(tables[1..], alphasEq)
  }

  // ----- fingerprints

  /** The fingerprint is the extension, at the challenges, of the data, zeros, and the domain separator at the very end. */
  lemma FingerIsMle(domainsep: Fe, data: seq<Fe>, alphas: seq<Fe>)
    requires |data| < Pow2(|alphas|)
    ensures FingerPrint(domainsep, data, EqVec(alphas, 1)) == Mle(PadZeros(data, Pow2(|alphas|) - 1) + [domainsep], alphas)
  {
    hide Dot, Mle, EqVec, Pow2, PadZeros;
    MleIsDot(PadZeros(data, Pow2(|alphas|) - 1) + [domainsep], alphas);
    FingerIsDot(domainsep, data, EqVec(alphas, 1));
  }

  lemma FingerIsDot(domainsep: Fe, data: seq<Fe>, e: seq<Fe>)
    requires |data| < |e|
    ensures FingerPrint(domainsep, data, e) == Dot(PadZeros(data, |e| - 1) + [domainsep], e)
  {
    hide Dot;
    var k, last := |data|, |e| - 1;
    ThreeSlices(e, k);
    DotOfParts(data, seq<Fe>(last - k, _ => 0), domainsep, e[..k], e[k..last], e[last]);
  }

  lemma ThreeSlices(e: seq<Fe>, k: nat)
    requires k < |e|
    ensures e == e[..k] + e[k..|e| - 1] + [e[|e| - 1]]
  {
  }

  lemma DotOfParts(a: seq<Fe>, zeros: seq<Fe>, x: Fe, u: seq<Fe>, v: seq<Fe>, y: Fe)
    requires |a| == |u| && |zeros| == |v| && forall i {:trigger zeros[i]} | 0 <= i < |zeros| :: zeros[i] == 0
    ensures Dot(a + zeros + [x], u + v + [y]) == Add(Dot(u, a), Mul(y, x))
  {
    hide Dot;
    DotConcat(a + zeros, [x], u + v, [y]);
    DotConcat(a, zeros, u, v);
    DotZero(zeros, v);
    DotCommute(a, u);
    AddZero(Dot(a, u));
    LastProduct(x, y);
  }

  lemma LastProduct(a: Fe, b: Fe)
    ensures Dot([a], [b]) == Mul(b, a)
  {
    assert [a][1..] == [] && [b][1..] == [];
    AddZero(Mul(a, b));
    MulComm(a, b);
  }

  // ----- one table's sections

  /** What each denominator of the memory section weighs. */
  function MemoryWeights(memory: seq<Fe>, c: Fe, alphasEq: seq<Fe>): (w: seq<Fe>)
    requires 2 < |alphasEq|
    ensures |w| == |memory|
  {
    Inverses(Minus(c, FingerRows(Repeated(LOGUP_MEMORY_DOMAINSEP, |memory|), [memory, Indices(|memory|)], alphasEq)))
  }

  ghost predicate AccessReads(t: Trace, a: Access, memory: seq<Fe>)
    requires SameLength(t.columns, Pow2(t.log)) && a.index < |t.columns| && a.value < |t.columns|
  {
    forall r: nat {:trigger t.columns[a.value][r]} | r < Pow2(t.log) ::
      t.columns[a.index][r] + a.distance < |memory| && t.columns[a.value][r] == memory[t.columns[a.index][r] + a.distance]
  }

  /** The pair looked up on row r is the pair of the memory section at the cell it names. */
  lemma AccessMeetsMemory(t: Trace, a: Access, offset: nat, memory: seq<Fe>, c: Fe, alphasEq: seq<Fe>, r: nat)
    requires SameLength(t.columns, Pow2(t.log)) && a.index < |t.columns| && a.value < |t.columns| && 2 < |alphasEq| && r < Pow2(t.log)
    requires t.columns[a.index][r] + a.distance < |memory| && t.columns[a.value][r] == memory[t.columns[a.index][r] + a.distance]
    ensures AccessPart(t, a, offset, c, alphasEq).den[r]
         == Minus(c, FingerRows(Repeated(LOGUP_MEMORY_DOMAINSEP, |memory|), [memory, Indices(|memory|)], alphasEq))[t.columns[a.index][r] + a.distance]
  {
    hide FingerPrint;
    var x := t.columns[a.index][r];
    var i := x + a.distance;
    LiftSelf(x);
    LiftAdd(a.distance, x);
    assert Row([t.columns[a.value], PlusConst(Res(a.distance), t.columns[a.index])], r) == [memory[i], Res(i)];
    assert Row([memory, Indices(|memory|)], i) == [memory[i], Res(i)];
  }

  /** The instruction fetched on row r is the row of the bytecode section its program counter names. */
  lemma FetchMeetsBytecode(t: Trace, offset: nat, inp: Input, r: nat)
    requires InputFits(inp) && ColumnsFit(t, AlphasEq(inp)) && t.table.isExecution && r < Pow2(t.log)
    requires |inp.bytecode| == Pow2(inp.logBytecode) * BYTECODE_STRIDE && InstructionAt(t, r, inp.bytecode, Pow2(inp.logBytecode))
    ensures t.columns[COL_PC][r] < Pow2(inp.logBytecode)
    ensures ExecutionPart(t, offset, inp.c, AlphasEq(inp)).den[r] == BytecodePart(inp).den[t.columns[COL_PC][r]]
  {
    hide FingerPrint, AlphasEq, TablesFit;
    var pc := t.columns[COL_PC][r];
    LiftSelf(pc);
    var row, fetched := Row(InstructionColumns(inp), pc), Row(BytecodeColumns(t, AlphasEq(inp)), r);
    forall k | 0 <= k < N_INSTRUCTION_COLUMNS + 1 ensures row[k] == fetched[k] {
      if k < N_INSTRUCTION_COLUMNS {
        assert fetched[k] == t.columns[N_RUNTIME_COLUMNS + k][r] == inp.bytecode[BytecodeCell(pc, k)];
      }
    }
    assert row == fetched;
  }

  function PartsSum(ps: seq<Part>): Fe
    requires forall k {:trigger ps[k]} | 0 <= k < |ps| :: |ps[k].num| == |ps[k].den|
  {
    if ps == [] then 0 else Add(QuotientSum(ps[0].num, ps[0].den), PartsSum(ps[1..]))
  }

  ghost predicate Even(ps: seq<Part>) { forall k {:trigger ps[k]} | 0 <= k < |ps| :: |ps[k].num| == |ps[k].den| }

  lemma {:induction false} PartsSumAppend(ps: seq<Part>, qs: seq<Part>)
    requires Even(ps) && Even(qs)
    ensures Even(ps + qs) && PartsSum(ps + qs) == Add(PartsSum(ps), PartsSum(qs))
    decreases |ps|
  {
    if ps == [] {
      assert ps + qs == qs;
      AddZero(PartsSum(qs));
    } else {
      PartsSumAppend(ps[1..], qs);
      assert (ps + qs)[1..] == ps[1..] + qs;
      AddAssoc(QuotientSum(ps[0].num, ps[0].den), PartsSum(ps[1..]), PartsSum(qs));
    }
  }

  /** One access section adds the weights of the cells it looks up. */
  lemma AccessSum(t: Trace, a: Access, offset: nat, memory: seq<Fe>, c: Fe, alphasEq: seq<Fe>)
    requires SameLength(t.columns, Pow2(t.log)) && a.index < |t.columns| && a.value < |t.columns| && 2 < |alphasEq| && AccessReads(t, a, memory)
    ensures var p := AccessPart(t, a, offset, c, alphasEq);
            |p.num| == |p.den| && QuotientSum(p.num, p.den) == Weighted(Shifted(t.columns[a.index], a.distance), MemoryWeights(memory, c, alphasEq))
  {
    hide FingerRows, Dot, Weighted, Shifted;
    var p := AccessPart(t, a, offset, c, alphasEq);
    var v, w := Inverses(p.den), MemoryWeights(memory, c, alphasEq);
    forall r {:trigger v[r]} | 0 <= r < |v|
      ensures t.columns[a.index][r] + a.distance < |w| && v[r] == w[t.columns[a.index][r] + a.distance]
    {
      assert t.columns[a.value][r] == memory[t.columns[a.index][r] + a.distance];
      AccessMeetsMemory(t, a, offset, memory, c, alphasEq, r);
    }
    ColumnLooksUp(t.columns[a.index], a.distance, v, w);
    assert p.num == seq(|v|, _ => 1);
  }

  // ----- the accesses of a table are its lookups

  function LookedUp(t: Trace, accesses: seq<Access>): multiset<nat>
    requires AccessesFit(t, accesses)
  {
    if accesses == [] then multiset{} else Shifted(t.columns[accesses[0].index], accesses[0].distance) + LookedUp(t, accesses[1..])
  }

  lemma {:induction false} LookedUpAppend(t: Trace, a: seq<Access>, b: seq<Access>)
    requires AccessesFit(t, a) && AccessesFit(t, b)
    ensures AccessesFit(t, a + b) && LookedUp(t, a + b) == LookedUp(t, a) + LookedUp(t, b)
    decreases |a|
  {
    if a == [] {
      assert a + b == b;
    } else {
      assert (a + b)[1..] == a[1..] + b;
      LookedUpAppend(t, a[1..], b);
    }
  }

  lemma {:induction false} OneLookup(t: Trace, l: Lookup, i: nat)
    requires LookupFits(t, l) && i <= |l.values| && AccessesFit(t, AccessesOf(l, i))
    ensures LookupCells(t.columns[l.index], i) + LookedUp(t, AccessesOf(l, i)) == LookupCells(t.columns[l.index], |l.values|)
    decreases |l.values| - i
  {
    hide LookupCells, Shifted;
    if i < |l.values| {
      var rest := AccessesOf(l, i)[1..];
      assert rest == AccessesOf(l, i + 1);
      OneCellMore(t.columns[l.index], i);
      OneLookup(t, l, i + 1);
    }
  }

  lemma {:induction false} AllLookups(t: Trace, lookups: seq<Lookup>)
    requires forall j {:trigger lookups[j]} | 0 <= j < |lookups| :: LookupFits(t, lookups[j])
    requires AccessesFit(t, Accesses(lookups))
    ensures LookedUp(t, Accesses(lookups)) == TableCells(t, lookups)
    decreases |lookups|
  {
    hide LookupCells, AccessesOf;
    if lookups != [] {
      var l := lookups[0];
      assert LookupFits(t, l);
      AccessesOfFit(t, l, 0);
      LookupsFit(t, lookups[1..]);
      AllLookups(t, lookups[1..]);
      LookedUpAppend(t, AccessesOf(l, 0), Accesses(lookups[1..]));
      OneLookup(t, l, 0);
      NoCells(t.columns[l.index]);
    }
  }

  ghost predicate AccessesRead(t: Trace, accesses: seq<Access>, memory: seq<Fe>)
    requires SameLength(t.columns, Pow2(t.log)) && AccessesFit(t, accesses)
  {
    forall j {:trigger accesses[j]} | 0 <= j < |accesses| :: AccessReads(t, accesses[j], memory)
  }

  lemma {:induction false} LookupAccessesRead(t: Trace, l: Lookup, i: nat, memory: seq<Fe>)
    requires SameLength(t.columns, Pow2(t.log)) && LookupFits(t, l) && LookupReads(t, l, memory) && i <= |l.values|
    ensures AccessesFit(t, AccessesOf(l, i)) && AccessesRead(t, AccessesOf(l, i), memory)
    decreases |l.values| - i
  {
    AccessesOfFit(t, l, i);
    if i < |l.values| {
      LookupAccessesRead(t, l, i + 1, memory);
      assert l.values[i] < |t.columns|;
      assert AccessReads(t, Access(l.index, i, l.values[i]), memory);
    }
  }

  lemma {:induction false} TableAccessesRead(t: Trace, lookups: seq<Lookup>, memory: seq<Fe>)
    requires SameLength(t.columns, Pow2(t.log))
    requires forall j {:trigger lookups[j]} | 0 <= j < |lookups| :: LookupFits(t, lookups[j]) && LookupReads(t, lookups[j], memory)
    ensures AccessesFit(t, Accesses(lookups)) && AccessesRead(t, Accesses(lookups), memory)
    decreases |lookups|
  {
    hide AccessReads, LookupReads, AccessesOf;
    LookupsFit(t, lookups);
    if lookups != [] {
      LookupAccessesRead(t, lookups[0], 0, memory);
      TableAccessesRead(t, lookups[1..], memory);
    }
  }

  /** The access sections of a table add the weights of all cells they look up. */
  lemma {:induction false} AccessesSum(t: Trace, accesses: seq<Access>, offset: nat, memory: seq<Fe>, c: Fe, alphasEq: seq<Fe>)
    requires SameLength(t.columns, Pow2(t.log)) && AccessesFit(t, accesses) && 2 < |alphasEq| && AccessesRead(t, accesses, memory)
    ensures var ps := AccessParts(t, accesses, offset, c, alphasEq);
            Even(ps) && PartsSum(ps) == Weighted(LookedUp(t, accesses), MemoryWeights(memory, c, alphasEq))
    decreases |accesses|
  {
    hide AccessPart, AccessReads, Weighted, Shifted, MemoryWeights, QuotientSum;
    var w := MemoryWeights(memory, c, alphasEq);
    if accesses == [] {
      WeightedNothing(w);
    } else {
      var a, rest := accesses[0], accesses[1..];
      assert AccessReads(t, a, memory);
      AccessSum(t, a, offset, memory, c, alphasEq);
      AccessesSum(t, rest, offset + Pow2(t.log), memory, c, alphasEq);
      var ps := AccessParts(t, accesses, offset, c, alphasEq);
      assert ps[1..] == AccessParts(t, rest, offset + Pow2(t.log), c, alphasEq);
      WeightedSum(Shifted(t.columns[a.index], a.distance), LookedUp(t, rest), w);
    }
  }

  // ----- the bus

  datatype Message = Message(domainsep: Fe, data: seq<Fe>)

  datatype Carried = Carried(message: Message, multiplicity: Fe)

  function EntryAt(t: Trace, e: BusData, r: nat): Fe
    requires EntryFits(t, e) && SameLength(t.columns, Pow2(t.log)) && r < Pow2(t.log)
  {
    match e case Column(c) => t.columns[c][r] case Constant(x) => Res(x)
  }

  /** What the table puts on the bus, row by row. */
  function Messages(t: Trace, alphasEq: seq<Fe>): (cs: seq<Carried>)
    requires ColumnsFit(t, alphasEq)
    ensures |cs| == Pow2(t.log)
  {
    var bus := t.table.bus;
    seq(Pow2(t.log), r requires 0 <= r < Pow2(t.log) =>
      Carried(Message(EntryAt(t, bus.domainsep, r), seq(|bus.data|, j requires 0 <= j < |bus.data| => EntryAt(t, bus.data[j], r))),
              t.columns[bus.multiplicity][r]))
  }

  /** Everything the tables of one direction put on the bus. */
  function OnBus(tables: seq<Trace>, pull: bool, alphasEq: seq<Fe>): seq<Carried>
    requires TablesFit(tables, alphasEq)
  {
    if tables == [] then []
    else (if tables[0].table.bus.pull == pull then Messages(tables[0], alphasEq) else []) + OnBus(tables[1..], pull, alphasEq)
  }

  /** How often a message is carried. */
  function Multiplicity(cs: seq<Carried>, m: Message): Fe {
    if cs == [] then 0
    else if cs[0].message == m then Add(cs[0].multiplicity, Multiplicity(cs[1..], m))
    else Multiplicity(cs[1..], m)
  }

  ghost predicate SameMultiplicities(a: seq<Carried>, b: seq<Carried>) {
    forall m: Message :: Multiplicity(a, m) == Multiplicity(b, m)
  }

  function MessageWeight(m: Message, c: Fe, alphasEq: seq<Fe>): Fe {
    if |m.data| < |alphasEq| then Prime.InverseOrZero(Add(c, FingerPrint(m.domainsep, m.data, alphasEq))) else 0
  }

  function MessageSum(cs: seq<Carried>, c: Fe, alphasEq: seq<Fe>): Fe {
    if cs == [] then 0 else Add(Mul(cs[0].multiplicity, MessageWeight(cs[0].message, c, alphasEq)), MessageSum(cs[1..], c, alphasEq))
  }

  lemma {:induction false} MessageSumAppend(a: seq<Carried>, b: seq<Carried>, c: Fe, alphasEq: seq<Fe>)
    ensures MessageSum(a + b, c, alphasEq) == Add(MessageSum(a, c, alphasEq), MessageSum(b, c, alphasEq))
    decreases |a|
  {
    hide MessageWeight;
    if a == [] {
      assert a + b == b;
      AddZero(MessageSum(b, c, alphasEq));
    } else {
      assert (a + b)[1..] == a[1..] + b;
      MessageSumAppend(a[1..], b, c, alphasEq);
      AddAssoc(Mul(a[0].multiplicity, MessageWeight(a[0].message, c, alphasEq)), MessageSum(a[1..], c, alphasEq), MessageSum(b, c, alphasEq));
    }
  }

  function Without(cs: seq<Carried>, m: Message): (r: seq<Carried>)
    ensures |r| <= |cs| && (cs != [] && cs[0].message == m ==> |r| < |cs|)
  {
    if cs == [] then [] else if cs[0].message == m then Without(cs[1..], m) else [cs[0]] + Without(cs[1..], m)
  }

  lemma {:induction false} WithoutOne(cs: seq<Carried>, m: Message, k: Message)
    ensures Multiplicity(Without(cs, m), k) == if k == m then 0 else Multiplicity(cs, k)
    decreases |cs|
  {
    if cs != [] {
      WithoutOne(cs[1..], m, k);
      assert ([cs[0]] + Without(cs[1..], m))[1..] == Without(cs[1..], m);
    }
  }

  /** All rows carrying one message together. */
  lemma {:induction false} GatherMessage(cs: seq<Carried>, m: Message, c: Fe, alphasEq: seq<Fe>)
    ensures MessageSum(cs, c, alphasEq)
         == Add(Mul(Multiplicity(cs, m), MessageWeight(m, c, alphasEq)), MessageSum(Without(cs, m), c, alphasEq))
    decreases |cs|
  {
    hide MessageWeight;
    var x := MessageWeight(m, c, alphasEq);
    if cs == [] {
      MulOne(x);
      AddZero(0);
    } else {
      var rest := cs[1..];
      GatherMessage(rest, m, c, alphasEq);
      var a, b, others := cs[0].multiplicity, Multiplicity(rest, m), MessageSum(Without(rest, m), c, alphasEq);
      if cs[0].message == m {
        Distributes(x, a, b);
        AddAssoc(Mul(a, x), Mul(b, x), others);
      } else {
        assert ([cs[0]] + Without(rest, m))[1..] == Without(rest, m);
        var first := Mul(a, MessageWeight(cs[0].message, c, alphasEq));
        AddAssoc(first, Mul(b, x), others);
        AddComm(first, Mul(b, x));
        AddAssoc(Mul(b, x), first, others);
      }
    }
  }

  /** Messages carried equally often weigh the same, in whatever order they come. */
  lemma {:induction false} SameMessages(a: seq<Carried>, b: seq<Carried>, c: Fe, alphasEq: seq<Fe>)
    requires SameMultiplicities(a, b)
    ensures MessageSum(a, c, alphasEq) == MessageSum(b, c, alphasEq)
    decreases |a| + |b|
  {
    hide MessageWeight, MessageSum, Multiplicity;
    if a == [] && b == [] {
    } else {
      var m := if a != [] then a[0].message else b[0].message;
      GatherMessage(a, m, c, alphasEq);
      GatherMessage(b, m, c, alphasEq);
      forall k: Message ensures Multiplicity(Without(a, m), k) == Multiplicity(Without(b, m), k) {
        WithoutOne(a, m, k);
        WithoutOne(b, m, k);
        assert Multiplicity(a, k) == Multiplicity(b, k);
      }
      assert Multiplicity(a, m) == Multiplicity(b, m);
      SameMessages(Without(a, m), Without(b, m), c, alphasEq);
    }
  }

  lemma {:induction false} MessagesDot(cs: seq<Carried>, u: seq<Fe>, v: seq<Fe>, c: Fe, alphasEq: seq<Fe>)
    requires |cs| == |u| == |v|
    requires forall r {:trigger cs[r]} | 0 <= r < |cs| :: u[r] == cs[r].multiplicity && v[r] == MessageWeight(cs[r].message, c, alphasEq)
    ensures Dot(u, v) == MessageSum(cs, c, alphasEq)
    decreases |cs|
  {
    hide MessageWeight;
    if cs != [] {
      MessagesDot(cs[1..], u[1..], v[1..], c, alphasEq);
    }
  }

  lemma DotNegated(u: seq<Fe>, v: seq<Fe>)
    requires |u| == |v|
    ensures Dot(Minus(0, u), v) == Neg(Dot(u, v))
  {
    hide Dot;
    var n, zeros := Minus(0, u), seq<Fe>(|u|, _ => 0);
    forall i {:trigger zeros[i]} | 0 <= i < |u| ensures Add(n[i], u[i]) == zeros[i] {
      SubBack(0, u[i]);
    }
    DotAdd(v, n, u, zeros);
    DotCommute(v, zeros);
    DotZero(zeros, v);
    DotCommute(v, n);
    DotCommute(v, u);
    SubBack(Dot(n, v), Dot(u, v));
  }

  lemma BusRow(t: Trace, alphasEq: seq<Fe>, r: nat)
    requires ColumnsFit(t, alphasEq) && r < Pow2(t.log)
    ensures Row(BusColumns(t, alphasEq), r) == Messages(t, alphasEq)[r].message.data
  {
    var row, data := Row(BusColumns(t, alphasEq), r), Messages(t, alphasEq)[r].message.data;
    forall j | 0 <= j < |row| ensures row[j] == data[j] {
      assert EntryFits(t, t.table.bus.data[j]);
      assert BusColumns(t, alphasEq)[j] == EntryColumn(t, t.table.bus.data[j]);
    }
  }

  /** The bus section of a table adds what it carries, or takes it away. */
  lemma BusSum(t: Trace, offset: nat, c: Fe, alphasEq: seq<Fe>)
    requires ColumnsFit(t, alphasEq)
    ensures var p := BusPart(t, offset, c, alphasEq); var s := MessageSum(Messages(t, alphasEq), c, alphasEq);
            |p.num| == |p.den| && QuotientSum(p.num, p.den) == if t.table.bus.pull then Neg(s) else s
  {
    hide Dot, MessageSum, FingerPrint;
    var p, cs := BusPart(t, offset, c, alphasEq), Messages(t, alphasEq);
    var u, v := t.columns[t.table.bus.multiplicity], Inverses(p.den);
    forall r {:trigger cs[r]} | 0 <= r < |cs| ensures u[r] == cs[r].multiplicity && v[r] == MessageWeight(cs[r].message, c, alphasEq) {
      BusRow(t, alphasEq, r);
    }
    MessagesDot(cs, u, v, c, alphasEq);
    DotNegated(u, v);
  }
}
