/**
 The logup verifier's piecewise formulas, and why they are the multilinear extensions of the prover's
 buffers padded with 0s and 1s (verify_generic_logup, crates/sub_protocols/src/logup.rs).
 */
module LogupVerify {
  import opened Arith
  import opened Field
  import opened Multilinear
  import opened WhirConstraints
  import opened Sections
  import opened LogupParts
  import opened Logup

  /** The evaluations of one lookup: the base address column, then the value columns. */
  datatype LookupClaims = LookupClaims(index: Fe, values: seq<Fe>)

  /** What the prover sends for one table. */
  datatype TableClaims = TableClaims(pc: Fe, instruction: seq<Fe>, multiplicity: Fe, data: Fe, lookups: seq<LookupClaims>)

  /** What the verifier knows: challenges, sizes, the bytecode itself. */
  datatype Public = Public(c: Fe, alphas: seq<Fe>, logMemory: nat, logBytecode: nat, bytecode: seq<Fe>, tables: seq<Shape>)

  datatype Shape = Shape(isExecution: bool, log: nat)

  datatype LogupClaims = LogupClaims(memoryAcc: Fe, memory: Fe, bytecodeAcc: Fe, tables: seq<TableClaims>)

  // ----- the verifier's terms, in the order it adds them

  datatype AccessValue = AccessValue(index: Fe, distance: nat, value: Fe)

  function ValuesOf(l: LookupClaims, i: nat): seq<AccessValue>
    requires i <= |l.values|
    decreases |l.values| - i
  {
    if i == |l.values| then [] else [AccessValue(l.index, i, l.values[i])] + ValuesOf(l, i + 1)
  }

  function AllValues(ls: seq<LookupClaims>): seq<AccessValue> {
    if ls == [] then [] else ValuesOf(ls[0], 0) + AllValues(ls[1..])
  }

  function AccessClaim(v: AccessValue, offset: nat, log: nat, c: Fe, alphasEq: seq<Fe>): Claim
    requires 2 < |alphasEq|
  {
    Claim(offset, log, 1, Sub(c, FingerPrint(LOGUP_MEMORY_DOMAINSEP, [v.value, Add(v.index, Res(v.distance))], alphasEq)))
  }

  function AccessClaims(vs: seq<AccessValue>, offset: nat, log: nat, c: Fe, alphasEq: seq<Fe>): (cs: seq<Claim>)
    requires 2 < |alphasEq|
    ensures |cs| == |vs|
    decreases |vs|
  {
    if vs == [] then [] else [AccessClaim(vs[0], offset, log, c, alphasEq)] + AccessClaims(vs[1..], offset + Pow2(log), log, c, alphasEq)
  }

  function ExecutionClaim(t: TableClaims, offset: nat, log: nat, c: Fe, alphasEq: seq<Fe>): Claim
    requires |t.instruction| + 1 < |alphasEq|
  {
    Claim(offset, log, 1, Sub(c, FingerPrint(LOGUP_BYTECODE_DOMAINSEP, t.instruction + [t.pc], alphasEq)))
  }

  function ShapeBus(s: Shape, offset: nat): nat { if s.isExecution then offset + Pow2(s.log) else offset }

  function TableTerms(s: Shape, t: TableClaims, offset: nat, c: Fe, alphasEq: seq<Fe>): seq<Claim>
    requires 2 < |alphasEq| && |t.instruction| + 1 < |alphasEq|
  {
    (if s.isExecution then [ExecutionClaim(t, offset, s.log, c, alphasEq)] else [])
    + [Claim(ShapeBus(s, offset), s.log, t.multiplicity, t.data)]
    + AccessClaims(AllValues(t.lookups), ShapeBus(s, offset) + Pow2(s.log), s.log, c, alphasEq)
  }

  function ShapeEnd(s: Shape, t: TableClaims, offset: nat): nat {
    ShapeBus(s, offset) + Pow2(s.log) + |AllValues(t.lookups)| * Pow2(s.log)
  }

  function AllTableTerms(ss: seq<Shape>, ts: seq<TableClaims>, offset: nat, c: Fe, alphasEq: seq<Fe>): seq<Claim>
    requires |ss| == |ts| && 2 < |alphasEq| && forall j {:trigger ts[j]} | 0 <= j < |ts| :: |ts[j].instruction| + 1 < |alphasEq|
    decreases |ss|
  {
    if ss == [] then []
    else TableTerms(ss[0], ts[0], offset, c, alphasEq) + AllTableTerms(ss[1..], ts[1..], ShapeEnd(ss[0], ts[0], offset), c, alphasEq)
  }

  function ShapesEnd(ss: seq<Shape>, ts: seq<TableClaims>, offset: nat): nat
    requires |ss| == |ts|
    decreases |ss|
  {
    if ss == [] then offset else ShapesEnd(ss[1..], ts[1..], ShapeEnd(ss[0], ts[0], offset))
  }

  // ----- the honest evaluations of one table

  function Flag(pull: bool): Fe { if pull then Neg(1) else 1 }

  function HonestLookups(t: Trace, ls: seq<Lookup>, y: seq<Fe>): seq<LookupClaims>
    requires SameLength(t.columns, Pow2(t.log)) && |y| == t.log && forall j {:trigger ls[j]} | 0 <= j < |ls| :: LookupFits(t, ls[j])
  {
    if ls == [] then []
    else
      assert LookupFits(t, ls[0]);
      [LookupClaims(Mle(t.columns[ls[0].index], y),
                    seq(|ls[0].values|, i requires 0 <= i < |ls[0].values| => Mle(t.columns[ls[0].values[i]], y)))]
      + HonestLookups(t, ls[1..], y)
  }

  function BusValues(t: Trace, y: seq<Fe>, alphasEq: seq<Fe>): (r: seq<Fe>)
    requires ColumnsFit(t, alphasEq) && |y| == t.log
    ensures |r| == |t.table.bus.data|
  {
    seq(|t.table.bus.data|, j requires 0 <= j < |t.table.bus.data| => EntryValue(t, t.table.bus.data[j], y))
  }

  /** What an honest prover sends for a table: its columns evaluated at the inner point. */
  function HonestTable(t: Trace, y: seq<Fe>, c: Fe, alphasEq: seq<Fe>): TableClaims
    requires ColumnsFit(t, alphasEq) && |y| == t.log
  {
    TableClaims(
      if t.table.isExecution then Mle(t.columns[COL_PC], y) else 0,
      if t.table.isExecution then Evaluations(t.columns[N_RUNTIME_COLUMNS..N_RUNTIME_COLUMNS + N_INSTRUCTION_COLUMNS], y) else [],
      Mul(Mle(t.columns[t.table.bus.multiplicity], y), Flag(t.table.bus.pull)),
      Add(c, FingerPrint(EntryValue(t, t.table.bus.domainsep, y), BusValues(t, y, alphasEq), alphasEq)),
      HonestLookups(t, t.table.lookups, y))
  }

  function AccessAt(t: Trace, a: Access, y: seq<Fe>): AccessValue
    requires SameLength(t.columns, Pow2(t.log)) && |y| == t.log && a.index < |t.columns| && a.value < |t.columns|
  {
    AccessValue(Mle(t.columns[a.index], y), a.distance, Mle(t.columns[a.value], y))
  }

  /** The looked-up values the verifier reads are the evaluations of the prover's accesses, in order. */
  ghost predicate Reads(t: Trace, accesses: seq<Access>, vs: seq<AccessValue>, y: seq<Fe>)
    requires SameLength(t.columns, Pow2(t.log)) && |y| == t.log
  {
    |vs| == |accesses| && forall j {:trigger accesses[j]} {:trigger vs[j]} | 0 <= j < |vs| ::
      accesses[j].index < |t.columns| && accesses[j].value < |t.columns| && vs[j] == AccessAt(t, accesses[j], y)
  }

  lemma {:induction false} LookupRead(t: Trace, l: Lookup, lc: LookupClaims, i: nat, y: seq<Fe>)
    requires SameLength(t.columns, Pow2(t.log)) && |y| == t.log && LookupFits(t, l) && i <= |l.values| == |lc.values|
    requires lc.index == Mle(t.columns[l.index], y)
    requires forall j {:trigger lc.values[j]} | 0 <= j < |lc.values| :: lc.values[j] == Mle(t.columns[l.values[j]], y)
    ensures Reads(t, AccessesOf(l, i), ValuesOf(lc, i), y)
    decreases |l.values| - i
  {
    hide Mle;
    if i < |l.values| {
      LookupRead(t, l, lc, i + 1, y);
      assert l.values[i] < |t.columns| && lc.values[i] == Mle(t.columns[l.values[i]], y);
    }
  }

  lemma {:induction false} LookupsRead(t: Trace, ls: seq<Lookup>, y: seq<Fe>)
    requires SameLength(t.columns, Pow2(t.log)) && |y| == t.log && forall j {:trigger ls[j]} | 0 <= j < |ls| :: LookupFits(t, ls[j])
    ensures Reads(t, Accesses(ls), AllValues(HonestLookups(t, ls, y)), y)
    decreases |ls|
  {
    hide Mle;
    if ls != [] {
      var hs := HonestLookups(t, ls, y);
      LookupRead(t, ls[0], hs[0], 0, y);
      LookupsRead(t, ls[1..], y);
      assert hs[1..] == HonestLookups(t, ls[1..], y);
    }
  }

  /** One looked-up value: evaluating the section's rows is the verifier's term. */
  lemma AccessAgrees(t: Trace, a: Access, offset: nat, c: Fe, alphasEq: seq<Fe>, y: seq<Fe>)
    requires SameLength(t.columns, Pow2(t.log)) && a.index < |t.columns| && a.value < |t.columns| && 2 < |alphasEq| && t.log <= |y|
    ensures |AccessPart(t, a, offset, c, alphasEq).num| == |AccessPart(t, a, offset, c, alphasEq).den| == Pow2(t.log)
    ensures ClaimOf(AccessPart(t, a, offset, c, alphasEq), y) == AccessClaim(AccessAt(t, a, FromEnd(y, t.log)), offset, t.log, c, alphasEq)
  {
    hide Mle;
    var z, s := FromEnd(y, t.log), Pow2(t.log);
    var ds, index := Repeated(LOGUP_MEMORY_DOMAINSEP, s), PlusConst(Res(a.distance), t.columns[a.index]);
    var cols := [t.columns[a.value], index];
    MleConstant(Repeated(1, s), z, 1);
    MleConstant(ds, z, LOGUP_MEMORY_DOMAINSEP);
    PlusEvaluates(Res(a.distance), t.columns[a.index], z);
    AddComm(Res(a.distance), Mle(t.columns[a.index], z));
    FingerEvaluates(ds, cols, alphasEq, z);
    assert Evaluations(cols, z) == [Mle(t.columns[a.value], z), Mle(index, z)];
    MinusEvaluates(c, FingerRows(ds, cols, alphasEq), z);
  }

  /** The claims of the parts are the verifier's terms. */
  ghost predicate Agrees(ps: seq<Part>, cs: seq<Claim>, y: seq<Fe>) {
    |ps| == |cs| && forall k {:trigger ps[k]} {:trigger cs[k]} | 0 <= k < |ps| ::
      ps[k].log <= |y| && |ps[k].num| == |ps[k].den| == Pow2(ps[k].log) && ClaimOf(ps[k], y) == cs[k]
  }

  lemma AgreesAppend(ps: seq<Part>, cs: seq<Claim>, qs: seq<Part>, ds: seq<Claim>, y: seq<Fe>)
    requires Agrees(ps, cs, y) && Agrees(qs, ds, y)
    ensures Agrees(ps + qs, cs + ds, y)
  {
  }

  lemma {:induction false} AccessesAgree(t: Trace, accesses: seq<Access>, vs: seq<AccessValue>, offset: nat, c: Fe, alphasEq: seq<Fe>, y: seq<Fe>)
    requires SameLength(t.columns, Pow2(t.log)) && AccessesFit(t, accesses) && 2 < |alphasEq| && t.log <= |y|
    requires Reads(t, accesses, vs, FromEnd(y, t.log))
    ensures Agrees(AccessParts(t, accesses, offset, c, alphasEq), AccessClaims(vs, offset, t.log, c, alphasEq), y)
    ensures AccessesEnd(t, accesses, offset) == offset + |vs| * Pow2(t.log)
    decreases |accesses|
  {
    hide Mle, AccessPart, AccessClaim;
    if accesses != [] {
      assert vs[0] == AccessAt(t, accesses[0], FromEnd(y, t.log));
      AccessAgrees(t, accesses[0], offset, c, alphasEq, y);
      AccessPartAt(t, accesses[0], offset, c, alphasEq);
      AccessesAgree(t, accesses[1..], vs[1..], offset + Pow2(t.log), c, alphasEq, y);
      OneMore(|vs|, Pow2(t.log));
    }
  }

  lemma OneMore(n: nat, s: nat)
    requires n > 0
    ensures s + (n - 1) * s == n * s
  {
  }

  lemma EntryEvaluates(t: Trace, e: BusData, y: seq<Fe>)
    requires EntryFits(t, e) && SameLength(t.columns, Pow2(t.log)) && |y| == t.log
    ensures Mle(EntryColumn(t, e), y) == EntryValue(t, e, y)
  {
    if e.Constant? {
      MleConstant(EntryColumn(t, e), y, Res(e.value));
    }
  }

  lemma BusNumerator(m: seq<Fe>, pull: bool, z: seq<Fe>)
    requires |m| == Pow2(|z|)
    ensures Mle(if pull then Minus(0, m) else m, z) == Mul(Mle(m, z), Flag(pull))
  {
    hide Mle;
    var x := Mle(m, z);
    MulOne(x);
    if pull {
      MinusEvaluates(0, m, z);
      LiftSelf(x);
      LiftSelf(0);
      LiftSelf(1);
      LiftSub(0, x);
      LiftSub(0, 1);
      LiftMul(x, 0 - 1);
    }
  }

  lemma BusAgrees(t: Trace, offset: nat, c: Fe, alphasEq: seq<Fe>, y: seq<Fe>)
    requires ColumnsFit(t, alphasEq) && t.log <= |y|
    ensures var h := HonestTable(t, FromEnd(y, t.log), c, alphasEq);
            Agrees([BusPart(t, offset, c, alphasEq)], [Claim(offset, t.log, h.multiplicity, h.data)], y)
  {
    hide Mle, EntryColumn, EntryValue;
    var z := FromEnd(y, t.log);
    BusNumerator(t.columns[t.table.bus.multiplicity], t.table.bus.pull, z);
    var ds, cols := EntryColumn(t, t.table.bus.domainsep), BusColumns(t, alphasEq);
    EntryEvaluates(t, t.table.bus.domainsep, z);
    forall j {:trigger t.table.bus.data[j]} | 0 <= j < |t.table.bus.data| ensures Evaluations(cols, z)[j] == BusValues(t, z, alphasEq)[j] {
      EntryEvaluates(t, t.table.bus.data[j], z);
    }
    assert Evaluations(cols, z) == BusValues(t, z, alphasEq);
    FingerEvaluates(ds, cols, alphasEq, z);
    PlusEvaluates(c, FingerRows(ds, cols, alphasEq), z);
  }

  lemma ExecutionAgrees(t: Trace, offset: nat, c: Fe, alphasEq: seq<Fe>, y: seq<Fe>)
    requires ColumnsFit(t, alphasEq) && t.table.isExecution && t.log <= |y|
    ensures var h := HonestTable(t, FromEnd(y, t.log), c, alphasEq);
            |h.instruction| + 1 < |alphasEq|
            && Agrees([ExecutionPart(t, offset, c, alphasEq)], [ExecutionClaim(h, offset, t.log, c, alphasEq)], y)
  {
    hide Mle, EntryColumn, EntryValue;
    var z, s := FromEnd(y, t.log), Pow2(t.log);
    var h := HonestTable(t, z, c, alphasEq);
    var ds, cols := Repeated(LOGUP_BYTECODE_DOMAINSEP, s), BytecodeColumns(t, alphasEq);
    MleConstant(Repeated(1, s), z, 1);
    MleConstant(ds, z, LOGUP_BYTECODE_DOMAINSEP);
    FingerEvaluates(ds, cols, alphasEq, z);
    assert Evaluations(cols, z) == h.instruction + [h.pc];
    MinusEvaluates(c, FingerRows(ds, cols, alphasEq), z);
  }

  function ShapeOf(t: Trace): Shape { Shape(t.table.isExecution, t.log) }

  lemma TableAgrees(t: Trace, offset: nat, c: Fe, alphasEq: seq<Fe>, y: seq<Fe>)
    requires ColumnsFit(t, alphasEq) && t.log <= |y|
    ensures var h := HonestTable(t, FromEnd(y, t.log), c, alphasEq);
            |h.instruction| + 1 < |alphasEq|
            && Agrees(TableParts(t, offset, c, alphasEq), TableTerms(ShapeOf(t), h, offset, c, alphasEq), y)
            && ShapeEnd(ShapeOf(t), h, offset) == TableEnd(t, offset)
  {
    hide Mle, BusPart, ExecutionPart, ExecutionClaim, Agrees, AccessParts, AccessClaims;
    var z := FromEnd(y, t.log);
    var h := HonestTable(t, z, c, alphasEq);
    var bus := BusOffset(t, offset);
    LookupsFit(t, t.table.lookups);
    LookupsRead(t, t.table.lookups, z);
    AccessesAgree(t, Accesses(t.table.lookups), AllValues(h.lookups), bus + Pow2(t.log), c, alphasEq, y);
    BusAgrees(t, bus, c, alphasEq, y);
    var ps := AccessParts(t, Accesses(t.table.lookups), bus + Pow2(t.log), c, alphasEq);
    var cs := AccessClaims(AllValues(h.lookups), bus + Pow2(t.log), t.log, c, alphasEq);
    var busPart, busClaim := [BusPart(t, bus, c, alphasEq)], [Claim(bus, t.log, h.multiplicity, h.data)];
    if t.table.isExecution {
      ExecutionAgrees(t, offset, c, alphasEq, y);
      ThreeAgree([ExecutionPart(t, offset, c, alphasEq)], [ExecutionClaim(h, offset, t.log, c, alphasEq)], busPart, busClaim, ps, cs, y);
    } else {
      NothingAgrees(y);
      ThreeAgree([], [], busPart, busClaim, ps, cs, y);
    }
  }

  lemma NothingAgrees(y: seq<Fe>)
    ensures Agrees([], [], y)
  {
  }

  lemma ThreeAgree(p1: seq<Part>, c1: seq<Claim>, p2: seq<Part>, c2: seq<Claim>, p3: seq<Part>, c3: seq<Claim>, y: seq<Fe>)
    requires Agrees(p1, c1, y) && Agrees(p2, c2, y) && Agrees(p3, c3, y)
    ensures Agrees(p1 + p2 + p3, c1 + c2 + c3, y)
  {
    hide Agrees;
    AgreesAppend(p1, c1, p2, c2, y);
    AgreesAppend(p1 + p2, c1 + c2, p3, c3, y);
  }

  // ----- all tables

  ghost predicate Below(tables: seq<Trace>, n: nat) { forall j {:trigger tables[j]} | 0 <= j < |tables| :: tables[j].log <= n }

  function HonestTables(tables: seq<Trace>, y: seq<Fe>, c: Fe, alphasEq: seq<Fe>): (r: seq<TableClaims>)
    requires TablesFit(tables, alphasEq) && Below(tables, |y|)
    ensures |r| == |tables|
  {
    seq(|tables|, j requires 0 <= j < |tables| => HonestTable(tables[j], FromEnd(y, tables[j].log), c, alphasEq))
  }

  function Shapes(tables: seq<Trace>): (r: seq<Shape>)
    ensures |r| == |tables|
  {
    seq(|tables|, j requires 0 <= j < |tables| => ShapeOf(tables[j]))
  }

  lemma {:induction false} TablesAgree(tables: seq<Trace>, offset: nat, c: Fe, alphasEq: seq<Fe>, y: seq<Fe>)
    requires TablesFit(tables, alphasEq) && Below(tables, |y|) && 2 < |alphasEq|
    ensures forall j {:trigger HonestTables(tables, y, c, alphasEq)[j]} | 0 <= j < |tables| ::
              |HonestTables(tables, y, c, alphasEq)[j].instruction| + 1 < |alphasEq|
    ensures Agrees(AllTableParts(tables, offset, c, alphasEq), AllTableTerms(Shapes(tables), HonestTables(tables, y, c, alphasEq), offset, c, alphasEq), y)
    ensures ShapesEnd(Shapes(tables), HonestTables(tables, y, c, alphasEq), offset) == TablesEnd(tables, offset)
    decreases |tables|
  {
    hide TableParts, TableTerms, HonestTable, ColumnsFit, Agrees, ShapeEnd, TableEnd;
    var hs := HonestTables(tables, y, c, alphasEq);
    forall j {:trigger hs[j]} | 0 <= j < |tables| ensures |hs[j].instruction| + 1 < |alphasEq| {
      TableAgrees(tables[j], offset, c, alphasEq, y);
    }
    if tables == [] {
      AgreesNothing(y);
    } else {
      var t := tables[0];
      TableAgrees(t, offset, c, alphasEq, y);
      TablesAgree(tables[1..], TableEnd(t, offset), c, alphasEq, y);
      assert hs[1..] == HonestTables(tables[1..], y, c, alphasEq) && Shapes(tables)[1..] == Shapes(tables[1..]);
      AgreesAppend(TableParts(t, offset, c, alphasEq), TableTerms(ShapeOf(t), hs[0], offset, c, alphasEq),
                   AllTableParts(tables[1..], TableEnd(t, offset), c, alphasEq),
                   AllTableTerms(Shapes(tables[1..]), hs[1..], TableEnd(t, offset), c, alphasEq), y);
    }
  }

  lemma AgreesNothing(y: seq<Fe>)
    ensures Agrees([], [], y)
  {
  }
}
