/**
 The statements made about the stacked polynomial, each true of it when the claimed column values are
 (stacked_pcs_global_statements, crates/sub_protocols/src/stacked_pcs.rs).
 */
module StackedStatements {
  import opened Arith
  import opened Sequences
  import opened Field
  import opened Multilinear
  import opened NextPolynomial
  import opened WhirConstraints
  import opened Sections
  import S = StackedPcs

  /** A claim about a column of a table. */
  datatype ColumnValue = ColumnValue(col: nat, value: Fe)

  /** Claims about columns, and about columns shifted down by one row, at one point. */
  datatype Committed = Committed(point: seq<Fe>, eqValues: seq<ColumnValue>, nextValues: seq<ColumnValue>)

  /** What the verifier knows of a table: its height, its width, the claims about it. */
  datatype Shape = Shape(isExecution: bool, log: nat, width: nat, committed: seq<Committed>)

  const STARTING_PC := 0

  // ----- the statements in their order

  function Values(vs: seq<ColumnValue>, base: nat): (r: seq<SparseValue>)
    ensures |r| == |vs|
  {
    seq(|vs|, i requires 0 <= i < |vs| => SparseValue(base + vs[i].col, vs[i].value))
  }

  function CommittedStatements(c: Committed, n: nat, base: nat): seq<SparseStatement> {
    (if c.nextValues != [] then [SparseStatement(n, c.point, Values(c.nextValues, base), true)] else [])
    + [SparseStatement(n, c.point, Values(c.eqValues, base), false)]
  }

  function AllCommitted(cs: seq<Committed>, n: nat, base: nat): seq<SparseStatement> {
    if cs == [] then [] else CommittedStatements(cs[0], n, base) + AllCommitted(cs[1..], n, base)
  }

  /** unique_value. */
  function UniqueValue(n: nat, index: nat, value: Fe): SparseStatement { SparseStatement(n, [], [SparseValue(index, value)], false) }

  function PcStatements(t: Shape, n: nat, offset: nat, endingPc: nat): seq<SparseStatement>
  {
    var s := Pow2(t.log);
    if t.isExecution then [UniqueValue(n, offset + S.COL_PC * s, Res(STARTING_PC)), UniqueValue(n, offset + (S.COL_PC + 1) * s - 1, Res(endingPc))] else []
  }

  function TableStatements(t: Shape, n: nat, offset: nat, endingPc: nat): seq<SparseStatement> {
    PcStatements(t, n, offset, endingPc) + AllCommitted(t.committed, n, SectionIndex(offset, t.log))
  }

  function AllStatements(ts: seq<Shape>, n: nat, offset: nat, endingPc: nat): seq<SparseStatement> {
    if ts == [] then []
    else TableStatements(ts[0], n, offset, endingPc) + AllStatements(ts[1..], n, offset + S.CellsOf(ts[0].width, ts[0].log), endingPc)
  }

  /** stacked_pcs_global_statements. */
  method GlobalStatements(n: nat, logMemory: nat, logBytecode: nat, endingPc: nat, previous: seq<SparseStatement>, tables: seq<Shape>)
      returns (statements: seq<SparseStatement>)
    requires tables != []
    ensures statements
         == previous + AllStatements(tables, n, 2 * Pow2(logMemory) + Pow2(if logBytecode >= tables[0].log then logBytecode else tables[0].log), endingPc)
  {
    hide TableStatements, Pow2, S.CellsOf;
    statements := previous;
    var offset: nat := 2 * Pow2(logMemory);
    var maxLog := tables[0].log;
    offset := offset + Pow2(if logBytecode >= maxLog then logBytecode else maxLog);
    ghost var all := AllStatements(tables, n, offset, endingPc);
    var k := 0;
    assert tables[0..] == tables;
    while k < |tables|
      invariant 0 <= k <= |tables| && statements + AllStatements(tables[k..], n, offset, endingPc) == previous + all
    {
      var t := tables[k];
      TailFrom(tables, k);
      ghost var rest := AllStatements(tables[k + 1..], n, offset + S.CellsOf(t.width, t.log), endingPc);
      AppendAssoc(statements, TableStatements(t, n, offset, endingPc), rest);
      statements := StatementsOfTable(t, n, offset, endingPc, statements);
      offset := offset + S.CellsOf(t.width, t.log);
      k := k + 1;
    }
    assert tables[k..] == [] && statements + [] == statements;
  }

  method StatementsOfTable(t: Shape, n: nat, offset: nat, endingPc: nat, before: seq<SparseStatement>) returns (statements: seq<SparseStatement>)
    ensures statements == before + TableStatements(t, n, offset, endingPc)
  {
    statements := before;
    if t.isExecution {
      statements := statements + [UniqueValue(n, offset + S.COL_PC * Pow2(t.log), Res(STARTING_PC))];
      statements := statements + [UniqueValue(n, offset + (S.COL_PC + 1) * Pow2(t.log) - 1, Res(endingPc))];
    }
    var base := SectionIndex(offset, t.log);
    ghost var pcs := PcStatements(t, n, offset, endingPc);
    assert statements == before + pcs;
    ghost var all := AllCommitted(t.committed, n, base);
    var k := 0;
    assert t.committed[0..] == t.committed;
    while k < |t.committed|
      invariant 0 <= k <= |t.committed| && statements + AllCommitted(t.committed[k..], n, base) == before + pcs + all
    {
      var c := t.committed[k];
      TailFrom(t.committed, k);
      ghost var rest := AllCommitted(t.committed[k + 1..], n, base);
      ghost var statements0 := statements;
      if c.nextValues != [] {
        statements := statements + [SparseStatement(n, c.point, Values(c.nextValues, base), true)];
      }
      statements := statements + [SparseStatement(n, c.point, Values(c.eqValues, base), false)];
      assert statements == statements0 + CommittedStatements(c, n, base);
      AppendAssoc(statements0, CommittedStatements(c, n, base), rest);
      k := k + 1;
    }
    assert t.committed[k..] == [] && statements + [] == statements;
    AppendAssoc(before, pcs, all);
  }

  // ----- truth of a statement

  /** Each claimed value is the inner product of the polynomial's values with the weight placed in the selected block. */
  ghost predicate StatementTrue(v: seq<Fe>, s: SparseStatement) {
    |s.point| <= s.total && |v| == Pow2(s.total)
    && forall i {:trigger s.values[i]} | 0 <= i < |s.values| :: ValueTrue(v, s, s.values[i])
  }

  ghost predicate ValueTrue(v: seq<Fe>, s: SparseStatement, x: SparseValue)
    requires |s.point| <= s.total && |v| == Pow2(s.total)
  {
    x.selector < Pow2(s.total - |s.point|) && BlockProduct(v, s, x.selector) == x.value
  }

  ghost function BlockProduct(v: seq<Fe>, s: SparseStatement, selector: nat): Fe
    requires |s.point| <= s.total && |v| == Pow2(s.total) && selector < Pow2(s.total - |s.point|)
  {
    Pow2Add(s.total - |s.point|, |s.point|);
    Dot(v, Placed(selector, s.total - |s.point|, InnerVec(s)))
  }

  /** A vector that is zero outside one block. */
  lemma DotOneBlock(v: seq<Fe>, w: seq<Fe>, a: nat, vec: seq<Fe>, u: seq<Fe>)
    requires |v| == |w| && |vec| == |u| && a + |u| <= |w| && v[a..a + |u|] == vec
    requires forall i {:trigger w[i]} | 0 <= i < |w| :: w[i] == if a <= i < a + |u| then u[i - a] else 0
    ensures Dot(v, w) == Dot(vec, u)
  {
    hide Dot;
    DotSplit(v, w, a);
    DotZerosRight(v[..a], w[..a]);
    DotFrontBlock(v[a..], w[a..], vec, u);
    AddZero(Dot(vec, u));
  }

  /** A vector that is zero after its first block. */
  lemma DotFrontBlock(v: seq<Fe>, w: seq<Fe>, vec: seq<Fe>, u: seq<Fe>)
    requires |v| == |w| && |vec| == |u| <= |w| && v[..|u|] == vec && w[..|u|] == u
    requires forall i {:trigger w[i]} | |u| <= i < |w| :: w[i] == 0
    ensures Dot(v, w) == Dot(vec, u)
  {
    hide Dot;
    DotSplit(v, w, |u|);
    DotZerosRight(v[|u|..], w[|u|..]);
    AddZero(Dot(vec, u));
  }

  lemma DotZerosRight(v: seq<Fe>, zeros: seq<Fe>)
    requires |v| == |zeros|
    requires forall i {:trigger zeros[i]} | 0 <= i < |zeros| :: zeros[i] == 0
    ensures Dot(v, zeros) == 0
  {
    DotCommute(v, zeros);
    DotZero(zeros, v);
  }

  /** Only the selected block counts. */
  lemma BlockCounts(v: seq<Fe>, s: SparseStatement, selector: nat, vec: seq<Fe>)
    requires |s.point| <= s.total && |v| == Pow2(s.total) && selector < Pow2(s.total - |s.point|)
    requires |vec| == Pow2(|s.point|) && S.Stands(v, selector * Pow2(|s.point|), vec)
    ensures BlockProduct(v, s, selector) == Dot(vec, InnerVec(s))
  {
    hide Placed, InnerVec, Dot, Pow2;
    Pow2Add(s.total - |s.point|, |s.point|);
    PlacedBlock(v, vec, selector, s.total - |s.point|, InnerVec(s), selector * Pow2(|s.point|));
  }

  lemma PlacedBlock(v: seq<Fe>, vec: seq<Fe>, selector: nat, k: nat, u: seq<Fe>, a: nat)
    requires selector < Pow2(k) && |v| == Pow2(k) * |u| && |vec| == |u| && a == selector * |u|
    requires a + |u| <= |v| && v[a..a + |u|] == vec
    ensures Dot(v, Placed(selector, k, u)) == Dot(vec, u)
  {
    hide Placed, Dot, Pow2;
    var w := Placed(selector, k, u);
    forall i | 0 <= i < |w| ensures w[i] == if a <= i < a + |u| then u[i - a] else 0 {
      PlacedAt(selector, k, u, i);
    }
    DotOneBlock(v, w, a, vec, u);
  }

  // ----- the statements are true exactly when the claims are right

  /** The claims fit the table: its point, its columns. */
  ghost predicate CommittedFits(t: S.Table, c: Committed) {
    && |c.point| == t.log
    && (forall i {:trigger c.eqValues[i]} | 0 <= i < |c.eqValues| :: c.eqValues[i].col < |t.columns|)
    && (forall i {:trigger c.nextValues[i]} | 0 <= i < |c.nextValues| :: c.nextValues[i].col < |t.columns|)
  }

  /** Every claimed value is the evaluation of its column, or of its column moved down by one row. */
  ghost predicate CommittedRight(t: S.Table, c: Committed)
    requires S.ColumnsFit(t) && CommittedFits(t, c)
  {
    && (forall i {:trigger c.eqValues[i]} | 0 <= i < |c.eqValues| ::
          |t.columns[c.eqValues[i].col]| == Pow2(t.log) && c.eqValues[i].value == Mle(t.columns[c.eqValues[i].col], c.point))
    && (forall i {:trigger c.nextValues[i]} | 0 <= i < |c.nextValues| ::
          |t.columns[c.nextValues[i].col]| == Pow2(t.log) && c.nextValues[i].value == Mle(Shifted(t.columns[c.nextValues[i].col]), c.point))
  }

  ghost predicate ShapeFits(t: S.Table, s: Shape) {
    && s.isExecution == t.isExecution && s.log == t.log && s.width == |t.columns|
    && (forall k {:trigger s.committed[k]} | 0 <= k < |s.committed| :: CommittedFits(t, s.committed[k]))
  }

  /** The program counter starts at the first and ends at the last instruction. */
  ghost predicate PcRight(t: S.Table, endingPc: nat)
    requires S.ColumnsFit(t)
  {
    t.isExecution ==> t.columns != [] && |t.columns[S.COL_PC]| == Pow2(t.log)
                      && t.columns[S.COL_PC][0] == Res(STARTING_PC) && t.columns[S.COL_PC][Pow2(t.log) - 1] == Res(endingPc)
  }

  ghost predicate ShapeRight(t: S.Table, s: Shape, endingPc: nat)
    requires S.ColumnsFit(t) && ShapeFits(t, s)
  {
    PcRight(t, endingPc) && forall k {:trigger s.committed[k]} | 0 <= k < |s.committed| :: CommittedRight(t, s.committed[k])
  }

  ghost predicate ShapesFit(w: S.Witness, shapes: seq<Shape>)
    requires S.WitnessFits(w)
  {
    |shapes| == |w.tables| && forall t {:trigger shapes[t]} | 0 <= t < |shapes| :: S.ColumnsFit(w.tables[t]) && ShapeFits(w.tables[t], shapes[t])
  }

  /** What is claimed of the tables from the given one on is right. */
  ghost predicate ShapesRightFrom(w: S.Witness, shapes: seq<Shape>, endingPc: nat, from: nat)
    requires S.WitnessFits(w) && ShapesFit(w, shapes)
  {
    forall t {:trigger shapes[t]} | from <= t < |shapes| :: S.ColumnsFit(w.tables[t]) && ShapeRight(w.tables[t], shapes[t], endingPc)
  }

  ghost predicate AllTrue(v: seq<Fe>, ss: seq<SparseStatement>) { forall k {:trigger ss[k]} | 0 <= k < |ss| :: StatementTrue(v, ss[k]) }

  lemma AllTrueAppend(v: seq<Fe>, a: seq<SparseStatement>, b: seq<SparseStatement>)
    ensures AllTrue(v, a + b) <==> AllTrue(v, a) && AllTrue(v, b)
  {
    var s := a + b;
    if AllTrue(v, s) {
      forall k {:trigger a[k]} | 0 <= k < |a| ensures StatementTrue(v, a[k]) {
        assert s[k] == a[k];
      }
      forall k {:trigger b[k]} | 0 <= k < |b| ensures StatementTrue(v, b[k]) {
        assert s[|a| + k] == b[k];
      }
    }
  }

  /** The stacked polynomial's values. */
  ghost function Global(w: S.Witness, n: nat): (v: seq<Fe>)
    requires S.WitnessFits(w) && |S.Stacked(w)| <= Pow2(n)
    ensures |v| == Pow2(n)
  {
    PadZeros(S.Stacked(w), Pow2(n))
  }

  lemma ColumnValueIff(w: S.Witness, t: nat, c: nat, n: nat, s: SparseStatement, value: Fe)
    requires S.WitnessFits(w) && t < |w.tables| && c < |w.tables[t].columns| && S.TotalLen(w) <= Pow2(n) && |S.Stacked(w)| <= Pow2(n)
    requires s.total == n && |s.point| == w.tables[t].log && |w.tables[t].columns[c]| == Pow2(|s.point|)
    ensures |s.point| <= n
    ensures ValueTrue(Global(w, n), s, SparseValue(SectionIndex(S.TableOffset(w, t), w.tables[t].log) + c, value))
            <==> value == if s.isNext then Mle(Shifted(w.tables[t].columns[c]), s.point) else Mle(w.tables[t].columns[c], s.point)
  {
    hide Mle, S.Stacked, S.WitnessFits, S.TableOffset, Shifted, S.TotalLen;
    var log, vec := w.tables[t].log, w.tables[t].columns[c];
    S.OffsetAligned(w, t);
    S.ColumnStands(w, t, c);
    S.StackedLength(w);
    S.ColumnSelected(w, t, c, n, S.TableOffset(w, t), log);
    S.StandsPadded(S.Stacked(w), S.ColumnOffset(w, t, c), vec, Pow2(n));
    BlockCounts(Global(w, n), s, S.Selector(w, t, c), vec);
    if s.isNext {
      ShiftedColumn(vec, s.point);
    } else {
      MleIsDot(vec, s.point);
    }
  }

  lemma CommittedIff(w: S.Witness, t: nat, n: nat, c: Committed)
    requires S.WitnessFits(w) && t < |w.tables| && S.TotalLen(w) <= Pow2(n) && |S.Stacked(w)| <= Pow2(n)
    requires S.ColumnsFit(w.tables[t]) && CommittedFits(w.tables[t], c)
    ensures AllTrue(Global(w, n), CommittedStatements(c, n, SectionIndex(S.TableOffset(w, t), w.tables[t].log))) <==> CommittedRight(w.tables[t], c)
  {
    hide Mle, S.Stacked, S.WitnessFits, S.TableOffset, Shifted, S.TotalLen, ValueTrue, Global, SectionIndex, S.ColumnsFit, Pow2, AllTrue;
    ColumnsLong(w.tables[t]);
    LogFitsTable(w, t, n);
    EqIff(w, t, n, c);
    NextIff(w, t, n, c);
    TwoStatements(Global(w, n), c, n, SectionIndex(S.TableOffset(w, t), w.tables[t].log));
  }

  lemma ColumnsLong(t: S.Table)
    requires S.ColumnsFit(t)
    ensures forall i {:trigger t.columns[i]} | 0 <= i < |t.columns| :: |t.columns[i]| == Pow2(t.log)
  {
  }

  lemma EqIff(w: S.Witness, t: nat, n: nat, c: Committed)
    requires S.WitnessFits(w) && t < |w.tables| && S.TotalLen(w) <= Pow2(n) && |S.Stacked(w)| <= Pow2(n)
    requires S.ColumnsFit(w.tables[t]) && CommittedFits(w.tables[t], c) && |c.point| <= n
    requires forall i {:trigger w.tables[t].columns[i]} | 0 <= i < |w.tables[t].columns| :: |w.tables[t].columns[i]| == Pow2(w.tables[t].log)
    ensures var eq := SparseStatement(n, c.point, Values(c.eqValues, SectionIndex(S.TableOffset(w, t), w.tables[t].log)), false);
            forall i {:trigger eq.values[i]} {:trigger c.eqValues[i]} | 0 <= i < |c.eqValues| ::
              ValueTrue(Global(w, n), eq, eq.values[i]) <==> c.eqValues[i].value == Mle(w.tables[t].columns[c.eqValues[i].col], c.point)
  {
    hide Mle, S.Stacked, S.WitnessFits, S.TableOffset, Shifted, S.TotalLen, ValueTrue, Global, SectionIndex, S.ColumnsFit, Pow2;
    var eq := SparseStatement(n, c.point, Values(c.eqValues, SectionIndex(S.TableOffset(w, t), w.tables[t].log)), false);
    forall i {:trigger eq.values[i]} {:trigger c.eqValues[i]} | 0 <= i < |c.eqValues|
      ensures ValueTrue(Global(w, n), eq, eq.values[i]) <==> c.eqValues[i].value == Mle(w.tables[t].columns[c.eqValues[i].col], c.point)
    {
      ColumnValueIff(w, t, c.eqValues[i].col, n, eq, c.eqValues[i].value);
    }
  }

  lemma NextIff(w: S.Witness, t: nat, n: nat, c: Committed)
    requires S.WitnessFits(w) && t < |w.tables| && S.TotalLen(w) <= Pow2(n) && |S.Stacked(w)| <= Pow2(n)
    requires S.ColumnsFit(w.tables[t]) && CommittedFits(w.tables[t], c) && |c.point| <= n
    requires forall i {:trigger w.tables[t].columns[i]} | 0 <= i < |w.tables[t].columns| :: |w.tables[t].columns[i]| == Pow2(w.tables[t].log)
    ensures var next := SparseStatement(n, c.point, Values(c.nextValues, SectionIndex(S.TableOffset(w, t), w.tables[t].log)), true);
            forall i {:trigger next.values[i]} {:trigger c.nextValues[i]} | 0 <= i < |c.nextValues| ::
              ValueTrue(Global(w, n), next, next.values[i]) <==> c.nextValues[i].value == Mle(Shifted(w.tables[t].columns[c.nextValues[i].col]), c.point)
  {
    hide Mle, S.Stacked, S.WitnessFits, S.TableOffset, Shifted, S.TotalLen, ValueTrue, Global, SectionIndex, S.ColumnsFit, Pow2;
    var next := SparseStatement(n, c.point, Values(c.nextValues, SectionIndex(S.TableOffset(w, t), w.tables[t].log)), true);
    forall i {:trigger next.values[i]} {:trigger c.nextValues[i]} | 0 <= i < |c.nextValues|
      ensures ValueTrue(Global(w, n), next, next.values[i]) <==> c.nextValues[i].value == Mle(Shifted(w.tables[t].columns[c.nextValues[i].col]), c.point)
    {
      ColumnValueIff(w, t, c.nextValues[i].col, n, next, c.nextValues[i].value);
    }
  }

  /** The statements of one point are true when each claim is; an empty list of next claims adds no statement. */
  lemma TwoStatements(v: seq<Fe>, c: Committed, n: nat, base: nat)
    requires |c.point| <= n && |v| == Pow2(n)
    ensures var eq, next := SparseStatement(n, c.point, Values(c.eqValues, base), false), SparseStatement(n, c.point, Values(c.nextValues, base), true);
            AllTrue(v, CommittedStatements(c, n, base))
            <==> (forall i {:trigger eq.values[i]} | 0 <= i < |eq.values| :: ValueTrue(v, eq, eq.values[i]))
                 && (forall i {:trigger next.values[i]} | 0 <= i < |next.values| :: ValueTrue(v, next, next.values[i]))
  {
    hide ValueTrue;
    var eq, next := SparseStatement(n, c.point, Values(c.eqValues, base), false), SparseStatement(n, c.point, Values(c.nextValues, base), true);
    AllTrueAppend(v, if c.nextValues != [] then [next] else [], [eq]);
    assert AllTrue(v, [eq]) <==> StatementTrue(v, eq) by {
      assert [eq][0] == eq;
    }
    assert AllTrue(v, [next]) <==> StatementTrue(v, next) by {
      assert [next][0] == next;
    }
  }

  lemma LogFitsTable(w: S.Witness, t: nat, n: nat)
    requires S.WitnessFits(w) && t < |w.tables| && S.TotalLen(w) <= Pow2(n)
    ensures w.tables[t].log <= n
  {
    assert t > 0 ==> w.tables[0].log >= w.tables[t].log;
    if w.tables[t].log > n {
      Pow2Monotone(n, w.tables[t].log);
      Pow2Monotone(w.tables[t].log, w.logMemory);
    }
  }

  lemma {:induction false} AllCommittedIff(w: S.Witness, t: nat, n: nat, cs: seq<Committed>)
    requires S.WitnessFits(w) && t < |w.tables| && S.TotalLen(w) <= Pow2(n) && |S.Stacked(w)| <= Pow2(n) && S.ColumnsFit(w.tables[t])
    requires forall k {:trigger cs[k]} | 0 <= k < |cs| :: CommittedFits(w.tables[t], cs[k])
    ensures AllTrue(Global(w, n), AllCommitted(cs, n, SectionIndex(S.TableOffset(w, t), w.tables[t].log)))
            <==> forall k {:trigger cs[k]} | 0 <= k < |cs| :: CommittedRight(w.tables[t], cs[k])
    decreases |cs|
  {
    hide S.Stacked, S.WitnessFits, S.TableOffset, S.TotalLen, Global, SectionIndex, S.ColumnsFit, CommittedFits, CommittedRight, CommittedStatements,
         StatementTrue, AllTrue;
    var base := SectionIndex(S.TableOffset(w, t), w.tables[t].log);
    if cs == [] {
      NoneTrue(Global(w, n));
    } else {
      CommittedIff(w, t, n, cs[0]);
      AllCommittedIff(w, t, n, cs[1..]);
      AllTrueAppend(Global(w, n), CommittedStatements(cs[0], n, base), AllCommitted(cs[1..], n, base));
      assert (forall k {:trigger cs[k]} | 0 <= k < |cs| :: CommittedRight(w.tables[t], cs[k]))
        <==> CommittedRight(w.tables[t], cs[0]) && forall k {:trigger cs[1..][k]} | 0 <= k < |cs| - 1 :: CommittedRight(w.tables[t], cs[1..][k]) by {
        assert forall k {:trigger cs[1..][k]} | 0 <= k < |cs| - 1 :: cs[1..][k] == cs[k + 1];
        assert forall k {:trigger cs[k]} | 0 < k < |cs| :: cs[k] == cs[1..][k - 1];
      }
    }
  }

  lemma NoneTrue(v: seq<Fe>)
    ensures AllTrue(v, [])
  {
  }

  lemma UniqueIff(v: seq<Fe>, n: nat, index: nat, value: Fe)
    requires |v| == Pow2(n) && index < |v|
    ensures StatementTrue(v, UniqueValue(n, index, value)) <==> v[index] == value
  {
    var s := UniqueValue(n, index, value);
    assert Pow2(0) == 1 && S.Stands(v, index * 1, [v[index]]);
    BlockCounts(v, s, index, [v[index]]);
    MulOne(v[index]);
    assert InnerVec(s) == [1];
    assert [v[index]][1..] == [] && [1 as Fe][1..] == [];
    AddZero(v[index]);
    assert s.values[0] == SparseValue(index, value);
  }

  /** The two cells of the stacked polynomial that hold the first and the last program counter. */
  lemma PcCellsAre(w: S.Witness, t: nat, n: nat, first: nat, last: nat)
    requires S.WitnessFits(w) && t < |w.tables| && S.TotalLen(w) <= Pow2(n) && |S.Stacked(w)| <= Pow2(n) && w.tables[t].isExecution
    requires first == S.TableOffset(w, t) + S.COL_PC * Pow2(w.tables[t].log)
    requires last == S.TableOffset(w, t) + (S.COL_PC + 1) * Pow2(w.tables[t].log) - 1
    ensures w.tables[t].columns != [] && |w.tables[t].columns[S.COL_PC]| == Pow2(w.tables[t].log)
    ensures first < Pow2(n) && last < Pow2(n)
    ensures Global(w, n)[first] == w.tables[t].columns[S.COL_PC][0]
    ensures Global(w, n)[last] == w.tables[t].columns[S.COL_PC][Pow2(w.tables[t].log) - 1]
  {
    S.PcCells(w, t);
    assert S.ColumnsFit(w.tables[t]);
    hide S.Stacked, S.WitnessFits, S.TableOffset, S.TotalLen, Pow2;
  }

  lemma PcIff(w: S.Witness, t: nat, n: nat, s: Shape, endingPc: nat)
    requires S.WitnessFits(w) && t < |w.tables| && S.TotalLen(w) <= Pow2(n) && |S.Stacked(w)| <= Pow2(n)
    requires S.ColumnsFit(w.tables[t]) && ShapeFits(w.tables[t], s)
    ensures AllTrue(Global(w, n), PcStatements(s, n, S.TableOffset(w, t), endingPc)) <==> PcRight(w.tables[t], endingPc)
  {
    hide S.Stacked, S.WitnessFits, S.TableOffset, S.TotalLen, StatementTrue, UniqueValue, Global, AllTrue, S.ColumnsFit, Pow2;
    if s.isExecution {
      var offset, size := S.TableOffset(w, t), Pow2(w.tables[t].log);
      var first, last := offset + S.COL_PC * size, offset + (S.COL_PC + 1) * size - 1;
      PcCellsAre(w, t, n, first, last);
      UniqueIff(Global(w, n), n, first, Res(STARTING_PC));
      UniqueIff(Global(w, n), n, last, Res(endingPc));
      TwoTrue(Global(w, n), UniqueValue(n, first, Res(STARTING_PC)), UniqueValue(n, last, Res(endingPc)));
    } else {
      NoneTrue(Global(w, n));
    }
  }

  lemma TwoTrue(v: seq<Fe>, a: SparseStatement, b: SparseStatement)
    ensures AllTrue(v, [a, b]) <==> StatementTrue(v, a) && StatementTrue(v, b)
  {
    hide StatementTrue;
    var s := [a, b];
    assert s[0] == a && s[1] == b;
  }

  /** The statements of one table. */
  lemma TableIff(w: S.Witness, shapes: seq<Shape>, n: nat, endingPc: nat, t: nat)
    requires S.WitnessFits(w) && ShapesFit(w, shapes) && S.TotalLen(w) <= Pow2(n) && |S.Stacked(w)| <= Pow2(n) && t < |shapes|
    ensures S.ColumnsFit(w.tables[t]) && shapes[t].width == |w.tables[t].columns| && shapes[t].log == w.tables[t].log
    ensures AllTrue(Global(w, n), TableStatements(shapes[t], n, S.TableOffset(w, t), endingPc)) <==> ShapeRight(w.tables[t], shapes[t], endingPc)
  {
    assert S.ColumnsFit(w.tables[t]) && ShapeFits(w.tables[t], shapes[t]);
    hide S.Stacked, S.WitnessFits, S.TableOffset, S.TotalLen, Global, SectionIndex, S.ColumnsFit, AllTrue, PcStatements, AllCommitted, CommittedFits,
         CommittedRight, PcRight, ShapesFit;
    PcIff(w, t, n, shapes[t], endingPc);
    AllCommittedIff(w, t, n, shapes[t].committed);
    var offset := S.TableOffset(w, t);
    AllTrueAppend(Global(w, n), PcStatements(shapes[t], n, offset, endingPc), AllCommitted(shapes[t].committed, n, SectionIndex(offset, shapes[t].log)));
  }

  /** Statements of the tables from t on. */
  lemma {:induction false} StatementsIffFrom(w: S.Witness, shapes: seq<Shape>, n: nat, endingPc: nat, t: nat)
    requires S.WitnessFits(w) && ShapesFit(w, shapes) && S.TotalLen(w) <= Pow2(n) && |S.Stacked(w)| <= Pow2(n) && t <= |shapes|
    ensures |shapes| == |w.tables| && w.tables != []
    ensures AllTrue(Global(w, n), AllStatements(shapes[t..], n, S.TableOffset(w, t), endingPc)) <==> ShapesRightFrom(w, shapes, endingPc, t)
    decreases |shapes| - t
  {
    hide *;
    SameTables(w, shapes);
    if t == |shapes| {
      NoStatements(Global(w, n), n, S.TableOffset(w, t), endingPc);
      assert shapes[t..] == [];
      NoTablesLeft(w, shapes, endingPc);
    } else {
      TableIff(w, shapes, n, endingPc, t);
      NextOffset(w, shapes, t);
      StatementsIffFrom(w, shapes, n, endingPc, t + 1);
      StatementsFrom(Global(w, n), shapes, n, t, S.TableOffset(w, t), S.TableOffset(w, t + 1), endingPc);
      OneMoreTable(w, shapes, endingPc, t);
    }
  }

  lemma NoTablesLeft(w: S.Witness, shapes: seq<Shape>, endingPc: nat)
    requires S.WitnessFits(w) && ShapesFit(w, shapes)
    ensures ShapesRightFrom(w, shapes, endingPc, |shapes|)
  {
  }

  lemma OneMoreTable(w: S.Witness, shapes: seq<Shape>, endingPc: nat, t: nat)
    requires S.WitnessFits(w) && ShapesFit(w, shapes) && t < |shapes| && S.ColumnsFit(w.tables[t])
    ensures ShapeFits(w.tables[t], shapes[t])
    ensures ShapesRightFrom(w, shapes, endingPc, t) <==> ShapeRight(w.tables[t], shapes[t], endingPc) && ShapesRightFrom(w, shapes, endingPc, t + 1)
  {
    assert S.ColumnsFit(w.tables[t]) && ShapeFits(w.tables[t], shapes[t]);
    hide ShapeRight, ShapeFits, S.ColumnsFit, S.WitnessFits;
    if ShapeRight(w.tables[t], shapes[t], endingPc) && ShapesRightFrom(w, shapes, endingPc, t + 1) {
      forall k {:trigger shapes[k]} | t <= k < |shapes| ensures S.ColumnsFit(w.tables[k]) && ShapeRight(w.tables[k], shapes[k], endingPc) {
        if k > t {
          assert t + 1 <= k;
        }
      }
    }
  }

  lemma SameTables(w: S.Witness, shapes: seq<Shape>)
    requires S.WitnessFits(w) && ShapesFit(w, shapes)
    ensures |shapes| == |w.tables| && w.tables != []
    ensures shapes[0].log == w.tables[0].log
  {
    assert ShapeFits(w.tables[0], shapes[0]);
  }

  lemma StatementsFrom(v: seq<Fe>, shapes: seq<Shape>, n: nat, t: nat, offset: nat, next: nat, endingPc: nat)
    requires t < |shapes| && next == offset + S.CellsOf(shapes[t].width, shapes[t].log)
    ensures AllTrue(v, AllStatements(shapes[t..], n, offset, endingPc))
            <==> AllTrue(v, TableStatements(shapes[t], n, offset, endingPc)) && AllTrue(v, AllStatements(shapes[t + 1..], n, next, endingPc))
  {
    hide AllTrue, TableStatements, S.CellsOf;
    TailFrom(shapes, t);
    AllTrueAppend(v, TableStatements(shapes[t], n, offset, endingPc), AllStatements(shapes[t + 1..], n, next, endingPc));
  }

  lemma NoStatements(v: seq<Fe>, n: nat, offset: nat, endingPc: nat)
    ensures AllTrue(v, AllStatements([], n, offset, endingPc))
  {
  }

  lemma NextOffset(w: S.Witness, shapes: seq<Shape>, t: nat)
    requires t < |shapes| && w.tables != [] && t < |w.tables|
    requires shapes[t].width == |w.tables[t].columns| && shapes[t].log == w.tables[t].log
    ensures S.TableOffset(w, t + 1) == S.TableOffset(w, t) + S.CellsOf(shapes[t].width, shapes[t].log)
  {
    assert w.tables[..t + 1][..t] == w.tables[..t];
  }

  /** What the loop over tables returns. */
  ghost function Listed(w: S.Witness, shapes: seq<Shape>, n: nat, endingPc: nat): seq<SparseStatement>
    requires shapes != []
  {
    AllStatements(shapes, n, 2 * Pow2(w.logMemory) + Pow2(if w.logBytecode >= shapes[0].log then w.logBytecode else shapes[0].log), endingPc)
  }

  lemma ListedIff(w: S.Witness, shapes: seq<Shape>, n: nat, endingPc: nat)
    requires S.WitnessFits(w) && ShapesFit(w, shapes) && S.TotalLen(w) <= Pow2(n)
    ensures shapes != [] && |S.Stacked(w)| <= Pow2(n)
    ensures AllTrue(PadZeros(S.Stacked(w), Pow2(n)), Listed(w, shapes, n, endingPc)) <==> ShapesRightFrom(w, shapes, endingPc, 0)
  {
    hide AllTrue, AllStatements, ShapesRightFrom, S.Stacked, S.WitnessFits, ShapesFit, Pow2, S.TableOffset, S.TotalLen;
    StackedFits(w, n);
    SameTables(w, shapes);
    FirstOffset(w);
    StatementsIffFrom(w, shapes, n, endingPc, 0);
    assert shapes[0..] == shapes;
  }

  lemma StackedFits(w: S.Witness, n: nat)
    requires S.WitnessFits(w) && S.TotalLen(w) <= Pow2(n)
    ensures |S.Stacked(w)| <= Pow2(n)
  {
    S.StackedLength(w);
  }

  lemma FirstOffset(w: S.Witness)
    requires w.tables != []
    ensures S.TableOffset(w, 0) == 2 * Pow2(w.logMemory) + Pow2(if w.logBytecode >= w.tables[0].log then w.logBytecode else w.tables[0].log)
  {
    assert w.tables[..0] == [];
  }

  /** If the claimed column values and program counters are right, every statement is true of the stacked polynomial. */
  lemma GlobalStatementsTrue(w: S.Witness, shapes: seq<Shape>, n: nat, endingPc: nat)
    requires S.WitnessFits(w) && ShapesFit(w, shapes) && S.TotalLen(w) <= Pow2(n) && ShapesRightFrom(w, shapes, endingPc, 0)
    ensures shapes != [] && shapes[0].log == w.tables[0].log && |S.Stacked(w)| <= Pow2(n)
    ensures AllTrue(PadZeros(S.Stacked(w), Pow2(n)), Listed(w, shapes, n, endingPc))
  {
    hide *;
    ListedIff(w, shapes, n, endingPc);
    SameTables(w, shapes);
  }

  /**
   If every statement is true of the stacked polynomial, then the execution starts and ends where it should, and every listed
   claim is the evaluation of its column or of its column moved down by one row.
   */
  lemma GlobalStatementsForce(w: S.Witness, shapes: seq<Shape>, n: nat, endingPc: nat, t: nat)
    requires S.WitnessFits(w) && ShapesFit(w, shapes) && S.TotalLen(w) <= Pow2(n) && t < |shapes|
    requires shapes != [] && |S.Stacked(w)| <= Pow2(n) && AllTrue(PadZeros(S.Stacked(w), Pow2(n)), Listed(w, shapes, n, endingPc))
    ensures |shapes| == |w.tables| && S.ColumnsFit(w.tables[t])
    ensures w.tables[t].isExecution ==>
              var pc := w.tables[t].columns[0];
              |pc| == Pow2(w.tables[t].log) && pc[0] == Res(0) && pc[|pc| - 1] == Res(endingPc)
    ensures forall k, i {:trigger shapes[t].committed[k].eqValues[i]} | 0 <= k < |shapes[t].committed| && 0 <= i < |shapes[t].committed[k].eqValues| ::
              var c := shapes[t].committed[k];
              && |c.point| == w.tables[t].log && c.eqValues[i].col < |w.tables[t].columns|
              && |w.tables[t].columns[c.eqValues[i].col]| == Pow2(|c.point|)
              && c.eqValues[i].value == Mle(w.tables[t].columns[c.eqValues[i].col], c.point)
    ensures forall k, i {:trigger shapes[t].committed[k].nextValues[i]} | 0 <= k < |shapes[t].committed| && 0 <= i < |shapes[t].committed[k].nextValues| ::
              var c := shapes[t].committed[k];
              && |c.point| == w.tables[t].log && c.nextValues[i].col < |w.tables[t].columns|
              && |w.tables[t].columns[c.nextValues[i].col]| == Pow2(|c.point|)
              && c.nextValues[i].value == Mle(Shifted(w.tables[t].columns[c.nextValues[i].col]), c.point)
  {
    ListedIff(w, shapes, n, endingPc);
    hide AllTrue, Listed, S.Stacked, Mle, Shifted, Pow2;
    assert S.ColumnsFit(w.tables[t]) && ShapeFits(w.tables[t], shapes[t]) && ShapeRight(w.tables[t], shapes[t], endingPc);
    var cs := shapes[t].committed;
    forall k, i {:trigger cs[k].eqValues[i]} | 0 <= k < |cs| && 0 <= i < |cs[k].eqValues|
      ensures |cs[k].point| == w.tables[t].log && cs[k].eqValues[i].col < |w.tables[t].columns|
              && |w.tables[t].columns[cs[k].eqValues[i].col]| == Pow2(|cs[k].point|)
              && cs[k].eqValues[i].value == Mle(w.tables[t].columns[cs[k].eqValues[i].col], cs[k].point)
    {
      assert CommittedFits(w.tables[t], cs[k]) && CommittedRight(w.tables[t], cs[k]);
    }
    forall k, i {:trigger cs[k].nextValues[i]} | 0 <= k < |cs| && 0 <= i < |cs[k].nextValues|
      ensures |cs[k].point| == w.tables[t].log && cs[k].nextValues[i].col < |w.tables[t].columns|
              && |w.tables[t].columns[cs[k].nextValues[i].col]| == Pow2(|cs[k].point|)
              && cs[k].nextValues[i].value == Mle(Shifted(w.tables[t].columns[cs[k].nextValues[i].col]), cs[k].point)
    {
      assert CommittedFits(w.tables[t], cs[k]) && CommittedRight(w.tables[t], cs[k]);
    }
  }
}
