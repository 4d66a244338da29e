/**
 All committed columns stacked in one polynomial, and the selectors that single one of them out
 (crates/sub_protocols/src/stacked_pcs.rs).
 */
module StackedPcs {
  import opened Arith
  import opened Field
  import opened Multilinear
  import opened Sections
  import opened WhirConstraints

  const COL_PC := 0

  datatype Table = Table(isExecution: bool, log: nat, columns: seq<seq<Fe>>)

  datatype Witness = Witness(logMemory: nat, memory: seq<Fe>, memoryAcc: seq<Fe>, logBytecode: nat, bytecodeAcc: seq<Fe>, tables: seq<Table>)

  ghost predicate Descending(tables: seq<Table>) {
    forall i, j {:trigger tables[i], tables[j]} | 0 <= i < j < |tables| :: tables[i].log >= tables[j].log
  }

  ghost predicate ColumnsFit(t: Table) { forall c {:trigger t.columns[c]} | 0 <= c < |t.columns| :: |t.columns[c]| == Pow2(t.log) }

  /** Heights sorted, memory the tallest; the execution table has its program counter column. */
  ghost predicate WitnessFits(w: Witness) {
    && w.tables != [] && Descending(w.tables) && w.tables[0].log <= w.logMemory && w.logBytecode <= w.logMemory
    && |w.memory| == |w.memoryAcc| == Pow2(w.logMemory) && |w.bytecodeAcc| == Pow2(w.logBytecode)
    && forall t {:trigger w.tables[t]} | 0 <= t < |w.tables| :: ColumnsFit(w.tables[t]) && (w.tables[t].isExecution ==> w.tables[t].columns != [])
  }

  function PaddedLog(w: Witness): nat
    requires w.tables != []
  {
    if w.logBytecode >= w.tables[0].log then w.logBytecode else w.tables[0].log
  }

  // ----- the stacked values

  function Columns(cols: seq<seq<Fe>>): seq<Fe> { if cols == [] then [] else cols[0] + Columns(cols[1..]) }

  function TableColumns(tables: seq<Table>): seq<Fe> { if tables == [] then [] else Columns(tables[0].columns) + TableColumns(tables[1..]) }

  lemma PaddedLonger(w: Witness)
    requires WitnessFits(w)
    ensures Pow2(w.logBytecode) <= Pow2(PaddedLog(w))
  {
    Pow2Monotone(w.logBytecode, PaddedLog(w));
  }

  /** Memory, its accumulator, the padded bytecode accumulator, then the columns of every table. */
  function Stacked(w: Witness): seq<Fe>
    requires WitnessFits(w)
  {
    PaddedLonger(w);
    w.memory + w.memoryAcc + PadZeros(w.bytecodeAcc, Pow2(PaddedLog(w))) + TableColumns(w.tables)
  }

  /** Where the columns of table t start. */
  function TableOffset(w: Witness, t: nat): nat
    requires w.tables != [] && t <= |w.tables|
  {
    2 * Pow2(w.logMemory) + Pow2(PaddedLog(w)) + TableCells(w.tables[..t])
  }

  function TableCells(tables: seq<Table>): nat
  {
    if tables == [] then 0 else TableCells(tables[..|tables| - 1]) + |tables[|tables| - 1].columns| * Pow2(tables[|tables| - 1].log)
  }

  /** compute_stacked_n_vars before the logarithm. */
  function TotalLen(w: Witness): nat
    requires w.tables != []
  {
    TableOffset(w, |w.tables|)
  }

  /** log2_ceil_usize: the least k with n <= 2^k. */
  function Log2Ceil(n: nat): (k: nat)
    ensures n <= Pow2(k) && (k > 0 ==> Pow2(k - 1) < n)
  {
    Log2From(n, 0)
  }

  function Log2From(n: nat, k: nat): (r: nat)
    requires k > 0 ==> Pow2(k - 1) < n
    ensures r >= k && n <= Pow2(r) && (r > 0 ==> Pow2(r - 1) < n)
    decreases if n > Pow2(k) then n - Pow2(k) else 0
  {
    if n <= Pow2(k) then k else Log2From(n, k + 1)
  }

  lemma {:induction false} ColumnsLength(cols: seq<seq<Fe>>, s: nat)
    requires forall c {:trigger cols[c]} | 0 <= c < |cols| :: |cols[c]| == s
    ensures |Columns(cols)| == |cols| * s
    decreases |cols|
  {
    if cols != [] {
      ColumnsLength(cols[1..], s);
      Peel(|cols|, s);
    }
  }

  lemma Peel(n: nat, s: nat)
    requires n > 0
    ensures n * s == s + (n - 1) * s
  {
  }

  lemma {:induction false} TableColumnsSplit(a: seq<Table>, b: seq<Table>)
    ensures TableColumns(a + b) == TableColumns(a) + TableColumns(b)
    decreases |a|
  {
    if a == [] {
      assert a + b == b;
    } else {
      assert (a + b)[1..] == a[1..] + b;
      TableColumnsSplit(a[1..], b);
    }
  }

  lemma {:induction false} ColumnsSplit(a: seq<seq<Fe>>, b: seq<seq<Fe>>)
    ensures Columns(a + b) == Columns(a) + Columns(b)
    decreases |a|
  {
    if a == [] {
      assert a + b == b;
    } else {
      assert (a + b)[1..] == a[1..] + b;
      ColumnsSplit(a[1..], b);
    }
  }

  lemma {:induction false} TableCellsIs(tables: seq<Table>)
    requires forall t {:trigger tables[t]} | 0 <= t < |tables| :: ColumnsFit(tables[t])
    ensures |TableColumns(tables)| == TableCells(tables)
    decreases |tables|
  {
    if tables != [] {
      var init, last := tables[..|tables| - 1], tables[|tables| - 1];
      TableCellsIs(init);
      assert tables == init + [last];
      TableColumnsSplit(init, [last]);
      assert [last][1..] == [];
      ColumnsLength(last.columns, Pow2(last.log));
      assert TableColumns([last]) == Columns(last.columns) + [];
    }
  }

  /** The moving offset ends at the precomputed length. */
  lemma StackedLength(w: Witness)
    requires WitnessFits(w)
    ensures |Stacked(w)| == TotalLen(w)
  {
    TableCellsIs(w.tables);
    assert w.tables[..|w.tables|] == w.tables;
  }

  // ----- where each column stands

  ghost predicate Stands(v: seq<Fe>, offset: nat, vec: seq<Fe>) { offset + |vec| <= |v| && v[offset..offset + |vec|] == vec }

  lemma StandsIn(a: seq<Fe>, vec: seq<Fe>, b: seq<Fe>)
    ensures Stands(a + vec + b, |a|, vec)
  {
    assert (a + vec + b)[|a|..|a| + |vec|] == vec;
  }

  /** The table's offset plus c columns. */
  function ColumnOffset(w: Witness, t: nat, c: nat): nat
    requires w.tables != [] && t < |w.tables|
  {
    TableOffset(w, t) + CellsOf(c, w.tables[t].log)
  }

  function CellsOf(c: nat, log: nat): nat { c * Pow2(log) }

  lemma Rebracket(a: seq<Fe>, b: seq<Fe>, c: seq<Fe>, vec: seq<Fe>, d: seq<Fe>, e: seq<Fe>)
    ensures a + (b + ((c + (vec + d)) + e)) == (a + b + c) + vec + (d + e)
  {
  }

  lemma ColumnsAround(cols: seq<seq<Fe>>, c: nat, s: nat)
    requires c < |cols| && forall k {:trigger cols[k]} | 0 <= k < |cols| :: |cols[k]| == s
    ensures Columns(cols) == Columns(cols[..c]) + (cols[c] + Columns(cols[c + 1..])) && |Columns(cols[..c])| == c * s
  {
    assert cols == cols[..c] + cols[c..];
    ColumnsSplit(cols[..c], cols[c..]);
    assert cols[c..][1..] == cols[c + 1..] && cols[c..][0] == cols[c];
    ColumnsLength(cols[..c], s);
  }

  lemma TablesAround(tables: seq<Table>, t: nat)
    requires t < |tables| && forall k {:trigger tables[k]} | 0 <= k < |tables| :: ColumnsFit(tables[k])
    ensures TableColumns(tables) == TableColumns(tables[..t]) + (Columns(tables[t].columns) + TableColumns(tables[t + 1..]))
    ensures |TableColumns(tables[..t])| == TableCells(tables[..t])
  {
    assert tables == tables[..t] + tables[t..];
    TableColumnsSplit(tables[..t], tables[t..]);
    assert tables[t..][1..] == tables[t + 1..] && tables[t..][0] == tables[t];
    TableCellsIs(tables[..t]);
  }

  /** Column c of table t stands at its offset. */
  lemma ColumnStands(w: Witness, t: nat, c: nat)
    requires WitnessFits(w) && t < |w.tables| && c < |w.tables[t].columns|
    ensures Stands(Stacked(w), ColumnOffset(w, t, c), w.tables[t].columns[c])
  {
    StackedParts(w);
    var cols := w.tables[t].columns;
    assert ColumnsFit(w.tables[t]);
    TablesAround(w.tables, t);
    ColumnsAround(cols, c, Pow2(w.tables[t].log));
    var front := w.memory + w.memoryAcc + PadZeros(w.bytecodeAcc, Pow2(PaddedLog(w)));
    assert |front| == 2 * Pow2(w.logMemory) + Pow2(PaddedLog(w));
    hide Stacked, PadZeros, Columns, TableColumns, WitnessFits, TableCells, PaddedLog;
    var before, after := TableColumns(w.tables[..t]), TableColumns(w.tables[t + 1..]);
    var left, right := Columns(cols[..c]), Columns(cols[c + 1..]);
    Rebracket(front, before, left, cols[c], right, after);
    StandsIn(front + before + left, cols[c], right + after);
  }

  lemma FrontStands(w: Witness)
    requires WitnessFits(w)
    ensures Stands(Stacked(w), 0, w.memory) && Stands(Stacked(w), Pow2(w.logMemory), w.memoryAcc)
    ensures Stands(Stacked(w), 2 * Pow2(w.logMemory), w.bytecodeAcc)
  {
    StackedParts(w);
    var m, a, b, size := w.memory, w.memoryAcc, w.bytecodeAcc, Pow2(PaddedLog(w));
    assert |m| == |a| == Pow2(w.logMemory);
    var rest := TableColumns(w.tables);
    var zeros := seq<Fe>(size - |b|, _ => 0);
    assert PadZeros(b, size) == b + zeros;
    hide Stacked, PadZeros, Columns, TableColumns, WitnessFits, PaddedLog, Pow2;
    var padded := b + zeros;
    StandsIn([], m, a + padded + rest);
    assert [] + m == m;
    Assoc(m, a + padded, rest);
    Assoc(m, a, padded);
    StandsIn(m, a, padded + rest);
    Assoc(m + a, padded, rest);
    StandsIn(m + a, b, zeros + rest);
    Assoc(b, zeros, rest);
    Assoc(m + a, b, zeros + rest);
  }

  lemma Assoc(x: seq<Fe>, y: seq<Fe>, z: seq<Fe>)
    ensures (x + y) + z == x + (y + z)
  {
  }

  // ----- alignment

  lemma CellsAligned(n: nat, log: nat)
    ensures MultipleOf(Pow2(log), n * Pow2(log))
  {
    assert IsMultiple(n * Pow2(log), Pow2(log), n);
  }

  lemma {:induction false} TableCellsAligned(tables: seq<Table>, log: nat)
    requires forall t {:trigger tables[t]} | 0 <= t < |tables| :: tables[t].log >= log
    ensures MultipleOf(Pow2(log), TableCells(tables))
    decreases |tables|
  {
    if tables == [] {
      MultipleZero(Pow2(log));
    } else {
      var init, last := tables[..|tables| - 1], tables[|tables| - 1];
      TableCellsAligned(init, log);
      CellsAligned(|last.columns|, last.log);
      MultiplePow(log, last.log, |last.columns| * Pow2(last.log));
      MultipleSum(Pow2(log), TableCells(init), |last.columns| * Pow2(last.log));
    }
  }

  /** Every table starts at a multiple of its height. */
  lemma OffsetAligned(w: Witness, t: nat)
    requires WitnessFits(w) && t < |w.tables|
    ensures MultipleOf(Pow2(w.tables[t].log), TableOffset(w, t))
  {
    var log := w.tables[t].log;
    assert t > 0 ==> w.tables[0].log >= w.tables[t].log;
    forall k {:trigger w.tables[..t][k]} | 0 <= k < t ensures w.tables[..t][k].log >= log {
      assert w.tables[k].log >= w.tables[t].log;
    }
    TableCellsAligned(w.tables[..t], log);
    MultipleSelf(log, w.logMemory);
    MultipleSelf(log, PaddedLog(w));
    MultipleSum(Pow2(log), Pow2(w.logMemory), Pow2(w.logMemory));
    MultipleSum(Pow2(log), 2 * Pow2(w.logMemory), Pow2(PaddedLog(w)));
    MultipleSum(Pow2(log), 2 * Pow2(w.logMemory) + Pow2(PaddedLog(w)), TableCells(w.tables[..t]));
  }

  // ----- selectors

  /** (offset >> n_vars) + col_index. */
  function Selector(w: Witness, t: nat, c: nat): nat
    requires w.tables != [] && t < |w.tables|
  {
    SectionIndex(TableOffset(w, t), w.tables[t].log) + c
  }

  /** Block `sel` of the values is the polynomial at the bits of sel. */
  lemma BlockSelected(v: seq<Fe>, n: nat, log: nat, sel: nat, vec: seq<Fe>, point: seq<Fe>)
    requires |v| == Pow2(n) && log <= n && |point| == log && |vec| == Pow2(log) && sel < Pow2(n - log)
    requires Stands(v, sel * Pow2(log), vec)
    ensures |Bits(sel, n - log) + point| == n && Mle(v, Bits(sel, n - log) + point) == Mle(vec, point)
  {
    hide Mle, EvalBlocks, Pow2, Bits;
    BlockValue(v, n - log, point, sel, Pow2(log), vec);
    MleSplit(v, Bits(sel, n - log), point);
    MleAtBits(EvalBlocks(v, n - log, point), sel, n - log);
  }

  lemma BlockValue(v: seq<Fe>, k: nat, point: seq<Fe>, sel: nat, size: nat, vec: seq<Fe>)
    requires |v| == Pow2(k + |point|) && size == |vec| == Pow2(|point|) && sel < Pow2(k) && Stands(v, sel * size, vec)
    ensures EvalBlocks(v, k, point)[sel] == Mle(vec, point)
  {
    hide Mle, EvalBlocks, Pow2;
    EvalBlocksAt(v, k, point, sel, size);
    OneBlockOn(sel, size);
  }

  lemma OneBlockOn(sel: nat, s: nat)
    ensures (sel + 1) * s == sel * s + s
  {
  }

  lemma StandsPadded(v: seq<Fe>, offset: nat, vec: seq<Fe>, size: nat)
    requires Stands(v, offset, vec) && |v| <= size
    ensures Stands(PadZeros(v, size), offset, vec)
  {
  }

  lemma SelectorScales(q: nat, c: nat, s: nat)
    ensures (q + c) * s == q * s + c * s
  {
  }

  /** The selector of a committed statement singles out exactly its column. */
  lemma StatementSelectsColumn(w: Witness, t: nat, c: nat, n: nat, point: seq<Fe>)
    requires WitnessFits(w) && t < |w.tables| && c < |w.tables[t].columns| && TotalLen(w) <= Pow2(n) && |point| == w.tables[t].log
    ensures |point| <= n && Selector(w, t, c) < Pow2(n - |point|)
    ensures |Stacked(w)| <= Pow2(n) && |Bits(Selector(w, t, c), n - |point|) + point| == n
    ensures Mle(PadZeros(Stacked(w), Pow2(n)), Bits(Selector(w, t, c), n - |point|) + point) == Mle(w.tables[t].columns[c], point)
  {
    hide Mle, Stacked, TableCells, Bits, Selector;
    var log, offset := w.tables[t].log, TableOffset(w, t);
    StackedLength(w);
    ColumnStands(w, t, c);
    OffsetAligned(w, t);
    assert ColumnsFit(w.tables[t]);
    ColumnSelected(w, t, c, n, offset, log);
    StandsPadded(Stacked(w), ColumnOffset(w, t, c), w.tables[t].columns[c], Pow2(n));
    BlockSelected(PadZeros(Stacked(w), Pow2(n)), n, log, Selector(w, t, c), w.tables[t].columns[c], point);
  }

  lemma ColumnSelected(w: Witness, t: nat, c: nat, n: nat, offset: nat, log: nat)
    requires w.tables != [] && t < |w.tables| && offset == TableOffset(w, t) && log == w.tables[t].log
    requires MultipleOf(Pow2(log), offset) && offset + c * Pow2(log) + Pow2(log) <= Pow2(n)
    ensures log <= n && Selector(w, t, c) < Pow2(n - log) && Selector(w, t, c) * Pow2(log) == offset + c * Pow2(log)
  {
    if log > n { Pow2Monotone(n, log); }
    ShiftSelects(offset, log, n);
    SelectorScales(SectionIndex(offset, log), c, Pow2(log));
    Pow2Add(n - log, log);
    if Selector(w, t, c) >= Pow2(n - log) {
      MulMonotone(Pow2(n - log), Selector(w, t, c), Pow2(log));
    }
  }

  /** Memory and its accumulator are blocks 0 and 1 of their size; the bytecode accumulator is found by its offset too. */
  lemma FrontSelected(w: Witness, n: nat, pm: seq<Fe>, pb: seq<Fe>)
    requires WitnessFits(w) && TotalLen(w) <= Pow2(n) && |pm| == w.logMemory && |pb| == w.logBytecode
    ensures w.logMemory < n && |Stacked(w)| <= Pow2(n)
    ensures var v := PadZeros(Stacked(w), Pow2(n)); var sel := SectionIndex(2 * Pow2(w.logMemory), w.logBytecode);
            && 1 < Pow2(n - |pm|) && sel < Pow2(n - |pb|)
            && |Bits(0, n - |pm|) + pm| == |Bits(1, n - |pm|) + pm| == |Bits(sel, n - |pb|) + pb| == n
            && Mle(v, Bits(0, n - |pm|) + pm) == Mle(w.memory, pm) && Mle(v, Bits(1, n - |pm|) + pm) == Mle(w.memoryAcc, pm)
            && Mle(v, Bits(sel, n - |pb|) + pb) == Mle(w.bytecodeAcc, pb)
  {
    hide Mle, Stacked;
    StackedLength(w);
    FrontStands(w);
    PaddedLonger(w);
    var m := w.logMemory;
    if m >= n { Pow2Monotone(n, m); }
    Pow2Monotone(1, n - m);
    var v := PadZeros(Stacked(w), Pow2(n));
    StandsPadded(Stacked(w), 0, w.memory, Pow2(n));
    StandsPadded(Stacked(w), Pow2(m), w.memoryAcc, Pow2(n));
    StandsPadded(Stacked(w), 2 * Pow2(m), w.bytecodeAcc, Pow2(n));
    BlockSelected(v, n, m, 0, w.memory, pm);
    BlockSelected(v, n, m, 1, w.memoryAcc, pm);
    MultipleSelf(w.logBytecode, m);
    MultipleSum(Pow2(w.logBytecode), Pow2(m), Pow2(m));
    ShiftSelects(2 * Pow2(m), w.logBytecode, n);
    BlockSelected(v, n, w.logBytecode, SectionIndex(2 * Pow2(m), w.logBytecode), w.bytecodeAcc, pb);
  }

  /** The two unique-value statements of the execution table name the first and the last program counter. */
  lemma PcCells(w: Witness, t: nat)
    requires WitnessFits(w) && t < |w.tables| && w.tables[t].isExecution
    ensures var offset, s, pc := TableOffset(w, t), Pow2(w.tables[t].log), w.tables[t].columns[COL_PC];
            && |pc| == s && offset + (COL_PC + 1) * s - 1 < |Stacked(w)|
            && Stacked(w)[offset + COL_PC * s] == pc[0] && Stacked(w)[offset + (COL_PC + 1) * s - 1] == pc[s - 1]
  {
    hide Stacked;
    ColumnStands(w, t, COL_PC);
    assert CellsOf(0, w.tables[t].log) == 0;
    var offset, s, pc := TableOffset(w, t), Pow2(w.tables[t].log), w.tables[t].columns[COL_PC];
    assert ColumnsFit(w.tables[t]);
    var v := Stacked(w);
    assert v[offset..offset + s][0] == pc[0] && v[offset..offset + s][s - 1] == pc[s - 1];
  }

  // ----- stacking

  /** Copies values to a place of the polynomial. */
  method CopyAt(global: array<Fe>, offset: nat, vec: seq<Fe>)
    requires offset + |vec| <= global.Length
    modifies global
    ensures global[..offset] == old(global[..offset]) && global[offset..offset + |vec|] == vec
    ensures forall i {:trigger global[i]} | offset + |vec| <= i < global.Length :: global[i] == old(global[i])
  {
    for i := 0 to |vec|
      invariant global[..offset] == old(global[..offset]) && global[offset..offset + i] == vec[..i]
      invariant forall k {:trigger global[k]} | offset + i <= k < global.Length :: global[k] == old(global[k])
    {
      global[offset + i] := vec[i];
    }
  }

  /** The values so far, then zeros. */
  ghost predicate FilledTo(v: seq<Fe>, done: seq<Fe>) { |done| <= |v| && v == PadZeros(done, |v|) }

  method Append(global: array<Fe>, offset: nat, vec: seq<Fe>, ghost done: seq<Fe>)
    requires offset == |done| && offset + |vec| <= global.Length && FilledTo(global[..], done)
    modifies global
    ensures FilledTo(global[..], done + vec)
  {
    ghost var v0 := global[..];
    CopyAt(global, offset, vec);
    ghost var l, r := global[..], PadZeros(done + vec, global.Length);
    forall i | 0 <= i < global.Length ensures l[i] == r[i] {
      if i < offset {
        assert global[..offset][i] == v0[..offset][i];
      } else if i < offset + |vec| {
        assert global[offset..offset + |vec|][i - offset] == vec[i - offset];
      } else {
        assert v0[i] == 0;
      }
    }
  }

  /** stack_polynomials_and_commit up to the commitment. */
  method StackPolynomials(w: Witness) returns (global: array<Fe>, n: nat)
    requires WitnessFits(w)
    ensures n == Log2Ceil(TotalLen(w)) && fresh(global) && |Stacked(w)| <= Pow2(n) && global[..] == PadZeros(Stacked(w), Pow2(n))
  {
    hide WitnessFits, Stacked, FilledTo, PadZeros, TableColumns, Columns;
    StackedParts(w);
    StackedLength(w);
    n := Log2Ceil(TotalLen(w));
    global := new Fe[Pow2(n)](_ => 0);
    AllZeros(global[..]);
    var offset := |w.memory|;
    ghost var done: seq<Fe> := [];
    Append(global, 0, w.memory, done);
    assert [] + w.memory == w.memory;
    Append(global, offset, w.memoryAcc, w.memory);
    offset := offset + |w.memoryAcc|;
    Append(global, offset, w.bytecodeAcc, w.memory + w.memoryAcc);
    BytecodePadded(global[..], w);
    done := w.memory + w.memoryAcc + PadZeros(w.bytecodeAcc, Pow2(PaddedLog(w)));
    offset := offset + Pow2(PaddedLog(w));
    var t := 0;
    assert w.tables[0..] == w.tables;
    while t < |w.tables|
      invariant 0 <= t <= |w.tables| && offset == |done| && FilledTo(global[..], done)
      invariant done + TableColumns(w.tables[t..]) == Stacked(w)
    {
      assert w.tables[t..][0] == w.tables[t] && w.tables[t..][1..] == w.tables[t + 1..];
      NextTable(w.tables[t..]);
      ghost var rest := TableColumns(w.tables[t + 1..]);
      assert done + (Columns(w.tables[t].columns) + rest) == done + Columns(w.tables[t].columns) + rest;
      offset := AppendColumns(global, offset, w.tables[t].columns, done, rest, Stacked(w));
      done := done + Columns(w.tables[t].columns);
      t := t + 1;
    }
    assert w.tables[t..] == [];
    NoTables();
    assert done + [] == done;
    IsPadded(global[..], done);
  }

  lemma NextTable(tables: seq<Table>)
    requires tables != []
    ensures TableColumns(tables) == Columns(tables[0].columns) + TableColumns(tables[1..])
  {
  }

  lemma NoTables()
    ensures TableColumns([]) == [] && Columns([]) == []
  {
  }

  lemma NextColumn(cols: seq<seq<Fe>>)
    requires cols != []
    ensures Columns(cols) == cols[0] + Columns(cols[1..])
  {
  }

  lemma AllZeros(v: seq<Fe>)
    requires forall i {:trigger v[i]} | 0 <= i < |v| :: v[i] == 0
    ensures FilledTo(v, [])
  {
  }

  lemma IsPadded(v: seq<Fe>, done: seq<Fe>)
    requires FilledTo(v, done)
    ensures |done| <= |v| && v == PadZeros(done, |v|)
  {
  }

  lemma StackedParts(w: Witness)
    requires WitnessFits(w)
    ensures Pow2(w.logBytecode) == |w.bytecodeAcc| <= Pow2(PaddedLog(w)) && w.tables != []
    ensures Stacked(w) == w.memory + w.memoryAcc + PadZeros(w.bytecodeAcc, Pow2(PaddedLog(w))) + TableColumns(w.tables)
  {
    PaddedLonger(w);
  }

  lemma BytecodePadded(v: seq<Fe>, w: Witness)
    requires WitnessFits(w) && FilledTo(v, w.memory + w.memoryAcc + w.bytecodeAcc) && |Stacked(w)| <= |v|
    ensures |w.bytecodeAcc| <= Pow2(PaddedLog(w)) && FilledTo(v, w.memory + w.memoryAcc + PadZeros(w.bytecodeAcc, Pow2(PaddedLog(w))))
  {
    PaddedLonger(w);
  }

  /** The columns of one table, one after the other. */
  method AppendColumns(global: array<Fe>, start: nat, columns: seq<seq<Fe>>, ghost done0: seq<Fe>, ghost rest: seq<Fe>, ghost all: seq<Fe>) returns (offset: nat)
    requires start == |done0| && FilledTo(global[..], done0) && done0 + Columns(columns) + rest == all && |all| <= global.Length
    modifies global
    ensures offset == |done0 + Columns(columns)| && FilledTo(global[..], done0 + Columns(columns))
  {
    hide FilledTo, PadZeros, Columns;
    offset := start;
    ghost var done := done0;
    var c := 0;
    assert columns[0..] == columns;
    while c < |columns|
      invariant 0 <= c <= |columns| && offset == |done| && FilledTo(global[..], done)
      invariant done + Columns(columns[c..]) == done0 + Columns(columns)
    {
      assert columns[c..][0] == columns[c] && columns[c..][1..] == columns[c + 1..];
      NextColumn(columns[c..]);
      assert done + (columns[c] + Columns(columns[c + 1..])) == done + columns[c] + Columns(columns[c + 1..]);
      assert |done + columns[c]| <= |done + Columns(columns[c..])| <= |all|;
      Append(global, offset, columns[c], done);
      done := done + columns[c];
      offset := offset + |columns[c]|;
      c := c + 1;
    }
    assert columns[c..] == [];
    NoTables();
    assert done + [] == done;
  }
}
