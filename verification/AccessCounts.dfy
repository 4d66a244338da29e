/** Counting the accesses of all tables before anything is committed (crates/lean_prover/src/prove_execution.rs). */
module AccessCounts {
  import opened Arith
  import opened Field
  import opened LogupParts
  import opened LogupSums
  import opened LogupTerms

  /** No looked-up cell lies outside the memory, where the source would stop. */
  ghost predicate LookupInside(t: Trace, l: Lookup, size: nat)
    requires LookupFits(t, l) && SameLength(t.columns, Pow2(t.log))
  {
    forall r: nat {:trigger t.columns[l.index][r]} | l.values != [] && r < Pow2(t.log) :: t.columns[l.index][r] + |l.values| <= size
  }

  ghost predicate TableInside(t: Trace, alphasEq: seq<Fe>, size: nat)
    requires ColumnsFit(t, alphasEq)
  {
    forall j {:trigger t.table.lookups[j]} | 0 <= j < |t.table.lookups| :: LookupInside(t, t.table.lookups[j], size)
  }

  /** One access more. */
  lemma CountOne(cells: multiset<nat>, cell: nat, size: nat)
    requires cell < size
    ensures Counts(cells + multiset{cell}, size) == Counts(cells, size)[cell := Add(Counts(cells, size)[cell], 1)]
  {
    LiftSelf(1);
    LiftAdd(cells[cell], 1);
  }

  lemma RunOneMore(cells: multiset<nat>, base: nat, j: nat)
    ensures cells + Run(base, j) + multiset{base + j} == cells + Run(base, j + 1)
  {
  }

  lemma RunNothing(cells: multiset<nat>, base: nat)
    ensures cells + Run(base, 0) == cells
  {
  }

  /** Counting `count` cells from `base` on. */
  method CountRun(acc: array<Fe>, base: nat, count: nat, ghost cells: multiset<nat>)
    requires (count > 0 ==> base + count <= acc.Length) && acc[..] == Counts(cells, acc.Length)
    modifies acc
    ensures acc[..] == Counts(cells + Run(base, count), acc.Length)
  {
    hide Counts, Run;
    RunNothing(cells, base);
    for j := 0 to count
      invariant acc[..] == Counts(cells + Run(base, j), acc.Length)
    {
      CountOne(cells + Run(base, j), base + j, acc.Length);
      RunOneMore(cells, base, j);
      acc[base + j] := Add(acc[base + j], 1);
    }
  }

  /** One lookup: all rows of its index column. */
  method CountLookup(acc: array<Fe>, column: seq<Fe>, count: nat, ghost cells: multiset<nat>)
    requires forall r {:trigger column[r]} | count > 0 && 0 <= r < |column| :: column[r] + count <= acc.Length
    requires acc[..] == Counts(cells, acc.Length)
    modifies acc
    ensures acc[..] == Counts(cells + LookupCells(column, count), acc.Length)
  {
    hide Counts, Run;
    assert cells + multiset{} == cells;
    for r := 0 to |column|
      invariant acc[..] == Counts(cells + LookupCells(column[..r], count), acc.Length)
    {
      CountRun(acc, column[r], count, cells + LookupCells(column[..r], count));
      assert column[..r + 1][..r] == column[..r];
      assert cells + LookupCells(column[..r], count) + Run(column[r], count) == cells + LookupCells(column[..r + 1], count);
    }
    assert column[..|column|] == column;
  }

  method CountTable(acc: array<Fe>, t: Trace, ghost alphasEq: seq<Fe>, ghost cells: multiset<nat>)
    requires ColumnsFit(t, alphasEq) && TableInside(t, alphasEq, acc.Length) && acc[..] == Counts(cells, acc.Length)
    modifies acc
    ensures acc[..] == Counts(cells + TableCells(t, t.table.lookups), acc.Length)
  {
    hide Counts, LookupCells;
    var lookups := t.table.lookups;
    ghost var done := cells;
    var k := 0;
    assert lookups[0..] == lookups;
    while k < |lookups|
      invariant 0 <= k <= |lookups| && acc[..] == Counts(done, acc.Length)
      invariant done + TableCells(t, lookups[k..]) == cells + TableCells(t, lookups)
    {
      var l := lookups[k];
      assert LookupFits(t, l) && LookupInside(t, l, acc.Length);
      assert lookups[k..][0] == l && lookups[k..][1..] == lookups[k + 1..];
      CountLookup(acc, t.columns[l.index], |l.values|, done);
      done := done + LookupCells(t.columns[l.index], |l.values|);
      k := k + 1;
    }
    assert lookups[k..] == [] && done + multiset{} == done;
  }

  /** memory_acc: how often every memory cell is looked up. */
  method CountAccesses(tables: seq<Trace>, size: nat, ghost alphasEq: seq<Fe>) returns (acc: array<Fe>)
    requires TablesFit(tables, alphasEq) && forall k {:trigger tables[k]} | 0 <= k < |tables| :: TableInside(tables[k], alphasEq, size)
    ensures acc[..] == Counts(MemoryCells(tables, alphasEq), size)
  {
    hide TableInside, TableCells;
    acc := new Fe[size](_ => 0);
    ghost var done: multiset<nat> := multiset{};
    LiftSelf(0);
    assert acc[..] == Counts(done, size);
    var k := 0;
    assert tables[0..] == tables && done + MemoryCells(tables, alphasEq) == MemoryCells(tables, alphasEq);
    hide Counts;
    while k < |tables|
      invariant 0 <= k <= |tables| && acc.Length == size && acc[..] == Counts(done, size)
      invariant done + MemoryCells(tables[k..], alphasEq) == MemoryCells(tables, alphasEq)
    {
      var t := tables[k];
      assert tables[k..][0] == t && tables[k..][1..] == tables[k + 1..];
      CountTable(acc, t, alphasEq, done);
      done := done + TableCells(t, t.table.lookups);
      k := k + 1;
    }
    assert tables[k..] == [] && done + multiset{} == done;
  }

  /** bytecode_acc: how often every instruction is fetched. */
  method CountFetches(pc: seq<Fe>, size: nat) returns (acc: array<Fe>)
    requires forall r {:trigger pc[r]} | 0 <= r < |pc| :: pc[r] < size
    ensures acc[..] == Counts(Shifted(pc, 0), size)
  {
    acc := new Fe[size](_ => 0);
    LiftSelf(0);
    assert acc[..] == Counts(multiset{}, size);
    hide Counts;
    for r := 0 to |pc|
      invariant acc.Length == size && acc[..] == Counts(Shifted(pc[..r], 0), size)
    {
      CountOne(Shifted(pc[..r], 0), pc[r], size);
      assert pc[..r + 1][..r] == pc[..r];
      acc[pc[r]] := Add(acc[pc[r]], 1);
    }
    assert pc[..|pc|] == pc;
  }
}
