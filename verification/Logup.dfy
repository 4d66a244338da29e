/**
 The logup argument: the prover fills two buffers section by section, the verifier rebuilds their
 values at a point from a few evaluations (crates/sub_protocols/src/logup.rs).
 */
module Logup {
  import opened Arith
  import opened Field
  import opened Multilinear
  import opened StorageLayout
  import opened WhirConstraints
  import opened Sections
  import opened LogupParts

  // ----- the prover's buffers

  const ENDIANNESS_PIVOT_GKR := 12

  function MinLog(a: nat, b: nat): nat { if a <= b then a else b }

  /** Chunks are no larger than the smallest section. */
  function Pivot(inp: Input): nat
    requires inp.tables != []
  {
    MinLog(ENDIANNESS_PIVOT_GKR, MinLog(inp.logBytecode, inp.tables[|inp.tables| - 1].log))
  }

  /** Values in storage order: the low p bits of every index are reversed. */
  ghost function Stored(v: seq<Fe>, p: nat): (r: seq<Fe>)
    requires MultipleOf(Pow2(p), |v|)
    ensures |r| == |v|
    ensures forall j {:trigger r[j]} | 0 <= j < |r| :: ChunkIndex(j, p) < |v| && r[j] == v[ChunkIndex(j, p)]
  {
    StoredInside(|v|, p);
    seq(|v|, j requires 0 <= j < |v| => v[ChunkIndex(j, p)])
  }

  lemma StoredInside(n: nat, p: nat)
    requires MultipleOf(Pow2(p), n)
    ensures forall j: nat {:trigger ChunkIndex(j, p)} | j < n :: ChunkIndex(j, p) < n
  {
    var q: nat :| IsMultiple(n, Pow2(p), q);
    forall j: nat | j < n ensures ChunkIndex(j, p) < n {
      ChunkIndexBounds(j, p, q);
    }
  }

  /** Index reversal stays on its side of a chunk boundary, and moves along with it. */
  lemma StoredShift(n: nat, j: nat, p: nat)
    requires MultipleOf(Pow2(p), n)
    ensures ChunkIndex(j + n, p) == ChunkIndex(j, p) + n && (j < n <==> ChunkIndex(j, p) < n)
  {
    var q: nat :| IsMultiple(n, Pow2(p), q);
    ChunkIndexBounds(j, p, q);
  }

  lemma StoredAppend(a: seq<Fe>, b: seq<Fe>, p: nat)
    requires MultipleOf(Pow2(p), |a|) && MultipleOf(Pow2(p), |b|)
    ensures MultipleOf(Pow2(p), |a + b|) && Stored(a + b, p) == Stored(a, p) + Stored(b, p)
  {
    MultipleSum(Pow2(p), |a|, |b|);
    hide ChunkIndex, MultipleOf, Pow2;
    var all := Stored(a + b, p);
    forall j | 0 <= j < |all| ensures all[j] == (Stored(a, p) + Stored(b, p))[j] {
      if j < |a| {
        StoredShift(|a|, j, p);
      } else {
        StoredShift(|a|, j - |a|, p);
      }
    }
  }

  /** Copies the section's values to both buffers, each from the index with its low bits reversed. */
  method FillSection(numerators: array<Fe>, denominators: array<Fe>, offset: nat, num: seq<Fe>, den: seq<Fe>, p: nat)
    requires numerators != denominators && numerators.Length == denominators.Length && |num| == |den| && offset + |num| <= numerators.Length
    requires MultipleOf(Pow2(p), |num|)
    modifies numerators, denominators
    ensures numerators[..offset + |num|] == old(numerators[..offset]) + Stored(num, p)
    ensures denominators[..offset + |num|] == old(denominators[..offset]) + Stored(den, p)
  {
    hide ChunkIndex, MultipleOf;
    StoredInside(|num|, p);
    ghost var n, d := Stored(num, p), Stored(den, p);
    for i := 0 to |num|
      invariant numerators[..offset] == old(numerators[..offset]) && denominators[..offset] == old(denominators[..offset])
      invariant numerators[offset..offset + i] == n[..i] && denominators[offset..offset + i] == d[..i]
    {
      numerators[offset + i] := num[ChunkIndex(i, p)];
      denominators[offset + i] := den[ChunkIndex(i, p)];
      assert n[..i + 1] == n[..i] + [n[i]] && d[..i + 1] == d[..i] + [d[i]];
    }
    TwoSlices(numerators[..], offset, |num|);
    TwoSlices(denominators[..], offset, |num|);
    assert n[..|num|] == n && d[..|num|] == d;
  }

  lemma TwoSlices(v: seq<Fe>, offset: nat, k: nat)
    requires offset + k <= |v|
    ensures v[..offset + k] == v[..offset] + v[offset..offset + k]
  {
  }

  /** What is filled so far, padded with zeros, is the sum of the parts. */
  ghost predicate Filled(num: seq<Fe>, den: seq<Fe>, ps: seq<Part>, n: nat) {
    |num| == |den| <= Pow2(n) && AllFit(ps, n) && PadZeros(num, Pow2(n)) == NumBuffer(ps, n) && PadZeros(den, Pow2(n)) == DenBuffer(ps, n)
  }

  lemma FilledNothing(n: nat)
    ensures Filled([], [], [], n)
  {
  }

  lemma FilledNext(num: seq<Fe>, den: seq<Fe>, ps: seq<Part>, p: Part, n: nat)
    requires Filled(num, den, ps, n) && Fits(p, n) && p.offset == |num|
    ensures Filled(num + p.num, den + p.den, ps + [p], n)
  {
    var ps2 := ps + [p];
    assert ps2[..|ps|] == ps;
    FillIsAdd(num, p.num, Pow2(n));
    FillIsAdd(den, p.den, Pow2(n));
    forall k {:trigger ps2[k]} | 0 <= k < |ps2| ensures Fits(ps2[k], n) {
    }
  }

  /** The bytecode section followed by numerators 0 and denominators 1. */
  lemma FilledPadding(num: seq<Fe>, den: seq<Fe>, ps: seq<Part>, p: Part, pad: Part, n: nat)
    requires Filled(num, den, ps, n) && Fits(p, n) && Fits(pad, n) && p.offset == pad.offset == |num| && p.log <= pad.log
    requires pad.num == Repeated(0, Pow2(pad.log)) && pad.den == ZerosThenOnes(Pow2(p.log), Pow2(pad.log))
    ensures Pow2(p.log) <= Pow2(pad.log)
    ensures var k := Pow2(pad.log) - Pow2(p.log); Filled(num + p.num + Repeated(0, k), den + p.den + Repeated(1, k), ps + [p, pad], n)
  {
    Pow2Monotone(p.log, pad.log);
    var k, size := Pow2(pad.log) - Pow2(p.log), Pow2(n);
    FilledNext(num, den, ps, p, n);
    var ps1, ps2 := ps + [p], ps + [p, pad];
    assert ps2[..|ps1|] == ps1;
    forall j {:trigger ps2[j]} | 0 <= j < |ps2| ensures Fits(ps2[j], n) {
      if j < |ps1| {
        assert ps2[j] == ps1[j];
      }
    }
    var num1, den1 := num + p.num, den + p.den;
    AddNothing(PadZeros(num1, size), pad.offset, pad.num);
    assert Repeated(0, k) == seq(k, _ => 0);
    FillZeros(num1, k, size);
    OnesBehind(den1, |num|, Pow2(p.log), Pow2(pad.log), size);
  }

  lemma AddNothing(w: seq<Fe>, offset: nat, vec: seq<Fe>)
    requires offset + |vec| <= |w| && forall i {:trigger vec[i]} | 0 <= i < |vec| :: vec[i] == 0
    ensures AddVec(w, offset, vec) == w
  {
    forall i | 0 <= i < |w| ensures AddVec(w, offset, vec)[i] == w[i] {
      AddZero(w[i]);
    }
  }

  lemma OnesBehind(a: seq<Fe>, offset: nat, small: nat, big: nat, size: nat)
    requires |a| == offset + small && small <= big && offset + big <= size
    ensures PadZeros(a + Repeated(1, big - small), size) == AddVec(PadZeros(a, size), offset, ZerosThenOnes(small, big))
  {
    var l, r := PadZeros(a + Repeated(1, big - small), size), AddVec(PadZeros(a, size), offset, ZerosThenOnes(small, big));
    forall i | 0 <= i < size ensures l[i] == r[i] {
      AddZero(PadZeros(a, size)[i]);
      AddZero(1);
    }
  }

  // ----- what lies in the buffers

  ghost predicate StoredAs(s: seq<Fe>, v: seq<Fe>, p: nat) { MultipleOf(Pow2(p), |v|) && s == Stored(v, p) }

  /** The buffers hold filled values in storage order. */
  ghost predicate Laid(sn: seq<Fe>, sd: seq<Fe>, ps: seq<Part>, n: nat, p: nat) {
    exists num: seq<Fe>, den: seq<Fe> :: Filled(num, den, ps, n) && StoredAs(sn, num, p) && StoredAs(sd, den, p)
  }

  lemma LaidNothing(n: nat, p: nat)
    ensures Laid([], [], [], n, p)
  {
    FilledNothing(n);
    MultipleZero(Pow2(p));
    assert Stored([], p) == [] && StoredAs([], [], p);
  }

  lemma LaidNext(sn: seq<Fe>, sd: seq<Fe>, ps: seq<Part>, part: Part, n: nat, p: nat)
    requires Laid(sn, sd, ps, n, p) && Fits(part, n) && part.offset == |sn| && p <= part.log
    ensures MultipleOf(Pow2(p), |part.num|) && |part.num| == |part.den| == Pow2(part.log)
    ensures Laid(sn + Stored(part.num, p), sd + Stored(part.den, p), ps + [part], n, p)
  {
    hide MultipleOf, Stored, Pow2;
    MultipleSelf(p, part.log);
    var num: seq<Fe>, den: seq<Fe> :| Filled(num, den, ps, n) && StoredAs(sn, num, p) && StoredAs(sd, den, p);
    FilledNext(num, den, ps, part, n);
    StoredAppend(num, part.num, p);
    StoredAppend(den, part.den, p);
    assert StoredAs(sn + Stored(part.num, p), num + part.num, p) && StoredAs(sd + Stored(part.den, p), den + part.den, p);
  }

  lemma LaidPadding(sn: seq<Fe>, sd: seq<Fe>, ps: seq<Part>, part: Part, pad: Part, n: nat, p: nat, k: nat)
    requires Laid(sn, sd, ps, n, p) && Fits(part, n) && Fits(pad, n) && part.offset == pad.offset == |sn| && p <= part.log <= pad.log
    requires pad.num == Repeated(0, Pow2(pad.log)) && pad.den == ZerosThenOnes(Pow2(part.log), Pow2(pad.log))
    requires k + Pow2(part.log) == Pow2(pad.log)
    ensures MultipleOf(Pow2(p), |part.num|) && |part.num| == |part.den| == Pow2(part.log) && MultipleOf(Pow2(p), k)
    ensures Laid(sn + Stored(part.num, p) + Stored(Repeated(0, k), p), sd + Stored(part.den, p) + Stored(Repeated(1, k), p), ps + [part, pad], n, p)
  {
    hide MultipleOf, Stored, Pow2;
    MultipleSelf(p, part.log);
    MultipleSelf(p, pad.log);
    MultipleRest(Pow2(p), k, Pow2(part.log));
    var num: seq<Fe>, den: seq<Fe> :| Filled(num, den, ps, n) && StoredAs(sn, num, p) && StoredAs(sd, den, p);
    FilledPadding(num, den, ps, part, pad, n);
    StoredAppend(num, part.num, p);
    StoredAppend(den, part.den, p);
    StoredAppend(num + part.num, Repeated(0, k), p);
    StoredAppend(den + part.den, Repeated(1, k), p);
    assert StoredAs(sn + Stored(part.num, p) + Stored(Repeated(0, k), p), num + part.num + Repeated(0, k), p);
    assert StoredAs(sd + Stored(part.den, p) + Stored(Repeated(1, k), p), den + part.den + Repeated(1, k), p);
  }

  lemma MultipleRest(d: nat, a: nat, b: nat)
    requires MultipleOf(d, b) && MultipleOf(d, a + b) && d > 0
    ensures MultipleOf(d, a)
  {
    var q: nat :| IsMultiple(b, d, q);
    var r: nat :| IsMultiple(a + b, d, r);
    if r < q {
      MulMonotone(r, q, d);
    } else {
      ShiftProduct(r, q, d);
    }
    assert r >= q ==> IsMultiple(a, d, r - q);
    if r < q {
      assert a == 0;
      MultipleZero(d);
    }
  }

  /** a continues v with x's, b continues the stored form of v with x's. */
  lemma PaddedIsReversed(s: seq<Fe>, v: seq<Fe>, p: nat, a: seq<Fe>, b: seq<Fe>, x: Fe, h: nat)
    requires StoredAs(s, v, p) && |a| == |b| == Pow2(h + p) && |v| <= |a|
    requires forall j {:trigger a[j]} | 0 <= j < |a| :: a[j] == if j < |v| then v[j] else x
    requires forall j {:trigger b[j]} | 0 <= j < |b| :: b[j] == if j < |v| then s[j] else x
    ensures b == ChunkReversed(a, h, p)
  {
    hide ChunkIndex, MultipleOf, Pow2;
    var r := ChunkReversed(a, h, p);
    forall j | 0 <= j < |b| ensures b[j] == r[j] {
      StoredShift(|v|, j, p);
    }
  }

  /** Padded, the stored buffer has the natural one's value at the point with its low coordinates reversed. */
  lemma StoredEvaluates(s: seq<Fe>, v: seq<Fe>, p: nat, y: seq<Fe>)
    requires StoredAs(s, v, p) && p <= |y| && |v| <= Pow2(|y|)
    ensures Mle(PadZeros(s, Pow2(|y|)), Permuted(y, |y| - p)) == Mle(PadZeros(v, Pow2(|y|)), y)
    ensures Mle(PadOnes(s, Pow2(|y|)), Permuted(y, |y| - p)) == Mle(PadOnes(v, Pow2(|y|)), y)
  {
    hide *;
    var n := Pow2(|y|);
    StoredLength(s, v, p);
    StoredPadded(s, v, p, |y| - p, n);
    MleChunkReversed(PadZeros(v, n), |y| - p, y);
    MleChunkReversed(PadOnes(v, n), |y| - p, y);
  }

  lemma StoredLength(s: seq<Fe>, v: seq<Fe>, p: nat)
    requires StoredAs(s, v, p)
    ensures |s| == |v|
  {
  }

  lemma StoredPadded(s: seq<Fe>, v: seq<Fe>, p: nat, h: nat, n: nat)
    requires StoredAs(s, v, p) && |s| == |v| <= n == Pow2(h + p)
    ensures PadZeros(s, n) == ChunkReversed(PadZeros(v, n), h, p) && PadOnes(s, n) == ChunkReversed(PadOnes(v, n), h, p)
  {
    hide StoredAs, Pow2, ChunkReversed;
    PaddedIsReversed(s, v, p, PadZeros(v, n), PadZeros(s, n), 0, h);
    PaddedIsReversed(s, v, p, PadOnes(v, n), PadOnes(s, n), 1, h);
  }

  /** Writes one section behind what is filled so far. */
  method WritePart(numerators: array<Fe>, denominators: array<Fe>, part: Part, p: nat, ghost ps: seq<Part>, ghost n: nat)
    requires numerators != denominators && numerators.Length == denominators.Length && Fits(part, n)
    requires part.offset + Pow2(part.log) <= numerators.Length && p <= part.log
    requires Laid(numerators[..part.offset], denominators[..part.offset], ps, n, p)
    modifies numerators, denominators
    ensures Laid(numerators[..part.offset + Pow2(part.log)], denominators[..part.offset + Pow2(part.log)], ps + [part], n, p)
  {
    LaidNext(numerators[..part.offset], denominators[..part.offset], ps, part, n, p);
    hide Laid, Stored, MultipleOf, Pow2;
    FillSection(numerators, denominators, part.offset, part.num, part.den, p);
  }

  /** Parts written one behind the other. */
  ghost predicate Behind(ps: seq<Part>, offset: nat, end: nat)
    decreases |ps|
  {
    if ps == [] then offset == end else ps[0].offset == offset && Behind(ps[1..], offset + Pow2(ps[0].log), end)
  }

  lemma {:induction false} BehindAppend(ps: seq<Part>, qs: seq<Part>, offset: nat, mid: nat, end: nat)
    requires Behind(ps, offset, mid) && Behind(qs, mid, end)
    ensures Behind(ps + qs, offset, end)
    decreases |ps|
  {
    if ps == [] {
      assert ps + qs == qs;
    } else {
      assert (ps + qs)[1..] == ps[1..] + qs;
      BehindAppend(ps[1..], qs, offset + Pow2(ps[0].log), mid, end);
    }
  }

  lemma {:induction false} BehindGrows(ps: seq<Part>, offset: nat, end: nat)
    requires Behind(ps, offset, end)
    ensures offset <= end
    decreases |ps|
  {
    if ps != [] {
      BehindGrows(ps[1..], offset + Pow2(ps[0].log), end);
    }
  }

  lemma {:induction false} AccessesBehind(t: Trace, accesses: seq<Access>, offset: nat, c: Fe, alphasEq: seq<Fe>)
    requires SameLength(t.columns, Pow2(t.log)) && AccessesFit(t, accesses) && 2 < |alphasEq|
    ensures Behind(AccessParts(t, accesses, offset, c, alphasEq), offset, AccessesEnd(t, accesses, offset))
    decreases |accesses|
  {
    hide AccessPart;
    if accesses != [] {
      AccessesBehind(t, accesses[1..], offset + Pow2(t.log), c, alphasEq);
      AccessPartAt(t, accesses[0], offset, c, alphasEq);
    }
  }

  lemma AccessPartAt(t: Trace, a: Access, offset: nat, c: Fe, alphasEq: seq<Fe>)
    requires SameLength(t.columns, Pow2(t.log)) && a.index < |t.columns| && a.value < |t.columns| && 2 < |alphasEq|
    ensures AccessPart(t, a, offset, c, alphasEq).offset == offset && AccessPart(t, a, offset, c, alphasEq).log == t.log
  {
  }

  /** The sections of a table leave no gap. */
  lemma TableBehind(t: Trace, offset: nat, c: Fe, alphasEq: seq<Fe>)
    requires ColumnsFit(t, alphasEq)
    ensures Behind(TableParts(t, offset, c, alphasEq), offset, TableEnd(t, offset))
  {
    hide FingerRows, BytecodeColumns, BusColumns, EntryColumn;
    LookupsFit(t, t.table.lookups);
    var s := Pow2(t.log);
    var bus := BusOffset(t, offset);
    var accesses := AccessParts(t, Accesses(t.table.lookups), bus + s, c, alphasEq);
    AccessesBehind(t, Accesses(t.table.lookups), bus + s, c, alphasEq);
    var second := [BusPart(t, bus, c, alphasEq)];
    assert Behind(second, bus, bus + s) by { assert second[1..] == []; }
    BehindAppend(second, accesses, bus, bus + s, TableEnd(t, offset));
    if t.table.isExecution {
      var first := [ExecutionPart(t, offset, c, alphasEq)];
      assert Behind(first, offset, bus) by { assert first[1..] == []; }
      BehindAppend(first, second + accesses, offset, bus, TableEnd(t, offset));
      assert first + (second + accesses) == first + second + accesses;
    } else {
      assert [] + second + accesses == second + accesses;
    }
  }

  lemma {:induction false} TablesBehind(tables: seq<Trace>, offset: nat, c: Fe, alphasEq: seq<Fe>)
    requires TablesFit(tables, alphasEq)
    ensures Behind(AllTableParts(tables, offset, c, alphasEq), offset, TablesEnd(tables, offset))
    decreases |tables|
  {
    hide TableParts, TableEnd, ColumnsFit;
    if tables != [] {
      TableBehind(tables[0], offset, c, alphasEq);
      TablesBehind(tables[1..], TableEnd(tables[0], offset), c, alphasEq);
      BehindAppend(TableParts(tables[0], offset, c, alphasEq), AllTableParts(tables[1..], TableEnd(tables[0], offset), c, alphasEq),
                   offset, TableEnd(tables[0], offset), TablesEnd(tables, offset));
    }
  }

  /** No section is smaller than a chunk. */
  ghost predicate ChunksFit(ps: seq<Part>, p: nat) { forall k {:trigger ps[k]} | 0 <= k < |ps| :: p <= ps[k].log }

  lemma {:induction false} AccessLogs(t: Trace, accesses: seq<Access>, offset: nat, c: Fe, alphasEq: seq<Fe>)
    requires SameLength(t.columns, Pow2(t.log)) && AccessesFit(t, accesses) && 2 < |alphasEq|
    ensures ChunksFit(AccessParts(t, accesses, offset, c, alphasEq), t.log)
    decreases |accesses|
  {
    hide AccessPart;
    if accesses != [] {
      AccessLogs(t, accesses[1..], offset + Pow2(t.log), c, alphasEq);
      AccessPartAt(t, accesses[0], offset, c, alphasEq);
    }
  }

  lemma TableLogs(t: Trace, offset: nat, c: Fe, alphasEq: seq<Fe>)
    requires ColumnsFit(t, alphasEq)
    ensures ChunksFit(TableParts(t, offset, c, alphasEq), t.log)
  {
    hide FingerRows, BytecodeColumns, BusColumns, EntryColumn;
    LookupsFit(t, t.table.lookups);
    AccessLogs(t, Accesses(t.table.lookups), BusOffset(t, offset) + Pow2(t.log), c, alphasEq);
  }

  lemma {:induction false} TablesLogs(tables: seq<Trace>, offset: nat, c: Fe, alphasEq: seq<Fe>, p: nat)
    requires TablesFit(tables, alphasEq) && forall j {:trigger tables[j]} | 0 <= j < |tables| :: p <= tables[j].log
    ensures ChunksFit(AllTableParts(tables, offset, c, alphasEq), p)
    decreases |tables|
  {
    hide TableParts, TableEnd, ColumnsFit;
    if tables != [] {
      TableLogs(tables[0], offset, c, alphasEq);
      TablesLogs(tables[1..], TableEnd(tables[0], offset), c, alphasEq, p);
    }
  }

  lemma PivotFits(inp: Input)
    requires inp.tables != [] && Descending(inp.tables)
    ensures Pivot(inp) <= inp.logBytecode <= BytecodeLog(inp)
    ensures forall j {:trigger inp.tables[j]} | 0 <= j < |inp.tables| :: Pivot(inp) <= inp.tables[j].log
  {
  }

  /** Sections written one behind the other, at the moving offset. */
  method WriteParts(numerators: array<Fe>, denominators: array<Fe>, qs: seq<Part>, start: nat, p: nat, ghost ps: seq<Part>, ghost end: nat, ghost n: nat)
      returns (offset: nat)
    requires numerators != denominators && numerators.Length == denominators.Length && end <= numerators.Length && ChunksFit(qs, p)
    requires AllFit(qs, n) && Behind(qs, start, end) && start <= numerators.Length && Laid(numerators[..start], denominators[..start], ps, n, p)
    modifies numerators, denominators
    ensures offset == end && Laid(numerators[..end], denominators[..end], ps + qs, n, p)
  {
    hide Laid, Fits;
    offset := start;
    assert qs[0..] == qs && ps + qs[..0] == ps;
    var k := 0;
    while k < |qs|
      invariant 0 <= k <= |qs| && offset <= numerators.Length && Behind(qs[k..], offset, end)
      invariant Laid(numerators[..offset], denominators[..offset], ps + qs[..k], n, p)
    {
      assert qs[k..][0] == qs[k] && qs[k..][1..] == qs[k + 1..];
      BehindGrows(qs[k + 1..], offset + Pow2(qs[k].log), end);
      WritePart(numerators, denominators, qs[k], p, ps + qs[..k], n);
      assert ps + qs[..k] + [qs[k]] == ps + qs[..k + 1];
      offset := offset + Pow2(qs[k].log);
      k := k + 1;
    }
    assert qs[..k] == qs && qs[k..] == [];
  }

  /** prove_generic_logup up to the quotient argument: numerators and denominators of all sections, in storage order. */
  method FillBuffers(inp: Input, ghost n: nat) returns (numerators: array<Fe>, denominators: array<Fe>)
    requires InputFits(inp) && TotalLen(inp) <= Pow2(n)
    ensures fresh(numerators) && fresh(denominators) && numerators.Length == denominators.Length == TotalLen(inp)
    ensures Laid(numerators[..], denominators[..], Parts(inp), n, Pivot(inp))
  {
    hide Laid, Fits, FingerRows, AllTableParts, TablesFit, InstructionColumns, AlphasEq, Pivot;
    PartsFit(inp, n);
    TablesGrow(inp.tables, FirstTable(inp));
    PivotFits(inp);
    var p := Pivot(inp);
    numerators := new Fe[TotalLen(inp)](_ => 0);
    denominators := new Fe[TotalLen(inp)](_ => 0);
    LaidNothing(n, p);
    assert numerators[..0] == [] && denominators[..0] == [];
    ghost var all := Parts(inp);
    var memory := MemoryPart(inp);
    assert all[0] == memory && all[1] == BytecodePart(inp) && all[2] == BytecodePadding(inp);
    WritePart(numerators, denominators, memory, p, [], n);
    assert [] + [memory] == [memory] && memory.offset + Pow2(memory.log) == Pow2(inp.logMemory);
    FillBytecode(inp, numerators, denominators, n, p);
    var alphasEq := AlphasEq(inp);
    assert all[3..] == AllTableParts(inp.tables, FirstTable(inp), inp.c, alphasEq);
    forall k {:trigger all[3..][k]} | 0 <= k < |all[3..]| ensures Fits(all[3..][k], n) {
      assert all[3..][k] == all[k + 3];
    }
    TablesBehind(inp.tables, FirstTable(inp), inp.c, alphasEq);
    TablesLogs(inp.tables, FirstTable(inp), inp.c, alphasEq, p);
    var offset := WriteParts(numerators, denominators, AllTableParts(inp.tables, FirstTable(inp), inp.c, alphasEq), FirstTable(inp), p,
                             [memory, BytecodePart(inp), BytecodePadding(inp)], TotalLen(inp), n);
    assert [memory, BytecodePart(inp), BytecodePadding(inp)] + all[3..] == all;
    assert numerators[..offset] == numerators[..] && denominators[..offset] == denominators[..];
  }

  /** The bytecode section and its padding to the height of the tallest table. */
  method FillBytecode(inp: Input, numerators: array<Fe>, denominators: array<Fe>, ghost n: nat, p: nat)
    requires InputFits(inp) && numerators != denominators && numerators.Length == denominators.Length && FirstTable(inp) <= numerators.Length
    requires Fits(BytecodePart(inp), n) && Fits(BytecodePadding(inp), n) && p <= inp.logBytecode
    requires Laid(numerators[..Pow2(inp.logMemory)], denominators[..Pow2(inp.logMemory)], [MemoryPart(inp)], n, p)
    modifies numerators, denominators
    ensures Laid(numerators[..FirstTable(inp)], denominators[..FirstTable(inp)], [MemoryPart(inp), BytecodePart(inp), BytecodePadding(inp)], n, p)
  {
    hide Laid, FingerRows, InstructionColumns, AlphasEq, MemoryPart, TablesFit, Stored, MultipleOf;
    var part := BytecodePart(inp);
    ghost var pad := BytecodePadding(inp);
    Pow2Monotone(inp.logBytecode, BytecodeLog(inp));
    var k := Pow2(BytecodeLog(inp)) - Pow2(inp.logBytecode);
    LaidPadding(numerators[..Pow2(inp.logMemory)], denominators[..Pow2(inp.logMemory)], [MemoryPart(inp)], part, pad, n, p, k);
    FillSection(numerators, denominators, part.offset, part.num, part.den, p);
    FillSection(numerators, denominators, part.offset + Pow2(part.log), Repeated(0, k), Repeated(1, k), p);
    assert [MemoryPart(inp)] + [part, pad] == [MemoryPart(inp), part, pad];
  }
}
