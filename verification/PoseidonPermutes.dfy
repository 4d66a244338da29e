/**
 The S-box is the cube, cubing has an inverse, and so the Poseidon permutation is one: no two states
 are sent to the same state, and every state is reached (permute_generic and full_round,
 crates/backend/koala-bear/src/poseidon1_koalabear_16.rs).
 */
module PoseidonPermutes {
  import opened Field
  import opened Fermat
  import opened LinearAlgebra
  import opened SparseRounds
  import opened Poseidon
  import opened MdsRegular

  // ----- the S-box

  lemma CubeIsPow(x: Fe)
    ensures Cube(x) == Pow(x, 3)
  {
    assert Pow(x, 1) == Mul(x, Pow(x, 0)) && Pow(x, 2) == Mul(x, Pow(x, 1)) && Pow(x, 3) == Mul(x, Pow(x, 2));
    MulOne(x);
    MulComm(Mul(x, x), x);
  }

  /** The exponent that undoes cubing, and the power it takes. */
  ghost predicate IsCubeRootExponent(e: nat) { 3 * e == 1 + (P - 1) * 2 }

  lemma CubeRootExponent() returns (e: nat)
    ensures e == 1420470955 && IsCubeRootExponent(e)
  {
    e := 1420470955;
  }

  lemma CubeInverts(x: Fe, e: nat)
    requires IsCubeRootExponent(e)
    ensures Pow(Cube(x), e) == x && Cube(Pow(x, e)) == x
  {
    hide Pow, Cube;
    CubeIsPow(x);
    CubeIsPow(Pow(x, e));
    RootOfPower(x, 3, e, 2);
    RootOfPower(x, e, 3, 2);
  }

  lemma CubeInjective(x: Fe, y: Fe)
    requires Cube(x) == Cube(y)
    ensures x == y
  {
    hide Pow, Cube;
    var e := CubeRootExponent();
    CubeInverts(x, e);
    CubeInverts(y, e);
  }

  // ----- linear parts

  lemma PlusInjective(a: seq<Fe>, b: seq<Fe>, c: seq<Fe>)
    requires |a| == |b| == |c| && Plus(a, c) == Plus(b, c)
    ensures a == b
  {
    forall i | 0 <= i < |a| ensures a[i] == b[i] {
      assert Plus(a, c)[i] == Plus(b, c)[i];
      SumCancels(a[i], b[i], c[i]);
    }
  }

  lemma SumCancels(a: Fe, b: Fe, c: Fe)
    requires Add(a, c) == Add(b, c)
    ensures a == b
  {
    AddIs(a, c);
    AddIs(b, c);
  }

  lemma DifferenceAdds(a: seq<Fe>, c: seq<Fe>)
    requires |a| == |c|
    ensures Plus(Minus(a, c), c) == a
  {
    forall i | 0 <= i < |a| ensures Plus(Minus(a, c), c)[i] == a[i] {
      SubIs(a[i], c[i]);
      AddIs(Sub(a[i], c[i]), c[i]);
    }
  }

  lemma MatVecInjective(m: seq<seq<Fe>>, n: nat, x: seq<Fe>, y: seq<Fe>)
    requires IsMatrix(m, n, n) && !IsSingular(m, n) && |x| == |y| == n && MatVec(m, x) == MatVec(m, y)
    ensures x == y
  {
    var d := Minus(x, y);
    MatVecMinus(m, x, y, n);
    forall i | 0 <= i < n ensures MatVec(m, d)[i] == 0 {
      SubIs(MatVec(m, x)[i], MatVec(m, y)[i]);
    }
    assert MatVec(m, d) == ZeroVec(n);
    assert d == ZeroVec(n);
    forall i | 0 <= i < n ensures x[i] == y[i] {
      assert d[i] == 0;
      Prime.DifferenceZero(x[i], y[i]);
    }
  }

  // ----- rounds

  lemma CubeAllInjective(s: seq<Fe>, t: seq<Fe>)
    requires |s| == |t| && CubeAll(s) == CubeAll(t)
    ensures s == t
  {
    hide Cube;
    forall i | 0 <= i < |s| ensures s[i] == t[i] {
      assert CubeAll(s)[i] == CubeAll(t)[i];
      CubeInjective(s[i], t[i]);
    }
  }

  lemma CubeFirstInjective(s: seq<Fe>, t: seq<Fe>)
    requires |s| == |t| > 0 && CubeFirst(s) == CubeFirst(t)
    ensures s == t
  {
    hide Cube;
    assert CubeFirst(s)[0] == CubeFirst(t)[0];
    CubeInjective(s[0], t[0]);
    forall i | 0 <= i < |s| ensures s[i] == t[i] {
      assert CubeFirst(s)[i] == CubeFirst(t)[i];
    }
  }

  lemma {:induction false} FullRoundsInjective(s: seq<Fe>, t: seq<Fe>, rcs: seq<seq<Fe>>)
    requires IsState(s) && IsState(t) && AllStates(rcs) && !IsSingular(Mds(), POSEIDON1_WIDTH) && FullRounds(s, rcs) == FullRounds(t, rcs)
    ensures s == t
    decreases |rcs|
  {
    hide Mds, IsSingular, MatVec, CubeAll;
    if rcs != [] {
      var a, b := CubeAll(Plus(s, rcs[0])), CubeAll(Plus(t, rcs[0]));
      FullRoundsInjective(MatVec(Mds(), a), MatVec(Mds(), b), rcs[1..]);
      MatVecInjective(Mds(), POSEIDON1_WIDTH, a, b);
      CubeAllInjective(Plus(s, rcs[0]), Plus(t, rcs[0]));
      PlusInjective(s, t, rcs[0]);
    }
  }

  lemma {:induction false} PartialRoundsInjective(mds: seq<seq<Fe>>, s: seq<Fe>, t: seq<Fe>, rcs: seq<seq<Fe>>)
    requires s != [] && |s| == |t| && IsMatrix(mds, |s|, |s|) && !IsSingular(mds, |s|)
    requires forall i {:trigger rcs[i]} | 0 <= i < |rcs| :: |rcs[i]| == |s|
    requires PartialRounds(mds, s, rcs) == PartialRounds(mds, t, rcs)
    ensures s == t
    decreases |rcs|
  {
    hide IsSingular, MatVec, CubeFirst;
    if rcs != [] {
      var a, b := CubeFirst(Plus(s, rcs[0])), CubeFirst(Plus(t, rcs[0]));
      PartialRoundsInjective(mds, MatVec(mds, a), MatVec(mds, b), rcs[1..]);
      MatVecInjective(mds, |s|, a, b);
      CubeFirstInjective(Plus(s, rcs[0]), Plus(t, rcs[0]));
      PlusInjective(s, t, rcs[0]);
    }
  }

  /** No two states are sent to the same one, whatever the table of round constants. */
  lemma PermutationInjective(s: seq<Fe>, t: seq<Fe>, rc: seq<seq<Fe>>)
    requires IsState(s) && IsState(t) && IsConstantTable(rc) && Permutation(s, rc) == Permutation(t, rc)
    ensures s == t
  {
    hide Mds, IsSingular, FullRounds, PartialRounds;
    MdsIsRegular();
    var s1, t1 := FullRounds(s, InitialConstants(rc)), FullRounds(t, InitialConstants(rc));
    var s2, t2 := PartialRounds(Mds(), s1, PartialConstants(rc)), PartialRounds(Mds(), t1, PartialConstants(rc));
    FullRoundsInjective(s2, t2, FinalConstants(rc));
    PartialRoundsInjective(Mds(), s1, t1, PartialConstants(rc));
    FullRoundsInjective(s, t, InitialConstants(rc));
  }

  // ----- every row of constants counts

  lemma PlusSame(s: seq<Fe>, a: seq<Fe>, b: seq<Fe>)
    requires |s| == |a| == |b| && Plus(s, a) == Plus(s, b)
    ensures a == b
  {
    forall i | 0 <= i < |s| ensures a[i] == b[i] {
      assert Plus(s, a)[i] == Plus(s, b)[i];
      AddComm(s[i], a[i]);
      AddComm(s[i], b[i]);
      SumCancels(a[i], b[i], s[i]);
    }
  }

  lemma UpdateTail(rcs: seq<seq<Fe>>, k: nat, c: seq<Fe>)
    requires k < |rcs|
    ensures k > 0 ==> rcs[k := c][0] == rcs[0] && rcs[k := c][1..] == rcs[1..][k - 1 := c]
    ensures k == 0 ==> rcs[k := c][0] == c && rcs[k := c][1..] == rcs[1..]
  {
  }

  lemma {:induction false} FullRowCounts(s: seq<Fe>, rcs: seq<seq<Fe>>, k: nat, c: seq<Fe>)
    requires IsState(s) && AllStates(rcs) && IsState(c) && k < |rcs| && !IsSingular(Mds(), POSEIDON1_WIDTH)
    requires FullRounds(s, rcs[k := c]) == FullRounds(s, rcs)
    ensures rcs[k] == c
    decreases |rcs|
  {
    hide Mds, IsSingular, MatVec, CubeAll;
    UpdateTail(rcs, k, c);
    var a := CubeAll(Plus(s, rcs[0]));
    if k == 0 {
      var b := CubeAll(Plus(s, c));
      FullRoundsInjective(MatVec(Mds(), a), MatVec(Mds(), b), rcs[1..]);
      MatVecInjective(Mds(), POSEIDON1_WIDTH, a, b);
      CubeAllInjective(Plus(s, rcs[0]), Plus(s, c));
      PlusSame(s, rcs[0], c);
    } else {
      FullRowCounts(MatVec(Mds(), a), rcs[1..], k - 1, c);
    }
  }

  lemma {:induction false} PartialRowCounts(mds: seq<seq<Fe>>, s: seq<Fe>, rcs: seq<seq<Fe>>, k: nat, c: seq<Fe>)
    requires s != [] && IsMatrix(mds, |s|, |s|) && !IsSingular(mds, |s|) && |c| == |s| && k < |rcs|
    requires forall i {:trigger rcs[i]} | 0 <= i < |rcs| :: |rcs[i]| == |s|
    requires PartialRounds(mds, s, rcs[k := c]) == PartialRounds(mds, s, rcs)
    ensures rcs[k] == c
    decreases |rcs|
  {
    hide IsSingular, MatVec, CubeFirst;
    UpdateTail(rcs, k, c);
    var a := CubeFirst(Plus(s, rcs[0]));
    if k == 0 {
      var b := CubeFirst(Plus(s, c));
      PartialRoundsInjective(mds, MatVec(mds, a), MatVec(mds, b), rcs[1..]);
      MatVecInjective(mds, |s|, a, b);
      CubeFirstInjective(Plus(s, rcs[0]), Plus(s, c));
      PlusSame(s, rcs[0], c);
    } else {
      PartialRowCounts(mds, MatVec(mds, a), rcs[1..], k - 1, c);
    }
  }

  lemma RowsOf(rc: seq<seq<Fe>>, k: nat, c: seq<Fe>)
    requires IsConstantTable(rc) && k < POSEIDON1_N_ROUNDS && IsState(c)
    ensures IsConstantTable(rc[k := c])
    ensures var h, n := POSEIDON1_HALF_FULL_ROUNDS, POSEIDON1_HALF_FULL_ROUNDS + POSEIDON1_PARTIAL_ROUNDS; var t := rc[k := c];
            && InitialConstants(t) == (if k < h then InitialConstants(rc)[k := c] else InitialConstants(rc))
            && PartialConstants(t) == (if h <= k < n then PartialConstants(rc)[k - h := c] else PartialConstants(rc))
            && FinalConstants(t) == (if n <= k then FinalConstants(rc)[k - n := c] else FinalConstants(rc))
  {
  }

  /** Changing one row of the table of round constants changes the image of every state. */
  lemma RoundConstantsCount(s: seq<Fe>, rc: seq<seq<Fe>>, k: nat, c: seq<Fe>)
    requires IsState(s) && IsConstantTable(rc) && k < POSEIDON1_N_ROUNDS && IsState(c) && c != rc[k]
    ensures IsConstantTable(rc[k := c]) && Permutation(s, rc[k := c]) != Permutation(s, rc)
  {
    RowsOf(rc, k, c);
    MdsIsRegular();
    hide Mds, IsSingular, FullRounds, PartialRounds;
    var t := rc[k := c];
    if Permutation(s, t) == Permutation(s, rc) {
      var h, n := POSEIDON1_HALF_FULL_ROUNDS, POSEIDON1_HALF_FULL_ROUNDS + POSEIDON1_PARTIAL_ROUNDS;
      var s1, t1 := FullRounds(s, InitialConstants(rc)), FullRounds(s, InitialConstants(t));
      var s2, t2 := PartialRounds(Mds(), s1, PartialConstants(rc)), PartialRounds(Mds(), t1, PartialConstants(t));
      if k >= n {
        FullRowCounts(s2, FinalConstants(rc), k - n, c);
      } else {
        FullRoundsInjective(s2, t2, FinalConstants(rc));
        if k >= h {
          PartialRowCounts(Mds(), s1, PartialConstants(rc), k - h, c);
        } else {
          PartialRoundsInjective(Mds(), s1, t1, PartialConstants(rc));
          FullRowCounts(s, InitialConstants(rc), k, c);
        }
      }
    }
  }

  // ----- every state is reached

  ghost function CubeRoots(s: seq<Fe>, e: nat): (r: seq<Fe>)
    ensures |r| == |s| && forall i {:trigger r[i]} | 0 <= i < |r| :: r[i] == Pow(s[i], e)
  {
    seq(|s|, i requires 0 <= i < |s| => Pow(s[i], e))
  }

  lemma {:induction false} FullRoundsOnto(r: seq<Fe>, rcs: seq<seq<Fe>>, inv: seq<seq<Fe>>, e: nat) returns (s: seq<Fe>)
    requires IsState(r) && AllStates(rcs) && IsMatrix(inv, POSEIDON1_WIDTH, POSEIDON1_WIDTH) && IsInverse(inv, Mds(), POSEIDON1_WIDTH)
    requires IsCubeRootExponent(e)
    ensures IsState(s) && FullRounds(s, rcs) == r
    decreases |rcs|
  {
    hide Mds, MatVec, Pow, Cube;
    if rcs == [] {
      s := r;
    } else {
      var u := FullRoundsOnto(r, rcs[1..], inv, e);
      var v := MatVec(inv, u);
      assert MatVec(Mds(), v) == u;
      var w := CubeRoots(v, e);
      forall i | 0 <= i < POSEIDON1_WIDTH ensures CubeAll(w)[i] == v[i] {
        CubeInverts(v[i], e);
      }
      assert CubeAll(w) == v;
      s := Minus(w, rcs[0]);
      DifferenceAdds(w, rcs[0]);
    }
  }

  lemma {:induction false} PartialRoundsOnto(mds: seq<seq<Fe>>, r: seq<Fe>, rcs: seq<seq<Fe>>, inv: seq<seq<Fe>>, e: nat) returns (s: seq<Fe>)
    requires r != [] && IsMatrix(mds, |r|, |r|) && IsMatrix(inv, |r|, |r|) && IsInverse(inv, mds, |r|) && IsCubeRootExponent(e)
    requires forall i {:trigger rcs[i]} | 0 <= i < |rcs| :: |rcs[i]| == |r|
    ensures |s| == |r| && PartialRounds(mds, s, rcs) == r
    decreases |rcs|
  {
    hide MatVec, Pow, Cube;
    if rcs == [] {
      s := r;
    } else {
      var u := PartialRoundsOnto(mds, r, rcs[1..], inv, e);
      var v := MatVec(inv, u);
      assert MatVec(mds, v) == u;
      var w := v[0 := Pow(v[0], e)];
      CubeInverts(v[0], e);
      assert CubeFirst(w) == v;
      s := Minus(w, rcs[0]);
      DifferenceAdds(w, rcs[0]);
    }
  }

  /** With the inverse of the dense matrix, every state is the image of one. */
  lemma PermutationOnto(r: seq<Fe>, rc: seq<seq<Fe>>, inv: seq<seq<Fe>>) returns (s: seq<Fe>)
    requires IsState(r) && IsConstantTable(rc) && IsMatrix(inv, POSEIDON1_WIDTH, POSEIDON1_WIDTH) && IsInverse(inv, Mds(), POSEIDON1_WIDTH)
    ensures IsState(s) && Permutation(s, rc) == r
  {
    hide Mds, FullRounds, PartialRounds, IsInverse;
    var e := CubeRootExponent();
    var a := FullRoundsOnto(r, FinalConstants(rc), inv, e);
    var b := PartialRoundsOnto(Mds(), a, PartialConstants(rc), inv, e);
    s := FullRoundsOnto(b, InitialConstants(rc), inv, e);
  }
}
