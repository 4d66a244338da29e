/**
 The circulant MDS multiplication by in-place recursive convolutions
 (crates/backend/koala-bear/src/poseidon1_koalabear_16.rs).  Output buffers are windows of one
 array, as the slices of the source are.
 */
module MdsLayer {
  import opened Arith
  import opened Field
  import opened Prime
  import opened Multilinear
  import opened LinearAlgebra
  import opened Convolution

  /** First column of the circulant MDS matrix. */
  const MDS_CIRC_COL: seq<Fe> := [1, 3, 13, 22, 67, 2, 15, 63, 101, 1, 2, 17, 11, 1, 51, 1]

  /** mds[i][j] = col[(16 + i - j) % 16]. */
  function CirculantMatrix(col: seq<Fe>): (m: seq<seq<Fe>>)
    ensures IsMatrix(m, |col|, |col|)
  {
    seq(|col|, i requires 0 <= i < |col| => seq(|col|, j requires 0 <= j < |col| => col[(|col| + i - j) % |col|]))
  }

  // ----- entries of a convolution

  /** The coefficients that row i of the product takes from b. */
  ghost function WrapRow(b: seq<Fe>, e: Fe, i: nat, k: nat): (r: seq<Fe>)
    requires i < |b| && k <= |b|
    ensures |r| == k
    ensures forall j {:trigger r[j]} | 0 <= j < k :: r[j] == if j <= i then b[i - j] else Mul(e, b[|b| + i - j])
  {
    seq<Fe>(k, j requires 0 <= j < k => if j <= i then b[i - j] else Mul(e, b[|b| + i - j]))
  }

  lemma {:induction false} ConvEntry(a: seq<Fe>, b: seq<Fe>, e: Fe, i: nat)
    requires |a| <= |b| && i < |b|
    ensures Conv(a, b, e)[i] == Dot(a, WrapRow(b, e, i, |a|))
    decreases |a|
  {
    if a != [] {
      ConvEntry(a[1..], Shift(b, e), e, i);
      var r := WrapRow(b, e, i, |a|);
      var s := WrapRow(Shift(b, e), e, i, |a| - 1);
      forall j | 0 <= j < |s| ensures s[j] == r[j + 1] {
      }
      assert r[1..] == s;
      DotHeadTail(a, r);
    }
  }

  lemma {:induction false} CirculantIsConv(col: seq<Fe>, state: seq<Fe>)
    requires |col| == |state| > 0
    ensures MatVec(CirculantMatrix(col), state) == Conv(state, col, 1)
  {
    var m := CirculantMatrix(col);
    forall i | 0 <= i < |col| ensures MatVec(m, state)[i] == Conv(state, col, 1)[i] {
      ConvEntry(state, col, 1, i);
      var r := WrapRow(col, 1, i, |state|);
      forall j | 0 <= j < |col| ensures m[i][j] == r[j] {
        CyclicIndex(|col|, i, j);
        MulOne(r[j]);
        if j > i {
          MulOne(col[|col| + i - j]);
        }
      }
      assert m[i] == r;
      DotCommute(m[i], state);
    }
  }

  lemma CyclicIndex(n: nat, i: nat, j: nat)
    requires i < n && j < n
    ensures (n + i - j) % n == if j <= i then i - j else n + i - j
  {
    if j <= i {
      DivModOfRow(1, i - j, n);
    } else {
      DivModOfRow(0, n + i - j, n);
    }
  }

  // ----- the base cases

  method ParityDot(lhs: seq<Fe>, rhs: seq<Fe>) returns (acc: Fe)
    requires |lhs| == |rhs| > 0
    ensures acc == Dot(lhs, rhs)
  {
    acc := Mul(lhs[0], rhs[0]);
    DotOne(lhs[..1], rhs[..1]);
    for i := 1 to |lhs|
      invariant acc == Dot(lhs[..i], rhs[..i])
    {
      DotPrefix(lhs, rhs, i);
      acc := Add(acc, Mul(lhs[i], rhs[i]));
    }
    assert lhs[..|lhs|] == lhs && rhs[..|rhs|] == rhs;
  }

  lemma DotOne(u: seq<Fe>, v: seq<Fe>)
    requires |u| == |v| == 1
    ensures Dot(u, v) == Mul(u[0], v[0])
  {
    DotHeadTail(u, v);
    AddZero(Mul(u[0], v[0]));
  }

  lemma DotPrefix(u: seq<Fe>, v: seq<Fe>, i: nat)
    requires |u| == |v| && i < |u|
    ensures Dot(u[..i + 1], v[..i + 1]) == Add(Dot(u[..i], v[..i]), Mul(u[i], v[i]))
  {
    DotSplit(u[..i + 1], v[..i + 1], i);
    assert u[..i + 1][..i] == u[..i] && v[..i + 1][..i] == v[..i];
    DotOne(u[..i + 1][i..], v[..i + 1][i..]);
  }

  /** A buffer whose window from start on is overwritten by r. */
  ghost function Splice(buffer: seq<Fe>, start: nat, r: seq<Fe>): (s: seq<Fe>)
    requires start + |r| <= |buffer|
    ensures |s| == |buffer|
    ensures forall i {:trigger s[i]} | 0 <= i < |s| :: s[i] == if start <= i < start + |r| then r[i - start] else buffer[i]
  {
    buffer[..start] + r + buffer[start + |r|..]
  }

  /** Two neighbouring windows written one after the other are one window. */
  lemma SplicePair(buffer: seq<Fe>, start: nat, l: seq<Fe>, r: seq<Fe>)
    requires start + |l| + |r| <= |buffer|
    ensures Splice(Splice(buffer, start, l), start + |l|, r) == Splice(buffer, start, l + r)
  {
  }

  lemma SpliceAll(buffer: seq<Fe>, r: seq<Fe>)
    requires |r| == |buffer|
    ensures Splice(buffer, 0, r) == r
  {
  }

  lemma SpliceWindows(buffer: seq<Fe>, start: nat, l: seq<Fe>, r: seq<Fe>)
    requires start + |l| + |r| <= |buffer|
    ensures Splice(buffer, start, l + r)[start..start + |l|] == l
    ensures Splice(buffer, start, l + r)[start + |l|..start + |l| + |r|] == r
  {
  }

  lemma SpliceOver(buffer: seq<Fe>, start: nat, r: seq<Fe>, z: seq<Fe>)
    requires start + |r| <= |buffer| && |r| == |z|
    ensures Splice(Splice(buffer, start, r), start, z) == Splice(buffer, start, z)
  {
  }

  method NegacyclicConv4(lhs: seq<Fe>, rhs: seq<Fe>, output: array<Fe>, start: nat)
    requires |lhs| == |rhs| == 4 && start + 4 <= output.Length
    modifies output
    ensures output[..] == Splice(old(output[..]), start, Conv(lhs, rhs, MINUS_ONE))
  {
    hide Conv, Dot;
    MinusOneSquared();
    ghost var z := Conv(lhs, rhs, MINUS_ONE);
    forall i | 0 <= i < 4 ensures z[i] == Dot(lhs, WrapRow(rhs, MINUS_ONE, i, 4)) {
      ConvEntry(lhs, rhs, MINUS_ONE, i);
    }
    assert WrapRow(rhs, MINUS_ONE, 0, 4) == [rhs[0], Neg(rhs[3]), Neg(rhs[2]), Neg(rhs[1])];
    assert WrapRow(rhs, MINUS_ONE, 1, 4) == [rhs[1], rhs[0], Neg(rhs[3]), Neg(rhs[2])];
    assert WrapRow(rhs, MINUS_ONE, 2, 4) == [rhs[2], rhs[1], rhs[0], Neg(rhs[3])];
    assert WrapRow(rhs, MINUS_ONE, 3, 4) == [rhs[3], rhs[2], rhs[1], rhs[0]];
    output[start] := ParityDot(lhs, [rhs[0], Neg(rhs[3]), Neg(rhs[2]), Neg(rhs[1])]);
    output[start + 1] := ParityDot(lhs, [rhs[1], rhs[0], Neg(rhs[3]), Neg(rhs[2])]);
    output[start + 2] := ParityDot(lhs, [rhs[2], rhs[1], rhs[0], Neg(rhs[3])]);
    output[start + 3] := ParityDot(lhs, [rhs[3], rhs[2], rhs[1], rhs[0]]);
  }

  lemma SubIsMinusOne(x: Fe, y: Fe)
    ensures Sub(x, y) == Add(x, Mul(MINUS_ONE, y)) && Add(x, y) == Add(x, Mul(1, y))
  {
    MulOne(y);
    NegIsTimes(y);
    LiftSelf(x);
    LiftSelf(y);
    LiftNeg(y);
    var n: int := 0 - y;
    LiftAdd(x, n);
    LiftSub(x, y);
    assert x + n == x - y;
  }

  /** l and r are the difference and the sum of the halves of z. */
  ghost predicate AreReductions(l: seq<Fe>, r: seq<Fe>, z: seq<Fe>, h: nat) {
    |l| == |r| == h && |z| == 2 * h
    && forall i {:trigger r[i]} | 0 <= i < h :: Halve(Add(l[i], r[i])) == z[i] && Sub(r[i], z[i]) == z[i + h]
  }

  lemma ReductionsAt(z: seq<Fe>, h: nat)
    requires |z| == 2 * h
    ensures AreReductions(Halved(z, MINUS_ONE), Halved(z, 1), z, h)
  {
    var l, r := Halved(z, MINUS_ONE), Halved(z, 1);
    forall i {:trigger r[i]} | 0 <= i < h
      ensures Halve(Add(l[i], r[i])) == z[i] && Sub(r[i], z[i]) == z[i + h]
    {
      HalvesRecovered(z[i], z[i + h]);
    }
  }

  lemma ReductionsOf(lhs: seq<Fe>, rhs: seq<Fe>)
    requires |lhs| == |rhs| > 0 && |rhs| % 2 == 0
    ensures AreReductions(Conv(Halved(lhs, MINUS_ONE), Halved(rhs, MINUS_ONE), MINUS_ONE), Conv(Halved(lhs, 1), Halved(rhs, 1), 1),
                          Conv(lhs, rhs, 1), |rhs| / 2)
  {
    hide *;
    MinusOneSquared();
    HalvedProduct(lhs, rhs, MINUS_ONE, 1);
    HalvedProduct(lhs, rhs, 1, 1);
    ReductionsAt(Conv(lhs, rhs, 1), |rhs| / 2);
  }

  /** The last loop of conv_n_recursive: both reductions become the two halves of the product. */
  method CombineHalves(output: array<Fe>, start: nat, h: nat, ghost l: seq<Fe>, ghost r: seq<Fe>, ghost z: seq<Fe>)
    requires start + 2 * h <= output.Length && AreReductions(l, r, z, h)
    requires output[start..start + h] == l && output[start + h..start + 2 * h] == r
    modifies output
    ensures output[..] == Splice(old(output[..]), start, z)
  {
    ghost var was := output[..];
    for i := 0 to h
      invariant forall j {:trigger output[j]} | 0 <= j < output.Length ::
                  output[j] == if start <= j < start + i || start + h <= j < start + h + i then z[j - start] else was[j]
    {
      WindowAt(was, start, h, l, r, i);
      var x := r[i];
      output[start + i] := Add(output[start + i], output[start + h + i]);
      output[start + i] := Halve(output[start + i]);
      output[start + h + i] := Sub(output[start + h + i], output[start + i]);
    }
  }

  lemma WindowAt(was: seq<Fe>, start: nat, h: nat, oo: seq<Fe>, ss: seq<Fe>, i: nat)
    requires start + 2 * h <= |was| && was[start..start + h] == oo && was[start + h..start + 2 * h] == ss && i < h
    ensures was[start + i] == oo[i] && was[start + h + i] == ss[i]
  {
    assert was[start..start + h][i] == was[start + i] && was[start + h..start + 2 * h][i] == was[start + h + i];
  }

  method CombineInPlace(output: array<Fe>, start: nat, h: nat, ghost before: seq<Fe>,
                        ghost l: seq<Fe>, ghost r: seq<Fe>, ghost z: seq<Fe>)
    requires output.Length == |before| >= start + 2 * h && AreReductions(l, r, z, h)
    requires output[..] == Splice(before, start, l + r)
    modifies output
    ensures output[..] == Splice(before, start, z)
  {
    hide Splice;
    SpliceWindows(before, start, l, r);
    SpliceOver(before, start, l + r, z);
    CombineHalves(output, start, h, l, r, z);
  }

  method Conv4(lhs: seq<Fe>, rhs: seq<Fe>, output: array<Fe>, start: nat)
    requires |lhs| == |rhs| == 4 && start + 4 <= output.Length
    modifies output
    ensures output[..] == Splice(old(output[..]), start, Conv(lhs, rhs, 1))
  {
    hide Conv, Dot;
    var uP, uM := [Add(lhs[0], lhs[2]), Add(lhs[1], lhs[3])], [Sub(lhs[0], lhs[2]), Sub(lhs[1], lhs[3])];
    var vP, vM := [Add(rhs[0], rhs[2]), Add(rhs[1], rhs[3])], [Sub(rhs[0], rhs[2]), Sub(rhs[1], rhs[3])];
    Conv4Halves(lhs, rhs, uP, uM, vP, vM);
    output[start] := ParityDot(uM, [vM[0], Neg(vM[1])]);
    output[start + 1] := ParityDot(uM, [vM[1], vM[0]]);
    output[start + 2] := ParityDot(uP, vP);
    output[start + 3] := ParityDot(uP, [vP[1], vP[0]]);
    ReductionsOf(lhs, rhs);
    ghost var l, r := [Dot(uM, [vM[0], Neg(vM[1])]), Dot(uM, [vM[1], vM[0]])], [Dot(uP, vP), Dot(uP, [vP[1], vP[0]])];
    CombineHalves(output, start, 2, l, r, Conv(lhs, rhs, 1));
  }

  lemma Conv4Halves(lhs: seq<Fe>, rhs: seq<Fe>, uP: seq<Fe>, uM: seq<Fe>, vP: seq<Fe>, vM: seq<Fe>)
    requires |lhs| == |rhs| == 4
    requires uP == [Add(lhs[0], lhs[2]), Add(lhs[1], lhs[3])] && uM == [Sub(lhs[0], lhs[2]), Sub(lhs[1], lhs[3])]
    requires vP == [Add(rhs[0], rhs[2]), Add(rhs[1], rhs[3])] && vM == [Sub(rhs[0], rhs[2]), Sub(rhs[1], rhs[3])]
    ensures Conv(Halved(lhs, MINUS_ONE), Halved(rhs, MINUS_ONE), MINUS_ONE)
         == [Dot(uM, [vM[0], Neg(vM[1])]), Dot(uM, [vM[1], vM[0]])]
    ensures Conv(Halved(lhs, 1), Halved(rhs, 1), 1) == [Dot(uP, vP), Dot(uP, [vP[1], vP[0]])]
  {
    hide Conv, Dot;
    SubIsMinusOne(lhs[0], lhs[2]);
    SubIsMinusOne(lhs[1], lhs[3]);
    SubIsMinusOne(rhs[0], rhs[2]);
    SubIsMinusOne(rhs[1], rhs[3]);
    assert uP == Halved(lhs, 1) && uM == Halved(lhs, MINUS_ONE) && vP == Halved(rhs, 1) && vM == Halved(rhs, MINUS_ONE);
    TwoEntries(uM, vM, MINUS_ONE);
    TwoEntries(uP, vP, 1);
    MinusOneSquared();
    MulOne(vP[1]);
    assert vP == [vP[0], vP[1]];
  }

  lemma TwoEntries(u: seq<Fe>, v: seq<Fe>, e: Fe)
    requires |u| == |v| == 2
    ensures Conv(u, v, e)[0] == Dot(u, [v[0], Mul(e, v[1])]) && Conv(u, v, e)[1] == Dot(u, [v[1], v[0]])
  {
    ConvEntry(u, v, e, 0);
    ConvEntry(u, v, e, 1);
    assert WrapRow(v, e, 0, 2) == [v[0], Mul(e, v[1])];
    assert WrapRow(v, e, 1, 2) == [v[1], v[0]];
  }

  // ----- the recursive cases

  /** Sums and differences of the two halves. */
  method HalfSums(v: seq<Fe>) returns (sum: seq<Fe>, difference: seq<Fe>)
    requires |v| % 2 == 0
    ensures sum == Halved(v, 1) && difference == Halved(v, MINUS_ONE)
  {
    var h := |v| / 2;
    sum, difference := [], [];
    for i := 0 to h
      invariant |sum| == |difference| == i
      invariant forall k {:trigger sum[k]} | 0 <= k < i :: sum[k] == Halved(v, 1)[k]
      invariant forall k {:trigger difference[k]} | 0 <= k < i :: difference[k] == Halved(v, MINUS_ONE)[k]
    {
      SubIsMinusOne(v[i], v[i + h]);
      sum := sum + [Add(v[i], v[i + h])];
      difference := difference + [Sub(v[i], v[i + h])];
    }
  }

  /** Even entries, odd entries and their sums. */
  method Parts(v: seq<Fe>) returns (e: seq<Fe>, o: seq<Fe>, s: seq<Fe>)
    requires |v| % 2 == 0
    ensures e == Even(v) && o == Odd(v) && s == Plus(Even(v), Odd(v))
  {
    e, o, s := [], [], [];
    for i := 0 to |v| / 2
      invariant |e| == |o| == |s| == i
      invariant forall k {:trigger e[k]} | 0 <= k < i :: e[k] == v[2 * k]
      invariant forall k {:trigger o[k]} | 0 <= k < i :: o[k] == v[2 * k + 1]
      invariant forall k {:trigger s[k]} | 0 <= k < i :: s[k] == Add(v[2 * k], v[2 * k + 1])
    {
      e := e + [v[2 * i]];
      o := o + [v[2 * i + 1]];
      s := s + [Add(e[i], o[i])];
    }
  }

  /** The odd part is a product of sums minus two products. */
  lemma KaratsubaOdd(lhs: seq<Fe>, rhs: seq<Fe>, e: Fe, i: nat)
    requires |lhs| == |rhs| > 0 && |rhs| % 2 == 0 && i < |rhs| / 2
    ensures Sub(Conv(Plus(Even(lhs), Odd(lhs)), Plus(Even(rhs), Odd(rhs)), e)[i],
                Add(Conv(Even(lhs), Even(rhs), e)[i], Conv(Odd(lhs), Odd(rhs), e)[i]))
         == Conv(lhs, rhs, e)[2 * i + 1]
  {
    var le, lo, re, ro := Even(lhs), Odd(lhs), Even(rhs), Odd(rhs);
    ConvParts(lhs, rhs, e);
    assert Odd(Conv(lhs, rhs, e))[i] == Conv(lhs, rhs, e)[2 * i + 1];
    hide Even, Odd, Conv;
    ConvPlusLeft(le, lo, Plus(re, ro), e);
    ConvPlusRight(le, re, ro, e);
    ConvPlusRight(lo, re, ro, e);
    KaratsubaSum(Conv(le, re, e)[i], Conv(le, ro, e)[i], Conv(lo, re, e)[i], Conv(lo, ro, e)[i]);
  }

  lemma KaratsubaSum(a: Fe, b: Fe, c: Fe, d: Fe)
    ensures Sub(Add(Add(a, b), Add(c, d)), Add(a, d)) == Add(b, c)
  {
    LiftSelf(a);
    LiftSelf(b);
    LiftSelf(c);
    LiftSelf(d);
    LiftAdd(a, b);
    LiftAdd(c, d);
    LiftAdd(a + b, c + d);
    LiftAdd(a, d);
    LiftSub(a + b + (c + d), a + d);
    LiftAdd(b, c);
  }

  lemma KaratsubaEven(lhs: seq<Fe>, rhs: seq<Fe>, i: nat)
    requires |lhs| == |rhs| > 0 && |rhs| % 2 == 0 && i < |rhs| / 2
    ensures i == 0 ==> Sub(Conv(Even(lhs), Even(rhs), MINUS_ONE)[0], Conv(Odd(lhs), Odd(rhs), MINUS_ONE)[|rhs| / 2 - 1])
                       == Conv(lhs, rhs, MINUS_ONE)[0]
    ensures i > 0 ==> Add(Conv(Even(lhs), Even(rhs), MINUS_ONE)[i], Conv(Odd(lhs), Odd(rhs), MINUS_ONE)[i - 1])
                      == Conv(lhs, rhs, MINUS_ONE)[2 * i]
  {
    var le, lo, re, ro := Even(lhs), Odd(lhs), Even(rhs), Odd(rhs);
    ConvParts(lhs, rhs, MINUS_ONE);
    assert Even(Conv(lhs, rhs, MINUS_ONE))[i] == Conv(lhs, rhs, MINUS_ONE)[2 * i];
    hide Even, Odd, Conv;
    ShiftConv(lo, ro, MINUS_ONE);
    SubIsMinusOne(Conv(le, re, MINUS_ONE)[0], Conv(lo, ro, MINUS_ONE)[|rhs| / 2 - 1]);
  }

  /** Two half-size products side by side. */
  method NegacyclicPair(a: seq<Fe>, b: seq<Fe>, c: seq<Fe>, d: seq<Fe>, output: array<Fe>, start: nat, k: nat)
    requires |a| == |b| == |c| == |d| == 4 * Pow2(k) && start + 2 * |a| <= output.Length
    modifies output
    ensures output[..] == Splice(old(output[..]), start, Conv(a, b, MINUS_ONE) + Conv(c, d, MINUS_ONE))
    decreases k, 1
  {
    hide *;
    NegacyclicConv(a, b, output, start, k);
    NegacyclicConv(c, d, output, start + |a|, k);
    SplicePair(old(output[..]), start, Conv(a, b, MINUS_ONE), Conv(c, d, MINUS_ONE));
  }

  /** A half-size product in a buffer of its own. */
  method NegacyclicBuffer(a: seq<Fe>, b: seq<Fe>, k: nat) returns (product: array<Fe>)
    requires |a| == |b| == 4 * Pow2(k)
    ensures fresh(product) && product[..] == Conv(a, b, MINUS_ONE)
    decreases k, 1
  {
    hide *;
    product := new Fe[|a|];
    SpliceAll(product[..], Conv(a, b, MINUS_ONE));
    NegacyclicConv(a, b, product, 0, k);
  }

  /** negacyclic_conv4 and negacyclic_conv_n_recursive on 4 * 2^k entries. */
  method NegacyclicConv(lhs: seq<Fe>, rhs: seq<Fe>, output: array<Fe>, start: nat, k: nat)
    requires |lhs| == |rhs| == 4 * Pow2(k) && start + |lhs| <= output.Length
    modifies output
    ensures output[..] == Splice(old(output[..]), start, Conv(lhs, rhs, MINUS_ONE))
    decreases k, 0
  {
    hide *;
    FourTimes(k);
    if k == 0 {
      NegacyclicConv4(lhs, rhs, output, start);
      return;
    }
    var h := 4 * Pow2(k - 1);
    var le, lo, ls := Parts(lhs);
    var re, ro, rs := Parts(rhs);
    var es := NegacyclicBuffer(le, re, k - 1);
    ghost var oo, ss := Conv(lo, ro, MINUS_ONE), Conv(ls, rs, MINUS_ONE);
    NegacyclicPair(lo, ro, ls, rs, output, start, k - 1);
    PartsOf(lhs, rhs);
    CorrectAndInterleave(output, start, es, h, old(output[..]), Conv(le, re, MINUS_ONE), oo, ss, Conv(lhs, rhs, MINUS_ONE));
  }

  lemma FourTimes(k: nat)
    ensures k == 0 ==> 4 * Pow2(k) == 4
    ensures k > 0 ==> 4 * Pow2(k) == 2 * (4 * Pow2(k - 1)) && 4 * Pow2(k) % 2 == 0 && 4 * Pow2(k) / 2 == 4 * Pow2(k - 1)
  {
    if k > 0 {
      HalfOfTwice(4 * Pow2(k - 1));
    }
  }

  lemma HalfOfTwice(h: nat)
    ensures 2 * h % 2 == 0 && 2 * h / 2 == h
  {
  }

  /** The window of the two odd products becomes the whole product. */
  method CorrectAndInterleave(output: array<Fe>, start: nat, es: array<Fe>, h: nat, ghost before: seq<Fe>,
                              ghost ee: seq<Fe>, ghost oo: seq<Fe>, ghost ss: seq<Fe>, ghost z: seq<Fe>)
    requires output.Length == |before| >= start + 2 * h && es.Length == h && es != output && AreParts(ee, oo, ss, z, h)
    requires es[..] == ee && output[..] == Splice(before, start, oo + ss)
    modifies output, es
    ensures output[..] == Splice(before, start, z)
  {
    hide Splice;
    SpliceWindows(before, start, oo, ss);
    SpliceOver(before, start, oo + ss, z);
    CorrectParts(output, start, es, h, ee, oo, ss, z);
    InterleaveParts(output, start, es, h, z);
  }

  /** ee, oo and ss are the three products from which the even and odd parts of z are recovered. */
  ghost predicate AreParts(ee: seq<Fe>, oo: seq<Fe>, ss: seq<Fe>, z: seq<Fe>, h: nat) {
    && |ee| == |oo| == |ss| == h > 0 && |z| == 2 * h && Sub(ee[0], oo[h - 1]) == z[0]
    && (forall i {:trigger ss[i]} | 0 <= i < h :: Sub(ss[i], Add(ee[i], oo[i])) == z[2 * i + 1])
    && (forall i {:trigger ee[i]} | 1 <= i < h :: Add(ee[i], oo[i - 1]) == z[2 * i])
  }

  lemma PartsOf(lhs: seq<Fe>, rhs: seq<Fe>)
    requires |lhs| == |rhs| > 0 && |rhs| % 2 == 0
    ensures AreParts(Conv(Even(lhs), Even(rhs), MINUS_ONE), Conv(Odd(lhs), Odd(rhs), MINUS_ONE),
                     Conv(Plus(Even(lhs), Odd(lhs)), Plus(Even(rhs), Odd(rhs)), MINUS_ONE), Conv(lhs, rhs, MINUS_ONE), |rhs| / 2)
  {
    hide Conv, Even, Odd, Plus;
    var ss := Conv(Plus(Even(lhs), Odd(lhs)), Plus(Even(rhs), Odd(rhs)), MINUS_ONE);
    KaratsubaEven(lhs, rhs, 0);
    forall i {:trigger ss[i]} | 0 <= i < |rhs| / 2
      ensures Sub(ss[i], Add(Conv(Even(lhs), Even(rhs), MINUS_ONE)[i], Conv(Odd(lhs), Odd(rhs), MINUS_ONE)[i]))
           == Conv(lhs, rhs, MINUS_ONE)[2 * i + 1]
    {
      KaratsubaOdd(lhs, rhs, MINUS_ONE, i);
    }
    forall i {:trigger Conv(Even(lhs), Even(rhs), MINUS_ONE)[i]} | 1 <= i < |rhs| / 2
      ensures Add(Conv(Even(lhs), Even(rhs), MINUS_ONE)[i], Conv(Odd(lhs), Odd(rhs), MINUS_ONE)[i - 1])
           == Conv(lhs, rhs, MINUS_ONE)[2 * i]
    {
      KaratsubaEven(lhs, rhs, i);
    }
  }

  /** The in-place interleaving of even and odd entries. */
  method InterleaveParts(output: array<Fe>, start: nat, es: array<Fe>, h: nat, ghost z: seq<Fe>)
    requires |z| == 2 * h && start + 2 * h <= output.Length && es.Length == h && es != output
    requires forall j {:trigger es[j]} | 0 <= j < h :: es[j] == z[2 * j]
    requires forall j {:trigger output[j]} | start + h <= j < start + 2 * h :: output[j] == z[2 * (j - start - h) + 1]
    modifies output
    ensures output[..] == Splice(old(output[..]), start, z)
  {
    ghost var was := output[..];
    for i := 0 to h
      invariant forall j {:trigger output[j]} | 0 <= j < output.Length ::
                  output[j] == if start <= j < start + 2 * i then z[j - start] else was[j]
    {
      assert was[start + i + h] == z[2 * i + 1];
      output[start + 2 * i] := es[i];
      output[start + 2 * i + 1] := output[start + i + h];
    }
  }

  /** The even part gains the shifted odd product, the odd part loses both products. */
  method CorrectParts(output: array<Fe>, start: nat, es: array<Fe>, h: nat,
                      ghost ee: seq<Fe>, ghost oo: seq<Fe>, ghost ss: seq<Fe>, ghost z: seq<Fe>)
    requires start + 2 * h <= output.Length && es.Length == h && es != output && AreParts(ee, oo, ss, z, h)
    requires es[..] == ee && output[start..start + h] == oo && output[start + h..start + 2 * h] == ss
    modifies output, es
    ensures forall j {:trigger es[j]} | 0 <= j < h :: es[j] == z[2 * j]
    ensures forall j {:trigger output[j]} | 0 <= j < output.Length ::
              output[j] == if start + h <= j < start + 2 * h then z[2 * (j - start - h) + 1] else old(output[j])
  {
    ghost var was := output[..];
    assert forall j {:trigger es[j]} | 0 <= j < h :: es[j] == es[..][j];
    WindowAt(was, start, h, oo, ss, 0);
    WindowAt(was, start, h, oo, ss, h - 1);
    output[start + h] := Sub(output[start + h], Add(es[0], output[start]));
    es[0] := Sub(es[0], output[start + h - 1]);
    for i := 1 to h
      invariant forall j {:trigger es[j]} | 0 <= j < h :: es[j] == if j < i then z[2 * j] else ee[j]
      invariant forall j {:trigger output[j]} | 0 <= j < output.Length ::
                  output[j] == if start + h <= j < start + h + i then z[2 * (j - start - h) + 1] else was[j]
    {
      WindowAt(was, start, h, oo, ss, i);
      WindowAt(was, start, h, oo, ss, i - 1);
      output[start + h + i] := Sub(output[start + h + i], Add(es[i], output[start + i]));
      es[i] := Add(es[i], output[start + i - 1]);
    }
  }

  /** A negacyclic and a cyclic half-size product side by side. */
  method CyclicPair(a: seq<Fe>, b: seq<Fe>, c: seq<Fe>, d: seq<Fe>, output: array<Fe>, start: nat, k: nat)
    requires |a| == |b| == |c| == |d| == 4 * Pow2(k) && start + 2 * |a| <= output.Length
    modifies output
    ensures output[..] == Splice(old(output[..]), start, Conv(a, b, MINUS_ONE) + Conv(c, d, 1))
    decreases k, 1
  {
    hide Conv, Splice;
    NegacyclicConv(a, b, output, start, k);
    CyclicConv(c, d, output, start + |a|, k);
    SplicePair(old(output[..]), start, Conv(a, b, MINUS_ONE), Conv(c, d, 1));
  }

  /** conv4 and conv_n_recursive on 4 * 2^k entries. */
  method CyclicConv(lhs: seq<Fe>, rhs: seq<Fe>, output: array<Fe>, start: nat, k: nat)
    requires |lhs| == |rhs| == 4 * Pow2(k) && start + |lhs| <= output.Length
    modifies output
    ensures output[..] == Splice(old(output[..]), start, Conv(lhs, rhs, 1))
    decreases k, 0
  {
    hide Conv, Halved, Splice, AreReductions;
    FourTimes(k);
    if k == 0 {
      Conv4(lhs, rhs, output, start);
      return;
    }
    var h := 4 * Pow2(k - 1);
    var lp, ln := HalfSums(lhs);
    var rp, rn := HalfSums(rhs);
    ghost var l, r := Conv(ln, rn, MINUS_ONE), Conv(lp, rp, 1);
    CyclicPair(ln, rn, lp, rp, output, start, k - 1);
    ReductionsOf(lhs, rhs);
    CombineInPlace(output, start, h, old(output[..]), l, r, Conv(lhs, rhs, 1));
  }

  /** mds_circ_16: the state is multiplied by the dense circulant matrix. */
  method MdsCirc16(state: array<Fe>)
    requires state.Length == 16
    modifies state
    ensures state[..] == MatVec(CirculantMatrix(MDS_CIRC_COL), old(state[..]))
  {
    hide Conv, MatVec, CirculantMatrix;
    var input := state[..];
    assert Pow2(2) == 4;
    CirculantIsConv(MDS_CIRC_COL, input);
    CyclicConv(input, MDS_CIRC_COL, state, 0, 2);
    SpliceAll(input, Conv(input, MDS_CIRC_COL, 1));
  }
}
