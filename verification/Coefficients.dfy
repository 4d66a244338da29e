/**
 From hypercube values to coefficients (crates/backend/poly/src/evals.rs) and the two ways
 the coefficients are evaluated: as a multilinear polynomial at the reversed point, and by
 Horner's rule at a univariate point.
 */
module Coefficients {
  import opened Arith
  import opened Field
  import opened Multilinear

  // ----- bit reversal

  /** The lowest n bits of i in reverse order. */
  function Rev(i: nat, n: nat): (r: nat)
    ensures r < Pow2(n)
  {
    if n == 0 then 0 else (if i % 2 == 1 then Pow2(n - 1) else 0) + Rev(i / 2, n - 1)
  }

  /** Reversing a full machine word and shifting keeps the reversal of the low bits. */
  lemma {:induction false} RevOfWord(i: nat, n: nat, m: nat)
    requires i < Pow2(n)
    ensures Rev(i, n + m) == Rev(i, n) * Pow2(m)
    ensures Rev(i, n + m) / Pow2(m) == Rev(i, n)
  {
    if n == 0 {
      RevZero(m);
    } else {
      RevOfWord(i / 2, n - 1, m);
      Pow2Add(n - 1, m);
      AddProducts(if i % 2 == 1 then Pow2(n - 1) else 0, Rev(i / 2, n - 1), Pow2(m));
    }
    DivExact(Rev(i, n), Pow2(m));
  }

  lemma AddProducts(a: nat, b: nat, c: nat)
    ensures (a + b) * c == a * c + b * c
  {
  }

  lemma {:induction false} RevZero(m: nat)
    ensures Rev(0, m) == 0
  {
    if m > 0 {
      RevZero(m - 1);
    }
  }

  /** The reversal read from the other end. */
  lemma {:induction false} RevHigh(i: nat, n: nat)
    requires n > 0 && i < Pow2(n)
    ensures i < Pow2(n - 1) ==> Rev(i, n) == 2 * Rev(i, n - 1)
    ensures i >= Pow2(n - 1) ==> Rev(i, n) == 2 * Rev(i - Pow2(n - 1), n - 1) + 1
  {
    if n > 1 {
      RevHigh(i / 2, n - 1);
      HalfOfHigh(i, Pow2(n - 2));
    }
  }

  lemma HalfOfHigh(i: nat, g: nat)
    ensures i >= 2 * g ==> (i - 2 * g) / 2 == i / 2 - g && (i - 2 * g) % 2 == i % 2
    ensures i < 2 * g <==> i / 2 < g
  {
  }

  lemma RevLow(x: nat, n: nat)
    requires n > 0
    ensures Rev(2 * x, n) == Rev(x, n - 1) && Rev(2 * x + 1, n) == Pow2(n - 1) + Rev(x, n - 1)
  {
    assert 2 * x / 2 == x && (2 * x + 1) / 2 == x;
  }

  lemma {:induction false} RevInvolution(i: nat, n: nat)
    requires i < Pow2(n)
    ensures Rev(Rev(i, n), n) == i
  {
    if n > 0 {
      var h := Pow2(n - 1);
      RevHigh(i, n);
      hide Rev;
      if i < h {
        RevInvolution(i, n - 1);
        RevLow(Rev(i, n - 1), n);
      } else {
        RevInvolution(i - h, n - 1);
        RevLow(Rev(i - h, n - 1), n);
      }
    }
  }

  /** The permuted vector. */
  ghost function BitReversed(v: seq<Fe>, n: nat): (w: seq<Fe>)
    requires |v| == Pow2(n)
    ensures |w| == |v|
    ensures forall i {:trigger w[i]} | 0 <= i < |w| :: w[i] == v[Rev(i, n)]
  {
    seq(|v|, i requires 0 <= i < |v| => v[Rev(i, n)])
  }

  method BitReversePermutation(data: array<Fe>, ghost n: nat, logN: nat)
    requires n >= 1 && data.Length == Pow2(n) && logN == n
    modifies data
    ensures data[..] == BitReversed(old(data[..]), n)
  {
    ghost var was := data[..];
    for i := 0 to data.Length
      invariant forall k {:trigger data[k]} | 0 <= k < data.Length ::
                  data[k] == if k < i || Rev(k, n) < i then was[Rev(k, n)] else was[k]
    {
      var j := Rev(i, logN);
      RevInvolution(i, n);
      if i < j {
        forall k | 0 <= k < data.Length
          ensures Rev(k, n) == i ==> k == j
          ensures Rev(k, n) == j ==> k == i
        {
          RevInvolution(k, n);
        }
        data[i], data[j] := data[j], data[i];
      } else {
        forall k | 0 <= k < data.Length
          ensures Rev(k, n) == i ==> k == j
        {
          RevInvolution(k, n);
        }
      }
    }
  }

  // ----- subset differences

  function SubAll(h: seq<Fe>, l: seq<Fe>): (r: seq<Fe>)
    requires |h| == |l|
    ensures |r| == |h|
    ensures forall i {:trigger r[i]} | 0 <= i < |r| :: r[i] == Sub(h[i], l[i])
  {
    seq(|h|, i requires 0 <= i < |h| => Sub(h[i], l[i]))
  }

  /** The coefficients of the polynomial with values v, in the order of v's index bits. */
  ghost function Differences(v: seq<Fe>, n: nat): (d: seq<Fe>)
    requires |v| == Pow2(n)
    ensures |d| == |v|
    decreases n
  {
    if n == 0 then v
    else
      var h := Pow2(n - 1);
      var lo, hi := Differences(v[..h], n - 1), Differences(v[h..], n - 1);
      lo + SubAll(hi, lo)
  }

  /** eval_multilinear_coeffs. */
  function EvalCoeffs(coeffs: seq<Fe>, point: seq<Fe>): Fe
    requires |coeffs| == Pow2(|point|)
    decreases |point|
  {
    if point == [] then coeffs[0]
    else
      var h := |coeffs| / 2;
      Add(EvalCoeffs(coeffs[..h], point[1..]), Mul(EvalCoeffs(coeffs[h..], point[1..]), point[0]))
  }

  lemma {:induction false} EvalCoeffsSub(a: seq<Fe>, b: seq<Fe>, point: seq<Fe>)
    requires |a| == |b| == Pow2(|point|)
    ensures EvalCoeffs(SubAll(a, b), point) == Sub(EvalCoeffs(a, point), EvalCoeffs(b, point))
    decreases |point|
  {
    if point == [] {
    } else {
      var h := |a| / 2;
      var x := point[0];
      EvalCoeffsSub(a[..h], b[..h], point[1..]);
      EvalCoeffsSub(a[h..], b[h..], point[1..]);
      assert SubAll(a, b)[..h] == SubAll(a[..h], b[..h]);
      assert SubAll(a, b)[h..] == SubAll(a[h..], b[h..]);
      SubOfLines(EvalCoeffs(a[..h], point[1..]), EvalCoeffs(a[h..], point[1..]),
                 EvalCoeffs(b[..h], point[1..]), EvalCoeffs(b[h..], point[1..]), x);
    }
  }

  lemma SubOfLines(a: Fe, b: Fe, c: Fe, d: Fe, x: Fe)
    ensures Add(Sub(a, c), Mul(Sub(b, d), x)) == Sub(Add(a, Mul(b, x)), Add(c, Mul(d, x)))
  {
    LiftSelf(a);
    LiftSelf(b);
    LiftSelf(c);
    LiftSelf(d);
    LiftSelf(x);
    LiftSub(a, c);
    LiftSub(b, d);
    LiftMul(b - d, x);
    LiftAdd(a - c, (b - d) * x);
    LiftMul(b, x);
    LiftMul(d, x);
    LiftAdd(a, b * x);
    LiftAdd(c, d * x);
    LiftSub(a + b * x, c + d * x);
    assert a - c + (b - d) * x == a + b * x - (c + d * x);
  }

  /** The differences are the coefficients of the polynomial. */
  lemma {:induction false} DifferencesEvaluate(v: seq<Fe>, point: seq<Fe>)
    requires |v| == Pow2(|point|)
    ensures EvalCoeffs(Differences(v, |point|), point) == Mle(v, point)
    decreases |point|
  {
    if point == [] {
    } else {
      var n := |point|;
      var h := Pow2(n - 1);
      DifferencesEvaluate(v[..h], point[1..]);
      DifferencesEvaluate(v[h..], point[1..]);
      var lo, hi := Differences(v[..h], n - 1), Differences(v[h..], n - 1);
      var d := Differences(v, n);
      assert d[..h] == lo && d[h..] == SubAll(hi, lo);
      EvalCoeffsSub(hi, lo, point[1..]);
      MulComm(Sub(EvalCoeffs(hi, point[1..]), EvalCoeffs(lo, point[1..])), point[0]);
    }
  }

  // ----- even and odd entries

  ghost function Evens(v: seq<Fe>): (r: seq<Fe>)
    requires |v| % 2 == 0
    ensures |r| == |v| / 2
    ensures forall i {:trigger r[i]} | 0 <= i < |r| :: r[i] == v[2 * i]
  {
    seq(|v| / 2, i requires 0 <= i < |v| / 2 => v[2 * i])
  }

  ghost function Odds(v: seq<Fe>): (r: seq<Fe>)
    requires |v| % 2 == 0
    ensures |r| == |v| / 2
    ensures forall i {:trigger r[i]} | 0 <= i < |r| :: r[i] == v[2 * i + 1]
  {
    seq(|v| / 2, i requires 0 <= i < |v| / 2 => v[2 * i + 1])
  }

  lemma ReversedHalves(v: seq<Fe>, n: nat)
    requires n > 0 && |v| == Pow2(n)
    ensures Evens(BitReversed(v, n)) == BitReversed(v[..Pow2(n - 1)], n - 1)
    ensures Odds(BitReversed(v, n)) == BitReversed(v[Pow2(n - 1)..], n - 1)
  {
    var h := Pow2(n - 1);
    forall i | 0 <= i < h
      ensures Rev(2 * i, n) == Rev(i, n - 1) && Rev(2 * i + 1, n) == h + Rev(i, n - 1)
    {
      assert 2 * i / 2 == i && (2 * i + 1) / 2 == i;
    }
  }

  /** Splitting on the last variable separates even and odd coefficients. */
  lemma {:induction false} EvalCoeffsLast(c: seq<Fe>, point: seq<Fe>, x: Fe)
    requires |c| == Pow2(|point| + 1)
    ensures EvalCoeffs(c, point + [x]) == Add(EvalCoeffs(Evens(c), point), Mul(EvalCoeffs(Odds(c), point), x))
    decreases |point|
  {
    if point == [] {
      assert point + [x] == [x];
      assert [x][1..] == [];
    } else {
      var h := Pow2(|point|);
      assert (point + [x])[1..] == point[1..] + [x];
      EvalCoeffsHalves(c, h, point + [x]);
      EvensOddsHalves(c, h);
      EvalCoeffsHalves(Evens(c), h / 2, point);
      EvalCoeffsHalves(Odds(c), h / 2, point);
      hide EvalCoeffs;
      EvalCoeffsLast(c[..h], point[1..], x);
      EvalCoeffsLast(c[h..], point[1..], x);
      SwapAxes(EvalCoeffs(Evens(c[..h]), point[1..]), EvalCoeffs(Odds(c[..h]), point[1..]),
               EvalCoeffs(Evens(c[h..]), point[1..]), EvalCoeffs(Odds(c[h..]), point[1..]), x, point[0]);
    }
  }

  lemma EvalCoeffsHalves(c: seq<Fe>, h: nat, point: seq<Fe>)
    requires point != [] && |c| == Pow2(|point|) && h == Pow2(|point| - 1)
    ensures EvalCoeffs(c, point) == Add(EvalCoeffs(c[..h], point[1..]), Mul(EvalCoeffs(c[h..], point[1..]), point[0]))
  {
  }

  lemma EvensOddsHalves(c: seq<Fe>, h: nat)
    requires |c| == 2 * h && h % 2 == 0
    ensures Evens(c)[..h / 2] == Evens(c[..h]) && Evens(c)[h / 2..] == Evens(c[h..])
    ensures Odds(c)[..h / 2] == Odds(c[..h]) && Odds(c)[h / 2..] == Odds(c[h..])
  {
  }

  lemma SwapAxes(a: Fe, b: Fe, c: Fe, d: Fe, x: Fe, y: Fe)
    ensures Add(Add(a, Mul(b, x)), Mul(Add(c, Mul(d, x)), y)) == Add(Add(a, Mul(c, y)), Mul(Add(b, Mul(d, y)), x))
  {
    LiftSelf(a);
    LiftSelf(b);
    LiftSelf(c);
    LiftSelf(d);
    LiftSelf(x);
    LiftSelf(y);
    LiftMul(b, x);
    LiftAdd(a, b * x);
    LiftMul(d, x);
    LiftAdd(c, d * x);
    LiftMul(c + d * x, y);
    LiftAdd(a + b * x, (c + d * x) * y);
    LiftMul(c, y);
    LiftAdd(a, c * y);
    LiftMul(d, y);
    LiftAdd(b, d * y);
    LiftMul(b + d * y, x);
    LiftAdd(a + c * y, (b + d * y) * x);
    assert a + b * x + (c + d * x) * y == a + c * y + (b + d * y) * x;
  }

  function Reversed(p: seq<Fe>): (r: seq<Fe>)
    ensures |r| == |p|
  {
    if p == [] then [] else Reversed(p[1..]) + [p[0]]
  }

  /** Reversing index bits and reversing the point cancel. */
  lemma {:induction false} ReversedPoint(c: seq<Fe>, point: seq<Fe>)
    requires |c| == Pow2(|point|)
    ensures EvalCoeffs(BitReversed(c, |point|), Reversed(point)) == EvalCoeffs(c, point)
    decreases |point|
  {
    if point == [] {
    } else {
      var n := |point|;
      var h := Pow2(n - 1);
      EvalCoeffsLast(BitReversed(c, n), Reversed(point[1..]), point[0]);
      ReversedHalves(c, n);
      ReversedPoint(c[..h], point[1..]);
      ReversedPoint(c[h..], point[1..]);
    }
  }

  // ----- Horner's rule

  /** `coeffs.iter().rfold(0, |acc, c| acc * a + c)`. */
  function Horner(coeffs: seq<Fe>, a: Fe): Fe {
    if coeffs == [] then 0 else Add(Mul(Horner(coeffs[1..], a), a), coeffs[0])
  }

  lemma {:induction false} HornerSplit(c: seq<Fe>, a: Fe)
    requires |c| % 2 == 0
    ensures Horner(c, a) == Add(Horner(Evens(c), Mul(a, a)), Mul(Horner(Odds(c), Mul(a, a)), a))
    decreases |c|
  {
    if c == [] {
      MulOne(a);
      AddZero(0);
    } else {
      var rest := c[2..];
      HornerSplit(rest, a);
      assert Evens(c)[1..] == Evens(rest) && Odds(c)[1..] == Odds(rest);
      assert c[1..][1..] == rest;
      var e, o := Horner(Evens(rest), Mul(a, a)), Horner(Odds(rest), Mul(a, a));
      HornerTwoSteps(e, o, c[0], c[1], a);
    }
  }

  lemma HornerTwoSteps(e: Fe, o: Fe, c0: Fe, c1: Fe, a: Fe)
    ensures Add(Mul(Add(Mul(Add(e, Mul(o, a)), a), c1), a), c0)
         == Add(Add(Mul(e, Mul(a, a)), c0), Mul(Add(Mul(o, Mul(a, a)), c1), a))
  {
    LiftSelf(e);
    LiftSelf(o);
    LiftSelf(c0);
    LiftSelf(c1);
    LiftSelf(a);
    LiftMul(o, a);
    LiftAdd(e, o * a);
    LiftMul(e + o * a, a);
    LiftAdd((e + o * a) * a, c1);
    LiftMul((e + o * a) * a + c1, a);
    LiftAdd(((e + o * a) * a + c1) * a, c0);
    LiftMul(a, a);
    LiftMul(e, a * a);
    LiftAdd(e * (a * a), c0);
    LiftMul(o, a * a);
    LiftAdd(o * (a * a), c1);
    LiftMul(o * (a * a) + c1, a);
    LiftAdd(e * (a * a) + c0, (o * (a * a) + c1) * a);
    assert ((e + o * a) * a + c1) * a + c0 == e * (a * a) + c0 + (o * (a * a) + c1) * a;
  }

  lemma {:induction false} HornerOfReversed(c: seq<Fe>, n: nat, a: Fe)
    requires |c| == Pow2(n)
    ensures Horner(BitReversed(c, n), a) == EvalCoeffs(c, Expand(a, n))
    decreases n
  {
    if n == 0 {
      var w := BitReversed(c, 0);
      assert w[1..] == [];
      MulOne(a);
      AddZero(w[0]);
    } else {
      var h := Pow2(n - 1);
      HornerSplit(BitReversed(c, n), a);
      ReversedHalves(c, n);
      HornerOfReversed(c[..h], n - 1, Mul(a, a));
      HornerOfReversed(c[h..], n - 1, Mul(a, a));
      assert Expand(a, n)[1..] == Expand(Mul(a, a), n - 1);
    }
  }

  /** What the final coefficients of the protocol mean to the verifier. */
  lemma CoefficientsMeaning(v: seq<Fe>, point: seq<Fe>, a: Fe)
    requires |v| == Pow2(|point|)
    ensures EvalCoeffs(BitReversed(Differences(v, |point|), |point|), Reversed(point)) == Mle(v, point)
    ensures Horner(BitReversed(Differences(v, |point|), |point|), a) == Mle(v, Expand(a, |point|))
  {
    var n := |point|;
    ReversedPoint(Differences(v, n), point);
    DifferencesEvaluate(v, point);
    HornerOfReversed(Differences(v, n), n, a);
    DifferencesEvaluate(v, Expand(a, n));
  }

  // ----- the in-place conversion

  /** Differences inside every aligned block of 2^k values. */
  ghost function DifferenceBlocks(v: seq<Fe>, k: nat): (r: seq<Fe>)
    ensures |r| == |v|
    decreases |v|
  {
    var s := Pow2(k);
    if |v| < s then v else Differences(v[..s], k) + DifferenceBlocks(v[s..], k)
  }

  ghost function DifferenceLayer(v: seq<Fe>, half: nat): (r: seq<Fe>)
    requires half > 0
    ensures |r| == |v|
    decreases |v|
  {
    if |v| < 2 * half then v
    else v[..half] + SubAll(v[half..2 * half], v[..half]) + DifferenceLayer(v[2 * half..], half)
  }

  lemma {:induction false} DifferenceBlocksOfOne(v: seq<Fe>)
    ensures DifferenceBlocks(v, 0) == v
    decreases |v|
  {
    if |v| > 0 {
      DifferenceBlocksOfOne(v[1..]);
    }
  }

  lemma {:induction false} LayerJoinsDifferences(v: seq<Fe>, k: nat, s: nat, q: nat)
    requires s == Pow2(k) && IsMultiple(|v|, 2 * s, q)
    ensures DifferenceLayer(DifferenceBlocks(v, k), s) == DifferenceBlocks(v, k + 1)
    decreases q
  {
    hide Differences, DifferenceBlocks, DifferenceLayer, IsMultiple;
    if |v| == 0 {
      NoDifferences(k, s);
    } else {
      OneFewer(|v|, 2 * s, q);
      TwoDifferenceBlocks(v, k, s);
      LayerJoinsDifferences(v[2 * s..], k, s, q - 1);
      DifferenceLayerHead(Differences(v[..s], k), Differences(v[s..2 * s], k), DifferenceBlocks(v[2 * s..], k), s);
      JoinedDifferenceBlock(v, k, s);
    }
  }

  lemma NoDifferences(k: nat, s: nat)
    requires s == Pow2(k)
    ensures DifferenceBlocks([], k) == DifferenceBlocks([], k + 1) == DifferenceLayer([], s) == []
  {
  }

  lemma TwoDifferenceBlocks(v: seq<Fe>, k: nat, s: nat)
    requires s == Pow2(k) && |v| >= 2 * s
    ensures DifferenceBlocks(v, k)
         == Differences(v[..s], k) + Differences(v[s..2 * s], k) + DifferenceBlocks(v[2 * s..], k)
  {
    hide Differences;
    var rest := v[s..];
    assert rest[..s] == v[s..2 * s];
    assert rest[s..] == v[2 * s..];
    assert DifferenceBlocks(rest, k) == Differences(rest[..s], k) + DifferenceBlocks(rest[s..], k);
  }

  lemma JoinedDifferenceBlock(v: seq<Fe>, k: nat, s: nat)
    requires s == Pow2(k) && |v| >= 2 * s
    ensures DifferenceBlocks(v, k + 1)
         == Differences(v[..s], k) + SubAll(Differences(v[s..2 * s], k), Differences(v[..s], k))
            + DifferenceBlocks(v[2 * s..], k + 1)
  {
    hide Differences, SubAll;
    var b := v[..2 * s];
    assert b[..s] == v[..s];
    assert b[s..] == v[s..2 * s];
    DifferencesStep(b, k, s);
    assert DifferenceBlocks(v, k + 1) == Differences(b, k + 1) + DifferenceBlocks(v[2 * s..], k + 1);
  }

  lemma DifferencesStep(b: seq<Fe>, k: nat, s: nat)
    requires s == Pow2(k) && |b| == 2 * s
    ensures Differences(b, k + 1) == Differences(b[..s], k) + SubAll(Differences(b[s..], k), Differences(b[..s], k))
  {
    hide SubAll;
  }

  lemma DifferenceLayerHead(l: seq<Fe>, h: seq<Fe>, rest: seq<Fe>, half: nat)
    requires half > 0 && |l| == |h| == half
    ensures DifferenceLayer(l + h + rest, half) == l + SubAll(h, l) + DifferenceLayer(rest, half)
  {
    hide SubAll;
    var all := l + h + rest;
    assert all[..half] == l;
    assert all[half..2 * half] == h;
    assert all[2 * half..] == rest;
  }

  lemma DifferenceLayerRest(was: seq<Fe>, i: nat, half: nat)
    requires half > 0 && i + 2 * half <= |was|
    ensures DifferenceLayer(was[i..], half)
         == was[i..i + half] + SubAll(was[i + half..i + 2 * half], was[i..i + half])
            + DifferenceLayer(was[i + 2 * half..], half)
  {
    hide SubAll, DifferenceLayer;
    var l, h, rest := was[i..i + half], was[i + half..i + 2 * half], was[i + 2 * half..];
    assert was[i..] == l + h + rest;
    DifferenceLayerHead(l, h, rest, half);
  }

  /** One pass with a fixed `half`. */
  method SubtractHalves(data: array<Fe>, half: nat, ghost q: nat)
    requires half > 0 && IsMultiple(data.Length, 2 * half, q)
    modifies data
    ensures data[..] == DifferenceLayer(old(data[..]), half)
  {
    hide DifferenceLayer, SubAll, IsMultiple;
    ghost var was := data[..];
    var i := 0;
    ghost var left := q;
    while i < data.Length
      invariant i <= data.Length && IsMultiple(data.Length - i, 2 * half, left)
      invariant data[i..] == was[i..]
      invariant data[..i] + DifferenceLayer(was[i..], half) == DifferenceLayer(was, half)
      decreases data.Length - i
    {
      OneFewer(data.Length - i, 2 * half, left);
      ghost var before := data[..];
      for j := 0 to half
        invariant forall r {:trigger data[r]} | 0 <= r < data.Length ::
                    data[r] == if i + half <= r < i + half + j then Sub(before[r], before[r - half]) else before[r]
      {
        data[i + j + half] := Sub(data[i + j + half], data[i + j]);
      }
      PairDone(before, data[..], was, i, half);
      DifferenceLayerRest(was, i, half);
      ghost var done := was[i..i + half] + SubAll(was[i + half..i + 2 * half], was[i..i + half]);
      assert data[..i + 2 * half] == before[..i] + done;
      assert before[..i] + done + DifferenceLayer(was[i + 2 * half..], half)
          == before[..i] + (done + DifferenceLayer(was[i + 2 * half..], half));
      i := i + 2 * half;
      left := left - 1;
    }
    NothingLeft(half);
  }

  lemma NothingLeft(half: nat)
    requires half > 0
    ensures DifferenceLayer([], half) == []
  {
  }

  lemma PairDone(before: seq<Fe>, now: seq<Fe>, was: seq<Fe>, i: nat, half: nat)
    requires |before| == |now| == |was| && i + 2 * half <= |was|
    requires before[i..] == was[i..]
    requires forall r {:trigger now[r]} | 0 <= r < |now| ::
               now[r] == if i + half <= r < i + 2 * half then Sub(before[r], before[r - half]) else before[r]
    ensures now[..i + 2 * half] == before[..i] + (was[i..i + half] + SubAll(was[i + half..i + 2 * half], was[i..i + half]))
    ensures now[i + 2 * half..] == was[i + 2 * half..]
  {
    forall r | i <= r < |was|
      ensures before[r] == was[r]
    {
      assert before[r] == before[i..][r - i];
    }
    var done := was[i..i + half] + SubAll(was[i + half..i + 2 * half], was[i..i + half]);
    forall r | i <= r < i + 2 * half
      ensures now[r] == done[r - i]
    {
    }
  }

  /**
   evals_to_coeffs: the resulting coefficients are the polynomial's, in the order that
   `EvalCoeffs` at the reversed point and Horner's rule expect.
   */
  method EvalsToCoeffs(data: array<Fe>, n: nat)
    requires n >= 1 && data.Length == Pow2(n)
    modifies data
    ensures data[..] == BitReversed(Differences(old(data[..]), n), n)
    ensures forall point: seq<Fe> | |point| == n ::
              EvalCoeffs(data[..], Reversed(point)) == Mle(old(data[..]), point)
    ensures forall a: Fe :: Horner(data[..], a) == Mle(old(data[..]), Expand(a, n))
  {
    hide Differences, DifferenceBlocks, DifferenceLayer, BitReversed, IsMultiple;
    ghost var was := data[..];
    var half := 1;
    ghost var k := 0;
    DifferenceBlocksOfOne(was);
    while half < data.Length
      invariant k <= n && half == Pow2(k)
      invariant data[..] == DifferenceBlocks(was, k)
      decreases data.Length - half
    {
      Pow2Monotone(n, k);
      NextDifferences(was, n, k);
      SubtractHalves(data, half, Pow2(n - k - 1));
      half := 2 * half;
      k := k + 1;
    }
    Pow2Monotone(k, n);
    WholeBlock(was, n);
    BitReversePermutation(data, n, n);
    MeaningOfAll(was, n);
  }

  lemma NextDifferences(v: seq<Fe>, n: nat, k: nat)
    requires k < n && |v| == Pow2(n)
    ensures IsMultiple(|v|, 2 * Pow2(k), Pow2(n - k - 1))
    ensures DifferenceLayer(DifferenceBlocks(v, k), Pow2(k)) == DifferenceBlocks(v, k + 1)
  {
    hide DifferenceBlocks, DifferenceLayer;
    Pow2Add(n - k - 1, k + 1);
    LayerJoinsDifferences(v, k, Pow2(k), Pow2(n - k - 1));
  }

  lemma MeaningOfAll(v: seq<Fe>, n: nat)
    requires |v| == Pow2(n)
    ensures forall point: seq<Fe> | |point| == n ::
              EvalCoeffs(BitReversed(Differences(v, n), n), Reversed(point)) == Mle(v, point)
    ensures forall a: Fe :: Horner(BitReversed(Differences(v, n), n), a) == Mle(v, Expand(a, n))
  {
    hide Differences, BitReversed;
    forall point: seq<Fe> | |point| == n
      ensures EvalCoeffs(BitReversed(Differences(v, n), n), Reversed(point)) == Mle(v, point)
    {
      CoefficientsMeaning(v, point, 0);
    }
    forall a: Fe
      ensures Horner(BitReversed(Differences(v, n), n), a) == Mle(v, Expand(a, n))
    {
      CoefficientsMeaning(v, Expand(a, n), a);
    }
  }

  lemma WholeBlock(v: seq<Fe>, n: nat)
    requires |v| == Pow2(n)
    ensures DifferenceBlocks(v, n) == Differences(v, n)
  {
    hide Differences;
    assert v[..Pow2(n)] == v;
    assert v[Pow2(n)..] == [];
  }
}
