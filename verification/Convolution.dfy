/**
 Cyclic and negacyclic convolutions by the recursive split of a vector into halves or into
 even and odd entries (conv4, negacyclic_conv4, conv_n_recursive, negacyclic_conv_n_recursive and
 mds_circ_16, crates/backend/koala-bear/src/poseidon1_koalabear_16.rs).
 */
module Convolution {
  import opened Field
  import opened Prime
  import opened Multilinear
  import opened LinearAlgebra

  // ----- products modulo x^n - e

  /** Multiplication by x modulo x^n - e. */
  function Shift(b: seq<Fe>, e: Fe): (r: seq<Fe>)
    requires b != []
    ensures |r| == |b|
    ensures forall i {:trigger r[i]} | 0 <= i < |r| :: r[i] == if i == 0 then Mul(e, b[|b| - 1]) else b[i - 1]
  {
    [Mul(e, b[|b| - 1])] + b[..|b| - 1]
  }

  /** The product of a and b modulo x^n - e, where n = |b|: e = 1 is cyclic, e = -1 negacyclic. */
  ghost function Conv(a: seq<Fe>, b: seq<Fe>, e: Fe): (r: seq<Fe>)
    requires b != []
    ensures |r| == |b|
    decreases |a|
  {
    if a == [] then ZeroVec(|b|) else Plus(Times(a[0], b), Conv(a[1..], Shift(b, e), e))
  }

  // ----- vector laws

  lemma PlusAssoc(u: seq<Fe>, v: seq<Fe>, w: seq<Fe>)
    requires |u| == |v| == |w|
    ensures Plus(Plus(u, v), w) == Plus(u, Plus(v, w))
  {
    forall i | 0 <= i < |u| ensures Plus(Plus(u, v), w)[i] == Plus(u, Plus(v, w))[i] {
      AddAssoc(u[i], v[i], w[i]);
    }
  }

  lemma PlusComm(u: seq<Fe>, v: seq<Fe>)
    requires |u| == |v|
    ensures Plus(u, v) == Plus(v, u)
  {
    forall i | 0 <= i < |u| ensures Plus(u, v)[i] == Plus(v, u)[i] {
      AddComm(u[i], v[i]);
    }
  }

  lemma PlusMix(a: seq<Fe>, b: seq<Fe>, c: seq<Fe>, d: seq<Fe>)
    requires |a| == |b| == |c| == |d|
    ensures Plus(Plus(a, b), Plus(c, d)) == Plus(Plus(a, c), Plus(b, d))
  {
    forall i | 0 <= i < |a| ensures Plus(Plus(a, b), Plus(c, d))[i] == Plus(Plus(a, c), Plus(b, d))[i] {
      MixSums(a[i], b[i], c[i], d[i]);
    }
  }

  lemma PlusZero(u: seq<Fe>)
    ensures Plus(u, ZeroVec(|u|)) == u && Plus(ZeroVec(|u|), u) == u
  {
    forall i | 0 <= i < |u| ensures Plus(u, ZeroVec(|u|))[i] == u[i] && Plus(ZeroVec(|u|), u)[i] == u[i] {
      AddZero(u[i]);
    }
  }

  lemma TimesPlus(c: Fe, u: seq<Fe>, v: seq<Fe>)
    requires |u| == |v|
    ensures Times(c, Plus(u, v)) == Plus(Times(c, u), Times(c, v))
  {
    forall i | 0 <= i < |u| ensures Times(c, Plus(u, v))[i] == Plus(Times(c, u), Times(c, v))[i] {
      Distributes(c, u[i], v[i]);
    }
  }

  lemma PlusTimes(c: Fe, d: Fe, u: seq<Fe>)
    ensures Times(Add(c, d), u) == Plus(Times(c, u), Times(d, u))
  {
    forall i | 0 <= i < |u| ensures Times(Add(c, d), u)[i] == Plus(Times(c, u), Times(d, u))[i] {
      Distributes(u[i], c, d);
    }
  }

  lemma TimesTimes(c: Fe, d: Fe, u: seq<Fe>)
    ensures Times(c, Times(d, u)) == Times(Mul(c, d), u)
  {
    forall i | 0 <= i < |u| ensures Times(c, Times(d, u))[i] == Times(Mul(c, d), u)[i] {
      MulAssoc(c, d, u[i]);
    }
  }

  lemma TimesZero(c: Fe, n: nat)
    ensures Times(c, ZeroVec(n)) == ZeroVec(n)
  {
    MulOne(c);
  }

  lemma ShiftPlus(u: seq<Fe>, v: seq<Fe>, e: Fe)
    requires |u| == |v| > 0
    ensures Shift(Plus(u, v), e) == Plus(Shift(u, e), Shift(v, e))
  {
    Distributes(e, u[|u| - 1], v[|v| - 1]);
  }

  lemma ShiftTimes(c: Fe, u: seq<Fe>, e: Fe)
    requires u != []
    ensures Shift(Times(c, u), e) == Times(c, Shift(u, e))
  {
    var l := u[|u| - 1];
    MulAssoc(e, c, l);
    MulComm(e, c);
    MulAssoc(c, e, l);
  }

  // ----- bilinearity

  lemma {:induction false} ConvPlusRight(a: seq<Fe>, b: seq<Fe>, c: seq<Fe>, e: Fe)
    requires |b| == |c| > 0
    ensures Conv(a, Plus(b, c), e) == Plus(Conv(a, b, e), Conv(a, c, e))
    decreases |a|
  {
    hide Plus, Times, Shift;
    if a == [] {
      PlusZero(ZeroVec(|b|));
    } else {
      ShiftPlus(b, c, e);
      ConvPlusRight(a[1..], Shift(b, e), Shift(c, e), e);
      TimesPlus(a[0], b, c);
      PlusMix(Times(a[0], b), Times(a[0], c), Conv(a[1..], Shift(b, e), e), Conv(a[1..], Shift(c, e), e));
    }
  }

  lemma {:induction false} ConvPlusLeft(a: seq<Fe>, b: seq<Fe>, c: seq<Fe>, e: Fe)
    requires |a| == |b| && c != []
    ensures Conv(Plus(a, b), c, e) == Plus(Conv(a, c, e), Conv(b, c, e))
    decreases |a|
  {
    if a == [] {
      PlusZero(ZeroVec(|c|));
    } else {
      assert Plus(a, b)[1..] == Plus(a[1..], b[1..]);
      assert Plus(a, b)[0] == Add(a[0], b[0]);
      hide Plus, Times, Shift;
      ConvPlusLeft(a[1..], b[1..], Shift(c, e), e);
      PlusTimes(a[0], b[0], c);
      PlusMix(Times(a[0], c), Times(b[0], c), Conv(a[1..], Shift(c, e), e), Conv(b[1..], Shift(c, e), e));
    }
  }

  lemma {:induction false} ConvTimesRight(a: seq<Fe>, k: Fe, b: seq<Fe>, e: Fe)
    requires b != []
    ensures Conv(a, Times(k, b), e) == Times(k, Conv(a, b, e))
    decreases |a|
  {
    hide Plus, Times, Shift;
    if a == [] {
      TimesZero(k, |b|);
    } else {
      ShiftTimes(k, b, e);
      ConvTimesRight(a[1..], k, Shift(b, e), e);
      TimesTimes(a[0], k, b);
      MulComm(a[0], k);
      TimesTimes(k, a[0], b);
      TimesPlus(k, Times(a[0], b), Conv(a[1..], Shift(b, e), e));
    }
  }

  lemma {:induction false} ConvTimesLeft(a: seq<Fe>, k: Fe, b: seq<Fe>, e: Fe)
    requires b != []
    ensures Conv(Times(k, a), b, e) == Times(k, Conv(a, b, e))
    decreases |a|
  {
    if a == [] {
      TimesZero(k, |b|);
    } else {
      assert Times(k, a)[1..] == Times(k, a[1..]) && Times(k, a)[0] == Mul(k, a[0]);
      hide Plus, Times, Shift;
      ConvTimesLeft(a[1..], k, Shift(b, e), e);
      TimesTimes(k, a[0], b);
      TimesPlus(k, Times(a[0], b), Conv(a[1..], Shift(b, e), e));
    }
  }

  /** Shifting the product is shifting the second factor. */
  lemma {:induction false} ShiftConv(a: seq<Fe>, b: seq<Fe>, e: Fe)
    requires b != []
    ensures Shift(Conv(a, b, e), e) == Conv(a, Shift(b, e), e)
    decreases |a|
  {
    if a == [] {
      MulOne(e);
    } else {
      hide Plus, Times, Shift;
      ShiftConv(a[1..], Shift(b, e), e);
      ShiftPlus(Times(a[0], b), Conv(a[1..], Shift(b, e), e), e);
      ShiftTimes(a[0], b, e);
    }
  }

  // ----- halves: reduction modulo x^h - d when d * d = e

  /** The first half plus d times the second. */
  function Halved(b: seq<Fe>, d: Fe): (r: seq<Fe>)
    requires |b| % 2 == 0
    ensures |r| == |b| / 2
    ensures forall i {:trigger r[i]} | 0 <= i < |r| :: r[i] == Add(b[i], Mul(d, b[i + |b| / 2]))
  {
    seq(|b| / 2, i requires 0 <= i < |b| / 2 => Add(b[i], Mul(d, b[i + |b| / 2])))
  }

  lemma HalvedShift(b: seq<Fe>, d: Fe, e: Fe)
    requires |b| % 2 == 0 && b != [] && Mul(d, d) == e
    ensures Halved(Shift(b, e), d) == Shift(Halved(b, d), d)
  {
    var h := |b| / 2;
    var l, r := Halved(Shift(b, e), d), Shift(Halved(b, d), d);
    forall i | 0 <= i < h ensures l[i] == r[i] {
      if i == 0 {
        WrapsAround(b[h - 1], b[2 * h - 1], d, e);
      }
    }
  }

  lemma WrapsAround(x: Fe, y: Fe, d: Fe, e: Fe)
    requires Mul(d, d) == e
    ensures Add(Mul(e, y), Mul(d, x)) == Mul(d, Add(x, Mul(d, y)))
  {
    Distributes(d, x, Mul(d, y));
    MulAssoc(d, d, y);
    AddComm(Mul(e, y), Mul(d, x));
  }

  lemma HalvedPlusTimes(c: Fe, u: seq<Fe>, v: seq<Fe>, d: Fe)
    requires |u| == |v| && |u| % 2 == 0
    ensures Halved(Plus(Times(c, u), v), d) == Plus(Times(c, Halved(u, d)), Halved(v, d))
  {
    var h := |u| / 2;
    forall i | 0 <= i < h ensures Halved(Plus(Times(c, u), v), d)[i] == Plus(Times(c, Halved(u, d)), Halved(v, d))[i] {
      Distributes(d, Mul(c, u[i + h]), v[i + h]);
      Distributes(c, u[i], Mul(d, u[i + h]));
      MulAssoc(d, c, u[i + h]);
      MulComm(d, c);
      MulAssoc(c, d, u[i + h]);
      MixSums(Mul(c, u[i]), v[i], Mul(c, Mul(d, u[i + h])), Mul(d, v[i + h]));
    }
  }

  /** Reducing the product is multiplying by the reduced factor. */
  lemma {:induction false} HalvedConv(a: seq<Fe>, b: seq<Fe>, d: Fe, e: Fe)
    requires |b| % 2 == 0 && b != [] && Mul(d, d) == e
    ensures Halved(Conv(a, b, e), d) == Conv(a, Halved(b, d), d)
    decreases |a|
  {
    if a == [] {
      MulOne(d);
      AddZero(0);
    } else {
      hide Plus, Times, Shift, Halved;
      HalvedConv(a[1..], Shift(b, e), d, e);
      HalvedShift(b, d, e);
      HalvedPlusTimes(a[0], b, Conv(a[1..], Shift(b, e), e), d);
    }
  }

  ghost function ShiftMany(b: seq<Fe>, e: Fe, k: nat): (r: seq<Fe>)
    requires b != []
    ensures |r| == |b|
    decreases k
  {
    if k == 0 then b else ShiftMany(Shift(b, e), e, k - 1)
  }

  lemma {:induction false} ConvAppend(a1: seq<Fe>, a2: seq<Fe>, b: seq<Fe>, e: Fe)
    requires b != []
    ensures Conv(a1 + a2, b, e) == Plus(Conv(a1, b, e), Conv(a2, ShiftMany(b, e, |a1|), e))
    decreases |a1|
  {
    hide Plus, Times, Shift;
    if a1 == [] {
      assert a1 + a2 == a2;
      PlusZero(Conv(a2, b, e));
    } else {
      assert (a1 + a2)[1..] == a1[1..] + a2;
      ConvAppend(a1[1..], a2, Shift(b, e), e);
      PlusAssoc(Times(a1[0], b), Conv(a1[1..], Shift(b, e), e), Conv(a2, ShiftMany(b, e, |a1|), e));
    }
  }

  lemma {:induction false} ShiftManyIs(b: seq<Fe>, e: Fe, k: nat)
    requires k <= |b| && b != []
    ensures ShiftMany(b, e, k) == Times(e, b[|b| - k..]) + b[..|b| - k]
    decreases k
  {
    if k == 0 {
      assert b[..|b|] == b && b[|b|..] == [];
    } else {
      var s := Shift(b, e);
      var n := |b|;
      ShiftManyIs(s, e, k - 1);
      var r := Times(e, s[n - k + 1..]) + s[..n - k + 1];
      var t := Times(e, b[n - k..]) + b[..n - k];
      forall i | 0 <= i < n ensures r[i] == t[i] {
        if i < k - 1 {
          assert s[n - k + 1..][i] == s[n - k + 1 + i] == b[n - k + i];
        } else if i == k - 1 {
          assert r[i] == s[0] == Mul(e, b[n - 1]);
        }
      }
      assert r == t;
    }
  }

  /** A first factor of length 2h reduces too. */
  lemma ConvReducesLeft(a: seq<Fe>, b: seq<Fe>, d: Fe)
    requires |a| == 2 * |b| > 0
    ensures Conv(a, b, d) == Conv(Halved(a, d), b, d)
  {
    hide Conv, ShiftMany;
    var h := |b|;
    var a1, a2 := a[..h], a[h..];
    assert a1 + a2 == a;
    ConvAppend(a1, a2, b, d);
    ShiftManyIs(b, d, h);
    assert b[h - h..] == b && b[..h - h] == [];
    assert ShiftMany(b, d, h) == Times(d, b);
    ConvTimesRight(a2, d, b, d);
    ConvTimesLeft(a2, d, b, d);
    ConvPlusLeft(a1, Times(d, a2), b, d);
    assert Plus(a1, Times(d, a2)) == Halved(a, d);
  }

  lemma HalvedProduct(a: seq<Fe>, b: seq<Fe>, d: Fe, e: Fe)
    requires |a| == |b| > 0 && |b| % 2 == 0 && Mul(d, d) == e
    ensures Halved(Conv(a, b, e), d) == Conv(Halved(a, d), Halved(b, d), d)
  {
    HalvedConv(a, b, d, e);
    ConvReducesLeft(a, Halved(b, d), d);
  }

  const MINUS_ONE: Fe := P - 1

  lemma MinusOneSquared()
    ensures Mul(MINUS_ONE, MINUS_ONE) == 1 && Mul(1, 1) == 1
    ensures forall x: Fe :: Mul(MINUS_ONE, x) == Neg(x)
  {
    MulOne(1);
    NegIsTimes(1);
    forall x: Fe ensures Mul(MINUS_ONE, x) == Neg(x) {
      NegIsTimes(x);
    }
    NegIsTimes(MINUS_ONE);
    SubIs(0, MINUS_ONE);
  }

  lemma NegIsTimes(x: Fe)
    ensures Mul(MINUS_ONE, x) == Neg(x)
  {
    LiftSelf(x);
    LiftSelf(MINUS_ONE);
    LiftMul(P - 1, x);
    LiftNeg(x);
    var n: int := 0 - x;
    ResCong(n, x);
    assert (P - 1) * x == n + P * x;
  }

  /** Recovering the halves from their sum and their difference. */
  lemma HalvesRecovered(x: Fe, y: Fe)
    ensures Halve(Add(Add(x, Mul(MINUS_ONE, y)), Add(x, Mul(1, y)))) == x
    ensures Sub(Add(x, Mul(1, y)), x) == y
  {
    MulOne(y);
    LiftSelf(x);
    LiftSelf(y);
    LiftSelf(MINUS_ONE);
    LiftMul(P - 1, y);
    LiftAdd(x, (P - 1) * y);
    LiftAdd(x, y);
    LiftAdd(x + (P - 1) * y, x + y);
    ResCong(x + x, y);
    assert x + (P - 1) * y + (x + y) == x + x + P * y;
    LiftAdd(x, x);
    HalveDouble(x);
    LiftSub(x + y, x);
  }

  // ----- even and odd entries

  ghost function Even(b: seq<Fe>): (r: seq<Fe>)
    requires |b| % 2 == 0
    ensures |r| == |b| / 2 && forall i {:trigger r[i]} | 0 <= i < |r| :: r[i] == b[2 * i]
  {
    seq(|b| / 2, i requires 0 <= i < |b| / 2 => b[2 * i])
  }

  ghost function Odd(b: seq<Fe>): (r: seq<Fe>)
    requires |b| % 2 == 0
    ensures |r| == |b| / 2 && forall i {:trigger r[i]} | 0 <= i < |r| :: r[i] == b[2 * i + 1]
  {
    seq(|b| / 2, i requires 0 <= i < |b| / 2 => b[2 * i + 1])
  }

  lemma ShiftParts(b: seq<Fe>, e: Fe)
    requires |b| % 2 == 0 && b != []
    ensures Even(Shift(b, e)) == Shift(Odd(b), e) && Odd(Shift(b, e)) == Even(b)
  {
  }

  lemma PlusParts(u: seq<Fe>, v: seq<Fe>, c: Fe)
    requires |u| == |v| && |u| % 2 == 0
    ensures Even(Plus(Times(c, u), v)) == Plus(Times(c, Even(u)), Even(v))
    ensures Odd(Plus(Times(c, u), v)) == Plus(Times(c, Odd(u)), Odd(v))
  {
  }

  /** The even and odd parts of a product. */
  lemma {:induction false} ConvParts(a: seq<Fe>, b: seq<Fe>, e: Fe)
    requires |a| % 2 == 0 && |b| % 2 == 0 && b != []
    ensures Even(Conv(a, b, e)) == Plus(Conv(Even(a), Even(b), e), Conv(Odd(a), Shift(Odd(b), e), e))
    ensures Odd(Conv(a, b, e)) == Plus(Conv(Even(a), Odd(b), e), Conv(Odd(a), Even(b), e))
    decreases |a|
  {
    if a == [] {
      PlusZero(ZeroVec(|b| / 2));
    } else {
      var a2 := a[2..];
      assert a[1..][1..] == a2;
      assert Even(a)[1..] == Even(a2) && Odd(a)[1..] == Odd(a2) && Even(a)[0] == a[0] && Odd(a)[0] == a[1];
      hide Plus, Times, Shift, Even, Odd;
      var b1 := Shift(b, e);
      var b2 := Shift(b1, e);
      var rest := Conv(a2, b2, e);
      assert Conv(a, b, e) == Plus(Times(a[0], b), Plus(Times(a[1], b1), rest));
      ShiftParts(b, e);
      ShiftParts(b1, e);
      ConvParts(a2, b2, e);
      PlusParts(b, Plus(Times(a[1], b1), rest), a[0]);
      PlusParts(b1, rest, a[1]);
      var oe := Shift(Odd(b), e);
      var ee := Shift(Even(b), e);
      assert Odd(b2) == oe && Even(b2) == ee;
      assert Conv(Even(a), Even(b), e) == Plus(Times(a[0], Even(b)), Conv(Even(a2), ee, e));
      assert Conv(Odd(a), oe, e) == Plus(Times(a[1], oe), Conv(Odd(a2), Shift(oe, e), e));
      Regroup(Times(a[0], Even(b)), Times(a[1], oe), Conv(Even(a2), ee, e), Conv(Odd(a2), Shift(oe, e), e));
      assert Conv(Even(a), Odd(b), e) == Plus(Times(a[0], Odd(b)), Conv(Even(a2), oe, e));
      assert Conv(Odd(a), Even(b), e) == Plus(Times(a[1], Even(b)), Conv(Odd(a2), ee, e));
      Regroup(Times(a[0], Odd(b)), Times(a[1], Even(b)), Conv(Even(a2), oe, e), Conv(Odd(a2), ee, e));
    }
  }

  lemma Regroup(s: seq<Fe>, t: seq<Fe>, u: seq<Fe>, v: seq<Fe>)
    requires |s| == |t| == |u| == |v|
    ensures Plus(s, Plus(t, Plus(u, v))) == Plus(Plus(s, u), Plus(t, v))
  {
    PlusAssoc(s, t, Plus(u, v));
    PlusMix(s, t, u, v);
  }
}
