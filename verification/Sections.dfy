/**
 Sections of different sizes stacked one after the other in one big table of values: where each one
 stands, how its offset selects it, and what it contributes to the multilinear extension of the whole
 (crates/sub_protocols/src/logup.rs, crates/sub_protocols/src/stacked_pcs.rs, crates/utils/src/multilinear.rs).
 */
module Sections {
  import opened Arith
  import opened Field
  import opened Multilinear
  import opened StorageLayout
  import opened WhirConstraints

  // ----- closed forms

  /** mle_of_01234567_etc. */
  function MleOf01234567(point: seq<Fe>): Fe
    decreases |point|
  {
    if point == [] then 0
    else
      var e := MleOf01234567(point[1..]);
      Add(Mul(Sub(1, point[0]), e), Mul(point[0], Add(e, Res(Pow2(|point| - 1)))))
  }

  function Indices(n: nat): (v: seq<Fe>)
    ensures |v| == n
  {
    seq<Fe>(n, i requires 0 <= i < n => Res(i))
  }

  /** The closed form is the polynomial of 0, 1, 2, 3, ... */
  lemma {:induction false} IndicesEvaluate(point: seq<Fe>)
    ensures MleOf01234567(point) == Mle(Indices(Pow2(|point|)), point)
    decreases |point|
  {
    if point == [] {
      LiftSelf(0);
    } else {
      var h := Pow2(|point| - 1);
      var v, rest := Indices(2 * h), point[1..];
      IndicesEvaluate(rest);
      assert v[..h] == Indices(h);
      var c := seq<Fe>(h, _ => Res(h));
      forall i | 0 <= i < h ensures v[h..][i] == Add(Indices(h)[i], c[i]) {
        LiftAdd(i, h);
      }
      assert IsSum(Indices(h), c, v[h..]);
      MleSum(Indices(h), c, v[h..], rest);
      MleConstant(c, rest, Res(h));
      LerpWeights(point[0], Mle(v[..h], rest), Mle(v[h..], rest));
    }
  }

  /** multilinear_eval_constants_at_right. */
  function EvalConstantsAtRight(limit: nat, point: seq<Fe>): Fe
    requires limit <= Pow2(|point|)
    decreases |point|
  {
    if limit == Pow2(|point|) then 0
    else if point == [] then 1
    else
      var h := Pow2(|point| - 1);
      HalfOf(limit, h);
      if limit / h == 1 then Mul(point[0], EvalConstantsAtRight(limit - h, point[1..]))
      else Add(point[0], Mul(Sub(1, point[0]), EvalConstantsAtRight(limit, point[1..])))
  }

  /** `limit` zeros, then ones. */
  lemma {:induction false} ConstantsAtRightEvaluate(limit: nat, point: seq<Fe>)
    requires limit <= Pow2(|point|)
    ensures EvalConstantsAtRight(limit, point) == Mle(ZerosThenOnes(limit, Pow2(|point|)), point)
    decreases |point|
  {
    var v := ZerosThenOnes(limit, Pow2(|point|));
    if limit == Pow2(|point|) {
      MleConstant(v, point, 0);
    } else if point != [] {
      var h := Pow2(|point| - 1);
      var rest := point[1..];
      HalfOf(limit, h);
      if limit >= h {
        ConstantsAtRightEvaluate(limit - h, rest);
        assert v[h..] == ZerosThenOnes(limit - h, h);
        MleConstant(v[..h], rest, 0);
        LerpWeights(point[0], 0, Mle(v[h..], rest));
        MulOne(Sub(1, point[0]));
        AddZero(Mul(point[0], Mle(v[h..], rest)));
      } else {
        ConstantsAtRightEvaluate(limit, rest);
        assert v[..h] == ZerosThenOnes(limit, h);
        MleConstant(v[h..], rest, 1);
        LerpWeights(point[0], Mle(v[..h], rest), 1);
        MulOne(point[0]);
        AddComm(point[0], Mul(Sub(1, point[0]), Mle(v[..h], rest)));
      }
    }
  }

  lemma HalfOf(limit: nat, h: nat)
    requires h > 0 && limit < 2 * h
    ensures limit / h == if limit >= h then 1 else 0
  {
    DivModOfRow(if limit >= h then 1 else 0, if limit >= h then limit - h else limit, h);
  }

  // ----- alignment

  ghost predicate MultipleOf(d: nat, n: nat) { exists q: nat :: IsMultiple(n, d, q) }

  lemma MultipleSum(d: nat, a: nat, b: nat)
    requires MultipleOf(d, a) && MultipleOf(d, b)
    ensures MultipleOf(d, a + b)
  {
    var x: nat :| IsMultiple(a, d, x);
    var y: nat :| IsMultiple(b, d, y);
    assert IsMultiple(a + b, d, x + y);
  }

  /** A multiple of a larger power of two is a multiple of a smaller one. */
  lemma MultiplePow(h: nat, big: nat, n: nat)
    requires h <= big && MultipleOf(Pow2(big), n)
    ensures MultipleOf(Pow2(h), n)
  {
    var x: nat :| IsMultiple(n, Pow2(big), x);
    Pow2Add(big - h, h);
    assert x * (Pow2(big - h) * Pow2(h)) == (x * Pow2(big - h)) * Pow2(h);
    assert IsMultiple(n, Pow2(h), x * Pow2(big - h));
  }

  lemma MultipleSelf(h: nat, big: nat)
    requires h <= big
    ensures MultipleOf(Pow2(h), Pow2(big))
  {
    assert IsMultiple(Pow2(big), Pow2(big), 1);
    MultiplePow(h, big, Pow2(big));
  }

  lemma MultipleZero(d: nat)
    ensures MultipleOf(d, 0)
  {
    assert IsMultiple(0, d, 0);
  }

  /** offset >> log: the index of the section among sections of its size. */
  function SectionIndex(offset: nat, log: nat): nat { Quotient(offset, Pow2(log)) }

  /** The shifted offset selects exactly the section that starts at the offset. */
  lemma ShiftSelects(offset: nat, log: nat, n: nat)
    requires MultipleOf(Pow2(log), offset) && log <= n && offset + Pow2(log) <= Pow2(n)
    ensures SectionIndex(offset, log) < Pow2(n - log) && SectionIndex(offset, log) * Pow2(log) == offset
  {
    var q: nat :| IsMultiple(offset, Pow2(log), q);
    DivExact(q, Pow2(log));
    Pow2Add(n - log, log);
    if q >= Pow2(n - log) {
      MulMonotone(Pow2(n - log), q, Pow2(log));
    }
  }

  // ----- parts and what they contribute

  /** Values placed at an offset, numerators and denominators alike. */
  datatype Part = Part(offset: nat, log: nat, num: seq<Fe>, den: seq<Fe>)

  ghost predicate Fits(p: Part, n: nat) {
    && p.log <= n && |p.num| == |p.den| == Pow2(p.log)
    && MultipleOf(Pow2(p.log), p.offset) && p.offset + Pow2(p.log) <= Pow2(n)
  }

  /** pref_at. */
  function PrefAt(offset: nat, log: nat, y: seq<Fe>): Fe
    requires log <= |y|
  {
    Eq(Bits(SectionIndex(offset, log), |y| - log), y[..|y| - log])
  }

  /** A claimed value of a part: what the verifier adds is pref * value. */
  datatype Claim = Claim(offset: nat, log: nat, num: Fe, den: Fe)

  /** from_end. */
  function FromEnd(y: seq<Fe>, k: nat): seq<Fe>
    requires k <= |y|
  {
    y[|y| - k..]
  }

  function ClaimOf(p: Part, y: seq<Fe>): Claim
    requires p.log <= |y| && |p.num| == |p.den| == Pow2(p.log)
  {
    Claim(p.offset, p.log, Mle(p.num, FromEnd(y, p.log)), Mle(p.den, FromEnd(y, p.log)))
  }

  ghost predicate ClaimsFit(cs: seq<Claim>, n: nat) { forall k {:trigger cs[k]} | 0 <= k < |cs| :: cs[k].log <= n }

  function NumOf(cs: seq<Claim>, y: seq<Fe>): Fe
    requires ClaimsFit(cs, |y|)
  {
    if cs == [] then 0
    else
      var c := cs[|cs| - 1];
      Add(NumOf(cs[..|cs| - 1], y), Mul(PrefAt(c.offset, c.log, y), c.num))
  }

  function DenOf(cs: seq<Claim>, y: seq<Fe>): Fe
    requires ClaimsFit(cs, |y|)
  {
    if cs == [] then 0
    else
      var c := cs[|cs| - 1];
      Add(DenOf(cs[..|cs| - 1], y), Mul(PrefAt(c.offset, c.log, y), c.den))
  }

  ghost predicate AllFit(ps: seq<Part>, n: nat) { forall k {:trigger ps[k]} | 0 <= k < |ps| :: Fits(ps[k], n) }

  function ClaimsOf(ps: seq<Part>, y: seq<Fe>): (cs: seq<Claim>)
    requires AllFit(ps, |y|)
    ensures |cs| == |ps| && ClaimsFit(cs, |y|)
  {
    seq(|ps|, k requires 0 <= k < |ps| => ClaimOf(ps[k], y))
  }

  /** All parts added to a table of zeros. */
  ghost function NumBuffer(ps: seq<Part>, n: nat): (w: seq<Fe>)
    requires AllFit(ps, n)
    ensures |w| == Pow2(n)
  {
    if ps == [] then seq(Pow2(n), _ => 0)
    else
      var p := ps[|ps| - 1];
      AddVec(NumBuffer(ps[..|ps| - 1], n), p.offset, p.num)
  }

  ghost function DenBuffer(ps: seq<Part>, n: nat): (w: seq<Fe>)
    requires AllFit(ps, n)
    ensures |w| == Pow2(n)
  {
    if ps == [] then seq(Pow2(n), _ => 0)
    else
      var p := ps[|ps| - 1];
      AddVec(DenBuffer(ps[..|ps| - 1], n), p.offset, p.den)
  }

  lemma PartAdds(w: seq<Fe>, offset: nat, log: nat, vec: seq<Fe>, y: seq<Fe>)
    requires |w| == Pow2(|y|) && log <= |y| && |vec| == Pow2(log) && MultipleOf(Pow2(log), offset) && offset + Pow2(log) <= Pow2(|y|)
    ensures Mle(AddVec(w, offset, vec), y) == Add(Mle(w, y), Mul(PrefAt(offset, log, y), Mle(vec, FromEnd(y, log))))
  {
    ShiftSelects(offset, log, |y|);
    SelectedPartAdds(w, SectionIndex(offset, log), offset, log, vec, y);
  }

  lemma SelectedPartAdds(w: seq<Fe>, sel: nat, offset: nat, log: nat, vec: seq<Fe>, y: seq<Fe>)
    requires |w| == Pow2(|y|) && log <= |y| && |vec| == Pow2(log) && sel < Pow2(|y| - log)
    requires offset == sel * Pow2(log) && offset + |vec| <= |w|
    ensures Mle(AddVec(w, offset, vec), y)
         == Add(Mle(w, y), Mul(Eq(Bits(sel, |y| - log), y[..|y| - log]), Mle(vec, FromEnd(y, log))))
  {
    hide Mle, Eq, Bits, Pow2, AddVec;
    MleAddVec(w, sel, |y| - log, vec, y);
  }

  /** The polynomial of the whole table is the sum of the selected values of its parts. */
  lemma {:induction false} BuffersEvaluate(ps: seq<Part>, y: seq<Fe>)
    requires AllFit(ps, |y|)
    ensures Mle(NumBuffer(ps, |y|), y) == NumOf(ClaimsOf(ps, y), y)
    ensures Mle(DenBuffer(ps, |y|), y) == DenOf(ClaimsOf(ps, y), y)
    decreases |ps|
  {
    hide Mle, PrefAt;
    if ps == [] {
      MleConstant(seq(Pow2(|y|), _ => 0), y, 0);
    } else {
      var init, p := ps[..|ps| - 1], ps[|ps| - 1];
      BuffersEvaluate(init, y);
      assert Fits(p, |y|);
      PartAdds(NumBuffer(init, |y|), p.offset, p.log, p.num, y);
      PartAdds(DenBuffer(init, |y|), p.offset, p.log, p.den, y);
      assert ClaimsOf(ps, y)[..|ps| - 1] == ClaimsOf(init, y);
    }
  }

  // ----- consecutive filling

  /** The values so far, followed by zeros. */
  function PadZeros(a: seq<Fe>, size: nat): (w: seq<Fe>)
    requires |a| <= size
    ensures |w| == size
  {
    a + seq(size - |a|, _ => 0)
  }

  function PadOnes(a: seq<Fe>, size: nat): (w: seq<Fe>)
    requires |a| <= size
    ensures |w| == size
  {
    a + seq(size - |a|, _ => 1)
  }

  /** Writing the next values is adding them to a table of zeros. */
  lemma FillIsAdd(a: seq<Fe>, vec: seq<Fe>, size: nat)
    requires |a| + |vec| <= size
    ensures PadZeros(a + vec, size) == AddVec(PadZeros(a, size), |a|, vec)
  {
    var l, r := PadZeros(a + vec, size), AddVec(PadZeros(a, size), |a|, vec);
    forall i | 0 <= i < size ensures l[i] == r[i] {
      if |a| <= i < |a| + |vec| {
        assert PadZeros(a, size)[i] == 0;
        AddZero(vec[i - |a|]);
      }
    }
  }

  lemma FillZeros(a: seq<Fe>, k: nat, size: nat)
    requires |a| + k <= size
    ensures PadZeros(a + seq(k, _ => 0), size) == PadZeros(a, size)
  {
  }

  /** Ones instead of zeros after the values: the closed form of a run of zeros then ones is added. */
  lemma OnesAfter(a: seq<Fe>, y: seq<Fe>)
    requires |a| <= Pow2(|y|)
    ensures Mle(PadOnes(a, Pow2(|y|)), y) == Add(Mle(PadZeros(a, Pow2(|y|)), y), MleOfZerosThenOnes(|a|, y))
  {
    var n := Pow2(|y|);
    var z := ZerosThenOnes(|a|, n);
    forall i | 0 <= i < n ensures PadOnes(a, n)[i] == Add(PadZeros(a, n)[i], z[i]) {
      if i < |a| {
        AddZero(a[i]);
      } else {
        AddZero(1);
      }
    }
    assert IsSum(PadZeros(a, n), z, PadOnes(a, n));
    MleSum(PadZeros(a, n), z, PadOnes(a, n), y);
    ZerosThenOnesEvaluates(|a|, y);
  }
}
