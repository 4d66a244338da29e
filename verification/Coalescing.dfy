/**
 Choosing the variables that live directly in a return slot (collect_return_coalescings and
 walk_returns, crates/lean_compiler/src/b_compile_intermediate.rs).
 */
module Coalescing {
  import opened Interpolation
  import opened SimpleLang

  /** The data of every return in the lines, outer lines before nested ones of the same line. */
  function AllReturns(lines: seq<Line>): seq<seq<Expr>>
    decreases lines, 1
  {
    if lines == [] then [] else ReturnsOf(lines[0], lines) + AllReturns(lines[1..])
  }

  function ReturnsOf(line: Line, ghost lines: seq<Line>): seq<seq<Expr>>
    requires lines != [] && line == lines[0]
    decreases lines, 0
  {
    match line
    case IfNotZero(_, t, e) => AllReturns(t) + AllReturns(e)
    case Match(_, arms, _) => ReturnsOfArms(arms)
    case FunctionRet(data) => [data]
    case _ => []
  }

  function ReturnsOfArms(arms: seq<Arm>): seq<seq<Expr>>
    decreases arms, 0
  {
    if arms == [] then [] else AllReturns(arms[0].body) + ReturnsOfArms(arms[1..])
  }

  /** Every return in the lines gives n values. */
  ghost predicate ReturnsMany(lines: seq<Line>, n: nat) { forall r {:trigger r in AllReturns(lines)} | r in AllReturns(lines) :: |r| == n }

  // ----- what is found for a slot

  /** One slot: no return seen, all returns name the same variable, or they do not. */
  datatype Slot = Unseen | Same(v: Var) | Mixed

  function See(s: Slot, e: Expr): Slot {
    match s
    case Mixed => Mixed
    case Unseen => if e.Name? then Same(e.v) else Mixed
    case Same(v) => if e == Name(v) then s else Mixed
  }

  function SeeAll(s: Slot, rs: seq<seq<Expr>>, i: nat): Slot
    requires forall k {:trigger rs[k]} | 0 <= k < |rs| :: i < |rs[k]|
    decreases rs
  {
    if rs == [] then s else SeeAll(See(s, rs[0][i]), rs[1..], i)
  }

  ghost predicate Names(rs: seq<seq<Expr>>, i: nat, v: Var)
    requires forall k {:trigger rs[k]} | 0 <= k < |rs| :: i < |rs[k]|
  {
    forall k {:trigger rs[k]} | 0 <= k < |rs| :: rs[k][i] == Name(v)
  }

  /** The walk ends with Same(v) exactly when there is a return and every return names v in the slot. */
  lemma {:induction false} SeeAllSame(s: Slot, rs: seq<seq<Expr>>, i: nat, v: Var)
    requires forall k {:trigger rs[k]} | 0 <= k < |rs| :: i < |rs[k]|
    ensures SeeAll(s, rs, i) == Same(v) <==> (s == Same(v) || (s == Unseen && rs != [])) && Names(rs, i, v)
    decreases |rs|
  {
    if rs != [] {
      SeeAllSame(See(s, rs[0][i]), rs[1..], i, v);
      assert Names(rs, i, v) <==> rs[0][i] == Name(v) && Names(rs[1..], i, v) by {
        if rs[0][i] == Name(v) && Names(rs[1..], i, v) {
          forall k {:trigger rs[k]} | 0 <= k < |rs| ensures rs[k][i] == Name(v) {
            if k > 0 {
              assert rs[k] == rs[1..][k - 1];
            }
          }
        }
        if Names(rs, i, v) {
          forall k {:trigger rs[1..][k]} | 0 <= k < |rs| - 1 ensures rs[1..][k][i] == Name(v) {
            assert rs[k + 1] == rs[1..][k];
          }
        }
      }
    }
  }

  /** found and conflict of one slot. */
  function SlotOf(found: Option<Var>, conflict: bool): Slot {
    if conflict then Mixed else if found.Some? then Same(found.value) else Unseen
  }

  ghost predicate Walked(found0: seq<Option<Var>>, conflict0: seq<bool>, found: seq<Option<Var>>, conflict: seq<bool>, rs: seq<seq<Expr>>) {
    && |found| == |conflict| == |found0| == |conflict0|
    && (forall r {:trigger r in rs} | r in rs :: |r| == |found|)
    && (forall i {:trigger found[i]} {:trigger conflict[i]} | 0 <= i < |found| ::
          SlotOf(found[i], conflict[i]) == SeeAllAt(SlotOf(found0[i], conflict0[i]), rs, i))
  }

  /** SeeAll on the returns long enough to have the slot. */
  function SeeAllAt(s: Slot, rs: seq<seq<Expr>>, i: nat): Slot
    decreases rs
  {
    if rs == [] then s else SeeAllAt(if i < |rs[0]| then See(s, rs[0][i]) else s, rs[1..], i)
  }

  lemma {:induction false} SeeAllAtIs(s: Slot, rs: seq<seq<Expr>>, i: nat)
    requires forall k {:trigger rs[k]} | 0 <= k < |rs| :: i < |rs[k]|
    ensures SeeAllAt(s, rs, i) == SeeAll(s, rs, i)
    decreases |rs|
  {
    if rs != [] {
      SeeAllAtIs(See(s, rs[0][i]), rs[1..], i);
    }
  }

  lemma {:induction false} SeeAllAtAppend(s: Slot, rs: seq<seq<Expr>>, ts: seq<seq<Expr>>, i: nat)
    ensures SeeAllAt(s, rs + ts, i) == SeeAllAt(SeeAllAt(s, rs, i), ts, i)
    decreases |rs|
  {
    if rs == [] {
      assert rs + ts == ts;
    } else {
      assert (rs + ts)[1..] == rs[1..] + ts;
      SeeAllAtAppend(if i < |rs[0]| then See(s, rs[0][i]) else s, rs[1..], ts, i);
    }
  }

  lemma WalkedAppend(f0: seq<Option<Var>>, c0: seq<bool>, f1: seq<Option<Var>>, c1: seq<bool>, f2: seq<Option<Var>>, c2: seq<bool>,
                     rs: seq<seq<Expr>>, ts: seq<seq<Expr>>)
    requires Walked(f0, c0, f1, c1, rs) && Walked(f1, c1, f2, c2, ts)
    ensures Walked(f0, c0, f2, c2, rs + ts)
  {
    forall i {:trigger f2[i]} {:trigger c2[i]} | 0 <= i < |f2|
      ensures SlotOf(f2[i], c2[i]) == SeeAllAt(SlotOf(f0[i], c0[i]), rs + ts, i)
    {
      SeeAllAtAppend(SlotOf(f0[i], c0[i]), rs, ts, i);
      assert SlotOf(f1[i], c1[i]) == SeeAllAt(SlotOf(f0[i], c0[i]), rs, i);
    }
  }

  lemma ReturnsManyParts(lines: seq<Line>, n: nat)
    requires lines != [] && ReturnsMany(lines, n)
    ensures ReturnsMany(lines[1..], n) && forall r {:trigger r in ReturnsOf(lines[0], lines)} | r in ReturnsOf(lines[0], lines) :: |r| == n
  {
    forall r {:trigger r in AllReturns(lines[1..])} | r in AllReturns(lines[1..]) ensures |r| == n {
      assert r in AllReturns(lines);
    }
    forall r {:trigger r in ReturnsOf(lines[0], lines)} | r in ReturnsOf(lines[0], lines) ensures |r| == n {
      assert r in AllReturns(lines);
    }
  }

  lemma ReturnsManyNested(t: seq<Line>, e: seq<seq<Expr>>, n: nat)
    requires forall r {:trigger r in AllReturns(t) + e} | r in AllReturns(t) + e :: |r| == n
    ensures ReturnsMany(t, n) && forall r {:trigger r in e} | r in e :: |r| == n
  {
    forall r {:trigger r in AllReturns(t)} | r in AllReturns(t) ensures |r| == n {
      assert r in AllReturns(t) + e;
    }
    forall r {:trigger r in e} | r in e ensures |r| == n {
      assert r in AllReturns(t) + e;
    }
  }

  /** walk_returns. */
  method WalkReturns(lines: seq<Line>, found: array<Option<Var>>, conflict: array<bool>)
    requires found.Length == conflict.Length && ReturnsMany(lines, found.Length)
    modifies found, conflict
    ensures Walked(old(found[..]), old(conflict[..]), found[..], conflict[..], AllReturns(lines))
    decreases lines, 1
  {
    hide Walked, AllReturns, ReturnsOf, ReturnsMany;
    ghost var f0, c0 := found[..], conflict[..];
    WalkedNone(f0, c0);
    var k := 0;
    assert lines[0..] == lines && lines[..0] == [];
    while k < |lines|
      invariant 0 <= k <= |lines|
      invariant ReturnsMany(lines[k..], found.Length)
      invariant Walked(f0, c0, found[..], conflict[..], ReturnsBefore(lines, k))
    {
      ReturnsManyParts(lines[k..], found.Length);
      ghost var f1, c1 := found[..], conflict[..];
      ghost var here := ReturnsOf(lines[k], lines[k..]);
      WalkLine(lines[k], lines[k..], found, conflict);
      WalkedAppend(f0, c0, f1, c1, found[..], conflict[..], ReturnsBefore(lines, k), here);
      assert lines[k..][1..] == lines[k + 1..];
      ReturnsBeforeNext(lines, k);
      k := k + 1;
    }
    ReturnsBeforeAll(lines, 0);
    assert ReturnsBefore(lines, |lines|) == AllReturns(lines);
  }

  /** The returns of the first k lines. */
  ghost function ReturnsBefore(lines: seq<Line>, k: nat): seq<seq<Expr>>
    requires k <= |lines|
  {
    if k == 0 then [] else ReturnsBefore(lines, k - 1) + ReturnsOf(lines[k - 1], lines[k - 1..])
  }

  lemma ReturnsBeforeNext(lines: seq<Line>, k: nat)
    requires k < |lines|
    ensures ReturnsBefore(lines, k + 1) == ReturnsBefore(lines, k) + ReturnsOf(lines[k], lines[k..])
  {
  }

  lemma {:induction false} ReturnsBeforeAll(lines: seq<Line>, k: nat)
    requires k <= |lines|
    ensures ReturnsBefore(lines, |lines|) == ReturnsBefore(lines, k) + AllReturns(lines[k..])
    decreases |lines| - k
  {
    if k < |lines| {
      ReturnsBeforeAll(lines, k + 1);
      assert lines[k..][1..] == lines[k + 1..];
    } else {
      assert lines[k..] == [];
    }
  }

  lemma WalkedNone(found: seq<Option<Var>>, conflict: seq<bool>)
    requires |found| == |conflict|
    ensures Walked(found, conflict, found, conflict, [])
  {
  }

  method WalkLine(line: Line, ghost lines: seq<Line>, found: array<Option<Var>>, conflict: array<bool>)
    requires lines != [] && line == lines[0] && found.Length == conflict.Length
    requires forall r {:trigger r in ReturnsOf(line, lines)} | r in ReturnsOf(line, lines) :: |r| == found.Length
    modifies found, conflict
    ensures Walked(old(found[..]), old(conflict[..]), found[..], conflict[..], ReturnsOf(line, lines))
    decreases lines, 0
  {
    assert match line
           case IfNotZero(_, t, e) => ReturnsOf(line, lines) == AllReturns(t) + AllReturns(e)
           case Match(_, arms, _) => ReturnsOf(line, lines) == ReturnsOfArms(arms)
           case FunctionRet(data) => ReturnsOf(line, lines) == [data]
           case _ => ReturnsOf(line, lines) == [];
    hide Walked, AllReturns, ReturnsMany, ReturnsOf;
    ghost var f0, c0 := found[..], conflict[..];
    WalkedNone(f0, c0);
    match line
    case FunctionRet(data) =>
      assert data in ReturnsOf(line, lines);
      SeeReturn(data, found, conflict);
    case IfNotZero(_, t, e) =>
      ReturnsManyNested(t, AllReturns(e), found.Length);
      assert ReturnsMany(e, found.Length) by { ManyIs(e, found.Length); }
      WalkReturns(t, found, conflict);
      ghost var f1, c1 := found[..], conflict[..];
      WalkReturns(e, found, conflict);
      WalkedAppend(f0, c0, f1, c1, found[..], conflict[..], AllReturns(t), AllReturns(e));
    case Match(_, arms, _) =>
      WalkArms(arms, found, conflict);
    case _ =>
  }

  lemma ManyIs(e: seq<Line>, n: nat)
    requires forall r {:trigger r in AllReturns(e)} | r in AllReturns(e) :: |r| == n
    ensures ReturnsMany(e, n)
  {
  }

  /** The blocks nested in a match, one after the other. */
  method WalkArms(arms: seq<Arm>, found: array<Option<Var>>, conflict: array<bool>)
    requires found.Length == conflict.Length
    requires forall r {:trigger r in ReturnsOfArms(arms)} | r in ReturnsOfArms(arms) :: |r| == found.Length
    modifies found, conflict
    ensures Walked(old(found[..]), old(conflict[..]), found[..], conflict[..], ReturnsOfArms(arms))
    decreases arms, 0
  {
    assert arms != [] ==> ReturnsOfArms(arms) == AllReturns(arms[0].body) + ReturnsOfArms(arms[1..]);
    assert arms == [] ==> ReturnsOfArms(arms) == [];
    hide Walked, AllReturns, ReturnsMany, ReturnsOfArms;
    ghost var f0, c0 := found[..], conflict[..];
    WalkedNone(f0, c0);
    if arms != [] {
      ReturnsManyNested(arms[0].body, ReturnsOfArms(arms[1..]), found.Length);
      WalkReturns(arms[0].body, found, conflict);
      ghost var f1, c1 := found[..], conflict[..];
      WalkArms(arms[1..], found, conflict);
      WalkedAppend(f0, c0, f1, c1, found[..], conflict[..], AllReturns(arms[0].body), ReturnsOfArms(arms[1..]));
    }
  }

  /** One return: a slot keeps its variable, takes its first one, or turns into a conflict. */
  method SeeReturn(data: seq<Expr>, found: array<Option<Var>>, conflict: array<bool>)
    requires found.Length == conflict.Length == |data|
    modifies found, conflict
    ensures Walked(old(found[..]), old(conflict[..]), found[..], conflict[..], [data])
  {
    for i := 0 to |data|
      invariant forall k {:trigger found[k]} {:trigger conflict[k]} | 0 <= k < i ::
                  SlotOf(found[k], conflict[k]) == See(SlotOf(old(found[k]), old(conflict[k])), data[k])
      invariant forall k {:trigger found[k]} {:trigger conflict[k]} | i <= k < |data| :: found[k] == old(found[k]) && conflict[k] == old(conflict[k])
    {
      if conflict[i] {
        continue;
      }
      if found[i].Some? && data[i].Name? && found[i].value == data[i].v {
      } else if found[i].None? && data[i].Name? {
        found[i] := Some(data[i].v);
      } else {
        conflict[i] := true;
        found[i] := None;
      }
    }
    ghost var f0, c0 := old(found[..]), old(conflict[..]);
    forall i {:trigger found[..][i]} {:trigger conflict[..][i]} | 0 <= i < |data|
      ensures SlotOf(found[..][i], conflict[..][i]) == SeeAllAt(SlotOf(f0[i], c0[i]), [data], i)
    {
      assert [data][1..] == [];
      assert SlotOf(found[i], conflict[i]) == See(SlotOf(f0[i], c0[i]), data[i]);
    }
  }

  // ----- the chosen variables

  /** The slot's variable before repeated choices are dropped. */
  function Candidate(lines: seq<Line>, args: seq<Var>, i: nat): Option<Var> {
    var s := SeeAllAt(Unseen, AllReturns(lines), i);
    if s.Same? && s.v !in args then Some(s.v) else None
  }

  ghost predicate Chosen(lines: seq<Line>, args: seq<Var>, i: nat, v: Var) {
    Candidate(lines, args, i) == Some(v) && forall j: nat {:trigger Candidate(lines, args, j)} | j < i :: Candidate(lines, args, j) != Some(v)
  }

  /** A chosen variable is what every return gives for its slot, is not an argument, and has one slot only. */
  lemma ChosenMeans(lines: seq<Line>, args: seq<Var>, n: nat, i: nat, v: Var)
    requires ReturnsMany(lines, n) && i < n
    ensures Candidate(lines, args, i) == Some(v) <==>
            AllReturns(lines) != [] && v !in args && forall r {:trigger r in AllReturns(lines)} | r in AllReturns(lines) :: i < |r| && r[i] == Name(v)
  {
    var rs := AllReturns(lines);
    assert forall k {:trigger rs[k]} | 0 <= k < |rs| :: i < |rs[k]| by {
      forall k {:trigger rs[k]} | 0 <= k < |rs| ensures i < |rs[k]| {
        assert rs[k] in rs;
      }
    }
    SeeAllAtIs(Unseen, rs, i);
    SeeAllSame(Unseen, rs, i, v);
    if Names(rs, i, v) {
      forall r {:trigger r in rs} | r in rs ensures i < |r| && r[i] == Name(v) {
        var k :| 0 <= k < |rs| && rs[k] == r;
      }
    }
    if forall r {:trigger r in rs} | r in rs :: i < |r| && r[i] == Name(v) {
      forall k {:trigger rs[k]} | 0 <= k < |rs| ensures rs[k][i] == Name(v) {
        assert rs[k] in rs;
      }
    }
  }

  /** collect_return_coalescings. */
  method CollectReturnCoalescings(lines: seq<Line>, n: nat, args: seq<Var>) returns (r: array<Option<Var>>)
    requires ReturnsMany(lines, n)
    ensures fresh(r) && r.Length == n
    ensures forall i, v {:trigger r[i], Chosen(lines, args, i, v)} | 0 <= i < n :: r[i] == Some(v) <==> Chosen(lines, args, i, v)
  {
    hide ReturnsMany, AllReturns;
    var found := new Option<Var>[n](_ => None);
    var conflict := new bool[n](_ => false);
    WalkReturns(lines, found, conflict);
    forall i {:trigger found[i]} | 0 <= i < n ensures SlotOf(found[i], conflict[i]) == SeeAllAt(Unseen, AllReturns(lines), i) {
      assert found[..][i] == found[i] && conflict[..][i] == conflict[i];
    }
    r := new Option<Var>[n](_ => None);
    for i := 0 to n
      invariant forall k {:trigger r[k]} | 0 <= k < i :: r[k] == Candidate(lines, args, k)
      invariant forall k {:trigger found[k]} | 0 <= k < n :: SlotOf(found[k], conflict[k]) == SeeAllAt(Unseen, AllReturns(lines), k)
    {
      r[i] := if found[i].Some? && !conflict[i] && found[i].value !in args then found[i] else None;
      assert SlotOf(found[i], conflict[i]) == SeeAllAt(Unseen, AllReturns(lines), i);
    }
    var seen: set<Var> := {};
    for i := 0 to n
      invariant forall k {:trigger r[k]} | i <= k < n :: r[k] == Candidate(lines, args, k)
      invariant forall k, v {:trigger r[k], Chosen(lines, args, k, v)} | 0 <= k < i :: r[k] == Some(v) <==> Chosen(lines, args, k, v)
      invariant forall v {:trigger v in seen} :: v in seen <==> exists k: nat :: k < i && Candidate(lines, args, k) == Some(v)
    {
      if r[i].Some? {
        var v := r[i].value;
        if v in seen {
          r[i] := None;
        }
        seen := seen + {v};
      }
    }
  }
}
