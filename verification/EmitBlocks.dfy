/**
 Emitting blocks one after the other: one low-level instruction per non-hint, hints collected at the
 address of the instruction they precede (compile_block, crates/lean_compiler/src/c_compile_final.rs).
 */
module EmitBlocks {
  import opened Interpolation
  import opened IntermediateCode
  import opened LowCode

  /** count_real_instructions. */
  function RealCount(code: Code): nat { if code == [] then 0 else (if IsHint(code[0]) then 0 else 1) + RealCount(code[1..]) }

  lemma {:induction false} RealCountAppend(a: Code, b: Code)
    ensures RealCount(a + b) == RealCount(a) + RealCount(b)
    decreases |a|
  {
    if a == [] {
      assert a + b == b;
    } else {
      assert (a + b)[1..] == a[1..] + b;
      RealCountAppend(a[1..], b);
    }
  }

  /** Nothing, or something that ends with an instruction. */
  predicate EndsReal(code: Code) { code != [] ==> !IsHint(code[|code| - 1]) }

  lemma {:induction false} EndsRealCount(code: Code)
    requires code != [] && EndsReal(code)
    ensures RealCount(code) >= 1
    decreases |code|
  {
    if IsHint(code[0]) {
      EndsRealCount(code[1..]);
    }
  }

  /** hints.entry(pc).or_default().push(h). */
  function PushHint(hints: map<nat, seq<LowHint>>, pc: nat, h: LowHint): map<nat, seq<LowHint>> { hints[pc := HintsAt(hints, pc) + [h]] }

  function Emit(lay: Layout, code: Code, q: LowProgram): Option<LowProgram>
    decreases |code|
  {
    if code == [] then Some(q)
    else if IsHint(code[0]) then
      var h := LowerHint(lay, code[0]);
      if h.None? then None else Emit(lay, code[1..], q.(hints := PushHint(q.hints, |q.code|, h.value)))
    else
      var i := LowerInstruction(lay, code[0]);
      if i.None? then None else Emit(lay, code[1..], q.(code := q.code + [i.value]))
  }

  /** Hints stand at emitted addresses or at the next one. */
  ghost predicate HintsBound(q: LowProgram) { forall k {:trigger k in q.hints} | k in q.hints :: k <= |q.code| }

  /** q2 continues q: what was emitted, and the hints of emitted addresses, are as in q. */
  ghost predicate Continues(q: LowProgram, q2: LowProgram) {
    q.code <= q2.code && forall k: nat {:trigger HintsAt(q.hints, k)} {:trigger HintsAt(q2.hints, k)} | k < |q.code| :: HintsAt(q2.hints, k) == HintsAt(q.hints, k)
  }

  lemma ContinuesTrans(a: LowProgram, b: LowProgram, c: LowProgram)
    requires Continues(a, b) && Continues(b, c)
    ensures Continues(a, c)
  {
    forall k: nat {:trigger HintsAt(a.hints, k)} {:trigger HintsAt(c.hints, k)} | k < |a.code| ensures HintsAt(c.hints, k) == HintsAt(a.hints, k) {
      assert HintsAt(b.hints, k) == HintsAt(a.hints, k);
    }
  }

  lemma {:induction false} EmitGrows(lay: Layout, code: Code, q: LowProgram)
    requires Emit(lay, code, q).Some? && HintsBound(q)
    ensures var r := Emit(lay, code, q).value;
            && |r.code| == |q.code| + RealCount(code) && Continues(q, r) && HintsBound(r)
            && HintsAt(q.hints, |q.code|) <= HintsAt(r.hints, |q.code|)
            && (code != [] && EndsReal(code) ==> HintsAt(r.hints, |r.code|) == [])
    decreases |code|
  {
    if code != [] {
      var r := Emit(lay, code, q).value;
      if IsHint(code[0]) {
        var q1 := q.(hints := PushHint(q.hints, |q.code|, LowerHint(lay, code[0]).value));
        EmitGrows(lay, code[1..], q1);
        ContinuesTrans(q, q1, r);
      } else {
        var q1 := q.(code := q.code + [LowerInstruction(lay, code[0]).value]);
        EmitGrows(lay, code[1..], q1);
        ContinuesTrans(q, q1, r);
        assert |q.code| < |q1.code|;
        assert HintsAt(r.hints, |q.code|) == HintsAt(q1.hints, |q.code|);
      }
    }
  }

  lemma {:induction false} EmitLocated(lay: Layout, code: Code, q: LowProgram, q2: LowProgram)
    requires Emit(lay, code, q).Some? && HintsBound(q) && EndsReal(code) && Continues(Emit(lay, code, q).value, q2)
    ensures Located(q2, lay, code, |q.code|, |HintsAt(q.hints, |q.code|)|)
    decreases |code|
  {
    if code != [] {
      var r := Emit(lay, code, q).value;
      var pc := |q.code|;
      EmitGrows(lay, code, q);
      EndsRealCount(code);
      assert HintsAt(q2.hints, pc) == HintsAt(r.hints, pc);
      if IsHint(code[0]) {
        var q1 := q.(hints := PushHint(q.hints, pc, LowerHint(lay, code[0]).value));
        EmitGrows(lay, code[1..], q1);
        EmitLocated(lay, code[1..], q1, q2);
        var done := |HintsAt(q.hints, pc)|;
        assert HintsAt(q1.hints, pc)[done] == LowerHint(lay, code[0]).value;
        assert HintsAt(r.hints, pc)[..done + 1] == HintsAt(q1.hints, pc);
      } else {
        var q1 := q.(code := q.code + [LowerInstruction(lay, code[0]).value]);
        EmitGrows(lay, code[1..], q1);
        EmitLocated(lay, code[1..], q1, q2);
        assert HintsAt(r.hints, pc) == HintsAt(q1.hints, pc);
        assert q1.code[pc] == LowerInstruction(lay, code[0]).value;
        assert pc + 1 !in q1.hints;
      }
    }
  }

  // ----- several blocks

  datatype CodeBlock = CodeBlock(start: nat, code: Code)

  function End(cb: seq<CodeBlock>): nat { if cb == [] then 0 else cb[|cb| - 1].start + RealCount(cb[|cb| - 1].code) }

  /** Every block starts where the one before it ends. */
  ghost predicate Consecutive(cb: seq<CodeBlock>) { forall j: nat {:trigger cb[j]} | j < |cb| :: cb[j].start == End(cb[..j]) }

  lemma ConsecutiveAppend(cb: seq<CodeBlock>, code: Code)
    requires Consecutive(cb)
    ensures Consecutive(cb + [CodeBlock(End(cb), code)]) && End(cb + [CodeBlock(End(cb), code)]) == End(cb) + RealCount(code)
  {
    var cb2 := cb + [CodeBlock(End(cb), code)];
    forall j: nat {:trigger cb2[j]} | j < |cb2| ensures cb2[j].start == End(cb2[..j]) {
      if j < |cb| {
        assert cb2[..j] == cb[..j] && cb2[j] == cb[j];
      } else {
        assert cb2[..j] == cb;
      }
    }
  }

  lemma {:induction false} LaterStart(cb: seq<CodeBlock>, i: nat, j: nat)
    requires Consecutive(cb) && i < j < |cb|
    ensures cb[i].start + RealCount(cb[i].code) <= cb[j].start
    decreases j
  {
    assert cb[j].start == End(cb[..j]);
    assert cb[..j][j - 1] == cb[j - 1];
    if i < j - 1 {
      LaterStart(cb, i, j - 1);
    }
  }

  lemma EndBounds(cb: seq<CodeBlock>, i: nat)
    requires Consecutive(cb) && i < |cb|
    ensures cb[i].start + RealCount(cb[i].code) <= End(cb)
  {
    if i < |cb| - 1 {
      LaterStart(cb, i, |cb| - 1);
    }
  }

  /** compile_block: one block appended to what was emitted before. */
  method EmitBlock(lay: Layout, block: Code, start: nat, q0: LowProgram) returns (r: Option<LowProgram>)
    requires start == |q0.code|
    ensures r == Emit(lay, block, q0)
  {
    var q := q0;
    var pc := start;
    var i := 0;
    assert block[0..] == block;
    while i < |block|
      invariant 0 <= i <= |block| && pc == |q.code|
      invariant Emit(lay, block, q0) == Emit(lay, block[i..], q)
    {
      assert block[i..][0] == block[i] && block[i..][1..] == block[i + 1..];
      if IsHint(block[i]) {
        var h := LowerHint(lay, block[i]);
        if h.None? {
          return None;
        }
        q := q.(hints := PushHint(q.hints, pc, h.value));
      } else {
        var instruction := LowerInstruction(lay, block[i]);
        if instruction.None? {
          return None;
        }
        q := q.(code := q.code + [instruction.value]);
        pc := pc + 1;
      }
      i := i + 1;
    }
    r := Some(q);
  }

  /** All blocks in their order: each one is found, whole, at its start. */
  method EmitAll(lay: Layout, cb: seq<CodeBlock>) returns (r: Option<LowProgram>)
    requires Consecutive(cb) && forall j {:trigger cb[j]} | 0 <= j < |cb| :: EndsReal(cb[j].code)
    ensures r.Some? ==> |r.value.code| == End(cb)
    ensures r.Some? ==> forall j {:trigger cb[j]} | 0 <= j < |cb| :: Located(r.value, lay, cb[j].code, cb[j].start, 0)
    ensures r.None? <==> exists j {:trigger cb[j]} :: 0 <= j < |cb| && Unresolved(lay, cb[j].code)
  {
    hide Located, Emit, EndsReal, LowerInstruction, LowerHint, Unresolved;
    var q := LowProgram([], map[]);
    ghost var states: seq<LowProgram> := [q];
    var j := 0;
    while j < |cb|
      invariant 0 <= j <= |cb| && |states| == j + 1 && states[j] == q && HintsBound(q)
      invariant |q.code| == End(cb[..j]) && HintsAt(q.hints, |q.code|) == []
      invariant forall k {:trigger states[k]} | 0 <= k < j :: Continues(states[k], q)
      invariant forall k {:trigger cb[k]} | 0 <= k < j :: EmittedAt(lay, cb[k], states[k], states[k + 1])
      invariant forall k {:trigger states[k]} | 0 <= k <= j :: HintsBound(states[k])
    {
      assert cb[j].start == End(cb[..j]);
      var next := EmitBlock(lay, cb[j].code, cb[j].start, q);
      if next.None? {
        EmitFails(lay, cb[j].code, q);
        return None;
      }
      EmitGrows(lay, cb[j].code, q);
      EmitEmpty(lay, cb[j].code, q);
      assert cb[..j + 1][j] == cb[j];
      forall k {:trigger states[k]} | 0 <= k < j ensures Continues(states[k], next.value) {
        ContinuesTrans(states[k], q, next.value);
      }
      states := states + [next.value];
      q := next.value;
      j := j + 1;
    }
    assert cb[..j] == cb;
    forall k {:trigger cb[k]} | 0 <= k < |cb| ensures Located(q, lay, cb[k].code, cb[k].start, 0) && !Unresolved(lay, cb[k].code) {
      assert EmittedAt(lay, cb[k], states[k], states[k + 1]);
      EmitFails(lay, cb[k].code, states[k]);
      assert Continues(states[k + 1], q) by {
        if k + 1 == |cb| {
          ContinuesRefl(q);
        }
      }
      EmitLocated(lay, cb[k].code, states[k], q);
    }
    r := Some(q);
  }

  ghost predicate EmittedAt(lay: Layout, b: CodeBlock, q: LowProgram, q2: LowProgram) {
    Emit(lay, b.code, q) == Some(q2) && |q.code| == b.start && HintsAt(q.hints, |q.code|) == []
  }

  lemma ContinuesRefl(q: LowProgram)
    ensures Continues(q, q)
  {
  }

  lemma EmitEmpty(lay: Layout, code: Code, q: LowProgram)
    ensures code == [] ==> Emit(lay, code, q) == Some(q)
  {
  }

  /** Some operand is neither a memory cell nor a constant the layout knows. */
  ghost predicate Unresolved(lay: Layout, code: Code) {
    exists i {:trigger code[i]} :: 0 <= i < |code| && (if IsHint(code[i]) then LowerHint(lay, code[i]).None? else LowerInstruction(lay, code[i]).None?)
  }

  lemma {:induction false} EmitFails(lay: Layout, code: Code, q: LowProgram)
    ensures Emit(lay, code, q).None? <==> Unresolved(lay, code)
    decreases |code|
  {
    if code != [] {
      assert code == [code[0]] + code[1..];
      assert Unresolved(lay, code) <==> (if IsHint(code[0]) then LowerHint(lay, code[0]).None? else LowerInstruction(lay, code[0]).None?) || Unresolved(lay, code[1..]) by {
        if Unresolved(lay, code[1..]) {
          var i :| 0 <= i < |code| - 1 && (if IsHint(code[1..][i]) then LowerHint(lay, code[1..][i]).None? else LowerInstruction(lay, code[1..][i]).None?);
          assert code[i + 1] == code[1..][i];
        }
        if Unresolved(lay, code) {
          var i :| 0 <= i < |code| && (if IsHint(code[i]) then LowerHint(lay, code[i]).None? else LowerInstruction(lay, code[i]).None?);
          if i > 0 {
            assert code[i] == code[1..][i - 1];
          }
        }
      }
      if IsHint(code[0]) {
        if LowerHint(lay, code[0]).Some? {
          EmitFails(lay, code[1..], q.(hints := PushHint(q.hints, |q.code|, LowerHint(lay, code[0]).value)));
        }
      } else if LowerInstruction(lay, code[0]).Some? {
        EmitFails(lay, code[1..], q.(code := q.code + [LowerInstruction(lay, code[0]).value]));
      }
    }
  }
}
