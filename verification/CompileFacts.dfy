/**
 What a program holding a compiled function must contain: the blocks the compiler registered and
 the match arms it numbered.
 */
module CompileFacts {
  import opened Interpolation
  import opened IntermediateCode
  import opened SimpleLang
  import opened CompileLines
  import opened CompileGrowth

  /** The program holds every block and match block registered so far. */
  ghost predicate Includes(p: Program, st: CState) {
    && (forall l {:trigger l in st.blocks} {:trigger l in p.blocks} | l in st.blocks :: l in p.blocks && p.blocks[l] == st.blocks[l])
    && st.matches <= p.matches
  }

  lemma HoldsBack(p: Program, a: CState, b: CState)
    requires Grows(a, b) && Includes(p, b)
    ensures Includes(p, a)
  {
  }

  lemma HoldsSame(p: Program, a: CState, b: CState)
    requires Includes(p, a) && b.blocks == a.blocks && b.matches == a.matches
    ensures Includes(p, b)
  {
  }

  lemma HoldsInserted(p: Program, st: CState, l: Label, code: Code)
    requires Includes(p, st.(blocks := st.blocks[l := code])) && l !in st.blocks
    ensures Includes(p, st) && l in p.blocks && p.blocks[l] == code
  {
    assert l in st.(blocks := st.blocks[l := code]).blocks;
  }

  /** The states and codes of a compiled conditional. */
  datatype IfParts = IfParts(thenStart: CState, then_: Compiled, elseStart: CState, else_: Compiled, restStart: CState, rest: Compiled)

  ghost function PartsOfIf(ctx: Context, c: Expr, t: seq<Line>, e: seq<Line>, rest: seq<Line>, st: CState, fj: Option<Label>,
                           lines: seq<Line>): IfParts
    requires st.scopes != [] && lines != [] && lines[0] == IfNotZero(c, t, e) && rest == lines[1..]
    requires CompileIf(ctx, c, t, e, rest, st, fj, lines).Some?
  {
    var id := st.ifCounter;
    var end := IfLabel(id, IfEnd);
    var st1 := st.(ifCounter := id + 1, stackPos := st.stackPos + 3);
    var th := Compile(ctx, t, PushScope(st1), Some(end)).value;
    var st3 := PopScope(th.st).(stackPos := st1.stackPos);
    var el := Compile(ctx, e, PushScope(st3), Some(end)).value;
    var st4 := PopScope(el.st);
    var st5 := st4.(blocks := st4.blocks[IfLabel(id, IfThen) := th.code][IfLabel(id, IfElse) := el.code],
                    stackPos := Max(st4.stackPos, th.st.stackPos));
    IfParts(PushScope(st1), th, PushScope(st3), el, st5, Compile(ctx, rest, st5, fj).value)
  }

  ghost predicate HoldsIf(p: Program, st: CState, q: IfParts) {
    && (var id := st.ifCounter;
        IfLabel(id, IfThen) in p.blocks && p.blocks[IfLabel(id, IfThen)] == q.then_.code
        && IfLabel(id, IfElse) in p.blocks && p.blocks[IfLabel(id, IfElse)] == q.else_.code
        && IfLabel(id, IfEnd) in p.blocks && p.blocks[IfLabel(id, IfEnd)] == q.rest.code)
    && Fresh(q.thenStart) && Fresh(q.elseStart) && Fresh(q.restStart)
    && Includes(p, q.then_.st) && Includes(p, q.else_.st) && Includes(p, q.rest.st)
    && q.elseStart.scopes == q.thenStart.scopes == st.scopes + [map[]] && q.restStart.scopes == st.scopes
    && q.then_.st.scopes != [] && q.then_.st.scopes[..|q.then_.st.scopes| - 1] == st.scopes
    && q.else_.st.scopes != [] && q.else_.st.scopes[..|q.else_.st.scopes| - 1] == st.scopes
    && q.thenStart.stackPos == q.elseStart.stackPos == st.stackPos + 3
    && q.then_.st.stackPos <= q.restStart.stackPos && q.else_.st.stackPos <= q.restStart.stackPos
    && st.stackPos + 3 <= q.restStart.stackPos <= q.rest.st.stackPos
  }

  lemma IfHolds(ctx: Context, c: Expr, t: seq<Line>, e: seq<Line>, rest: seq<Line>, st: CState, fj: Option<Label>,
                lines: seq<Line>, p: Program)
    requires st.scopes != [] && Fresh(st) && lines != [] && lines[0] == IfNotZero(c, t, e) && rest == lines[1..]
    requires CompileIf(ctx, c, t, e, rest, st, fj, lines).Some?
    requires Includes(p, CompileIf(ctx, c, t, e, rest, st, fj, lines).value.st)
    ensures HoldsIf(p, st, PartsOfIf(ctx, c, t, e, rest, st, fj, lines))
  {
    hide Compile, Grows, Fresh, OperandOf, Prelude, Includes;
    var id := st.ifCounter;
    var end := IfLabel(id, IfEnd);
    var st1 := st.(ifCounter := id + 1, stackPos := st.stackPos + 3);
    FreshSame(st, st1);
    FreshSame(st, PushScope(st1));
    var th := Compile(ctx, t, PushScope(st1), Some(end)).value;
    BranchGrows(ctx, t, st1, end);
    CompileGrows(ctx, t, PushScope(st1), Some(end));
    var st2 := PopScope(th.st);
    GrowsFresh(st1, st2);
    var st3 := st2.(stackPos := st1.stackPos);
    FreshSame(st2, st3);
    FreshSame(st2, PushScope(st3));
    var el := Compile(ctx, e, PushScope(st3), Some(end)).value;
    BranchGrows(ctx, e, st3, end);
    CompileGrows(ctx, e, PushScope(st3), Some(end));
    var st4 := PopScope(el.st);
    var st5 := st4.(blocks := st4.blocks[IfLabel(id, IfThen) := th.code][IfLabel(id, IfElse) := el.code],
                    stackPos := Max(st4.stackPos, th.st.stackPos));
    BranchesJoin(st, st1, st2, st3, st4, id, th.code, el.code);
    GrowsFresh(st, st5);
    CompileGrows(ctx, rest, st5, fj);
    var re := Compile(ctx, rest, st5, fj).value;
    EndIsUnused(st, st5, re.st, end);
    HoldsInserted(p, re.st, end, re.code);
    HoldsBack(p, st5, re.st);
    Positions(st1, st2);
    Positions(st3, st4);
    Positions(st5, re.st);
    BranchBlocks(p, st, st1, st2, st3, st4, st5, id, th, el);
  }

  lemma Positions(a: CState, b: CState)
    requires Grows(a, b)
    ensures a.stackPos <= b.stackPos && a.stackSize <= b.stackSize && |a.scopes| == |b.scopes| > 0
  {
  }

  lemma BranchBlocks(p: Program, st: CState, st1: CState, st2: CState, st3: CState, st4: CState, st5: CState, id: nat, th: Compiled, el: Compiled)
    requires Includes(p, st5) && Grows(st1, st2) && st3.blocks == st2.blocks && st3.matches == st2.matches && Grows(st3, st4)
    requires st3.ifCounter == st2.ifCounter && st3.matchCounter == st2.matchCounter && st1.ifCounter == id + 1
    requires st5.blocks == st4.blocks[IfLabel(id, IfThen) := th.code][IfLabel(id, IfElse) := el.code] && st5.matches == st4.matches
    requires st2.blocks == th.st.blocks && st2.matches == th.st.matches && st4.blocks == el.st.blocks && st4.matches == el.st.matches
    requires Fresh(st) && st1.blocks == st.blocks && id == st.ifCounter
    ensures Includes(p, th.st) && Includes(p, el.st)
    ensures IfLabel(id, IfThen) in p.blocks && p.blocks[IfLabel(id, IfThen)] == th.code
    ensures IfLabel(id, IfElse) in p.blocks && p.blocks[IfLabel(id, IfElse)] == el.code
  {
    var a, b := IfLabel(id, IfThen), IfLabel(id, IfElse);
    assert a in st5.blocks && b in st5.blocks;
    assert a !in st.blocks && b !in st.blocks;
    assert a !in st4.blocks by { assert Used(st1, a) && Used(st3, a); assert a in st4.blocks ==> a in st3.blocks; assert a in st2.blocks ==> a in st1.blocks; }
    assert b !in st4.blocks by { assert Used(st1, b) && Used(st3, b); assert b in st4.blocks ==> b in st3.blocks; assert b in st2.blocks ==> b in st1.blocks; }
    forall l {:trigger l in st4.blocks} | l in st4.blocks ensures l in p.blocks && p.blocks[l] == st4.blocks[l] {
      assert l in st5.blocks;
    }
    assert Includes(p, st4);
    HoldsBack(p, st3, st4);
  }

  // ----- matches

  /** The state in which arm k is compiled, its scope pushed. */
  ghost function ArmStart(ctx: Context, arms: seq<Arm>, st: CState, saved: nat, top: nat, end: Label, k: nat): (r: CState)
    requires st.scopes != [] && k < |arms| && CompileArms(ctx, arms, st, saved, top, end).Some?
    ensures r.scopes != []
    decreases k
  {
    var start := PushScope(st.(stackPos := saved));
    if k == 0 then start
    else
      var arm := Compile(ctx, arms[0].body, start, Some(end)).value;
      ArmStart(ctx, arms[1..], PopScope(arm.st), saved, Max(top, arm.st.stackPos), end, k - 1)
  }

  ghost predicate HoldsArm(p: Program, start: CState, arm: Option<Compiled>, scopes: Scopes<nat>, saved: nat, top: nat, code: Code) {
    && arm.Some? && arm.value.code == code
    && Fresh(start) && start.scopes == scopes + [map[]] && start.stackPos == saved
    && Includes(p, arm.value.st) && arm.value.st.scopes != [] && arm.value.st.scopes[..|arm.value.st.scopes| - 1] == scopes
    && arm.value.st.stackPos <= top
  }

  lemma {:induction false} ArmHolds(ctx: Context, arms: seq<Arm>, st: CState, saved: nat, top: nat, end: Label, k: nat, p: Program)
    requires st.scopes != [] && Fresh(st) && CompileArms(ctx, arms, st, saved, top, end).Some? && k < |arms|
    requires Includes(p, CompileArms(ctx, arms, st, saved, top, end).value.st)
    ensures var r := CompileArms(ctx, arms, st, saved, top, end).value;
            var start := ArmStart(ctx, arms, st, saved, top, end, k);
            HoldsArm(p, start, Compile(ctx, arms[k].body, start, Some(end)), st.scopes, saved, r.top, r.codes[k])
    decreases k
  {
    hide Compile, Grows, Fresh, Includes;
    var st1 := st.(stackPos := saved);
    FreshSame(st, st1);
    FreshSame(st, PushScope(st1));
    var arm := Compile(ctx, arms[0].body, PushScope(st1), Some(end)).value;
    BranchGrows(ctx, arms[0].body, st1, end);
    CompileGrows(ctx, arms[0].body, PushScope(st1), Some(end));
    Positions(PushScope(st1), arm.st);
    var st2 := PopScope(arm.st);
    GrowsFresh(st1, st2);
    ArmsGrow(ctx, arms[1..], st2, saved, Max(top, arm.st.stackPos), end);
    var r := CompileArms(ctx, arms[1..], st2, saved, Max(top, arm.st.stackPos), end).value;
    if k == 0 {
      HoldsBack(p, st2.(stackPos := 0), r.st);
      HoldsSame(p, st2.(stackPos := 0), arm.st);
    } else {
      ArmHolds(ctx, arms[1..], st2, saved, Max(top, arm.st.stackPos), end, k - 1, p);
      assert arms[1..][k - 1] == arms[k];
    }
  }

  /** The states and codes of a compiled match. */
  datatype MatchParts = MatchParts(armsStart: CState, arms: CompiledArms, index: nat, temps: nat, restStart: CState, rest: Compiled)

  ghost function PartsOfMatch(ctx: Context, value: Expr, arms: seq<Arm>, offset: nat, rest: seq<Line>, st: CState, fj: Option<Label>,
                              lines: seq<Line>): MatchParts
    requires st.scopes != [] && lines != [] && lines[0] == Match(value, arms, offset) && rest == lines[1..]
    requires CompileMatch(ctx, value, arms, offset, rest, st, fj, lines).Some?
  {
    var end := MatchEnd(st.matchCounter);
    var st1 := PushScope(st).(matchCounter := st.matchCounter + 1);
    var compiled := CompileArms(ctx, arms, st1, st1.stackPos, st1.stackPos, end).value;
    var st3 := compiled.st.(stackPos := compiled.top + 2, matches := compiled.st.matches + [compiled.codes]);
    MatchParts(st1, compiled, |compiled.st.matches|, compiled.top, st3, Compile(ctx, rest, st3, fj).value)
  }

  ghost predicate HoldsMatch(p: Program, st: CState, q: MatchParts) {
    && MatchEnd(st.matchCounter) in p.blocks && p.blocks[MatchEnd(st.matchCounter)] == q.rest.code
    && q.index < |p.matches| && p.matches[q.index] == q.arms.codes
    && Fresh(q.armsStart) && Fresh(q.restStart)
    && Includes(p, q.arms.st) && Includes(p, q.rest.st)
    && q.armsStart.scopes == st.scopes + [map[]] == q.restStart.scopes
    && q.rest.st.scopes != [] && q.rest.st.scopes[..|q.rest.st.scopes| - 1] == st.scopes
    && q.armsStart.stackPos == st.stackPos <= q.temps && q.temps + 2 == q.restStart.stackPos <= q.rest.st.stackPos
  }

  lemma MatchHolds(ctx: Context, value: Expr, arms: seq<Arm>, offset: nat, rest: seq<Line>, st: CState, fj: Option<Label>,
                   lines: seq<Line>, p: Program)
    requires st.scopes != [] && Fresh(st) && lines != [] && lines[0] == Match(value, arms, offset) && rest == lines[1..]
    requires CompileMatch(ctx, value, arms, offset, rest, st, fj, lines).Some?
    requires Includes(p, CompileMatch(ctx, value, arms, offset, rest, st, fj, lines).value.st)
    ensures HoldsMatch(p, st, PartsOfMatch(ctx, value, arms, offset, rest, st, fj, lines))
  {
    hide Compile, CompileArms, Grows, Fresh, OperandOf, MatchJump, Includes;
    var end := MatchEnd(st.matchCounter);
    var st1 := PushScope(st).(matchCounter := st.matchCounter + 1);
    FreshSame(st, st1);
    ArmsGrow(ctx, arms, st1, st1.stackPos, st1.stackPos, end);
    var compiled := CompileArms(ctx, arms, st1, st1.stackPos, st1.stackPos, end).value;
    var st3 := compiled.st.(stackPos := compiled.top + 2, matches := compiled.st.matches + [compiled.codes]);
    MatchJoins(st, st1, compiled.st, st3, compiled.codes, end);
    GrowsFresh(PushScope(st), st3);
    CompileGrows(ctx, rest, st3, fj);
    var re := Compile(ctx, rest, st3, fj).value;
    EndIsUnused(PushScope(st), st3, re.st, end);
    HoldsSame(p, CompileMatch(ctx, value, arms, offset, rest, st, fj, lines).value.st, re.st.(blocks := re.st.blocks[end := re.code]));
    HoldsInserted(p, re.st, end, re.code);
    HoldsBack(p, st3, re.st);
    Positions(st3, re.st);
    ArmsIndexed(p, compiled, st3);
    GrowsOuter(st3, re.st, st.scopes);
  }

  lemma GrowsOuter(a: CState, b: CState, outer: Scopes<nat>)
    requires Grows(a, b) && a.scopes == outer + [map[]]
    ensures b.scopes != [] && b.scopes[..|b.scopes| - 1] == outer
  {
  }

  lemma ArmsIndexed(p: Program, compiled: CompiledArms, st3: CState)
    requires Includes(p, st3) && st3 == compiled.st.(stackPos := st3.stackPos, matches := compiled.st.matches + [compiled.codes])
    ensures Includes(p, compiled.st) && |compiled.st.matches| < |p.matches| && p.matches[|compiled.st.matches|] == compiled.codes
  {
    var i := |compiled.st.matches|;
    assert st3.matches[i] == compiled.codes;
    assert p.matches[..|st3.matches|] == st3.matches;
    assert compiled.st.matches <= st3.matches;
  }
}
