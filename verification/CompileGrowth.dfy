/**
 What compiling any lines does to the compiler's state: labels are fresh, blocks and match blocks
 are only added, positions only grow, outer scopes are left alone, and every offset used lies
 below the recorded frame size.
 */
module CompileGrowth {
  import opened Interpolation
  import opened IntermediateCode
  import opened SimpleLang
  import opened CompileLines

  /** Label ids below the counters are the ones in use. */
  predicate Used(st: CState, l: Label) {
    match l
    case IfLabel(id, _) => id < st.ifCounter
    case MatchEnd(id) => id < st.matchCounter
    case _ => true
  }

  ghost predicate Fresh(st: CState) { forall l {:trigger l in st.blocks} | l in st.blocks :: Used(st, l) }

  /** st2 is st with blocks added under labels that st had not used. */
  ghost predicate Grows(st: CState, st2: CState) {
    && Fresh(st2)
    && st.ifCounter <= st2.ifCounter && st.matchCounter <= st2.matchCounter
    && (forall l {:trigger l in st.blocks} {:trigger l in st2.blocks} | l in st.blocks :: l in st2.blocks && st2.blocks[l] == st.blocks[l])
    && (forall l {:trigger l in st2.blocks} | l in st2.blocks && Used(st, l) :: l in st.blocks)
    && st.matches <= st2.matches
    && st.stackPos <= st2.stackPos && st.stackSize <= st2.stackSize
    && |st.scopes| == |st2.scopes| > 0 && st.scopes[..|st.scopes| - 1] == st2.scopes[..|st.scopes| - 1]
  }

  lemma GrowsTrans(a: CState, b: CState, c: CState)
    requires Grows(a, b) && Grows(b, c)
    ensures Grows(a, c)
  {
    forall l {:trigger l in c.blocks} | l in c.blocks && Used(a, l) ensures l in a.blocks {
      assert Used(b, l);
      assert l in b.blocks;
    }
  }

  /** A change of scopes, positions and sizes only. */
  lemma GrowsPlain(st: CState, st2: CState)
    requires Fresh(st) && st2.blocks == st.blocks && st2.matches == st.matches
    requires st.ifCounter <= st2.ifCounter && st.matchCounter <= st2.matchCounter
    requires st.stackPos <= st2.stackPos && st.stackSize <= st2.stackSize
    requires |st.scopes| == |st2.scopes| > 0 && st.scopes[..|st.scopes| - 1] == st2.scopes[..|st.scopes| - 1]
    ensures Grows(st, st2)
  {
  }

  lemma RegisterGrows(st: CState, e: Expr)
    requires Fresh(st) && st.scopes != []
    ensures Grows(st, Register(st, e))
  {
    GrowsPlain(st, Register(st, e));
  }

  /** Compiling inside a pushed scope and popping it again. */
  lemma NestedGrows(st: CState, inner: CState)
    requires st.scopes != [] && Grows(PushScope(st), inner)
    ensures Grows(st, PopScope(inner)) && PopScope(inner).scopes == st.scopes
  {
    var p := PushScope(st);
    assert p.scopes[..|p.scopes| - 1] == st.scopes;
    assert PopScope(inner).scopes == st.scopes;
  }

  /** Adding one block under an unused label. */
  lemma InsertGrows(st: CState, st2: CState, l: Label, code: Code)
    requires Grows(st, st2) && !Used(st, l) && Used(st2, l) && l !in st2.blocks
    ensures Grows(st, st2.(blocks := st2.blocks[l := code]))
  {
  }

  lemma {:induction false} CompileGrows(ctx: Context, lines: seq<Line>, st: CState, fj: Option<Label>)
    requires st.scopes != [] && Fresh(st) && Compile(ctx, lines, st, fj).Some?
    ensures Grows(st, Compile(ctx, lines, st, fj).value.st)
    ensures Compile(ctx, lines, st, fj).value.st.stackPos <= Compile(ctx, lines, st, fj).value.st.stackSize
    decreases lines, 1
  {
    hide Grows, Fresh, Register, ReturnCopies, Prelude, OperandOf, ComputationOf;
    if lines == [] {
      GrowsPlain(st, Compile(ctx, lines, st, fj).value.st);
    } else {
      var rest := lines[1..];
      match lines[0]
      case ForwardDeclaration(v) =>
        var st1 := if v in ctx.coalesced || v in ctx.deadStores then st else Declare(st, v);
        GrowsPlain(st, st1);
        StepGrows(ctx, rest, st, st1, fj);
      case Assignment(target, _, _, _) =>
        if IsStore(ctx.deadStores, target) {
          CompileGrows(ctx, rest, st, fj);
        } else {
          RegisterGrows(st, target);
          StepGrows(ctx, rest, st, Register(st, target), fj);
        }
      case AssertEq(l, r) =>
        RegisterGrows(st, l);
        GrowsFresh(st, Register(st, l));
        RegisterGrows(Register(st, l), r);
        GrowsTrans(st, Register(st, l), Register(Register(st, l), r));
        StepGrows(ctx, rest, st, Register(Register(st, l), r), fj);
      case IfNotZero(c, t, e) => IfGrows(ctx, c, t, e, rest, st, fj, lines);
      case Match(value, arms, offset) => MatchGrows(ctx, value, arms, offset, rest, st, fj, lines);
      case PanicLine => CompileGrows(ctx, rest, st, fj);
      case FunctionRet(data) =>
        var st1 := if ctx.isMain then st.(stackPos := st.stackPos + 1) else st;
        GrowsPlain(st, st1);
        StepGrows(ctx, rest, st, st1, fj);
    }
  }

  lemma GrowsFresh(st: CState, st2: CState)
    requires Grows(st, st2)
    ensures Fresh(st2) && st2.scopes != []
  {
  }

  lemma StepGrows(ctx: Context, rest: seq<Line>, st: CState, st1: CState, fj: Option<Label>)
    requires Grows(st, st1) && st1.scopes != [] && Compile(ctx, rest, st1, fj).Some?
    ensures Grows(st, Compile(ctx, rest, st1, fj).value.st)
    ensures Compile(ctx, rest, st1, fj).value.st.stackPos <= Compile(ctx, rest, st1, fj).value.st.stackSize
    decreases rest, 2
  {
    GrowsFresh(st, st1);
    CompileGrows(ctx, rest, st1, fj);
    GrowsTrans(st, st1, Compile(ctx, rest, st1, fj).value.st);
  }

  lemma BranchGrows(ctx: Context, body: seq<Line>, st: CState, end: Label)
    requires st.scopes != [] && Fresh(st) && Compile(ctx, body, PushScope(st), Some(end)).Some?
    ensures Grows(st, PopScope(Compile(ctx, body, PushScope(st), Some(end)).value.st))
    ensures PopScope(Compile(ctx, body, PushScope(st), Some(end)).value.st).scopes == st.scopes
    ensures Compile(ctx, body, PushScope(st), Some(end)).value.st.stackPos <= Compile(ctx, body, PushScope(st), Some(end)).value.st.stackSize
    decreases body, 2
  {
    FreshSame(st, PushScope(st));
    CompileGrows(ctx, body, PushScope(st), Some(end));
    NestedGrows(st, Compile(ctx, body, PushScope(st), Some(end)).value.st);
  }

  lemma FreshSame(st: CState, st2: CState)
    requires Fresh(st) && st2.blocks == st.blocks && st.ifCounter <= st2.ifCounter && st.matchCounter <= st2.matchCounter
    ensures Fresh(st2)
  {
  }

  /** The states a conditional goes through. */
  lemma IfGrows(ctx: Context, c: Expr, t: seq<Line>, e: seq<Line>, rest: seq<Line>, st: CState, fj: Option<Label>, lines: seq<Line>)
    requires st.scopes != [] && Fresh(st) && lines != [] && lines[0] == IfNotZero(c, t, e) && rest == lines[1..]
    requires CompileIf(ctx, c, t, e, rest, st, fj, lines).Some?
    ensures Grows(st, CompileIf(ctx, c, t, e, rest, st, fj, lines).value.st)
    ensures CompileIf(ctx, c, t, e, rest, st, fj, lines).value.st.stackPos <= CompileIf(ctx, c, t, e, rest, st, fj, lines).value.st.stackSize
    decreases lines, 0
  {
    hide Compile, Grows, Fresh, OperandOf, Prelude;
    var id := st.ifCounter;
    var end := IfLabel(id, IfEnd);
    var st1 := st.(ifCounter := id + 1, stackPos := st.stackPos + 3);
    FreshSame(st, st1);
    var th := Compile(ctx, t, PushScope(st1), Some(end));
    BranchGrows(ctx, t, st1, end);
    var st2 := PopScope(th.value.st);
    GrowsFresh(st1, st2);
    var st3 := st2.(stackPos := st1.stackPos);
    FreshSame(st2, st3);
    var el := Compile(ctx, e, PushScope(st3), Some(end));
    BranchGrows(ctx, e, st3, end);
    var st4 := PopScope(el.value.st);
    var st5 := st4.(blocks := st4.blocks[IfLabel(id, IfThen) := th.value.code][IfLabel(id, IfElse) := el.value.code],
                    stackPos := Max(st4.stackPos, th.value.st.stackPos));
    BranchesJoin(st, st1, st2, st3, st4, id, th.value.code, el.value.code);
    StepGrows(ctx, rest, st, st5, fj);
    GrowsFresh(st, st5);
    CompileGrows(ctx, rest, st5, fj);
    var st6 := Compile(ctx, rest, st5, fj).value.st;
    EndIsUnused(st, st5, st6, end);
    InsertGrows(st, st6, end, Compile(ctx, rest, st5, fj).value.code);
  }

  lemma BranchesJoin(st: CState, st1: CState, st2: CState, st3: CState, st4: CState, id: nat, thenCode: Code, elseCode: Code)
    requires Fresh(st) && st.scopes != [] && id == st.ifCounter && st1 == st.(ifCounter := id + 1, stackPos := st.stackPos + 3)
    requires Grows(st1, st2) && st3 == st2.(stackPos := st1.stackPos) && Grows(st3, st4) && st2.scopes == st1.scopes && st4.scopes == st3.scopes
    ensures var st5 := st4.(blocks := st4.blocks[IfLabel(id, IfThen) := thenCode][IfLabel(id, IfElse) := elseCode],
                            stackPos := Max(st4.stackPos, st2.stackPos));
            Grows(st, st5) && IfLabel(id, IfEnd) !in st5.blocks && st5.scopes == st.scopes && st5.ifCounter > id
  {
    assert !Used(st, IfLabel(id, IfThen)) && !Used(st, IfLabel(id, IfElse)) && !Used(st, IfLabel(id, IfEnd));
    forall l {:trigger l in st4.blocks} | l in st4.blocks && (Used(st, l) || (l.IfLabel? && l.id == id)) ensures l in st.blocks {
      assert Used(st1, l) && Used(st3, l);
      assert l in st3.blocks;
      assert l in st2.blocks;
      assert l in st1.blocks;
    }
  }

  lemma EndIsUnused(st: CState, st5: CState, st6: CState, end: Label)
    requires Grows(st, st5) && Grows(st5, st6) && !Used(st, end) && Used(st5, end) && end !in st5.blocks
    ensures end !in st6.blocks && Used(st6, end)
  {
    assert end in st6.blocks ==> end in st5.blocks;
  }

  lemma {:induction false} ArmsGrow(ctx: Context, arms: seq<Arm>, st: CState, saved: nat, top: nat, end: Label)
    requires st.scopes != [] && Fresh(st) && CompileArms(ctx, arms, st, saved, top, end).Some?
    ensures var r := CompileArms(ctx, arms, st, saved, top, end).value;
            Grows(st.(stackPos := 0), r.st) && r.st.scopes == st.scopes && r.top >= top
            && r.st.stackSize >= st.stackSize
    decreases arms, 0
  {
    hide Compile, Grows, Fresh;
    if arms == [] {
      FreshSame(st, st.(stackPos := 0));
      GrowsPlain(st.(stackPos := 0), st);
    } else {
      var st1 := st.(stackPos := saved);
      FreshSame(st, st1);
      var arm := Compile(ctx, arms[0].body, PushScope(st1), Some(end)).value;
      BranchGrows(ctx, arms[0].body, st1, end);
      var st2 := PopScope(arm.st);
      GrowsFresh(st1, st2);
      ArmsGrow(ctx, arms[1..], st2, saved, Max(top, arm.st.stackPos), end);
      var r := CompileArms(ctx, arms[1..], st2, saved, Max(top, arm.st.stackPos), end).value;
      ArmGrows(st, st1, st2, r.st);
    }
  }

  lemma ArmGrows(st: CState, st1: CState, st2: CState, st3: CState)
    requires st1 == st.(stackPos := st1.stackPos) && Grows(st1, st2) && Grows(st2.(stackPos := 0), st3)
    ensures Grows(st.(stackPos := 0), st3) && st3.stackSize >= st2.stackSize >= st.stackSize
  {
    forall l {:trigger l in st3.blocks} | l in st3.blocks && Used(st, l) ensures l in st.blocks {
      assert Used(st2, l);
      assert l in st2.blocks;
    }
  }

  lemma MatchGrows(ctx: Context, value: Expr, arms: seq<Arm>, offset: nat, rest: seq<Line>, st: CState, fj: Option<Label>, lines: seq<Line>)
    requires st.scopes != [] && Fresh(st) && lines != [] && lines[0] == Match(value, arms, offset) && rest == lines[1..]
    requires CompileMatch(ctx, value, arms, offset, rest, st, fj, lines).Some?
    ensures Grows(st, CompileMatch(ctx, value, arms, offset, rest, st, fj, lines).value.st)
    ensures CompileMatch(ctx, value, arms, offset, rest, st, fj, lines).value.st.stackPos
         <= CompileMatch(ctx, value, arms, offset, rest, st, fj, lines).value.st.stackSize
    decreases lines, 0
  {
    hide Compile, CompileArms, Grows, Fresh, OperandOf, MatchJump;
    var end := MatchEnd(st.matchCounter);
    var st0 := st.(matchCounter := st.matchCounter + 1);
    var st1 := PushScope(st).(matchCounter := st.matchCounter + 1);
    FreshSame(st, st1);
    ArmsGrow(ctx, arms, st1, st1.stackPos, st1.stackPos, end);
    var compiled := CompileArms(ctx, arms, st1, st1.stackPos, st1.stackPos, end).value;
    var st2 := compiled.st.(stackPos := compiled.top, matches := compiled.st.matches + [compiled.codes]);
    var st3 := st2.(stackPos := st2.stackPos + 2);
    MatchJoins(st, st1, compiled.st, st3, compiled.codes, end);
    StepGrows(ctx, rest, PushScope(st), st3, fj);
    GrowsFresh(PushScope(st), st3);
    CompileGrows(ctx, rest, st3, fj);
    var st4 := Compile(ctx, rest, st3, fj).value.st;
    EndIsUnused(PushScope(st), st3, st4, end);
    InsertGrows(PushScope(st), st4, end, Compile(ctx, rest, st3, fj).value.code);
    NestedGrows(st, st4.(blocks := st4.blocks[end := Compile(ctx, rest, st3, fj).value.code]));
  }

  lemma MatchJoins(st: CState, st1: CState, arms: CState, st3: CState, codes: seq<Code>, end: Label)
    requires Fresh(st) && st.scopes != [] && end == MatchEnd(st.matchCounter) && st1 == PushScope(st).(matchCounter := st.matchCounter + 1)
    requires Grows(st1.(stackPos := 0), arms) && st3 == arms.(stackPos := st3.stackPos, matches := arms.matches + [codes])
    requires st3.stackPos >= st1.stackPos && arms.scopes == st1.scopes
    ensures Grows(PushScope(st), st3) && !Used(PushScope(st), end) && Used(st3, end) && end !in st3.blocks
  {
    assert Used(st1, end) && !Used(st, end);
    assert end in st3.blocks ==> end in st1.blocks;
    assert end in st1.blocks ==> Used(st, end);
    forall l {:trigger l in st3.blocks} | l in st3.blocks && Used(PushScope(st), l) ensures l in st.blocks {
      assert Used(st1, l);
      assert l in arms.blocks;
    }
  }
}
