/**
 When a function compiles: exactly when every variable it reads is in scope there, a condition on
 the lines alone (is_in_scope and get_offset, crates/lean_compiler/src/b_compile_intermediate.rs;
 get_offset panics on a variable that no scope holds).
 */
module CompileScopes {
  import opened Interpolation
  import opened IntermediateCode
  import opened SimpleLang
  import opened CompileLines
  import opened CompileGrowth
  import opened DeadStores
  import opened CompileFunction

  // ----- the condition

  predicate InScope(known: set<Var>, e: Expr) { e.Name? ==> e.v in known }

  function With(known: set<Var>, e: Expr): set<Var> { if e.Name? then known + {e.v} else known }

  /** Every variable is known where it is read; a block's own variables are forgotten behind it. */
  predicate WellScoped(ctx: Context, lines: seq<Line>, known: set<Var>)
    decreases lines, 1
  {
    if lines == [] then true
    else
      var rest := lines[1..];
      match lines[0]
      case ForwardDeclaration(v) => WellScoped(ctx, rest, if v in ctx.coalesced || v in ctx.deadStores then known else known + {v})
      case Assignment(target, _, a, b) =>
        if IsStore(ctx.deadStores, target) then WellScoped(ctx, rest, known)
        else InScope(With(known, target), a) && InScope(With(known, target), b) && WellScoped(ctx, rest, With(known, target))
      case AssertEq(l, r) => WellScoped(ctx, rest, With(With(known, l), r))
      case IfNotZero(c, t, e) => InScope(known, c) && WellScoped(ctx, t, known) && WellScoped(ctx, e, known) && WellScoped(ctx, rest, known)
      case Match(value, arms, _) => InScope(known, value) && ArmsWellScoped(ctx, arms, known) && WellScoped(ctx, rest, known)
      case PanicLine => WellScoped(ctx, rest, known)
      case FunctionRet(data) => (ctx.isMain || AllInScope(known + ctx.coalesced, data)) && WellScoped(ctx, rest, known)
  }

  predicate ArmsWellScoped(ctx: Context, arms: seq<Arm>, known: set<Var>)
    decreases arms, 0
  {
    arms == [] || (WellScoped(ctx, arms[0].body, known) && ArmsWellScoped(ctx, arms[1..], known))
  }

  predicate AllInScope(known: set<Var>, data: seq<Expr>) { forall i {:trigger data[i]} | 0 <= i < |data| :: InScope(known, data[i]) }

  /** Arguments and coalesced variables are known from the start. */
  predicate FunctionScoped(f: Function) {
    WellScoped(ContextOf(f), f.body, (set v | v in f.arguments) + Hoisted(f).Keys)
  }

  // ----- the compiler's scopes hold what is known

  ghost predicate Covers(scopes: Scopes<nat>, known: set<Var>) {
    forall v: Var {:trigger v in known} {:trigger Find(scopes, v)} :: v in known <==> Find(scopes, v).Some?
  }

  lemma FoundIn(scopes: Scopes<nat>, v: Var, i: nat)
    requires i < |scopes| && v in scopes[i]
    ensures Find(scopes, v).Some?
  {
  }

  lemma DeclareCovers(st: CState, v: Var, known: set<Var>)
    requires st.scopes != [] && Covers(st.scopes, known)
    ensures Covers(Declare(st, v).scopes, known + {v})
  {
    var s2 := Declare(st, v).scopes;
    forall w: Var ensures w in known + {v} <==> Find(s2, w).Some? {
      if Find(s2, w).Some? && w != v {
        FoundIn(st.scopes, w, Find(s2, w).value);
      } else if w == v {
        FoundIn(s2, v, |s2| - 1);
      }
    }
  }

  lemma RegisterCovers(st: CState, e: Expr, known: set<Var>)
    requires st.scopes != [] && Covers(st.scopes, known)
    ensures Covers(Register(st, e).scopes, With(known, e))
  {
    hide Find;
    if e.Name? {
      if Find(st.scopes, e.v).None? {
        DeclareCovers(st, e.v, known);
      } else {
        assert With(known, e) == known;
      }
    }
  }

  lemma PushCovers(scopes: Scopes<nat>, known: set<Var>)
    requires Covers(scopes, known)
    ensures Covers(scopes + [map[]], known)
  {
    var s2 := scopes + [map[]];
    assert s2[..|scopes|] == scopes;
  }

  lemma OperandCovers(scopes: Scopes<nat>, known: set<Var>, e: Expr)
    requires Covers(scopes, known)
    ensures OperandOf(scopes, e).Some? <==> InScope(known, e)
  {
    hide Find;
  }

  lemma {:induction false} CopiesIff(ctx: Context, scopes: Scopes<nat>, known: set<Var>, data: seq<Expr>, i: nat)
    requires Covers(scopes, known)
    ensures ReturnCopies(ctx, scopes, data, i).Some? <==> AllInScope(known + ctx.coalesced, data)
    decreases |data|
  {
    hide Find;
    if data != [] {
      CopiesIff(ctx, scopes, known, data[1..], i + 1);
      OperandCovers(scopes, known, data[0]);
      assert AllInScope(known + ctx.coalesced, data) <==> InScope(known + ctx.coalesced, data[0]) && AllInScope(known + ctx.coalesced, data[1..]) by {
        assert data == [data[0]] + data[1..];
      }
    }
  }

  // ----- compiling succeeds exactly then

  ghost predicate CompilesAt(st: CState, known: set<Var>) { st.scopes != [] && Fresh(st) && Covers(st.scopes, known) }

  lemma {:induction false} CompilesIff(ctx: Context, lines: seq<Line>, st: CState, fj: Option<Label>, known: set<Var>)
    requires CompilesAt(st, known)
    ensures Compile(ctx, lines, st, fj).Some? <==> WellScoped(ctx, lines, known)
    decreases lines, 2
  {
    hide Fresh, Covers, Find, Register, OperandOf, ReturnCopies, InScope, With, AllInScope;
    if lines != [] {
      var rest := lines[1..];
      match lines[0]
      case ForwardDeclaration(v) =>
        if v in ctx.coalesced || v in ctx.deadStores {
          CompilesIff(ctx, rest, st, fj, known);
        } else {
          DeclareCovers(st, v, known);
          FreshSame(st, Declare(st, v));
          CompilesIff(ctx, rest, Declare(st, v), fj, known + {v});
        }
      case Assignment(target, op, a, b) =>
        if IsStore(ctx.deadStores, target) {
          CompilesIff(ctx, rest, st, fj, known);
        } else {
          Registered(st, target, known);
          OperandCovers(Register(st, target).scopes, With(known, target), a);
          OperandCovers(Register(st, target).scopes, With(known, target), b);
          OperandCovers(Register(st, target).scopes, With(known, target), target);
          Knows(known, target);
          CompilesIff(ctx, rest, Register(st, target), fj, With(known, target));
        }
      case AssertEq(l, r) =>
        Registered(st, l, known);
        Registered(Register(st, l), r, With(known, l));
        var st1, known1 := Register(Register(st, l), r), With(With(known, l), r);
        OperandCovers(st1.scopes, known1, l);
        OperandCovers(st1.scopes, known1, r);
        Knows(known, l);
        Knows(With(known, l), r);
        StillKnown(With(known, l), r, l);
        CompilesIff(ctx, rest, st1, fj, known1);
      case IfNotZero(c, t, e) => IfCompiles(ctx, c, t, e, rest, st, fj, lines, known);
      case Match(value, arms, offset) => MatchCompiles(ctx, value, arms, offset, rest, st, fj, lines, known);
      case PanicLine => CompilesIff(ctx, rest, st, fj, known);
      case FunctionRet(data) =>
        CopiesIff(ctx, st.scopes, known, data, 0);
        var st1 := if ctx.isMain then st.(stackPos := st.stackPos + 1) else st;
        FreshSame(st, st1);
        CompilesIff(ctx, rest, st1, fj, known);
    }
  }

  lemma Registered(st: CState, e: Expr, known: set<Var>)
    requires CompilesAt(st, known)
    ensures CompilesAt(Register(st, e), With(known, e))
  {
    RegisterCovers(st, e, known);
    FreshSame(st, Register(st, e));
  }

  lemma Knows(known: set<Var>, e: Expr)
    ensures InScope(With(known, e), e)
  {
  }

  lemma StillKnown(known: set<Var>, e: Expr, x: Expr)
    requires InScope(known, x)
    ensures InScope(With(known, e), x)
  {
  }

  /** A pushed scope starts with the same variables known. */
  lemma Pushed(st: CState, known: set<Var>)
    requires CompilesAt(st, known)
    ensures CompilesAt(PushScope(st), known)
  {
    PushCovers(st.scopes, known);
    FreshSame(st, PushScope(st));
  }

  lemma IfCompiles(ctx: Context, c: Expr, t: seq<Line>, e: seq<Line>, rest: seq<Line>, st: CState, fj: Option<Label>, lines: seq<Line>, known: set<Var>)
    requires CompilesAt(st, known) && lines != [] && lines[0] == IfNotZero(c, t, e) && rest == lines[1..]
    ensures CompileIf(ctx, c, t, e, rest, st, fj, lines).Some?
            <==> InScope(known, c) && WellScoped(ctx, t, known) && WellScoped(ctx, e, known) && WellScoped(ctx, rest, known)
    decreases lines, 0
  {
    hide Compile, Grows, Fresh, Covers, OperandOf, Prelude, InScope, WellScoped;
    OperandCovers(st.scopes, known, c);
    var id := st.ifCounter;
    var end := IfLabel(id, IfEnd);
    var st1 := st.(ifCounter := id + 1, stackPos := st.stackPos + 3);
    FreshSame(st, st1);
    Pushed(st1, known);
    CompilesIff(ctx, t, PushScope(st1), Some(end), known);
    if WellScoped(ctx, t, known) {
      var th := Compile(ctx, t, PushScope(st1), Some(end)).value;
      BranchGrows(ctx, t, st1, end);
      var st2 := PopScope(th.st);
      GrowsFresh(st1, st2);
      var st3 := st2.(stackPos := st1.stackPos);
      FreshSame(st2, st3);
      Pushed(st3, known);
      CompilesIff(ctx, e, PushScope(st3), Some(end), known);
      if WellScoped(ctx, e, known) {
        var el := Compile(ctx, e, PushScope(st3), Some(end)).value;
        BranchGrows(ctx, e, st3, end);
        var st4 := PopScope(el.st);
        var st5 := st4.(blocks := st4.blocks[IfLabel(id, IfThen) := th.code][IfLabel(id, IfElse) := el.code],
                        stackPos := Max(st4.stackPos, th.st.stackPos));
        BranchesJoin(st, st1, st2, st3, st4, id, th.code, el.code);
        GrowsFresh(st, st5);
        CompilesIff(ctx, rest, st5, fj, known);
      }
    }
  }

  lemma {:induction false} ArmsCompile(ctx: Context, arms: seq<Arm>, st: CState, saved: nat, top: nat, end: Label, known: set<Var>)
    requires CompilesAt(st, known)
    ensures CompileArms(ctx, arms, st, saved, top, end).Some? <==> ArmsWellScoped(ctx, arms, known)
    decreases arms, 0
  {
    hide Compile, Grows, Fresh, Covers, WellScoped;
    if arms != [] {
      var st1 := st.(stackPos := saved);
      FreshSame(st, st1);
      Pushed(st1, known);
      CompilesIff(ctx, arms[0].body, PushScope(st1), Some(end), known);
      if WellScoped(ctx, arms[0].body, known) {
        var arm := Compile(ctx, arms[0].body, PushScope(st1), Some(end)).value;
        BranchGrows(ctx, arms[0].body, st1, end);
        var st2 := PopScope(arm.st);
        GrowsFresh(st1, st2);
        ArmsCompile(ctx, arms[1..], st2, saved, Max(top, arm.st.stackPos), end, known);
      }
    }
  }

  lemma MatchCompiles(ctx: Context, value: Expr, arms: seq<Arm>, offset: nat, rest: seq<Line>, st: CState, fj: Option<Label>, lines: seq<Line>, known: set<Var>)
    requires CompilesAt(st, known) && lines != [] && lines[0] == Match(value, arms, offset) && rest == lines[1..]
    ensures CompileMatch(ctx, value, arms, offset, rest, st, fj, lines).Some?
            <==> InScope(known, value) && ArmsWellScoped(ctx, arms, known) && WellScoped(ctx, rest, known)
    decreases lines, 0
  {
    hide Compile, CompileArms, Grows, Fresh, Covers, OperandOf, MatchJump, InScope, WellScoped, ArmsWellScoped;
    var end := MatchEnd(st.matchCounter);
    var st1 := PushScope(st).(matchCounter := st.matchCounter + 1);
    Pushed(st, known);
    FreshSame(st, st1);
    OperandCovers(st1.scopes, known, value);
    ArmsCompile(ctx, arms, st1, st1.stackPos, st1.stackPos, end, known);
    if ArmsWellScoped(ctx, arms, known) {
      ArmsGrow(ctx, arms, st1, st1.stackPos, st1.stackPos, end);
      var compiled := CompileArms(ctx, arms, st1, st1.stackPos, st1.stackPos, end).value;
      var st3 := compiled.st.(stackPos := compiled.top + 2, matches := compiled.st.matches + [compiled.codes]);
      MatchJoins(st, st1, compiled.st, st3, compiled.codes, end);
      GrowsFresh(PushScope(st), st3);
      CompilesIff(ctx, rest, st3, fj, known);
    }
  }

  /** A function compiles, whatever was compiled before it, if and only if every variable it reads is in scope. */
  lemma FunctionCompilesIff(f: Function, st: CState)
    requires Fresh(st)
    ensures CompileBody(f, st).Some? <==> FunctionScoped(f)
  {
    var start := StartState(f, st);
    ArgSlotsMeans(f.arguments);
    assert start.scopes[..0] == [];
    assert Covers(start.scopes, (set v | v in f.arguments) + Hoisted(f).Keys);
    FreshSame(st, start);
    hide Compile, WellScoped;
    CompilesIff(ContextOf(f), f.body, start, None, (set v | v in f.arguments) + Hoisted(f).Keys);
  }
}
