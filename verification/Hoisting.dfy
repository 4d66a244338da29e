/**
 Coalescing moves a variable from the block that declares it to the function's scope.  The meaning
 stays when, on every path, the variable is introduced once and not used before that
 (compile_function and ForwardDeclaration, crates/lean_compiler/src/b_compile_intermediate.rs).
 */
module Hoisting {
  import opened Field
  import opened Interpolation
  import opened IntermediateCode
  import opened SimpleLang

  // ----- what lines mention and whether they can reach their end

  predicate Mentions(lines: seq<Line>, v: Var)
    decreases lines, 1
  {
    lines != [] && (LineMentions(lines[0], v, lines) || Mentions(lines[1..], v))
  }

  predicate LineMentions(line: Line, v: Var, ghost lines: seq<Line>)
    requires lines != [] && line == lines[0]
    decreases lines, 0
  {
    match line
    case ForwardDeclaration(w) => w == v
    case Assignment(target, _, a, b) => Name(v) in [target, a, b]
    case AssertEq(l, r) => Name(v) in [l, r]
    case IfNotZero(c, t, e) => c == Name(v) || Mentions(t, v) || Mentions(e, v)
    case Match(value, arms, _) => value == Name(v) || exists k {:trigger arms[k]} :: 0 <= k < |arms| && Mentions(arms[k].body, v)
    case PanicLine => false
    case FunctionRet(data) => Name(v) in data
  }

  /** False only if every run of the lines stops or returns. */
  predicate FallsThrough(lines: seq<Line>)
    decreases lines
  {
    lines == [] ||
    (FallsThrough(lines[1..]) &&
      match lines[0]
      case IfNotZero(_, t, e) => FallsThrough(t) || FallsThrough(e)
      case Match(_, arms, _) => exists k {:trigger arms[k]} :: 0 <= k < |arms| && FallsThrough(arms[k].body)
      case PanicLine => false
      case FunctionRet(_) => false
      case _ => true)
  }

  /** v, declared already or not, is introduced at most once on every path and not used before. */
  predicate HoistSafe(lines: seq<Line>, v: Var, declared: bool)
    decreases lines
  {
    lines == [] ||
    var rest := lines[1..];
    match lines[0]
    case ForwardDeclaration(w) => if w == v then !declared && HoistSafe(rest, v, true) else HoistSafe(rest, v, declared)
    case Assignment(target, _, a, b) =>
      var now := declared || target == Name(v);
      (now || Name(v) !in [a, b]) && HoistSafe(rest, v, now)
    case AssertEq(l, r) => HoistSafe(rest, v, declared || Name(v) in [l, r])
    case IfNotZero(c, t, e) =>
      (declared || c != Name(v)) && HoistSafe(t, v, declared) && HoistSafe(e, v, declared) && HoistSafe(rest, v, declared)
      && (declared || !((FallsThrough(t) && Mentions(t, v)) || (FallsThrough(e) && Mentions(e, v))) || !Mentions(rest, v))
    case Match(value, arms, _) =>
      (declared || value != Name(v)) && HoistSafe(rest, v, declared)
      && (forall k {:trigger arms[k]} | 0 <= k < |arms| :: HoistSafe(arms[k].body, v, declared))
      && (declared || !(exists k {:trigger arms[k]} :: 0 <= k < |arms| && FallsThrough(arms[k].body) && Mentions(arms[k].body, v)) || !Mentions(rest, v))
    case PanicLine => true
    case FunctionRet(data) => declared || Name(v) !in data
  }

  // ----- the two environments

  ghost predicate InEnv(env: Env, v: Var) { exists i {:trigger env[i]} :: 0 <= i < |env| && v in env[i] }

  /** Variables that are not hoisted are held alike. */
  ghost predicate SameOthers(h: set<Var>, env: Env, envH: Env) {
    && |env| == |envH| > 0
    && (forall i, w {:trigger w in env[i]} {:trigger w in envH[i]} | 0 <= i < |env| && w !in h :: w in env[i] <==> w in envH[i])
    && (forall i, w {:trigger env[i][w]} {:trigger envH[i][w]} | 0 <= i < |env| && w !in h && w in env[i] && w in envH[i] :: env[i][w] == envH[i][w])
  }

  /** Hoisted variables live in the outermost scope only; declared ones have the value they have in the plain environment. */
  ghost predicate SameHoisted(h: set<Var>, env: Env, envH: Env)
    requires |env| == |envH| > 0
  {
    && (forall v {:trigger v in envH[0]} | v in h :: v in envH[0])
    && (forall i, v {:trigger v in envH[i]} | 0 < i < |env| && v in h :: v !in envH[i])
    && (forall i, v {:trigger env[i][v]} | 0 <= i < |env| && v in h && v in env[i] && v in envH[0] :: env[i][v] == envH[0][v])
    && (forall i, j, v {:trigger v in env[i], v in env[j]} | 0 <= i < |env| && 0 <= j < |env| && v in h && v in env[i] && v in env[j] :: i == j)
  }

  /** Live variables that are not declared have no value yet. */
  ghost predicate FreshLive(h: set<Var>, env: Env, envH: Env, live: set<Var>)
    requires |env| == |envH| > 0
  {
    forall v {:trigger v in live} | v in live && v in h && v in envH[0] && !InEnv(env, v) :: envH[0][v] == None
  }

  ghost predicate RelH(h: set<Var>, env: Env, envH: Env, live: set<Var>) {
    SameOthers(h, env, envH) && SameHoisted(h, env, envH) && FreshLive(h, env, envH, live)
  }

  lemma {:induction false} FindOther(h: set<Var>, env: Env, envH: Env, w: Var, n: nat)
    requires n <= |env| == |envH| && w !in h
    requires forall i {:trigger env[i]} | 0 <= i < n :: w in env[i] <==> w in envH[i]
    ensures Find(env[..n], w) == Find(envH[..n], w)
    decreases n
  {
    if n > 0 {
      assert env[..n][..n - 1] == env[..n - 1] && envH[..n][..n - 1] == envH[..n - 1];
      assert env[n - 1] == env[..n][n - 1];
      FindOther(h, env, envH, w, n - 1);
    }
  }

  lemma FindHoisted(h: set<Var>, env: Env, envH: Env, v: Var)
    requires |env| == |envH| > 0 && SameHoisted(h, env, envH) && v in h
    ensures Find(envH, v) == Some(0)
    ensures InEnv(env, v) <==> Find(env, v).Some?
  {
    assert v in envH[0];
    assert Find(envH, v).Some?;
    var i := Find(envH, v).value;
    assert v in envH[i];
    if InEnv(env, v) {
      var j :| 0 <= j < |env| && v in env[j];
    }
  }

  lemma FindSame(h: set<Var>, env: Env, envH: Env, w: Var)
    requires SameOthers(h, env, envH) && w !in h
    ensures Find(env, w) == Find(envH, w) && (InEnv(env, w) <==> Find(env, w).Some?)
  {
    assert env[..|env|] == env && envH[..|envH|] == envH;
    FindOther(h, env, envH, w, |env|);
    if InEnv(env, w) {
      var j :| 0 <= j < |env| && w in env[j];
    }
  }

  /** An expression whose variable, if hoisted, is declared. */
  ghost predicate Seen(h: set<Var>, env: Env, e: Expr) { e.Name? && e.v in h ==> InEnv(env, e.v) }

  lemma EvalSame(h: set<Var>, env: Env, envH: Env, live: set<Var>, e: Expr)
    requires RelH(h, env, envH, live) && Seen(h, env, e)
    ensures Eval(env, e) == Eval(envH, e)
  {
    if e.Name? {
      if e.v in h {
        FindHoisted(h, env, envH, e.v);
        var i := Find(env, e.v).value;
        assert env[i][e.v] == envH[0][e.v];
      } else {
        FindSame(h, env, envH, e.v);
      }
    }
  }

  ghost predicate KeysKept(env: Env, env1: Env) {
    |env1| == |env| && forall i, v {:trigger v in env1[i]} {:trigger v in env[i]} | 0 <= i < |env| :: v in env1[i] <==> v in env[i]
  }

  lemma SetVarKeys(env: Env, e: Expr, x: Fe)
    requires SetVar(env, e, x).Some?
    ensures KeysKept(env, SetVar(env, e, x).value)
  {
  }

  lemma InEnvKept(env: Env, env1: Env, v: Var)
    requires KeysKept(env, env1)
    ensures InEnv(env1, v) <==> InEnv(env, v)
  {
    if InEnv(env, v) { var i :| 0 <= i < |env| && v in env[i]; assert v in env1[i]; }
    if InEnv(env1, v) { var i :| 0 <= i < |env| && v in env1[i]; assert v in env[i]; }
  }

  lemma SetSame(h: set<Var>, env: Env, envH: Env, live: set<Var>, e: Expr, x: Fe)
    requires RelH(h, env, envH, live) && Seen(h, env, e)
    ensures SetVar(env, e, x).Some? <==> SetVar(envH, e, x).Some?
    ensures SetVar(env, e, x).Some? ==> RelH(h, SetVar(env, e, x).value, SetVar(envH, e, x).value, live) && KeysKept(env, SetVar(env, e, x).value)
  {
    if e.Name? {
      if e.v in h {
        FindHoisted(h, env, envH, e.v);
        SetHoisted(h, env, envH, live, e.v, Find(env, e.v).value, x);
      } else {
        FindSame(h, env, envH, e.v);
        if Find(env, e.v).Some? {
          SetOther(h, env, envH, live, e.v, Find(env, e.v).value, x);
        }
      }
    }
  }

  lemma SetHoisted(h: set<Var>, env: Env, envH: Env, live: set<Var>, v: Var, i: nat, x: Fe)
    requires RelH(h, env, envH, live) && v in h && i < |env| && v in env[i]
    ensures RelH(h, env[i := env[i][v := Some(x)]], envH[0 := envH[0][v := Some(x)]], live)
    ensures KeysKept(env, env[i := env[i][v := Some(x)]])
  {
    var env1, envH1 := env[i := env[i][v := Some(x)]], envH[0 := envH[0][v := Some(x)]];
    assert v in envH[0];
    forall w ensures InEnv(env1, w) <==> InEnv(env, w) { InEnvKept(env, env1, w); }
    forall j, w {:trigger env1[j][w]} | 0 <= j < |env1| && w in h && w in env1[j] && w in envH1[0] ensures env1[j][w] == envH1[0][w] {
      assert w in env[j];
    }
  }

  lemma SetOther(h: set<Var>, env: Env, envH: Env, live: set<Var>, w: Var, i: nat, x: Fe)
    requires RelH(h, env, envH, live) && w !in h && i < |env| && w in env[i]
    ensures RelH(h, env[i := env[i][w := Some(x)]], envH[i := envH[i][w := Some(x)]], live)
    ensures KeysKept(env, env[i := env[i][w := Some(x)]])
  {
    var env1 := env[i := env[i][w := Some(x)]];
    assert w in envH[i];
    forall u ensures InEnv(env1, u) <==> InEnv(env, u) { InEnvKept(env, env1, u); }
  }

  lemma EquationSame(h: set<Var>, env: Env, envH: Env, live: set<Var>, op: Operation, a: Expr, b: Expr, res: Expr)
    requires RelH(h, env, envH, live) && Seen(h, env, a) && Seen(h, env, b) && Seen(h, env, res)
    ensures var q, qH := Equation(env, op, a, b, res), Equation(envH, op, a, b, res);
            (q.Some? <==> qH.Some?) && (q.Some? ==> RelH(h, q.value, qH.value, live) && KeysKept(env, q.value))
  {
    hide RelH, Seen;
    EvalSame(h, env, envH, live, a);
    EvalSame(h, env, envH, live, b);
    EvalSame(h, env, envH, live, res);
    match Solve(op, Eval(env, a), Eval(env, b), Eval(env, res))
    case SetA(x) => SetSame(h, env, envH, live, a, x);
    case SetB(x) => SetSame(h, env, envH, live, b, x);
    case SetRes(x) => SetSame(h, env, envH, live, res, x);
    case Holds =>
    case Fails =>
  }

  /** Declaring a hoisted variable changes the plain environment only. */
  lemma DeclareHoisted(h: set<Var>, env: Env, envH: Env, live: set<Var>, v: Var)
    requires RelH(h, env, envH, live) && v in h && v in live && !InEnv(env, v)
    ensures RelH(h, InsertLast(env, v, None), envH, live)
  {
    var env1 := InsertLast(env, v, None);
    assert v in envH[0] && envH[0][v] == None;
    forall i {:trigger env[i]} | 0 <= i < |env| ensures v !in env[i] {
    }
    forall w ensures InEnv(env1, w) <==> w == v || InEnv(env, w) { InsertedIn(env, v, w); }
  }

  lemma DeclareOther(h: set<Var>, env: Env, envH: Env, live: set<Var>, w: Var)
    requires RelH(h, env, envH, live) && w !in h
    ensures RelH(h, InsertLast(env, w, None), InsertLast(envH, w, None), live)
  {
    var env1 := InsertLast(env, w, None);
    forall u ensures InEnv(env1, u) <==> u == w || InEnv(env, u) { InsertedIn(env, w, u); }
  }

  lemma InsertedIn(env: Env, v: Var, u: Var)
    requires env != []
    ensures InEnv(InsertLast(env, v, None), u) <==> u == v || InEnv(env, u)
  {
    var env1 := InsertLast(env, v, None);
    var n := |env| - 1;
    assert v in env1[n];
    if InEnv(env, u) { var i :| 0 <= i < |env| && u in env[i]; assert u in env1[i]; }
    if InEnv(env1, u) && u != v { var i :| 0 <= i < |env| && u in env1[i]; assert u in env[i]; }
  }

  lemma IntroduceSame(h: set<Var>, env: Env, envH: Env, live: set<Var>, e: Expr)
    requires RelH(h, env, envH, live) && (e.Name? && e.v in h && !InEnv(env, e.v) ==> e.v in live)
    ensures RelH(h, Introduce(env, e), Introduce(envH, e), live) && Seen(h, Introduce(env, e), e)
    ensures forall u {:trigger InEnv(Introduce(env, e), u)} :: InEnv(Introduce(env, e), u) <==> InEnv(env, u) || e == Name(u)
  {
    hide RelH;
    if e.Name? {
      RelParts(h, env, envH, live);
      if e.v in h {
        FindHoisted(h, env, envH, e.v);
        if !InEnv(env, e.v) {
          DeclareHoisted(h, env, envH, live, e.v);
        }
      } else {
        FindSame(h, env, envH, e.v);
        if !InEnv(env, e.v) {
          DeclareOther(h, env, envH, live, e.v);
        }
      }
      forall u ensures InEnv(Introduce(env, e), u) <==> InEnv(env, u) || e == Name(u) {
        InsertedIn(env, e.v, u);
      }
    }
  }

  lemma RelParts(h: set<Var>, env: Env, envH: Env, live: set<Var>)
    requires RelH(h, env, envH, live)
    ensures |env| == |envH| > 0 && SameOthers(h, env, envH) && SameHoisted(h, env, envH)
  {
  }

  lemma PushH(h: set<Var>, env: Env, envH: Env, live: set<Var>)
    requires RelH(h, env, envH, live)
    ensures RelH(h, env + [map[]], envH + [map[]], live)
    ensures forall u {:trigger InEnv(env + [map[]], u)} :: InEnv(env + [map[]], u) <==> InEnv(env, u)
  {
    forall u ensures InEnv(env + [map[]], u) <==> InEnv(env, u) { PushedIn(env, u); }
  }

  lemma PushedIn(env: Env, u: Var)
    ensures InEnv(env + [map[]], u) <==> InEnv(env, u)
  {
    var env1 := env + [map[]];
    if InEnv(env, u) { var i :| 0 <= i < |env| && u in env[i]; assert u in env1[i]; }
    if InEnv(env1, u) { var i :| 0 <= i < |env1| && u in env1[i]; assert u in env[i]; }
  }

  lemma PoppedIn(env: Env, u: Var)
    requires env != []
    ensures InEnv(env, u) <==> InEnv(env[..|env| - 1], u) || u in env[|env| - 1]
  {
    var env1 := env[..|env| - 1];
    if InEnv(env1, u) { var i :| 0 <= i < |env1| && u in env1[i]; assert u in env[i]; }
    if InEnv(env, u) && u !in env[|env| - 1] { var i :| 0 <= i < |env| && u in env[i]; assert u in env1[i]; }
  }

  /** Popping a scope whose hoisted variables are not live any more. */
  lemma PopH(h: set<Var>, env: Env, envH: Env, live: set<Var>)
    requires RelH(h, env, envH, live) && |env| > 1
    requires forall v {:trigger v in live} | v in live && v in h :: v !in env[|env| - 1]
    ensures RelH(h, env[..|env| - 1], envH[..|envH| - 1], live)
  {
    var env1 := env[..|env| - 1];
    forall v ensures InEnv(env, v) <==> InEnv(env1, v) || v in env[|env| - 1] { PoppedIn(env, v); }
  }

  lemma FewerLive(h: set<Var>, env: Env, envH: Env, live: set<Var>, live1: set<Var>)
    requires RelH(h, env, envH, live) && live1 <= live
    ensures RelH(h, env, envH, live1)
  {
    forall v {:trigger v in live1} | v in live1 && v in h && v in envH[0] && !InEnv(env, v) ensures envH[0][v] == None {
      assert v in live;
    }
  }

  // ----- what running lines does to the plain environment

  /** Outer scopes hold the same variables; the innermost one gains only variables the lines mention. */
  ghost predicate GainsMentioned(env: Env, env1: Env, lines: seq<Line>) {
    && |env1| == |env| > 0
    && (forall i, v {:trigger v in env1[i]} | 0 <= i < |env| - 1 :: v in env1[i] <==> v in env[i])
    && (forall v {:trigger v in env1[|env| - 1]} :: v in env[|env| - 1] ==> v in env1[|env| - 1])
    && (forall v {:trigger v in env1[|env| - 1]} | v in env1[|env| - 1] && v !in env[|env| - 1] :: Mentions(lines, v))
  }

  lemma GainsRefl(env: Env, lines: seq<Line>)
    requires env != []
    ensures GainsMentioned(env, env, lines)
  {
  }

  /** A step whose new variables the first line mentions, then the rest. */
  lemma GainsTrans(env: Env, env1: Env, env2: Env, lines: seq<Line>)
    requires lines != [] && |env1| == |env| && env != [] && GainsMentioned(env1, env2, lines[1..])
    requires forall i, v {:trigger v in env1[i]} | 0 <= i < |env| - 1 :: v in env1[i] <==> v in env[i]
    requires forall v {:trigger v in env1[|env| - 1]} :: v in env[|env| - 1] ==> v in env1[|env| - 1]
    requires forall v {:trigger v in env1[|env| - 1]} | v in env1[|env| - 1] && v !in env[|env| - 1] :: LineMentions(lines[0], v, lines)
    ensures GainsMentioned(env, env2, lines)
  {
    forall v {:trigger v in env2[|env| - 1]} | v in env2[|env| - 1] && v !in env[|env| - 1] ensures Mentions(lines, v) {
      if v !in env1[|env| - 1] {
        assert Mentions(lines[1..], v);
      }
    }
    forall v {:trigger v in env2[|env| - 1]} | v in env[|env| - 1] ensures v in env2[|env| - 1] {
      assert v in env1[|env| - 1];
    }
    forall i, v {:trigger v in env2[i]} | 0 <= i < |env| - 1 ensures v in env2[i] <==> v in env[i] {
      assert v in env2[i] <==> v in env1[i];
    }
  }

  /** A nested block leaves no variables behind once its scope is popped. */
  lemma NestedKeeps(env: Env, env1: Env, body: seq<Line>)
    requires env != [] && GainsMentioned(env + [map[]], env1, body)
    ensures |env1| == |env| + 1 && KeysKept(env, env1[..|env|])
  {
  }

  lemma EquationKeys(env: Env, op: Operation, a: Expr, b: Expr, res: Expr)
    requires Equation(env, op, a, b, res).Some?
    ensures KeysKept(env, Equation(env, op, a, b, res).value)
  {
    hide SetVar, KeysKept;
    match Solve(op, Eval(env, a), Eval(env, b), Eval(env, res))
    case SetA(x) => SetVarKeys(env, a, x);
    case SetB(x) => SetVarKeys(env, b, x);
    case SetRes(x) => SetVarKeys(env, res, x);
    case Holds => KeysRefl(env);
    case Fails =>
  }

  lemma KeysRefl(env: Env)
    ensures KeysKept(env, env)
  {
  }

  lemma IntroduceKeys(env: Env, e: Expr)
    requires env != []
    ensures |Introduce(env, e)| == |env|
    ensures forall i, v {:trigger v in Introduce(env, e)[i]} | 0 <= i < |env| - 1 :: v in Introduce(env, e)[i] <==> v in env[i]
    ensures forall v {:trigger v in Introduce(env, e)[|env| - 1]} ::
              v in Introduce(env, e)[|env| - 1] <==> v in env[|env| - 1] || (e == Name(v) && Find(env, v).None?)
  {
  }

  lemma {:induction false} ExecGains(d: set<Var>, lines: seq<Line>, env: Env)
    requires env != [] && Exec({}, d, lines, env).Next?
    ensures GainsMentioned(env, Exec({}, d, lines, env).env, lines) && FallsThrough(lines)
    decreases lines
  {
    if lines == [] {
      GainsRefl(env, lines);
    } else {
      hide GainsMentioned, Equation, KeysKept, Introduce;
      match lines[0]
      case ForwardDeclaration(v) =>
        var env1 := if v in d then env else InsertLast(env, v, None);
        ExecGains(d, lines[1..], env1);
        GainsTrans(env, env1, Exec({}, d, lines, env).env, lines);
      case Assignment(target, op, a, b) =>
        if IsStore(d, target) {
          ExecGains(d, lines[1..], env);
          GainsTrans(env, env, Exec({}, d, lines, env).env, lines);
        } else {
          AssignmentGains(d, lines, env);
        }
      case AssertEq(l, r) => AssertGains(d, lines, env);
      case IfNotZero(c, t, e) => IfGains(d, lines, env);
      case Match(value, arms, offset) => MatchGains(d, lines, env);
      case PanicLine =>
      case FunctionRet(data) =>
    }
  }

  lemma EquationGains(lines: seq<Line>, env: Env, env1: Env, env2: Env, out: Env)
    requires lines != [] && env != [] && |env1| == |env| && KeysKept(env1, env2) && GainsMentioned(env2, out, lines[1..])
    requires forall i, v {:trigger v in env1[i]} | 0 <= i < |env| - 1 :: v in env1[i] <==> v in env[i]
    requires forall v {:trigger v in env1[|env| - 1]} :: v in env[|env| - 1] ==> v in env1[|env| - 1]
    requires forall v {:trigger v in env1[|env| - 1]} | v in env1[|env| - 1] && v !in env[|env| - 1] :: LineMentions(lines[0], v, lines)
    ensures GainsMentioned(env, out, lines)
  {
    hide GainsMentioned;
    forall i, v {:trigger v in env2[i]} | 0 <= i < |env| ensures v in env2[i] <==> v in env1[i] {
    }
    GainsTrans(env, env2, out, lines);
  }

  lemma AssignmentGains(d: set<Var>, lines: seq<Line>, env: Env)
    requires lines != [] && lines[0].Assignment? && !IsStore(d, lines[0].target) && env != [] && Exec({}, d, lines, env).Next?
    ensures GainsMentioned(env, Exec({}, d, lines, env).env, lines) && FallsThrough(lines)
    decreases lines, 0
  {
    hide GainsMentioned, Equation, Introduce, KeysKept;
    var target := lines[0].target;
    var env1 := Introduce(env, target);
    var q := AsEquation(lines[0].op, lines[0].arg0, lines[0].arg1, target);
    var env2 := Equation(env1, q.op, q.a, q.b, q.res).value;
    EquationKeys(env1, q.op, q.a, q.b, q.res);
    IntroduceKeys(env, target);
    EquationKeepsScopes(env1, q.op, q.a, q.b, q.res);
    ExecGains(d, lines[1..], env2);
    forall v {:trigger v in env1[|env| - 1]} | v in env1[|env| - 1] && v !in env[|env| - 1] ensures LineMentions(lines[0], v, lines) {
      assert target == Name(v);
    }
    EquationGains(lines, env, env1, env2, Exec({}, d, lines[1..], env2).env);
  }

  lemma AssertGains(d: set<Var>, lines: seq<Line>, env: Env)
    requires lines != [] && lines[0].AssertEq? && env != [] && Exec({}, d, lines, env).Next?
    ensures GainsMentioned(env, Exec({}, d, lines, env).env, lines) && FallsThrough(lines)
    decreases lines, 0
  {
    hide GainsMentioned, Equation, Introduce, KeysKept;
    var l, r := lines[0].left, lines[0].right;
    var env0 := Introduce(env, l);
    var env1 := Introduce(env0, r);
    var env2 := Equation(env1, AddOp, l, Number(0), r).value;
    EquationKeys(env1, AddOp, l, Number(0), r);
    IntroduceKeys(env, l);
    IntroduceKeys(env0, r);
    EquationKeepsScopes(env1, AddOp, l, Number(0), r);
    ExecGains(d, lines[1..], env2);
    forall i, v {:trigger v in env1[i]} | 0 <= i < |env| - 1 ensures v in env1[i] <==> v in env[i] {
      assert v in env1[i] <==> v in env0[i];
    }
    forall v {:trigger v in env1[|env| - 1]} | v in env1[|env| - 1] && v !in env[|env| - 1] ensures LineMentions(lines[0], v, lines) {
      assert v in Introduce(env0, r)[|env0| - 1];
      assert v in env0[|env0| - 1] || r == Name(v);
      assert v in Introduce(env, l)[|env| - 1] ==> v in env[|env| - 1] || l == Name(v);
    }
    forall v {:trigger v in env1[|env| - 1]} | v in env[|env| - 1] ensures v in env1[|env| - 1] {
      assert v in env0[|env| - 1];
    }
    EquationGains(lines, env, env1, env2, Exec({}, d, lines[1..], env2).env);
  }

  lemma IfGains(d: set<Var>, lines: seq<Line>, env: Env)
    requires lines != [] && lines[0].IfNotZero? && env != [] && Exec({}, d, lines, env).Next?
    ensures GainsMentioned(env, Exec({}, d, lines, env).env, lines) && FallsThrough(lines)
    decreases lines, 0
  {
    hide GainsMentioned;
    var body := if Eval(env, lines[0].condition).value != 0 then lines[0].thenBranch else lines[0].elseBranch;
    var o := Exec({}, d, body, env + [map[]]);
    ExecGains(d, body, env + [map[]]);
    NestedKeeps(env, o.env, body);
    var env1 := o.env[..|env|];
    assert o.env[..|o.env| - 1] == env1;
    ExecGains(d, lines[1..], env1);
    KeptIs(env, env1);
    GainsTrans(env, env1, Exec({}, d, lines[1..], env1).env, lines);
  }

  lemma KeptIs(env: Env, env1: Env)
    requires KeysKept(env, env1) && env != []
    ensures |env1| == |env| && forall i, v {:trigger v in env1[i]} | 0 <= i < |env| :: v in env1[i] <==> v in env[i]
  {
  }

  lemma MatchGains(d: set<Var>, lines: seq<Line>, env: Env)
    requires lines != [] && lines[0].Match? && env != [] && Exec({}, d, lines, env).Next?
    ensures GainsMentioned(env, Exec({}, d, lines, env).env, lines) && FallsThrough(lines)
    decreases lines, 0
  {
    hide GainsMentioned, Eval;
    var p := env + [map[]];
    var k := Eval(p, lines[0].value).value - lines[0].offset;
    var body := lines[0].arms[k].body;
    var o := Exec({}, d, body, p + [map[]]);
    ExecGains(d, body, p + [map[]]);
    NestedKeeps(p, o.env, body);
    var env1 := o.env[..|p|];
    assert o.env[..|o.env| - 1] == env1;
    ExecGains(d, lines[1..], env1);
    var out := Exec({}, d, lines[1..], env1).env;
    assert Exec({}, d, lines, env).env == out[..|env|] by {
      assert out[..|out| - 1] == out[..|env|];
    }
    MatchPopped(env, env1, out, lines);
  }

  lemma MatchPopped(env: Env, env1: Env, out: Env, lines: seq<Line>)
    requires env != [] && lines != [] && KeysKept(env + [map[]], env1) && GainsMentioned(env1, out, lines[1..])
    ensures GainsMentioned(env, out[..|env|], lines)
  {
    forall i, v {:trigger v in out[i]} | 0 <= i < |env| ensures v in out[i] <==> v in env[i] {
      assert v in out[i] <==> v in env1[i];
      assert v in env1[i] <==> v in (env + [map[]])[i];
    }
  }

  // ----- hoisting keeps the meaning

  ghost predicate Safe(h: set<Var>, lines: seq<Line>, env: Env) { forall v {:trigger v in h} | v in h :: HoistSafe(lines, v, InEnv(env, v)) }

  ghost predicate LiveEnough(h: set<Var>, lines: seq<Line>, env: Env, live: set<Var>) {
    forall v {:trigger v in h} | v in h && Mentions(lines, v) && !InEnv(env, v) :: v in live
  }

  ghost function Unmentioned(live: set<Var>, lines: seq<Line>): set<Var> { set v | v in live && !Mentions(lines, v) }

  ghost predicate Agree(h: set<Var>, o: Outcome, oH: Outcome, live: set<Var>) {
    if o.Next? then oH.Next? && RelH(h, o.env, oH.env, live) else oH == o
  }

  ghost predicate Hoistable(h: set<Var>, d: set<Var>, lines: seq<Line>, env: Env, envH: Env, live: set<Var>) {
    h !! d && RelH(h, env, envH, live) && Safe(h, lines, env) && LiveEnough(h, lines, env, live)
  }

  lemma AgreeRest(h: set<Var>, lines: seq<Line>, o: Outcome, oH: Outcome, live: set<Var>)
    requires lines != [] && Agree(h, o, oH, Unmentioned(live, lines[1..]))
    ensures Agree(h, o, oH, Unmentioned(live, lines))
  {
    hide RelH;
    if o.Next? {
      FewerLive(h, o.env, oH.env, Unmentioned(live, lines[1..]), Unmentioned(live, lines));
    }
  }

  lemma {:induction false} HoistLines(h: set<Var>, d: set<Var>, lines: seq<Line>, env: Env, envH: Env, live: set<Var>)
    requires Hoistable(h, d, lines, env, envH, live)
    ensures env != [] && envH != [] && Agree(h, Exec({}, d, lines, env), Exec(h, d, lines, envH), Unmentioned(live, lines))
    decreases lines, 2
  {
    RelParts(h, env, envH, live);
    if lines == [] {
      FewerLive(h, env, envH, live, Unmentioned(live, lines));
    } else {
      match lines[0]
      case ForwardDeclaration(v) =>
        if v in d {
          HoistDropped(h, d, lines, env, envH, live);
        } else {
          HoistDeclaration(h, d, lines, env, envH, live);
        }
      case Assignment(target, op, a, b) =>
        if IsStore(d, target) {
          HoistDropped(h, d, lines, env, envH, live);
        } else {
          HoistAssignment(h, d, lines, env, envH, live);
        }
      case AssertEq(l, r) => HoistAssert(h, d, lines, env, envH, live);
      case IfNotZero(c, t, e) => HoistIf(h, d, lines, env, envH, live);
      case Match(value, arms, offset) => HoistMatch(h, d, lines, env, envH, live);
      case PanicLine =>
      case FunctionRet(data) => HoistReturn(h, d, lines, env, envH, live);
    }
  }

  predicate Dropped(d: set<Var>, line: Line) {
    (line.ForwardDeclaration? && line.v in d) || (line.Assignment? && IsStore(d, line.target))
  }

  /** A skipped line concerns no hoisted variable. */
  lemma HoistDropped(h: set<Var>, d: set<Var>, lines: seq<Line>, env: Env, envH: Env, live: set<Var>)
    requires lines != [] && Dropped(d, lines[0]) && Hoistable(h, d, lines, env, envH, live) && env != [] && envH != []
    ensures Agree(h, Exec({}, d, lines, env), Exec(h, d, lines, envH), Unmentioned(live, lines))
    decreases lines, 1
  {
    hide RelH, InEnv, Agree, Unmentioned;
    forall v {:trigger v in h} | v in h
      ensures HoistSafe(lines[1..], v, InEnv(env, v)) && (Mentions(lines[1..], v) && !InEnv(env, v) ==> v in live)
    {
      assert HoistSafe(lines, v, InEnv(env, v)) && v !in d;
    }
    HoistLines(h, d, lines[1..], env, envH, live);
    AgreeRest(h, lines, Exec({}, d, lines[1..], env), Exec(h, d, lines[1..], envH), live);
  }

  lemma HoistDeclaration(h: set<Var>, d: set<Var>, lines: seq<Line>, env: Env, envH: Env, live: set<Var>)
    requires lines != [] && lines[0].ForwardDeclaration? && lines[0].v !in d && Hoistable(h, d, lines, env, envH, live) && env != [] && envH != []
    ensures Agree(h, Exec({}, d, lines, env), Exec(h, d, lines, envH), Unmentioned(live, lines))
    decreases lines, 1
  {
    hide RelH, InEnv, Agree, Unmentioned;
    var w := lines[0].v;
    var env1, envH1 := InsertLast(env, w, None), if w in h then envH else InsertLast(envH, w, None);
    if w in h {
      assert HoistSafe(lines, w, InEnv(env, w)) && LineMentions(lines[0], w, lines) && Mentions(lines, w);
      DeclareHoisted(h, env, envH, live, w);
    } else {
      DeclareOther(h, env, envH, live, w);
    }
    forall v {:trigger v in h} | v in h ensures HoistSafe(lines[1..], v, InEnv(env1, v)) && (Mentions(lines[1..], v) && !InEnv(env1, v) ==> v in live) {
      InsertedIn(env, w, v);
    }
    HoistLines(h, d, lines[1..], env1, envH1, live);
    AgreeRest(h, lines, Exec({}, d, lines[1..], env1), Exec(h, d, lines[1..], envH1), live);
  }

  lemma HoistEquation(h: set<Var>, d: set<Var>, lines: seq<Line>, env1: Env, envH1: Env, live: set<Var>, op: Operation, a: Expr, b: Expr, res: Expr, o: Outcome, oH: Outcome)
    requires h !! d && lines != [] && RelH(h, env1, envH1, live) && Seen(h, env1, a) && Seen(h, env1, b) && Seen(h, env1, res)
    requires Safe(h, lines[1..], env1) && LiveEnough(h, lines[1..], env1, live)
    requires var q := Equation(env1, op, a, b, res);
             if q.Some? then q.value != [] && o == Exec({}, d, lines[1..], q.value) else o == Stuck
    requires var q := Equation(envH1, op, a, b, res);
             if q.Some? then q.value != [] && oH == Exec(h, d, lines[1..], q.value) else oH == Stuck
    ensures Agree(h, o, oH, Unmentioned(live, lines))
    decreases lines, 0
  {
    hide RelH, InEnv, Unmentioned, HoistSafe, Mentions, Exec, Equation, KeysKept, Seen;
    EquationSame(h, env1, envH1, live, op, a, b, res);
    if Equation(env1, op, a, b, res).Some? {
      var env2, envH2 := Equation(env1, op, a, b, res).value, Equation(envH1, op, a, b, res).value;
      forall v {:trigger v in h} | v in h ensures InEnv(env2, v) <==> InEnv(env1, v) { InEnvKept(env1, env2, v); }
      HoistLines(h, d, lines[1..], env2, envH2, live);
      AgreeRest(h, lines, o, oH, live);
    }
  }

  lemma HoistAssignment(h: set<Var>, d: set<Var>, lines: seq<Line>, env: Env, envH: Env, live: set<Var>)
    requires lines != [] && lines[0].Assignment? && !IsStore(d, lines[0].target) && Hoistable(h, d, lines, env, envH, live) && env != [] && envH != []
    ensures Agree(h, Exec({}, d, lines, env), Exec(h, d, lines, envH), Unmentioned(live, lines))
    decreases lines, 1
  {
    hide RelH, InEnv, Agree, Unmentioned, Equation;
    var target, op, a, b := lines[0].target, lines[0].op, lines[0].arg0, lines[0].arg1;
    var env1, envH1 := Introduce(env, target), Introduce(envH, target);
    assert target.Name? && target.v in h ==> LineMentions(lines[0], target.v, lines) && Mentions(lines, target.v);
    IntroduceSame(h, env, envH, live, target);
    forall v {:trigger v in h} | v in h
      ensures HoistSafe(lines[1..], v, InEnv(env1, v)) && (Mentions(lines[1..], v) && !InEnv(env1, v) ==> v in live)
      ensures a == Name(v) || b == Name(v) ==> InEnv(env1, v)
    {
      assert InEnv(env1, v) <==> InEnv(env, v) || target == Name(v);
    }
    var q := AsEquation(op, a, b, target);
    if Equation(env1, q.op, q.a, q.b, q.res).Some? { EquationKeepsScopes(env1, q.op, q.a, q.b, q.res); }
    if Equation(envH1, q.op, q.a, q.b, q.res).Some? { EquationKeepsScopes(envH1, q.op, q.a, q.b, q.res); }
    HoistEquation(h, d, lines, env1, envH1, live, q.op, q.a, q.b, q.res, Exec({}, d, lines, env), Exec(h, d, lines, envH));
  }

  lemma HoistAssert(h: set<Var>, d: set<Var>, lines: seq<Line>, env: Env, envH: Env, live: set<Var>)
    requires lines != [] && lines[0].AssertEq? && Hoistable(h, d, lines, env, envH, live) && env != [] && envH != []
    ensures Agree(h, Exec({}, d, lines, env), Exec(h, d, lines, envH), Unmentioned(live, lines))
    decreases lines, 1
  {
    hide RelH, InEnv, Agree, Unmentioned, Equation;
    var l, r := lines[0].left, lines[0].right;
    var env0, envH0 := Introduce(env, l), Introduce(envH, l);
    var env1, envH1 := Introduce(env0, r), Introduce(envH0, r);
    assert l.Name? && l.v in h ==> LineMentions(lines[0], l.v, lines) && Mentions(lines, l.v);
    assert r.Name? && r.v in h ==> LineMentions(lines[0], r.v, lines) && Mentions(lines, r.v);
    IntroduceSame(h, env, envH, live, l);
    IntroduceSame(h, env0, envH0, live, r);
    forall v {:trigger v in h} | v in h
      ensures HoistSafe(lines[1..], v, InEnv(env1, v)) && (Mentions(lines[1..], v) && !InEnv(env1, v) ==> v in live)
      ensures l == Name(v) || r == Name(v) ==> InEnv(env1, v)
    {
      assert InEnv(env1, v) <==> InEnv(env0, v) || r == Name(v);
      assert InEnv(env0, v) <==> InEnv(env, v) || l == Name(v);
    }
    if Equation(env1, AddOp, l, Number(0), r).Some? { EquationKeepsScopes(env1, AddOp, l, Number(0), r); }
    if Equation(envH1, AddOp, l, Number(0), r).Some? { EquationKeepsScopes(envH1, AddOp, l, Number(0), r); }
    HoistEquation(h, d, lines, env1, envH1, live, AddOp, l, Number(0), r, Exec({}, d, lines, env), Exec(h, d, lines, envH));
  }

  lemma {:induction false} EvalAllSame(h: set<Var>, env: Env, envH: Env, live: set<Var>, data: seq<Expr>)
    requires RelH(h, env, envH, live) && forall k {:trigger data[k]} | 0 <= k < |data| :: Seen(h, env, data[k])
    ensures EvalAll(env, data) == EvalAll(envH, data)
    decreases |data|
  {
    if data != [] {
      hide RelH, Seen;
      EvalSame(h, env, envH, live, data[0]);
      EvalAllSame(h, env, envH, live, data[1..]);
    }
  }

  lemma HoistReturn(h: set<Var>, d: set<Var>, lines: seq<Line>, env: Env, envH: Env, live: set<Var>)
    requires lines != [] && lines[0].FunctionRet? && Hoistable(h, d, lines, env, envH, live) && env != [] && envH != []
    ensures Agree(h, Exec({}, d, lines, env), Exec(h, d, lines, envH), Unmentioned(live, lines))
  {
    hide RelH, InEnv;
    var data := lines[0].data;
    forall k {:trigger data[k]} | 0 <= k < |data| ensures Seen(h, env, data[k]) {
      if data[k].Name? && data[k].v in h {
        assert HoistSafe(lines, data[k].v, InEnv(env, data[k].v));
        assert Name(data[k].v) in data;
      }
    }
    EvalAllSame(h, env, envH, live, data);
  }

  // ----- nested blocks

  /** A nested block agrees, and once its scope is popped what follows is hoistable. */
  lemma HoistNested(h: set<Var>, d: set<Var>, body: seq<Line>, rest: seq<Line>, env: Env, envH: Env, live: set<Var>)
    requires h !! d && RelH(h, env, envH, live) && Safe(h, rest, env) && Safe(h, body, env) && LiveEnough(h, body, env, live)
    requires LiveEnough(h, rest, env, live) && env != [] && envH != []
    requires forall v {:trigger v in h} | v in h && !InEnv(env, v) && Mentions(rest, v) :: !(FallsThrough(body) && Mentions(body, v))
    ensures var o, oH := Exec({}, d, body, env + [map[]]), Exec(h, d, body, envH + [map[]]);
            if o.Next? then oH.Next? && |o.env| == |env| + 1 && |oH.env| == |envH| + 1
                            && Hoistable(h, d, rest, o.env[..|env|], oH.env[..|envH|], Unmentioned(live, body))
            else oH == o
    decreases body, 3
  {
    RelParts(h, env, envH, live);
    hide RelH, InEnv, FallsThrough, HoistSafe, Mentions, Exec, GainsMentioned;
    var env1, envH1 := env + [map[]], envH + [map[]];
    PushH(h, env, envH, live);
    HoistLines(h, d, body, env1, envH1, live);
    var o, oH := Exec({}, d, body, env1), Exec(h, d, body, envH1);
    if o.Next? {
      ExecGains(d, body, env1);
      NestedKeeps(env, o.env, body);
      PopNested(h, body, env, envH, live, o.env, oH.env);
      forall v {:trigger v in h} | v in h
        ensures HoistSafe(rest, v, InEnv(o.env[..|env|], v)) && (Mentions(rest, v) && !InEnv(o.env[..|env|], v) ==> v in Unmentioned(live, body))
      {
        InEnvKept(env, o.env[..|env|], v);
      }
    }
  }

  lemma PopNested(h: set<Var>, body: seq<Line>, env: Env, envH: Env, live: set<Var>, env1: Env, envH1: Env)
    requires env != [] && |envH| == |env| && GainsMentioned(env + [map[]], env1, body) && RelH(h, env1, envH1, Unmentioned(live, body))
    ensures |envH1| == |env1| == |env| + 1 && RelH(h, env1[..|env|], envH1[..|envH|], Unmentioned(live, body))
  {
    RelParts(h, env1, envH1, Unmentioned(live, body));
    hide RelH;
    assert env1[..|env1| - 1] == env1[..|env|] && envH1[..|envH1| - 1] == envH1[..|envH|];
    forall v {:trigger v in Unmentioned(live, body)} | v in Unmentioned(live, body) && v in h ensures v !in env1[|env1| - 1] {
      assert v !in (env + [map[]])[|env|];
    }
    PopH(h, env1, envH1, Unmentioned(live, body));
  }

  lemma HoistIf(h: set<Var>, d: set<Var>, lines: seq<Line>, env: Env, envH: Env, live: set<Var>)
    requires lines != [] && lines[0].IfNotZero? && Hoistable(h, d, lines, env, envH, live) && env != [] && envH != []
    ensures Agree(h, Exec({}, d, lines, env), Exec(h, d, lines, envH), Unmentioned(live, lines))
    decreases lines, 1
  {
    hide RelH, InEnv, Unmentioned;
    var c, rest := lines[0].condition, lines[1..];
    assert Seen(h, env, c) by {
      if c.Name? && c.v in h { assert HoistSafe(lines, c.v, InEnv(env, c.v)); }
    }
    EvalSame(h, env, envH, live, c);
    var v := Eval(env, c);
    if v.Some? {
      var body := if v.value != 0 then lines[0].thenBranch else lines[0].elseBranch;
      IfConditions(h, lines, env, live, body);
      HoistNested(h, d, body, rest, env, envH, live);
      HoistAfter(h, d, lines, body, env, envH, live);
      ExecBranch({}, d, lines, env, body);
      ExecBranch(h, d, lines, envH, body);
    }
  }

  lemma IfConditions(h: set<Var>, lines: seq<Line>, env: Env, live: set<Var>, body: seq<Line>)
    requires lines != [] && lines[0].IfNotZero? && Safe(h, lines, env) && LiveEnough(h, lines, env, live)
    requires body == lines[0].thenBranch || body == lines[0].elseBranch
    ensures Safe(h, lines[1..], env) && Safe(h, body, env) && LiveEnough(h, body, env, live) && LiveEnough(h, lines[1..], env, live)
    ensures forall v {:trigger v in h} | v in h && !InEnv(env, v) && Mentions(lines[1..], v) :: !(FallsThrough(body) && Mentions(body, v))
    ensures forall v {:trigger Mentions(lines, v)} :: Mentions(body, v) || Mentions(lines[1..], v) ==> Mentions(lines, v)
  {
    hide InEnv;
    forall v {:trigger v in h} | v in h
      ensures HoistSafe(lines[1..], v, InEnv(env, v)) && HoistSafe(body, v, InEnv(env, v))
      ensures Mentions(body, v) || Mentions(lines[1..], v) ==> Mentions(lines, v)
      ensures !InEnv(env, v) && Mentions(lines[1..], v) ==> !(FallsThrough(body) && Mentions(body, v))
    {
      assert HoistSafe(lines, v, InEnv(env, v));
    }
  }

  lemma ExecBranch(hoisted: set<Var>, d: set<Var>, lines: seq<Line>, env: Env, body: seq<Line>)
    requires lines != [] && lines[0].IfNotZero? && env != [] && Eval(env, lines[0].condition).Some?
    requires body == if Eval(env, lines[0].condition).value != 0 then lines[0].thenBranch else lines[0].elseBranch
    ensures var o := Exec(hoisted, d, body, env + [map[]]);
            Exec(hoisted, d, lines, env) == if o.Next? then Exec(hoisted, d, lines[1..], o.env[..|env|]) else o
  {
    var o := Exec(hoisted, d, body, env + [map[]]);
    assert o.Next? ==> o.env[..|o.env| - 1] == o.env[..|env|];
  }

  /** Running what follows a nested block. */
  lemma HoistAfter(h: set<Var>, d: set<Var>, lines: seq<Line>, body: seq<Line>, env: Env, envH: Env, live: set<Var>)
    requires lines != [] && env != [] && envH != []
    requires forall v {:trigger Mentions(lines, v)} :: Mentions(body, v) || Mentions(lines[1..], v) ==> Mentions(lines, v)
    requires var o, oH := Exec({}, d, body, env + [map[]]), Exec(h, d, body, envH + [map[]]);
             if o.Next? then oH.Next? && |o.env| == |env| + 1 && |oH.env| == |envH| + 1
                             && Hoistable(h, d, lines[1..], o.env[..|env|], oH.env[..|envH|], Unmentioned(live, body))
             else oH == o
    ensures var o, oH := Exec({}, d, body, env + [map[]]), Exec(h, d, body, envH + [map[]]);
            if o.Next? then Agree(h, Exec({}, d, lines[1..], o.env[..|env|]), Exec(h, d, lines[1..], oH.env[..|envH|]), Unmentioned(live, lines))
            else oH == o
    decreases lines[1..], 3
  {
    hide RelH, Exec, Hoistable, Mentions;
    var o, oH := Exec({}, d, body, env + [map[]]), Exec(h, d, body, envH + [map[]]);
    if o.Next? {
      HoistLines(h, d, lines[1..], o.env[..|env|], oH.env[..|envH|], Unmentioned(live, body));
      var o2, oH2 := Exec({}, d, lines[1..], o.env[..|env|]), Exec(h, d, lines[1..], oH.env[..|envH|]);
      if o2.Next? {
        assert Unmentioned(live, lines) <= Unmentioned(Unmentioned(live, body), lines[1..]);
        FewerLive(h, o2.env, oH2.env, Unmentioned(Unmentioned(live, body), lines[1..]), Unmentioned(live, lines));
      }
    }
  }

  lemma MatchConditions(h: set<Var>, lines: seq<Line>, env: Env, p: Env, live: set<Var>, k: nat)
    requires lines != [] && lines[0].Match? && Safe(h, lines, env) && LiveEnough(h, lines, env, live) && k < |lines[0].arms|
    requires forall v {:trigger InEnv(p, v)} :: InEnv(p, v) <==> InEnv(env, v)
    ensures var body := lines[0].arms[k].body;
            Safe(h, lines[1..], p) && Safe(h, body, p) && LiveEnough(h, body, p, live) && LiveEnough(h, lines[1..], p, live)
            && (forall v {:trigger v in h} | v in h && !InEnv(p, v) && Mentions(lines[1..], v) :: !(FallsThrough(body) && Mentions(body, v)))
            && (forall v {:trigger Mentions(lines, v)} :: Mentions(body, v) || Mentions(lines[1..], v) ==> Mentions(lines, v))
  {
    hide InEnv;
    var body := lines[0].arms[k].body;
    forall v {:trigger v in h} | v in h
      ensures HoistSafe(lines[1..], v, InEnv(p, v)) && HoistSafe(body, v, InEnv(p, v))
      ensures Mentions(body, v) || Mentions(lines[1..], v) ==> Mentions(lines, v)
      ensures !InEnv(p, v) && Mentions(lines[1..], v) ==> !(FallsThrough(body) && Mentions(body, v))
    {
      assert InEnv(p, v) <==> InEnv(env, v);
      assert HoistSafe(lines, v, InEnv(env, v));
      assert lines[0].arms[k] == lines[0].arms[k];
    }
  }

  lemma ExecArm(hoisted: set<Var>, d: set<Var>, lines: seq<Line>, env: Env, v: Fe)
    requires lines != [] && lines[0].Match? && env != [] && Eval(env + [map[]], lines[0].value) == Some(v)
    requires lines[0].offset <= v < lines[0].offset + |lines[0].arms|
    ensures var o := Exec(hoisted, d, lines[0].arms[v - lines[0].offset].body, env + [map[]] + [map[]]);
            Exec(hoisted, d, lines, env) == if o.Next? then Closed(Exec(hoisted, d, lines[1..], o.env[..|env| + 1])) else o
  {
    hide Eval, Equation, Introduce, InsertLast, EvalAll, AsEquation;
    var o := Exec(hoisted, d, lines[0].arms[v - lines[0].offset].body, env + [map[]] + [map[]]);
    assert o.Next? ==> o.env[..|o.env| - 1] == o.env[..|env| + 1];
  }

  lemma HoistMatch(h: set<Var>, d: set<Var>, lines: seq<Line>, env: Env, envH: Env, live: set<Var>)
    requires lines != [] && lines[0].Match? && Hoistable(h, d, lines, env, envH, live) && env != [] && envH != []
    ensures Agree(h, Exec({}, d, lines, env), Exec(h, d, lines, envH), Unmentioned(live, lines))
    decreases lines, 1
  {
    hide RelH, InEnv, Unmentioned;
    var value := lines[0].value;
    var p, pH := env + [map[]], envH + [map[]];
    PushH(h, env, envH, live);
    assert Seen(h, p, value) by {
      if value.Name? && value.v in h { assert HoistSafe(lines, value.v, InEnv(env, value.v)); }
    }
    EvalSame(h, p, pH, live, value);
    var v := Eval(p, value);
    if v.Some? && lines[0].offset <= v.value < lines[0].offset + |lines[0].arms| {
      HoistArm(h, d, lines, env, envH, live, v.value);
    }
  }

  lemma HoistArm(h: set<Var>, d: set<Var>, lines: seq<Line>, env: Env, envH: Env, live: set<Var>, v: Fe)
    requires lines != [] && lines[0].Match? && Hoistable(h, d, lines, env, envH, live) && env != [] && envH != []
    requires Eval(env + [map[]], lines[0].value) == Some(v) == Eval(envH + [map[]], lines[0].value)
    requires lines[0].offset <= v < lines[0].offset + |lines[0].arms|
    ensures Agree(h, Exec({}, d, lines, env), Exec(h, d, lines, envH), Unmentioned(live, lines))
    decreases lines, 0
  {
    hide RelH, InEnv, Unmentioned, Exec, Eval, HoistSafe, Mentions, FallsThrough, Agree;
    var rest := lines[1..];
    var p, pH := env + [map[]], envH + [map[]];
    PushH(h, env, envH, live);
    var body := lines[0].arms[v - lines[0].offset].body;
    MatchConditions(h, lines, env, p, live, v - lines[0].offset);
    ExecArm({}, d, lines, env, v);
    ExecArm(h, d, lines, envH, v);
    HoistNested(h, d, body, rest, p, pH, live);
    var o := Exec({}, d, body, p + [map[]]);
    HoistRest(h, d, lines, body, env, envH, live);
    if !o.Next? {
      AgreeEqual(h, o, Unmentioned(live, lines));
    }
  }

  lemma AgreeEqual(h: set<Var>, o: Outcome, live: set<Var>)
    requires !o.Next?
    ensures Agree(h, o, o, live)
  {
  }

  lemma HoistRest(h: set<Var>, d: set<Var>, lines: seq<Line>, body: seq<Line>, env: Env, envH: Env, live: set<Var>)
    requires lines != [] && env != [] && envH != [] && RelH(h, env, envH, live)
    requires forall v {:trigger Mentions(lines, v)} :: Mentions(body, v) || Mentions(lines[1..], v) ==> Mentions(lines, v)
    requires var o, oH := Exec({}, d, body, env + [map[]] + [map[]]), Exec(h, d, body, envH + [map[]] + [map[]]);
             if o.Next? then oH.Next? && |o.env| == |env| + 2 && |oH.env| == |envH| + 2
                             && Hoistable(h, d, lines[1..], o.env[..|env| + 1], oH.env[..|envH| + 1], Unmentioned(live, body))
             else oH == o
    ensures var o, oH := Exec({}, d, body, env + [map[]] + [map[]]), Exec(h, d, body, envH + [map[]] + [map[]]);
            o.Next? ==> Agree(h, Closed(Exec({}, d, lines[1..], o.env[..|env| + 1])), Closed(Exec(h, d, lines[1..], oH.env[..|envH| + 1])), Unmentioned(live, lines))
    decreases lines[1..], 4
  {
    hide RelH, Exec, Hoistable, Mentions, Unmentioned, Agree, Closed;
    var p, pH := env + [map[]], envH + [map[]];
    HoistAfter(h, d, lines, body, p, pH, live);
    var o, oH := Exec({}, d, body, p + [map[]]), Exec(h, d, body, pH + [map[]]);
    RelParts(h, env, envH, live);
    if o.Next? {
      CloseMatch(h, d, lines, body, env, envH, live, Exec({}, d, lines[1..], o.env[..|p|]), Exec(h, d, lines[1..], oH.env[..|pH|]));
    }
  }

  /** The scope a match opens for what follows it is dropped at the end of its block. */
  lemma CloseMatch(h: set<Var>, d: set<Var>, lines: seq<Line>, body: seq<Line>, env: Env, envH: Env, live: set<Var>, o2: Outcome, oH2: Outcome)
    requires lines != [] && env != [] && |env| == |envH| && Agree(h, o2, oH2, Unmentioned(live, lines))
    requires Exec({}, d, body, env + [map[]] + [map[]]).Next?
    requires o2 == Exec({}, d, lines[1..], Exec({}, d, body, env + [map[]] + [map[]]).env[..|env| + 1])
    ensures Agree(h, Closed(o2), Closed(oH2), Unmentioned(live, lines))
  {
    hide RelH, Exec, GainsMentioned;
    if o2.Next? {
      var p := env + [map[]];
      var o := Exec({}, d, body, p + [map[]]);
      ExecGains(d, body, p + [map[]]);
      NestedKeeps(p, o.env, body);
      var env1 := o.env[..|p|];
      ExecGains(d, lines[1..], env1);
      KeptIs(p, env1);
      InnerMentioned(env, env1, o2.env, lines);
      RelParts(h, o2.env, oH2.env, Unmentioned(live, lines));
      PopH(h, o2.env, oH2.env, Unmentioned(live, lines));
    }
  }

  lemma InnerMentioned(env: Env, env1: Env, out: Env, lines: seq<Line>)
    requires lines != [] && GainsMentioned(env1, out, lines[1..]) && |env1| == |env| + 1
    requires forall i, v {:trigger v in env1[i]} | 0 <= i < |env1| :: v in env1[i] <==> v in (env + [map[]])[i]
    ensures |out| == |env| + 1 && forall v {:trigger v in out[|env|]} | v in out[|env|] :: Mentions(lines, v)
  {
    forall v {:trigger v in out[|env|]} | v in out[|env|] ensures Mentions(lines, v) {
      assert v !in env1[|env|];
      assert Mentions(lines[1..], v);
    }
  }
}
