/**
 A hoisted variable has one cell for the whole function.  Declaring it again on a path where that
 cell already holds a value, and assigning it, goes well exactly when the value is the same
 (ForwardDeclaration and Assignment, crates/lean_compiler/src/b_compile_intermediate.rs).
 */
module Redeclaration {
  import opened Field
  import opened Interpolation
  import opened IntermediateCode
  import opened SimpleLang
  import opened Hoisting

  /** The value of a op b. */
  function ValueOf(op: MathOperation, x: Fe, y: Fe): Option<Fe> {
    match op
    case Plus => Some(Add(x, y))
    case Times => Some(Mul(x, y))
    case Minus => Some(Sub(x, y))
    case Divide => if y == 0 then None else Some(Mul(x, FieldInverse(y)))
  }

  function Computed(env: Env, op: MathOperation, a: Expr, b: Expr): Option<Fe> {
    if Eval(env, a).None? || Eval(env, b).None? then None else ValueOf(op, Eval(env, a).value, Eval(env, b).value)
  }

  /** An equation whose target holds t holds iff t is the computed value; one whose target is unset sets it to that. */
  lemma TargetSolution(op: MathOperation, x: Fe, y: Fe, t: Option<Fe>)
    requires ValueOf(op, x, y).Some?
    ensures var z, q := ValueOf(op, x, y).value, AsEquation(op, Some(x), Some(y), t);
            Solve(q.op, q.a, q.b, q.res)
            == if t.Some? then (if t.value == z then Holds else Fails) else if op.Plus? || op.Times? then SetRes(z) else SetA(z)
  {
    if t.Some? {
      match op
      case Minus => SumIsDifference(t.value, y, x);
      case Divide => ProductIsQuotient(t.value, y, x);
      case _ =>
    }
  }

  lemma SumIsDifference(t: Fe, y: Fe, x: Fe)
    ensures Add(t, y) == x <==> t == Sub(x, y)
  {
    LiftSelf(t);
    LiftSelf(x);
    LiftSelf(y);
    LiftAdd(t, y);
    LiftSub(t + y, y);
    LiftSub(x, y);
    LiftAdd(x - y, y);
    assert t + y - y == t && x - y + y == x;
  }

  lemma ProductIsQuotient(t: Fe, y: Fe, x: Fe)
    requires y != 0
    ensures Mul(t, y) == x <==> t == Mul(x, FieldInverse(y))
  {
    var i := FieldInverse(y);
    MulAssoc(t, y, i);
    MulAssoc(x, i, y);
    MulComm(i, y);
    MulOne(t);
    MulOne(x);
  }

  // ----- the two environments at the redeclaration

  /** Declaring v and assigning it, and then the rest. */
  function Again(v: Var, op: MathOperation, a: Expr, b: Expr, rest: seq<Line>): seq<Line> {
    [ForwardDeclaration(v), Assignment(Name(v), op, a, b)] + rest
  }

  lemma AgainRuns(h: set<Var>, d: set<Var>, v: Var, op: MathOperation, a: Expr, b: Expr, rest: seq<Line>, env: Env)
    requires env != [] && v !in d
    ensures var env1 := if v in h then env else InsertLast(env, v, None);
            var env2, q := Introduce(env1, Name(v)), AsEquation(op, a, b, Name(v));
            var env3 := Equation(env2, q.op, q.a, q.b, q.res);
            (env3.Some? ==> env3.value != []) &&
            Exec(h, d, Again(v, op, a, b, rest), env) == if env3.Some? then Exec(h, d, rest, env3.value) else Stuck
  {
    hide Equation, Introduce, InsertLast;
    var lines := Again(v, op, a, b, rest);
    assert lines[1..] == [Assignment(Name(v), op, a, b)] + rest && lines[1..][1..] == rest;
    var env1 := if v in h then env else InsertLast(env, v, None);
    var env2, q := Introduce(env1, Name(v)), AsEquation(op, a, b, Name(v));
    assert Exec(h, d, lines, env) == Exec(h, d, lines[1..], env1);
    if Equation(env2, q.op, q.a, q.b, q.res).Some? {
      EquationKeepsScopes(env2, q.op, q.a, q.b, q.res);
    }
  }

  lemma SetDeclared(env: Env, v: Var, z: Fe)
    requires env != []
    ensures var env1 := InsertLast(env, v, None);
            Find(env1, v) == Some(|env| - 1) && Introduce(env1, Name(v)) == env1 && Eval(env1, Name(v)) == None
            && SetVar(env1, Name(v), z) == Some(InsertLast(env, v, Some(z)))
  {
    var env1 := InsertLast(env, v, None);
    assert env1[|env| - 1][v := Some(z)] == env[|env| - 1][v := Some(z)];
    assert env1[|env| - 1 := env[|env| - 1][v := Some(z)]] == env[|env| - 1 := env[|env| - 1][v := Some(z)]];
  }

  lemma EvalOther(env: Env, v: Var, e: Expr)
    requires env != [] && e != Name(v)
    ensures Eval(InsertLast(env, v, None), e) == Eval(env, e)
  {
    if e.Name? {
      var env1 := InsertLast(env, v, None);
      FindOther({v}, env, env1, e.v, |env|);
      assert env[..|env|] == env && env1[..|env|] == env1;
    }
  }

  /**
   In the plain environment a redeclared variable is new and takes the computed value z.  Hoisted, it
   still holds x: the lines go on, in related environments, exactly when x = z, and stick otherwise.
   */
  lemma RedeclaredSticksIff(h: set<Var>, d: set<Var>, env: Env, envH: Env, live: set<Var>, v: Var, x: Fe, z: Fe,
                            op: MathOperation, a: Expr, b: Expr, rest: seq<Line>)
    requires RelH(h, env, envH, live) && v in h && v !in d && !InEnv(env, v) && env != [] && envH != []
    requires v in envH[0] && envH[0][v] == Some(x) && a != Name(v) && b != Name(v) && Seen(h, env, a) && Seen(h, env, b)
    requires Computed(env, op, a, b) == Some(z)
    ensures Exec({}, d, Again(v, op, a, b, rest), env) == Exec({}, d, rest, InsertLast(env, v, Some(z)))
    ensures x == z ==> Exec(h, d, Again(v, op, a, b, rest), envH) == Exec(h, d, rest, envH)
    ensures x == z ==> RelH(h, InsertLast(env, v, Some(z)), envH, live)
    ensures x != z ==> Exec(h, d, Again(v, op, a, b, rest), envH) == Stuck
  {
    FindHoisted(h, env, envH, v);
    EvalSame(h, env, envH, live, a);
    EvalSame(h, env, envH, live, b);
    if x == z { HeldKeeps(h, env, envH, live, v, z); }
    hide RelH, InEnv, Exec, InsertLast, Seen;
    var l, r := Eval(env, a).value, Eval(env, b).value;
    AgainRuns({}, d, v, op, a, b, rest, env);
    AgainRuns(h, d, v, op, a, b, rest, envH);
    SetDeclared(env, v, z);
    EvalOther(env, v, a);
    EvalOther(env, v, b);
    TargetSolution(op, l, r, None);
    TargetSolution(op, l, r, Some(x));
    assert Introduce(envH, Name(v)) == envH && Eval(envH, Name(v)) == Some(x);
    hide Eval, SetVar, Introduce;
    SolvedTarget(InsertLast(env, v, None), op, a, b, v, l, r);
    SolvedTarget(envH, op, a, b, v, l, r);
  }

  lemma SolvedTarget(env: Env, op: MathOperation, a: Expr, b: Expr, v: Var, l: Fe, r: Fe)
    requires Eval(env, a) == Some(l) && Eval(env, b) == Some(r) && ValueOf(op, l, r).Some?
    ensures var z, q := ValueOf(op, l, r).value, AsEquation(op, a, b, Name(v));
            Equation(env, q.op, q.a, q.b, q.res)
            == if Eval(env, Name(v)).Some? then (if Eval(env, Name(v)).value == z then Some(env) else None) else SetVar(env, Name(v), z)
  {
    hide Eval, SetVar, Solve;
    TargetSolution(op, l, r, Eval(env, Name(v)));
  }

  lemma HeldKeeps(h: set<Var>, env: Env, envH: Env, live: set<Var>, v: Var, z: Fe)
    requires RelH(h, env, envH, live) && v in h && !InEnv(env, v) && env != [] && v in envH[0] && envH[0][v] == Some(z)
    ensures RelH(h, InsertLast(env, v, Some(z)), envH, live)
  {
    var env1 := InsertLast(env, v, Some(z));
    forall i {:trigger env[i]} | 0 <= i < |env| ensures v !in env[i] {
    }
    forall w ensures InEnv(env1, w) <==> w == v || InEnv(env, w) { InsertedSome(env, v, z, w); }
  }

  lemma InsertedSome(env: Env, v: Var, z: Fe, u: Var)
    requires env != []
    ensures InEnv(InsertLast(env, v, Some(z)), u) <==> u == v || InEnv(env, u)
  {
    var env1 := InsertLast(env, v, Some(z));
    assert v in env1[|env| - 1];
    if InEnv(env, u) { var i :| 0 <= i < |env| && u in env[i]; assert u in env1[i]; }
    if InEnv(env1, u) && u != v { var i :| 0 <= i < |env| && u in env1[i]; assert u in env[i]; }
  }
}
