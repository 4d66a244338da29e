/**
 The simplified language without pointers and its meaning (crates/lean_compiler/src/a_simplify_lang,
 lines visible in crates/lean_compiler/src/b_compile_intermediate.rs).  A variable is a write-once
 cell in the scope that declares it; an assignment is an equation whose single unknown is solved.
 */
module SimpleLang {
  import opened Field
  import opened Interpolation
  import opened IntermediateCode

  type Var = string

  datatype Expr = Name(v: Var) | Number(c: Fe)

  datatype MathOperation = Plus | Times | Minus | Divide

  datatype Line =
    | ForwardDeclaration(v: Var)
    | Assignment(target: Expr, op: MathOperation, arg0: Expr, arg1: Expr)
    | AssertEq(left: Expr, right: Expr)
    | IfNotZero(condition: Expr, thenBranch: seq<Line>, elseBranch: seq<Line>)
    | Match(value: Expr, arms: seq<Arm>, offset: nat)
    | PanicLine
    | FunctionRet(data: seq<Expr>)

  datatype Arm = Arm(body: seq<Line>)

  // ----- scopes

  type Scopes<T> = seq<map<Var, T>>

  /** The innermost scope that holds v. */
  function Find<T>(s: Scopes<T>, v: Var): (r: Option<nat>)
    ensures r.Some? ==> r.value < |s| && v in s[r.value]
    ensures r.None? ==> forall i {:trigger s[i]} | 0 <= i < |s| :: v !in s[i]
    decreases |s|
  {
    if s == [] then None
    else if v in s[|s| - 1] then Some(|s| - 1)
    else Find(s[..|s| - 1], v)
  }

  /** insert in the innermost scope. */
  function InsertLast<T>(s: Scopes<T>, v: Var, x: T): (r: Scopes<T>)
    requires s != []
    ensures |r| == |s|
  {
    s[|s| - 1 := s[|s| - 1][v := x]]
  }

  // ----- meaning

  type Env = Scopes<Option<Fe>>

  datatype Outcome = Next(env: Env) | Returned(values: seq<Fe>) | Stuck | Wild

  function Eval(env: Env, e: Expr): Option<Fe> {
    match e
    case Number(c) => Some(c)
    case Name(v) =>
      var i := Find(env, v);
      if i.None? then None else env[i.value][v]
  }

  /** A variable that no scope holds yet is declared in the innermost one. */
  function Introduce(env: Env, e: Expr): (r: Env)
    requires env != []
    ensures |r| == |env|
  {
    if e.Name? && Find(env, e.v).None? then InsertLast(env, e.v, None) else env
  }

  function SetVar(env: Env, e: Expr, x: Fe): Option<Env> {
    if e.Name? && Find(env, e.v).Some? then
      var i := Find(env, e.v).value;
      Some(env[i := env[i][e.v := Some(x)]])
    else None
  }

  /** The equation a op b = res on variables. */
  function Equation(env: Env, op: Operation, a: Expr, b: Expr, res: Expr): Option<Env> {
    match Solve(op, Eval(env, a), Eval(env, b), Eval(env, res))
    case SetA(x) => SetVar(env, a, x)
    case SetB(x) => SetVar(env, b, x)
    case SetRes(x) => SetVar(env, res, x)
    case Holds => Some(env)
    case Fails => None
  }

  datatype EquationOf<T> = EquationOf(op: Operation, a: T, b: T, res: T)

  /** IntermediateInstruction::computation: subtraction and division are turned around. */
  function AsEquation<T>(op: MathOperation, a: T, b: T, res: T): EquationOf<T> {
    match op
    case Plus => EquationOf(AddOp, a, b, res)
    case Times => EquationOf(MulOp, a, b, res)
    case Minus => EquationOf(AddOp, res, b, a)
    case Divide => EquationOf(MulOp, res, b, a)
  }

  function EvalAll(env: Env, data: seq<Expr>): Option<seq<Fe>> {
    if data == [] then Some([])
    else if Eval(env, data[0]).None? || EvalAll(env, data[1..]).None? then None
    else Some([Eval(env, data[0]).value] + EvalAll(env, data[1..]).value)
  }

  predicate IsStore(dropped: set<Var>, target: Expr) { target.Name? && target.v in dropped }

  /** Drops the innermost scope when execution goes on. */
  function Closed(o: Outcome): Outcome {
    if o.Next? && o.env != [] then Next(o.env[..|o.env| - 1]) else o
  }

  /**
   Running lines.  `hoisted` variables live in the function scope: declaring them does nothing.
   Declarations of `dropped` variables and assignments to them are skipped.  With neither, this is
   the plain meaning of the lines.
   A match value outside the arms has no meaning (Wild).  A match opens a scope for itself and
   for what follows it in its block.
   */
  function Exec(hoisted: set<Var>, dropped: set<Var>, lines: seq<Line>, env: Env): (o: Outcome)
    requires env != []
    ensures o.Next? ==> |o.env| == |env|
    decreases lines
  {
    if lines == [] then Next(env)
    else
      var rest := lines[1..];
      match lines[0]
      case ForwardDeclaration(v) => Exec(hoisted, dropped, rest, if v in hoisted || v in dropped then env else InsertLast(env, v, None))
      case Assignment(target, op, a, b) =>
        if IsStore(dropped, target) then Exec(hoisted, dropped, rest, env)
        else
          var env1 := Introduce(env, target);
          var q := AsEquation(op, a, b, target);
          var env2 := Equation(env1, q.op, q.a, q.b, q.res);
          if env2.Some? then EquationKeepsScopes(env1, q.op, q.a, q.b, q.res); Exec(hoisted, dropped, rest, env2.value) else Stuck
      case AssertEq(l, r) =>
        var env1 := Introduce(Introduce(env, l), r);
        var env2 := Equation(env1, AddOp, l, Number(0), r);
        if env2.Some? then EquationKeepsScopes(env1, AddOp, l, Number(0), r); Exec(hoisted, dropped, rest, env2.value) else Stuck
      case IfNotZero(c, t, e) =>
        var v := Eval(env, c);
        if v.None? then Stuck
        else
          var o := Closed(if v.value != 0 then Exec(hoisted, dropped, t, env + [map[]]) else Exec(hoisted, dropped, e, env + [map[]]));
          if o.Next? then Exec(hoisted, dropped, rest, o.env) else o
      case Match(value, arms, offset) =>
        var v := Eval(env + [map[]], value);
        if v.None? then Stuck
        else if !(offset <= v.value < offset + |arms|) then Wild
        else
          var o := Closed(Exec(hoisted, dropped, arms[v.value - offset].body, env + [map[]] + [map[]]));
          if o.Next? then Closed(Exec(hoisted, dropped, rest, o.env)) else o
      case PanicLine => Stuck
      case FunctionRet(data) =>
        var vals := EvalAll(env, data);
        if vals.Some? then Returned(vals.value) else Stuck
  }

  lemma EquationKeepsScopes(env: Env, op: Operation, a: Expr, b: Expr, res: Expr)
    requires Equation(env, op, a, b, res).Some?
    ensures |Equation(env, op, a, b, res).value| == |env|
  {
  }
}
