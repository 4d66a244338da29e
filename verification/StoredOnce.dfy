/**
 Dead stores whose variable has no value before: such an assignment either settles or fails, so
 skipping it changes a run only where the run sticks at it.
 */
module StoredOnce {
  import opened Field
  import opened Interpolation
  import opened IntermediateCode
  import opened SimpleLang
  import opened Hoisting
  import opened DeadStores
  import opened DroppedStores

  /** Assignments to v in the lines and in nested blocks. */
  function Stores(lines: seq<Line>, v: Var): nat
    decreases lines, 1
  {
    if lines == [] then 0 else StoreOf(lines[0], v) + StoresInside(lines[0], v, lines) + Stores(lines[1..], v)
  }

  function StoreOf(line: Line, v: Var): nat { if line.Assignment? && line.target == Name(v) then 1 else 0 }

  function StoresInside(line: Line, v: Var, ghost lines: seq<Line>): nat
    requires lines != [] && line == lines[0]
    decreases lines, 0
  {
    match line
    case IfNotZero(_, t, e) => Stores(t, v) + Stores(e, v)
    case Match(_, arms, _) => StoresInArms(arms, v)
    case _ => 0
  }

  function StoresInArms(arms: seq<Arm>, v: Var): nat
    decreases arms, 0
  {
    if arms == [] then 0 else Stores(arms[0].body, v) + StoresInArms(arms[1..], v)
  }

  lemma {:induction false} ArmStores(arms: seq<Arm>, v: Var, k: nat)
    requires k < |arms|
    ensures Stores(arms[k].body, v) <= StoresInArms(arms, v)
    decreases k
  {
    if k > 0 {
      ArmStores(arms[1..], v, k - 1);
    }
  }

  /** What runs of the first line and of the rest can store adds up. */
  lemma StoresParts(lines: seq<Line>, v: Var)
    requires lines != []
    ensures lines[0].Assignment? ==> Stores(lines, v) == StoreOf(lines[0], v) + Stores(lines[1..], v)
    ensures lines[0].IfNotZero? ==> Stores(lines[0].thenBranch, v) + Stores(lines[1..], v) <= Stores(lines, v)
    ensures lines[0].IfNotZero? ==> Stores(lines[0].elseBranch, v) + Stores(lines[1..], v) <= Stores(lines, v)
    ensures lines[0].Match? ==> StoresInArms(lines[0].arms, v) + Stores(lines[1..], v) <= Stores(lines, v)
    ensures Stores(lines[1..], v) <= Stores(lines, v)
  {
  }

  // ----- variables without a value

  ghost predicate Unset(env: Env, v: Var) { forall i {:trigger env[i]} | 0 <= i < |env| && v in env[i] :: env[i][v] == None }

  lemma UnsetEval(env: Env, v: Var)
    requires Unset(env, v)
    ensures Eval(env, Name(v)) == None
  {
  }

  lemma UnsetSet(env: Env, e: Expr, x: Fe, v: Var)
    requires Unset(env, v) && e != Name(v) && SetVar(env, e, x).Some?
    ensures Unset(SetVar(env, e, x).value, v)
  {
  }

  lemma UnsetEquation(env: Env, op: Operation, a: Expr, b: Expr, res: Expr, v: Var)
    requires Unset(env, v) && Name(v) !in [a, b, res] && Equation(env, op, a, b, res).Some?
    ensures Unset(Equation(env, op, a, b, res).value, v)
  {
    hide Unset, SetVar, Eval;
    assert Name(v) != a && Name(v) != b && Name(v) != res;
    match Solve(op, Eval(env, a), Eval(env, b), Eval(env, res))
    case SetA(x) => UnsetSet(env, a, x, v);
    case SetB(x) => UnsetSet(env, b, x, v);
    case SetRes(x) => UnsetSet(env, res, x, v);
    case Holds =>
    case Fails =>
  }

  lemma UnsetIntroduce(env: Env, e: Expr, v: Var)
    requires env != [] && Unset(env, v)
    ensures Unset(Introduce(env, e), v)
  {
  }

  lemma UnsetPush(env: Env, v: Var)
    requires Unset(env, v)
    ensures Unset(env + [map[]], v)
  {
  }

  lemma UnsetPop(env: Env, v: Var, n: nat)
    requires Unset(env, v) && n <= |env|
    ensures Unset(env[..n], v)
  {
  }

  /** A target without a value is what the equation solves for, or the equation fails. */
  lemma UnsetSettles(env: Env, op: MathOperation, a: Expr, b: Expr, v: Var)
    requires env != [] && Unset(env, v)
    ensures var env1, q := Introduce(env, Name(v)), AsEquation(op, a, b, Name(v));
            Settles(env, op, a, b, Name(v)) <==> Equation(env1, q.op, q.a, q.b, q.res).Some?
  {
    var env1 := Introduce(env, Name(v));
    UnsetIntroduce(env, Name(v), v);
    UnsetEval(env1, v);
    assert Find(env1, v).Some? by { IntroducedFound(env, v); }
    hide Unset, Introduce, Eval;
  }

  lemma IntroducedFound(env: Env, v: Var)
    requires env != []
    ensures Find(Introduce(env, Name(v)), v).Some?
  {
  }

  /** Lines that neither read nor store v leave it without a value. */
  lemma {:induction false} UnsetKept(h: set<Var>, lines: seq<Line>, env: Env, v: Var)
    requires env != [] && Unset(env, v) && Uses(lines, v) == 0 && Stores(lines, v) == 0 && Exec(h, {}, lines, env).Next?
    ensures Unset(Exec(h, {}, lines, env).env, v)
    decreases lines, 1
  {
    if lines != [] {
      hide Unset, Equation, Eval, Introduce;
      var rest := lines[1..];
      UsesParts(lines, v);
      StoresParts(lines, v);
      match lines[0]
      case ForwardDeclaration(w) =>
        UnsetDeclare(env, w, v);
        UnsetKept(h, rest, if w in h then env else InsertLast(env, w, None), v);
      case Assignment(target, op, a, b) =>
        var env1, q := Introduce(env, target), AsEquation(op, a, b, target);
        NotOperand([a, b], v, 0);
        NotOperand([a, b], v, 1);
        UnsetIntroduce(env, target, v);
        UnsetEquation(env1, q.op, q.a, q.b, q.res, v);
        EquationKeepsScopes(env1, q.op, q.a, q.b, q.res);
        UnsetKept(h, rest, Equation(env1, q.op, q.a, q.b, q.res).value, v);
      case AssertEq(l, r) =>
        var env1 := Introduce(Introduce(env, l), r);
        NotOperand([l, r], v, 0);
        NotOperand([l, r], v, 1);
        UnsetIntroduce(env, l, v);
        UnsetIntroduce(Introduce(env, l), r, v);
        UnsetEquation(env1, AddOp, l, Number(0), r, v);
        EquationKeepsScopes(env1, AddOp, l, Number(0), r);
        UnsetKept(h, rest, Equation(env1, AddOp, l, Number(0), r).value, v);
      case IfNotZero(c, t, e) =>
        var body := if Eval(env, c).value != 0 then t else e;
        UnsetNested(h, body, env, v);
        ExecBranch(h, {}, lines, env, body);
        UnsetKept(h, rest, Exec(h, {}, body, env + [map[]]).env[..|env|], v);
      case Match(value, arms, offset) => UnsetMatch(h, lines, env, v);
    }
  }

  lemma NotOperand(data: seq<Expr>, v: Var, k: nat)
    requires Occurrences(data, v) == 0 && k < |data|
    ensures data[k] != Name(v)
  {
    if data[k] == Name(v) {
      OccursAt(data, v, k);
    }
  }

  lemma UnsetDeclare(env: Env, w: Var, v: Var)
    requires env != [] && Unset(env, v)
    ensures Unset(InsertLast(env, w, None), v)
  {
  }

  lemma UnsetNested(h: set<Var>, body: seq<Line>, env: Env, v: Var)
    requires env != [] && Unset(env, v) && Uses(body, v) == 0 && Stores(body, v) == 0 && Exec(h, {}, body, env + [map[]]).Next?
    ensures Unset(Exec(h, {}, body, env + [map[]]).env[..|env|], v)
    decreases body, 2
  {
    hide Unset, Exec;
    UnsetPush(env, v);
    UnsetKept(h, body, env + [map[]], v);
    UnsetPop(Exec(h, {}, body, env + [map[]]).env, v, |env|);
  }

  lemma UnsetMatch(h: set<Var>, lines: seq<Line>, env: Env, v: Var)
    requires lines != [] && lines[0].Match? && Uses(lines, v) == 0 && Stores(lines, v) == 0
    requires env != [] && Unset(env, v) && Exec(h, {}, lines, env).Next?
    ensures Unset(Exec(h, {}, lines, env).env, v)
    decreases lines, 0
  {
    UsesParts(lines, v);
    StoresParts(lines, v);
    var p := env + [map[]];
    var x := Eval(p, lines[0].value).value;
    var k := x - lines[0].offset;
    var body := lines[0].arms[k].body;
    ArmUses(lines[0].arms, v, k);
    ArmStores(lines[0].arms, v, k);
    ExecArm(h, {}, lines, env, x);
    hide Unset, Exec, Eval;
    UnsetPush(env, v);
    UnsetNested(h, body, p, v);
    var env1 := Exec(h, {}, body, p + [map[]]).env[..|p|];
    UnsetKept(h, lines[1..], env1, v);
    UnsetPop(Exec(h, {}, lines[1..], env1).env, v, |Exec(h, {}, lines[1..], env1).env| - 1);
  }

  // ----- runs

  /** Each dropped variable is stored once at most, and has no value while that is still to come. */
  ghost predicate OnceEach(d: set<Var>, lines: seq<Line>, env: Env) {
    forall v {:trigger v in d} | v in d :: Stores(lines, v) <= 1 && (Stores(lines, v) == 1 ==> Unset(env, v))
  }

  /** The run sticks at a store that is skipped. */
  predicate StopsAtDropped(h: set<Var>, d: set<Var>, lines: seq<Line>, env: Env)
    requires env != []
  {
    var l := StopsAt(h, lines, env);
    l.Some? && l.value.Assignment? && IsStore(d, l.value.target)
  }

  /** Variables stored once: every skipped store the run meets settles exactly when the run does not stick at one. */
  lemma {:induction false} OnceSettles(h: set<Var>, d: set<Var>, lines: seq<Line>, env: Env)
    requires env != [] && Quiet(d, lines) && OnceEach(d, lines, env)
    ensures Settled(h, d, lines, env) <==> !StopsAtDropped(h, d, lines, env)
    decreases lines, 2
  {
    if lines != [] {
      QuietParts(d, lines);
      OnceRest(d, lines, env);
      hide Quiet, OnceEach;
      var rest := lines[1..];
      match lines[0]
      case ForwardDeclaration(v) =>
        hide Equation, Eval;
        if v !in h { OnceDeclare(d, rest, env, v); }
        OnceSettles(h, d, rest, if v in h then env else InsertLast(env, v, None));
      case Assignment(target, op, a, b) => OnceAssignment(h, d, lines, env);
      case AssertEq(l, r) => OnceAssert(h, d, lines, env);
      case IfNotZero(c, t, e) => OnceIf(h, d, lines, env);
      case Match(value, arms, offset) => OnceMatch(h, d, lines, env);
      case PanicLine =>
      case FunctionRet(data) =>
    }
  }

  lemma OnceRest(d: set<Var>, lines: seq<Line>, env: Env)
    requires lines != [] && OnceEach(d, lines, env)
    ensures OnceEach(d, lines[1..], env)
  {
    forall v {:trigger v in d} | v in d ensures Stores(lines[1..], v) <= 1 && (Stores(lines[1..], v) == 1 ==> Unset(env, v)) {
      StoresParts(lines, v);
    }
  }

  lemma OnceDeclare(d: set<Var>, lines: seq<Line>, env: Env, w: Var)
    requires env != [] && OnceEach(d, lines, env)
    ensures OnceEach(d, lines, InsertLast(env, w, None))
  {
    forall v {:trigger v in d} | v in d ensures Stores(lines, v) == 1 ==> Unset(InsertLast(env, w, None), v) {
      if Unset(env, v) { UnsetDeclare(env, w, v); }
    }
  }

  /** After an assignment, what is stored later still has no value. */
  lemma OnceAfter(d: set<Var>, lines: seq<Line>, env: Env, env1: Env, op: Operation, a: Expr, b: Expr, res: Expr)
    requires lines != [] && OnceEach(d, lines, env) && env != []
    requires forall v {:trigger v in d} | v in d && Stores(lines[1..], v) == 1 :: Name(v) !in [a, b, res] && Unset(env1, v)
    requires Equation(env1, op, a, b, res).Some?
    ensures OnceEach(d, lines[1..], Equation(env1, op, a, b, res).value)
  {
    hide Unset, Equation;
    forall v {:trigger v in d} | v in d
      ensures Stores(lines[1..], v) <= 1 && (Stores(lines[1..], v) == 1 ==> Unset(Equation(env1, op, a, b, res).value, v))
    {
      StoresParts(lines, v);
      if Stores(lines[1..], v) == 1 {
        UnsetEquation(env1, op, a, b, res, v);
      }
    }
  }

  lemma OnceAssignment(h: set<Var>, d: set<Var>, lines: seq<Line>, env: Env)
    requires lines != [] && lines[0].Assignment? && env != [] && Quiet(d, lines[1..]) && NoneRead(d, Operands(lines[0])) && OnceEach(d, lines, env)
    ensures Settled(h, d, lines, env) <==> !StopsAtDropped(h, d, lines, env)
    decreases lines, 1
  {
    hide Unset, Equation, Introduce, Quiet, Settles, Eval;
    var target, op, a, b := lines[0].target, lines[0].op, lines[0].arg0, lines[0].arg1;
    assert Operands(lines[0])[0] == a && Operands(lines[0])[1] == b;
    var env1, q := Introduce(env, target), AsEquation(op, a, b, target);
    forall v {:trigger v in d} | v in d && Stores(lines[1..], v) == 1 ensures Name(v) !in [q.a, q.b, q.res] && Unset(env1, v) {
      StoresParts(lines, v);
      UnsetIntroduce(env, target, v);
    }
    if IsStore(d, target) {
      StoresParts(lines, target.v);
      UnsetSettles(env, op, a, b, target.v);
    }
    if Equation(env1, q.op, q.a, q.b, q.res).Some? {
      OnceAfter(d, lines, env, env1, q.op, q.a, q.b, q.res);
      hide OnceEach;
      EquationKeepsScopes(env1, q.op, q.a, q.b, q.res);
      OnceSettles(h, d, lines[1..], Equation(env1, q.op, q.a, q.b, q.res).value);
    }
  }

  lemma OnceAssert(h: set<Var>, d: set<Var>, lines: seq<Line>, env: Env)
    requires lines != [] && lines[0].AssertEq? && env != [] && Quiet(d, lines[1..]) && NoneRead(d, Operands(lines[0])) && OnceEach(d, lines, env)
    ensures Settled(h, d, lines, env) <==> !StopsAtDropped(h, d, lines, env)
    decreases lines, 1
  {
    hide Unset, Equation, Introduce, Quiet, Eval;
    var l, r := lines[0].left, lines[0].right;
    assert Operands(lines[0])[0] == l && Operands(lines[0])[1] == r;
    var env1 := Introduce(Introduce(env, l), r);
    forall v {:trigger v in d} | v in d && Stores(lines[1..], v) == 1 ensures Name(v) !in [l, Number(0), r] && Unset(env1, v) {
      StoresParts(lines, v);
      UnsetIntroduce(env, l, v);
      UnsetIntroduce(Introduce(env, l), r, v);
    }
    if Equation(env1, AddOp, l, Number(0), r).Some? {
      OnceAfter(d, lines, env, env1, AddOp, l, Number(0), r);
      hide OnceEach;
      EquationKeepsScopes(env1, AddOp, l, Number(0), r);
      OnceSettles(h, d, lines[1..], Equation(env1, AddOp, l, Number(0), r).value);
    }
  }

  /** A nested block, and what follows it. */
  lemma OnceNested(h: set<Var>, d: set<Var>, body: seq<Line>, rest: seq<Line>, env: Env)
    requires env != [] && Quiet(d, body)
    requires forall v {:trigger v in d} | v in d :: Stores(body, v) + Stores(rest, v) <= 1 && (Stores(body, v) + Stores(rest, v) == 1 ==> Unset(env, v))
    ensures OnceEach(d, body, env + [map[]])
    ensures var o := Exec(h, {}, body, env + [map[]]); o.Next? ==> OnceEach(d, rest, o.env[..|env|])
  {
    hide Unset, Exec;
    var o := Exec(h, {}, body, env + [map[]]);
    forall v {:trigger v in d} | v in d
      ensures Stores(body, v) <= 1 && (Stores(body, v) == 1 ==> Unset(env + [map[]], v))
      ensures o.Next? ==> Stores(rest, v) <= 1 && (Stores(rest, v) == 1 ==> Unset(o.env[..|env|], v))
    {
      if Stores(body, v) == 1 { UnsetPush(env, v); }
      if o.Next? && Stores(rest, v) == 1 { UnsetNested(h, body, env, v); }
    }
  }

  lemma OnceIf(h: set<Var>, d: set<Var>, lines: seq<Line>, env: Env)
    requires lines != [] && lines[0].IfNotZero? && env != [] && Quiet(d, lines[1..]) && OnceEach(d, lines, env)
    requires Quiet(d, lines[0].thenBranch) && Quiet(d, lines[0].elseBranch)
    ensures Settled(h, d, lines, env) <==> !StopsAtDropped(h, d, lines, env)
    decreases lines, 1
  {
    hide Unset, Quiet, Eval;
    var v := Eval(env, lines[0].condition);
    if v.Some? {
      var body := if v.value != 0 then lines[0].thenBranch else lines[0].elseBranch;
      forall u {:trigger u in d} | u in d
        ensures Stores(body, u) + Stores(lines[1..], u) <= 1 && (Stores(body, u) + Stores(lines[1..], u) == 1 ==> Unset(env, u))
      {
        StoresParts(lines, u);
      }
      OnceNested(h, d, body, lines[1..], env);
      hide OnceEach, Stores;
      OnceSettles(h, d, body, env + [map[]]);
      StopsIffStuck(h, body, env + [map[]]);
      var o := Exec(h, {}, body, env + [map[]]);
      if o.Next? {
        assert o.env[..|o.env| - 1] == o.env[..|env|];
        OnceSettles(h, d, lines[1..], o.env[..|env|]);
      }
    }
  }

  lemma OnceMatch(h: set<Var>, d: set<Var>, lines: seq<Line>, env: Env)
    requires lines != [] && lines[0].Match? && env != [] && Quiet(d, lines[1..]) && OnceEach(d, lines, env)
    requires forall k {:trigger lines[0].arms[k]} | 0 <= k < |lines[0].arms| :: Quiet(d, lines[0].arms[k].body)
    ensures Settled(h, d, lines, env) <==> !StopsAtDropped(h, d, lines, env)
    decreases lines, 1
  {
    hide Unset, Quiet, Eval;
    var p := env + [map[]];
    var v, offset := Eval(p, lines[0].value), lines[0].offset;
    if v.Some? && offset <= v.value < offset + |lines[0].arms| {
      var body := lines[0].arms[v.value - offset].body;
      forall u {:trigger u in d} | u in d
        ensures Stores(body, u) + Stores(lines[1..], u) <= 1 && (Stores(body, u) + Stores(lines[1..], u) == 1 ==> Unset(p, u))
      {
        StoresParts(lines, u);
        ArmStores(lines[0].arms, u, v.value - offset);
        if Unset(env, u) { UnsetPush(env, u); }
      }
      OnceNested(h, d, body, lines[1..], p);
      hide OnceEach, Stores;
      OnceSettles(h, d, body, p + [map[]]);
      StopsIffStuck(h, body, p + [map[]]);
      var o := Exec(h, {}, body, p + [map[]]);
      if o.Next? {
        assert o.env[..|o.env| - 1] == o.env[..|p|];
        OnceSettles(h, d, lines[1..], o.env[..|p|]);
      }
    }
  }
}
