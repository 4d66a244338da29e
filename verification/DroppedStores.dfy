/**
 What skipping dead stores does to the meaning of lines (the ForwardDeclaration and Assignment cases
 of compile_lines, crates/lean_compiler/src/b_compile_intermediate.rs).  Nothing, as long as every
 skipped assignment would only have given its own variable a value or confirmed it.
 */
module DroppedStores {
  import opened Field
  import opened Interpolation
  import opened IntermediateCode
  import opened SimpleLang
  import opened Hoisting
  import opened DeadStores

  // ----- lines that read no dropped variable

  ghost predicate Quiet(d: set<Var>, lines: seq<Line>) { forall v {:trigger v in d} | v in d :: Uses(lines, v) == 0 }

  ghost predicate NoneRead(d: set<Var>, data: seq<Expr>) { forall k {:trigger data[k]} | 0 <= k < |data| :: !IsStore(d, data[k]) }

  lemma {:induction false} OccursAt(data: seq<Expr>, v: Var, k: nat)
    requires k < |data| && data[k] == Name(v)
    ensures Occurrences(data, v) > 0
    decreases k
  {
    if k > 0 {
      OccursAt(data[1..], v, k - 1);
    }
  }

  lemma {:induction false} ArmUses(arms: seq<Arm>, v: Var, k: nat)
    requires k < |arms|
    ensures Uses(arms[k].body, v) <= UsesInArms(arms, v)
    decreases k
  {
    if k > 0 {
      ArmUses(arms[1..], v, k - 1);
    }
  }

  lemma QuietParts(d: set<Var>, lines: seq<Line>)
    requires lines != [] && Quiet(d, lines)
    ensures NoneRead(d, Operands(lines[0])) && Quiet(d, lines[1..])
    ensures lines[0].IfNotZero? ==> Quiet(d, lines[0].thenBranch) && Quiet(d, lines[0].elseBranch)
    ensures lines[0].Match? ==> forall k {:trigger lines[0].arms[k]} | 0 <= k < |lines[0].arms| :: Quiet(d, lines[0].arms[k].body)
  {
    var data := Operands(lines[0]);
    forall k {:trigger data[k]} | 0 <= k < |data| ensures !IsStore(d, data[k]) {
      if IsStore(d, data[k]) {
        UsesParts(lines, data[k].v);
        OccursAt(data, data[k].v, k);
      }
    }
    forall v {:trigger v in d} | v in d
      ensures Uses(lines[1..], v) == 0
      ensures lines[0].IfNotZero? ==> Uses(lines[0].thenBranch, v) == 0 && Uses(lines[0].elseBranch, v) == 0
      ensures lines[0].Match? ==> UsesInArms(lines[0].arms, v) == 0
    {
      UsesParts(lines, v);
    }
    if lines[0].Match? {
      forall k, v {:trigger lines[0].arms[k], v in d} | 0 <= k < |lines[0].arms| && v in d ensures Uses(lines[0].arms[k].body, v) == 0 {
        ArmUses(lines[0].arms, v, k);
      }
    }
  }

  lemma UsesParts(lines: seq<Line>, v: Var)
    requires lines != []
    ensures Uses(lines, v) == Occurrences(Operands(lines[0]), v) + UsesInside(lines[0], v, lines) + Uses(lines[1..], v)
    ensures lines[0].IfNotZero? ==> UsesInside(lines[0], v, lines) == Uses(lines[0].thenBranch, v) + Uses(lines[0].elseBranch, v)
    ensures lines[0].Match? ==> UsesInside(lines[0], v, lines) == UsesInArms(lines[0].arms, v)
  {
  }

  // ----- environments that differ in dropped variables only

  lemma EvalOff(d: set<Var>, env: Env, envD: Env, e: Expr)
    requires SameOthers(d, env, envD) && !IsStore(d, e)
    ensures Eval(env, e) == Eval(envD, e)
  {
    if e.Name? {
      FindSame(d, env, envD, e.v);
    }
  }

  lemma SetOff(d: set<Var>, env: Env, envD: Env, e: Expr, x: Fe)
    requires SameOthers(d, env, envD) && !IsStore(d, e)
    ensures SetVar(env, e, x).Some? <==> SetVar(envD, e, x).Some?
    ensures SetVar(env, e, x).Some? ==> SameOthers(d, SetVar(env, e, x).value, SetVar(envD, e, x).value)
  {
    if e.Name? {
      FindSame(d, env, envD, e.v);
    }
  }

  lemma EquationOff(d: set<Var>, env: Env, envD: Env, op: Operation, a: Expr, b: Expr, res: Expr)
    requires SameOthers(d, env, envD) && !IsStore(d, a) && !IsStore(d, b) && !IsStore(d, res)
    ensures var q, qD := Equation(env, op, a, b, res), Equation(envD, op, a, b, res);
            (q.Some? <==> qD.Some?) && (q.Some? ==> SameOthers(d, q.value, qD.value))
  {
    hide SameOthers;
    EvalOff(d, env, envD, a);
    EvalOff(d, env, envD, b);
    EvalOff(d, env, envD, res);
    match Solve(op, Eval(env, a), Eval(env, b), Eval(env, res))
    case SetA(x) => SetOff(d, env, envD, a, x);
    case SetB(x) => SetOff(d, env, envD, b, x);
    case SetRes(x) => SetOff(d, env, envD, res, x);
    case Holds =>
    case Fails =>
  }

  lemma IntroduceOff(d: set<Var>, env: Env, envD: Env, e: Expr)
    requires SameOthers(d, env, envD) && !IsStore(d, e)
    ensures SameOthers(d, Introduce(env, e), Introduce(envD, e))
  {
    if e.Name? {
      FindSame(d, env, envD, e.v);
    }
  }

  lemma IntroduceStore(d: set<Var>, env: Env, envD: Env, e: Expr)
    requires SameOthers(d, env, envD) && IsStore(d, e)
    ensures SameOthers(d, Introduce(env, e), envD)
  {
  }

  lemma {:induction false} EvalAllOff(d: set<Var>, env: Env, envD: Env, data: seq<Expr>)
    requires SameOthers(d, env, envD) && NoneRead(d, data)
    ensures EvalAll(env, data) == EvalAll(envD, data)
    decreases |data|
  {
    if data != [] {
      EvalOff(d, env, envD, data[0]);
      forall k {:trigger data[1..][k]} | 0 <= k < |data| - 1 ensures !IsStore(d, data[1..][k]) {
        assert data[1..][k] == data[k + 1];
      }
      EvalAllOff(d, env, envD, data[1..]);
    }
  }

  lemma PushOff(d: set<Var>, env: Env, envD: Env)
    requires SameOthers(d, env, envD)
    ensures SameOthers(d, env + [map[]], envD + [map[]])
  {
  }

  lemma PopOff(d: set<Var>, env: Env, envD: Env)
    requires SameOthers(d, env, envD) && |env| > 1
    ensures SameOthers(d, env[..|env| - 1], envD[..|envD| - 1])
  {
  }

  // ----- one skipped assignment

  /** The equation gives its target a value or confirms the one it has; it fails for no operand and solves for none. */
  predicate SettlesOn(env: Env, q: EquationOf<Expr>, target: Expr) {
    match Solve(q.op, Eval(env, q.a), Eval(env, q.b), Eval(env, q.res))
    case SetA(_) => q.a == target
    case SetB(_) => q.b == target
    case SetRes(_) => q.res == target
    case Holds => true
    case Fails => false
  }

  predicate Settles(env: Env, op: MathOperation, a: Expr, b: Expr, target: Expr)
    requires env != []
  {
    SettlesOn(Introduce(env, target), AsEquation(op, a, b, target), target)
  }

  /** Skipping an assignment to a dropped variable keeps all other variables right exactly when it settles. */
  lemma StoreSettlesIff(d: set<Var>, env: Env, envD: Env, op: MathOperation, a: Expr, b: Expr, target: Expr)
    requires SameOthers(d, env, envD) && IsStore(d, target) && !IsStore(d, a) && !IsStore(d, b)
    ensures var env1, q := Introduce(env, target), AsEquation(op, a, b, target);
            var env2 := Equation(env1, q.op, q.a, q.b, q.res);
            Settles(env, op, a, b, target) <==> env2.Some? && SameOthers(d, env2.value, envD)
  {
    var env1, q := Introduce(env, target), AsEquation(op, a, b, target);
    IntroduceStore(d, env, envD, target);
    match Solve(q.op, Eval(env1, q.a), Eval(env1, q.b), Eval(env1, q.res))
    case SetA(x) => SolvedStore(d, env1, envD, q.a, x, target);
    case SetB(x) => SolvedStore(d, env1, envD, q.b, x, target);
    case SetRes(x) => SolvedStore(d, env1, envD, q.res, x, target);
    case Holds =>
    case Fails =>
  }

  lemma SolvedStore(d: set<Var>, env: Env, envD: Env, e: Expr, x: Fe, target: Expr)
    requires SameOthers(d, env, envD) && IsStore(d, target) && (e == target || !IsStore(d, e)) && Eval(env, e).None?
    ensures SetVar(env, e, x).Some? && SameOthers(d, SetVar(env, e, x).value, envD) <==> e == target && Find(env, target.v).Some?
  {
    if e.Name? && Find(env, e.v).Some? {
      var i, env2 := Find(env, e.v).value, SetVar(env, e, x).value;
      if e != target {
        FindSame(d, env, envD, e.v);
        assert e.v in envD[i] && envD[i][e.v] == None && env2[i][e.v] == Some(x);
      }
    }
  }

  // ----- whole runs

  /** Every skipped assignment that the run of the full lines meets settles. */
  predicate Settled(h: set<Var>, d: set<Var>, lines: seq<Line>, env: Env)
    requires env != []
    decreases lines
  {
    lines == [] ||
    var rest := lines[1..];
    match lines[0]
    case ForwardDeclaration(v) => Settled(h, d, rest, if v in h then env else InsertLast(env, v, None))
    case Assignment(target, op, a, b) =>
      (IsStore(d, target) ==> Settles(env, op, a, b, target))
      && var env1, q := Introduce(env, target), AsEquation(op, a, b, target);
         var env2 := Equation(env1, q.op, q.a, q.b, q.res);
         if env2.Some? then EquationKeepsScopes(env1, q.op, q.a, q.b, q.res); Settled(h, d, rest, env2.value) else true
    case AssertEq(l, r) =>
      var env1 := Introduce(Introduce(env, l), r);
      var env2 := Equation(env1, AddOp, l, Number(0), r);
      if env2.Some? then EquationKeepsScopes(env1, AddOp, l, Number(0), r); Settled(h, d, rest, env2.value) else true
    case IfNotZero(c, t, e) =>
      var v := Eval(env, c);
      v.Some? ==>
        (if v.value != 0 then Settled(h, d, t, env + [map[]]) else Settled(h, d, e, env + [map[]]))
        && var o := Closed(if v.value != 0 then Exec(h, {}, t, env + [map[]]) else Exec(h, {}, e, env + [map[]]));
           o.Next? ==> Settled(h, d, rest, o.env)
    case Match(value, arms, offset) =>
      var v := Eval(env + [map[]], value);
      v.Some? && offset <= v.value < offset + |arms| ==>
        Settled(h, d, arms[v.value - offset].body, env + [map[]] + [map[]])
        && var o := Closed(Exec(h, {}, arms[v.value - offset].body, env + [map[]] + [map[]]));
           o.Next? ==> Settled(h, d, rest, o.env)
    case PanicLine => true
    case FunctionRet(_) => true
  }

  ghost predicate SameOutcome(d: set<Var>, o: Outcome, oD: Outcome) {
    if o.Next? then oD.Next? && SameOthers(d, o.env, oD.env) else oD == o
  }

  /** Skipping dropped stores that settle changes neither what the lines return nor whether they stop. */
  lemma {:induction false} DropLines(h: set<Var>, d: set<Var>, lines: seq<Line>, env: Env, envD: Env)
    requires SameOthers(d, env, envD) && Quiet(d, lines) && Settled(h, d, lines, env)
    ensures envD != [] && SameOutcome(d, Exec(h, {}, lines, env), Exec(h, d, lines, envD))
    decreases lines, 2
  {
    if lines != [] {
      QuietParts(d, lines);
      hide Quiet;
      match lines[0]
      case ForwardDeclaration(v) =>
        hide Equation, Eval;
        DropLines(h, d, lines[1..], if v in h then env else InsertLast(env, v, None), if v in h || v in d then envD else InsertLast(envD, v, None));
      case Assignment(target, op, a, b) => DropAssignment(h, d, lines, env, envD);
      case AssertEq(l, r) => DropAssert(h, d, lines, env, envD);
      case IfNotZero(c, t, e) => DropIf(h, d, lines, env, envD);
      case Match(value, arms, offset) => DropMatch(h, d, lines, env, envD);
      case PanicLine =>
      case FunctionRet(data) => EvalAllOff(d, env, envD, data);
    }
  }

  lemma DropAssignment(h: set<Var>, d: set<Var>, lines: seq<Line>, env: Env, envD: Env)
    requires lines != [] && lines[0].Assignment? && SameOthers(d, env, envD) && Quiet(d, lines[1..]) && NoneRead(d, Operands(lines[0]))
    requires Settled(h, d, lines, env)
    ensures envD != [] && SameOutcome(d, Exec(h, {}, lines, env), Exec(h, d, lines, envD))
    decreases lines, 1
  {
    hide SameOthers, Equation, Introduce, Quiet, SettlesOn;
    var target, op, a, b := lines[0].target, lines[0].op, lines[0].arg0, lines[0].arg1;
    assert Operands(lines[0])[0] == a && Operands(lines[0])[1] == b;
    SameSize(d, env, envD);
    var env1, q := Introduce(env, target), AsEquation(op, a, b, target);
    if IsStore(d, target) {
      StoreSettlesIff(d, env, envD, op, a, b, target);
      EquationKeepsScopes(env1, q.op, q.a, q.b, q.res);
      DropLines(h, d, lines[1..], Equation(env1, q.op, q.a, q.b, q.res).value, envD);
    } else {
      var envD1 := Introduce(envD, target);
      IntroduceOff(d, env, envD, target);
      EquationOff(d, env1, envD1, q.op, q.a, q.b, q.res);
      if Equation(env1, q.op, q.a, q.b, q.res).Some? {
        EquationKeepsScopes(env1, q.op, q.a, q.b, q.res);
        EquationKeepsScopes(envD1, q.op, q.a, q.b, q.res);
        DropLines(h, d, lines[1..], Equation(env1, q.op, q.a, q.b, q.res).value, Equation(envD1, q.op, q.a, q.b, q.res).value);
      }
    }
  }

  lemma SameSize(d: set<Var>, env: Env, envD: Env)
    requires SameOthers(d, env, envD)
    ensures |env| == |envD| > 0
  {
  }

  lemma DropAssert(h: set<Var>, d: set<Var>, lines: seq<Line>, env: Env, envD: Env)
    requires lines != [] && lines[0].AssertEq? && SameOthers(d, env, envD) && Quiet(d, lines[1..]) && NoneRead(d, Operands(lines[0]))
    requires Settled(h, d, lines, env)
    ensures envD != [] && SameOutcome(d, Exec(h, {}, lines, env), Exec(h, d, lines, envD))
    decreases lines, 1
  {
    hide SameOthers, Equation, Introduce, Quiet;
    var l, r := lines[0].left, lines[0].right;
    assert Operands(lines[0])[0] == l && Operands(lines[0])[1] == r;
    SameSize(d, env, envD);
    var env1, envD1 := Introduce(Introduce(env, l), r), Introduce(Introduce(envD, l), r);
    IntroduceOff(d, env, envD, l);
    IntroduceOff(d, Introduce(env, l), Introduce(envD, l), r);
    EquationOff(d, env1, envD1, AddOp, l, Number(0), r);
    if Equation(env1, AddOp, l, Number(0), r).Some? {
      EquationKeepsScopes(env1, AddOp, l, Number(0), r);
      EquationKeepsScopes(envD1, AddOp, l, Number(0), r);
      DropLines(h, d, lines[1..], Equation(env1, AddOp, l, Number(0), r).value, Equation(envD1, AddOp, l, Number(0), r).value);
    }
  }

  /** A nested block, and what is left of the environments when its scope is dropped. */
  lemma DropNested(h: set<Var>, d: set<Var>, body: seq<Line>, env: Env, envD: Env)
    requires SameOthers(d, env, envD) && env != [] && Quiet(d, body) && Settled(h, d, body, env + [map[]])
    ensures envD != [] && |env| == |envD|
    ensures var o, oD := Exec(h, {}, body, env + [map[]]), Exec(h, d, body, envD + [map[]]);
            if o.Next? then oD.Next? && |o.env| == |oD.env| == |env| + 1 && SameOthers(d, o.env[..|env|], oD.env[..|env|]) else oD == o
    decreases body, 3
  {
    PushOff(d, env, envD);
    SameSize(d, env, envD);
    hide SameOthers, Quiet, Settled, Exec;
    DropLines(h, d, body, env + [map[]], envD + [map[]]);
    var o, oD := Exec(h, {}, body, env + [map[]]), Exec(h, d, body, envD + [map[]]);
    if o.Next? {
      PopOff(d, o.env, oD.env);
    }
  }

  lemma DropIf(h: set<Var>, d: set<Var>, lines: seq<Line>, env: Env, envD: Env)
    requires lines != [] && lines[0].IfNotZero? && SameOthers(d, env, envD) && Quiet(d, lines[1..]) && NoneRead(d, Operands(lines[0]))
    requires Quiet(d, lines[0].thenBranch) && Quiet(d, lines[0].elseBranch) && Settled(h, d, lines, env)
    ensures envD != [] && SameOutcome(d, Exec(h, {}, lines, env), Exec(h, d, lines, envD))
    decreases lines, 1
  {
    hide SameOthers, Quiet;
    SameSize(d, env, envD);
    var c := lines[0].condition;
    assert Operands(lines[0])[0] == c;
    EvalOff(d, env, envD, c);
    var v := Eval(env, c);
    if v.Some? {
      var body := if v.value != 0 then lines[0].thenBranch else lines[0].elseBranch;
      var o, oD := Exec(h, {}, body, env + [map[]]), Exec(h, d, body, envD + [map[]]);
      assert o.Next? ==> o.env[..|o.env| - 1] == o.env[..|env|];
      DropNested(h, d, body, env, envD);
      ExecBranch(h, {}, lines, env, body);
      ExecBranch(h, d, lines, envD, body);
      if o.Next? {
        DropLines(h, d, lines[1..], o.env[..|env|], oD.env[..|env|]);
      }
    }
  }

  lemma DropMatch(h: set<Var>, d: set<Var>, lines: seq<Line>, env: Env, envD: Env)
    requires lines != [] && lines[0].Match? && SameOthers(d, env, envD) && Quiet(d, lines[1..]) && NoneRead(d, Operands(lines[0]))
    requires forall k {:trigger lines[0].arms[k]} | 0 <= k < |lines[0].arms| :: Quiet(d, lines[0].arms[k].body)
    requires Settled(h, d, lines, env)
    ensures envD != [] && SameOutcome(d, Exec(h, {}, lines, env), Exec(h, d, lines, envD))
    decreases lines, 1
  {
    hide SameOthers, Quiet, Settled;
    SameSize(d, env, envD);
    PushOff(d, env, envD);
    var value := lines[0].value;
    var p, pD := env + [map[]], envD + [map[]];
    assert Operands(lines[0])[0] == value;
    EvalOff(d, p, pD, value);
    var v := Eval(p, value);
    if v.Some? && lines[0].offset <= v.value < lines[0].offset + |lines[0].arms| {
      DropArm(h, d, lines, env, envD, v.value);
    }
  }

  lemma SettledArm(h: set<Var>, d: set<Var>, lines: seq<Line>, env: Env, v: Fe)
    requires lines != [] && lines[0].Match? && env != [] && Settled(h, d, lines, env)
    requires Eval(env + [map[]], lines[0].value) == Some(v) && lines[0].offset <= v < lines[0].offset + |lines[0].arms|
    ensures var p, body := env + [map[]], lines[0].arms[v - lines[0].offset].body;
            var o := Exec(h, {}, body, p + [map[]]);
            Settled(h, d, body, p + [map[]]) && (o.Next? ==> Settled(h, d, lines[1..], o.env[..|p|]))
  {
    hide Eval, Exec;
    var p, body := env + [map[]], lines[0].arms[v - lines[0].offset].body;
    var o := Exec(h, {}, body, p + [map[]]);
    assert o.Next? ==> o.env[..|o.env| - 1] == o.env[..|p|];
  }

  lemma DropArm(h: set<Var>, d: set<Var>, lines: seq<Line>, env: Env, envD: Env, v: Fe)
    requires lines != [] && lines[0].Match? && SameOthers(d, env, envD) && env != [] && envD != [] && |env| == |envD| && Quiet(d, lines[1..])
    requires Eval(env + [map[]], lines[0].value) == Some(v) == Eval(envD + [map[]], lines[0].value)
    requires lines[0].offset <= v < lines[0].offset + |lines[0].arms| && Quiet(d, lines[0].arms[v - lines[0].offset].body)
    requires Settled(h, d, lines, env)
    ensures SameOutcome(d, Exec(h, {}, lines, env), Exec(h, d, lines, envD))
    decreases lines, 0
  {
    hide SameOthers, Quiet, Settled, Exec, Eval, SameOutcome, Closed;
    PushOff(d, env, envD);
    var p, pD := env + [map[]], envD + [map[]];
    var body := lines[0].arms[v - lines[0].offset].body;
    SettledArm(h, d, lines, env, v);
    DropNested(h, d, body, p, pD);
    ExecArm(h, {}, lines, env, v);
    ExecArm(h, d, lines, envD, v);
    var o, oD := Exec(h, {}, body, p + [map[]]), Exec(h, d, body, pD + [map[]]);
    if o.Next? {
      DropLines(h, d, lines[1..], o.env[..|p|], oD.env[..|p|]);
      CloseOff(d, Exec(h, {}, lines[1..], o.env[..|p|]), Exec(h, d, lines[1..], oD.env[..|p|]));
    } else {
      SameStop(d, o);
    }
  }

  lemma SameStop(d: set<Var>, o: Outcome)
    requires !o.Next?
    ensures SameOutcome(d, o, o)
  {
  }

  lemma CloseOff(d: set<Var>, o: Outcome, oD: Outcome)
    requires SameOutcome(d, o, oD) && (o.Next? ==> |o.env| > 1)
    ensures SameOutcome(d, Closed(o), Closed(oD))
  {
    if o.Next? {
      PopOff(d, o.env, oD.env);
    }
  }

  // ----- where a run sticks

  /** The line at which the lines get stuck. */
  function StopsAt(h: set<Var>, lines: seq<Line>, env: Env): Option<Line>
    requires env != []
    decreases lines
  {
    if lines == [] then None
    else
      var rest := lines[1..];
      match lines[0]
      case ForwardDeclaration(v) => StopsAt(h, rest, if v in h then env else InsertLast(env, v, None))
      case Assignment(target, op, a, b) =>
        var env1, q := Introduce(env, target), AsEquation(op, a, b, target);
        var env2 := Equation(env1, q.op, q.a, q.b, q.res);
        if env2.Some? then EquationKeepsScopes(env1, q.op, q.a, q.b, q.res); StopsAt(h, rest, env2.value) else Some(lines[0])
      case AssertEq(l, r) =>
        var env1 := Introduce(Introduce(env, l), r);
        var env2 := Equation(env1, AddOp, l, Number(0), r);
        if env2.Some? then EquationKeepsScopes(env1, AddOp, l, Number(0), r); StopsAt(h, rest, env2.value) else Some(lines[0])
      case IfNotZero(c, t, e) =>
        var v := Eval(env, c);
        if v.None? then Some(lines[0])
        else
          var inside := if v.value != 0 then StopsAt(h, t, env + [map[]]) else StopsAt(h, e, env + [map[]]);
          var o := Closed(if v.value != 0 then Exec(h, {}, t, env + [map[]]) else Exec(h, {}, e, env + [map[]]));
          if o.Next? then StopsAt(h, rest, o.env) else inside
      case Match(value, arms, offset) =>
        var v := Eval(env + [map[]], value);
        if v.None? then Some(lines[0])
        else if !(offset <= v.value < offset + |arms|) then None
        else
          var inside := StopsAt(h, arms[v.value - offset].body, env + [map[]] + [map[]]);
          var o := Closed(Exec(h, {}, arms[v.value - offset].body, env + [map[]] + [map[]]));
          if o.Next? then StopsAt(h, rest, o.env) else inside
      case PanicLine => Some(lines[0])
      case FunctionRet(data) => if EvalAll(env, data).Some? then None else Some(lines[0])
  }

  lemma {:induction false} StopsIffStuck(h: set<Var>, lines: seq<Line>, env: Env)
    requires env != []
    ensures StopsAt(h, lines, env).Some? <==> Exec(h, {}, lines, env) == Stuck
    decreases lines
  {
    if lines != [] {
      hide Equation, Eval, Introduce, InsertLast;
      var rest := lines[1..];
      match lines[0]
      case ForwardDeclaration(v) => StopsIffStuck(h, rest, if v in h then env else InsertLast(env, v, None));
      case Assignment(target, op, a, b) =>
        var env1, q := Introduce(env, target), AsEquation(op, a, b, target);
        if Equation(env1, q.op, q.a, q.b, q.res).Some? {
          EquationKeepsScopes(env1, q.op, q.a, q.b, q.res);
          StopsIffStuck(h, rest, Equation(env1, q.op, q.a, q.b, q.res).value);
        }
      case AssertEq(l, r) =>
        var env1 := Introduce(Introduce(env, l), r);
        if Equation(env1, AddOp, l, Number(0), r).Some? {
          EquationKeepsScopes(env1, AddOp, l, Number(0), r);
          StopsIffStuck(h, rest, Equation(env1, AddOp, l, Number(0), r).value);
        }
      case IfNotZero(c, t, e) => StopsIf(h, lines, env);
      case Match(value, arms, offset) => StopsMatch(h, lines, env);
      case PanicLine =>
      case FunctionRet(data) =>
    }
  }

  lemma StopsIf(h: set<Var>, lines: seq<Line>, env: Env)
    requires lines != [] && lines[0].IfNotZero? && env != []
    ensures StopsAt(h, lines, env).Some? <==> Exec(h, {}, lines, env) == Stuck
    decreases lines, 0
  {
    hide Eval;
    var v := Eval(env, lines[0].condition);
    if v.Some? {
      var body := if v.value != 0 then lines[0].thenBranch else lines[0].elseBranch;
      StopsIffStuck(h, body, env + [map[]]);
      var o := Closed(Exec(h, {}, body, env + [map[]]));
      if o.Next? {
        StopsIffStuck(h, lines[1..], o.env);
      }
    }
  }

  lemma StopsMatch(h: set<Var>, lines: seq<Line>, env: Env)
    requires lines != [] && lines[0].Match? && env != []
    ensures StopsAt(h, lines, env).Some? <==> Exec(h, {}, lines, env) == Stuck
    decreases lines, 0
  {
    hide Eval, Equation, Introduce, InsertLast, EvalAll, AsEquation;
    var v, offset := Eval(env + [map[]], lines[0].value), lines[0].offset;
    if v.Some? && offset <= v.value < offset + |lines[0].arms| {
      var body := lines[0].arms[v.value - offset].body;
      StopsIffStuck(h, body, env + [map[]] + [map[]]);
      var o := Closed(Exec(h, {}, body, env + [map[]] + [map[]]));
      if o.Next? {
        StopsIffStuck(h, lines[1..], o.env);
      }
    }
  }
}
