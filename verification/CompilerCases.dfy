/**
 Functions on which compiled code and plain meaning part, one for each way it happens
 (crates/lean_compiler/src/b_compile_intermediate.rs): a coalesced variable declared twice on one
 path, a dead store that sticks, and a dead store that solves for an operand.
 */
module CompilerCases {
  import opened Field
  import opened Interpolation
  import opened IntermediateCode
  import opened SimpleLang
  import opened CompileLines
  import opened CompileGrowth
  import opened CompileFacts
  import opened CompileCorrect
  import opened Coalescing
  import opened CompileFunction
  import opened Hoisting
  import opened DeadStores
  import opened StoredOnce
  import opened FunctionMeaning
  import opened Redeclaration

  /** A function whose code has been compiled into a program, and a frame to run it in. */
  ghost predicate Loaded(f: Function, st: CState, p: Program, lay: Layout, values: seq<Fe>, mem: Memory) {
    && Fresh(st) && CompileBody(f, st).Some? && Includes(p, CompileBody(f, st).value.st) && Placed(p, lay)
    && |values| == |f.arguments| && EntryFrame(f, values, mem, CompileBody(f, st).value.st.stackSize)
  }

  ghost predicate CodeBreaks(f: Function, st: CState, p: Program, lay: Layout, mem: Memory)
    requires CompileBody(f, st).Some?
  {
    exists t: Machine :: Reaches(p, lay, Running(CompileBody(f, st).value.code, mem), t) && Breaks(SettingOf(f, p, lay), t)
  }

  ghost predicate CodeReturns(f: Function, st: CState, p: Program, lay: Layout, mem: Memory, values: seq<Fe>)
    requires CompileBody(f, st).Some?
  {
    exists t: Machine :: Reaches(p, lay, Running(CompileBody(f, st).value.code, mem), t) && ReturnedFrame(f, t, mem, values)
  }

  // ----- a coalesced variable declared twice on one path

  function Branch(): seq<Line> { Again("a", Plus, Number(1), Number(0), []) }

  function Tail(): seq<Line> { Again("a", Plus, Number(2), Number(0), [FunctionRet([Name("a")])]) }

  /** if 1 { var a; a = 1 }  var a; a = 2; return a. */
  function Redeclared(): Function { Function("redeclared", [], 1, [IfNotZero(Number(1), Branch(), [])] + Tail()) }

  lemma AgainParts(v: Var, op: MathOperation, a: Expr, b: Expr, rest: seq<Line>)
    ensures var l := Again(v, op, a, b, rest);
            l[1..] == [Assignment(Name(v), op, a, b)] + rest && l[1..][0] == Assignment(Name(v), op, a, b) && l[1..][1..] == rest
    ensures AllReturns(Again(v, op, a, b, rest)) == AllReturns(rest)
    ensures Declared(Again(v, op, a, b, rest)) == {v} + Declared(rest)
  {
    var l := Again(v, op, a, b, rest);
    assert l[1..] == [Assignment(Name(v), op, a, b)] + rest && l[1..][1..] == rest;
    assert AllReturns(l) == [] + AllReturns(l[1..]);
    assert AllReturns(l[1..]) == [] + AllReturns(l[1..][1..]);
    assert Declared(l[1..]) == {v} + {} + Declared(rest);
  }

  lemma RedeclaredParts()
    ensures var f := Redeclared();
            f.body[0] == IfNotZero(Number(1), Branch(), []) && f.body[1..] == Tail()
            && AllReturns(f.body) == [[Name("a")]] && Declared(f.body) == {"a"}
  {
    var f := Redeclared();
    var ret := [FunctionRet([Name("a")])];
    assert f.body[1..] == Tail();
    AgainParts("a", Plus, Number(1), Number(0), []);
    AgainParts("a", Plus, Number(2), Number(0), ret);
    assert ret[1..] == [] && AllReturns(ret) == [[Name("a")]] + [];
    assert AllReturns(f.body) == AllReturns(Branch()) + AllReturns([]) + AllReturns(Tail());
    assert Declared(ret) == {};
    assert Declared(f.body) == {} + (Declared(Branch()) + Declared([])) + Declared(Tail());
  }

  lemma RedeclaredHoists()
    ensures Hoisted(Redeclared()) == map["a" := 2]
    ensures DeadVars(Redeclared().body) == {} && OwnSlots(Redeclared()) && ReturnsMany(Redeclared().body, 1)
  {
    var f := Redeclared();
    RedeclaredParts();
    var r: seq<Expr> := [Name("a")];
    assert [r][1..] == [];
    assert SeeAllAt(Unseen, [r], 0) == Same("a");
    assert CoalescedSlots(f, 0) == map[];
    assert CoalescedSlots(f, 1) == map["a" := 2];
    CoalescedIsRead(f);
    assert "a" in Hoisted(f);
  }

  /** A new variable takes its value. */
  lemma NewValue(v: Var, c: Fe, rest: seq<Line>, env: Env)
    requires env != []
    ensures Exec({}, {}, Again(v, Plus, Number(c), Number(0), rest), env) == Exec({}, {}, rest, InsertLast(env, v, Some(c)))
  {
    hide Exec, InsertLast;
    AgainRuns({}, {}, v, Plus, Number(c), Number(0), rest, env);
    SetDeclared(env, v, c);
    AddZero(c);
    SolvedTarget(InsertLast(env, v, None), Plus, Number(c), Number(0), v, c, 0);
  }

  /** A hoisted variable takes its first value in the function scope. */
  lemma FirstValue(h: set<Var>, v: Var, c: Fe, rest: seq<Line>, env: Env)
    requires env != [] && v in h && Find(env, v) == Some(0) && env[0][v] == None
    ensures Exec(h, {}, Again(v, Plus, Number(c), Number(0), rest), env) == Exec(h, {}, rest, env[0 := env[0][v := Some(c)]])
  {
    hide Exec, Find;
    AgainRuns(h, {}, v, Plus, Number(c), Number(0), rest, env);
    AddZero(c);
    SolvedTarget(env, Plus, Number(c), Number(0), v, c, 0);
  }

  lemma RedeclaredPlain()
    ensures Meaning(Redeclared(), []) == Returned([2])
  {
    RedeclaredParts();
    var env: Env := [map[]];
    var body := Redeclared().body;
    assert ArgEnv([], []) == map[];
    NewValue("a", 1, [], env + [map[]]);
    NewValue("a", 2, [FunctionRet([Name("a")])], env);
    var inner := InsertLast(env + [map[]], "a", Some(1));
    assert inner[..1] == env;
    ExecBranch({}, {}, body, env, Branch());
    var last := InsertLast(env, "a", Some(2));
    ReturnsOne(last, "a", 2);
  }

  lemma ReturnsOne(env: Env, v: Var, x: Fe)
    requires env != [] && v in env[|env| - 1] && env[|env| - 1][v] == Some(x)
    ensures forall h: set<Var>, d: set<Var> {:trigger Exec(h, d, [FunctionRet([Name(v)])], env)} :: Exec(h, d, [FunctionRet([Name(v)])], env) == Returned([x])
  {
    var data := [Name(v)];
    assert Eval(env, Name(v)) == Some(x);
    assert data[1..] == [] && EvalAll(env, data[1..]) == Some([]);
    assert EvalAll(env, data).value == [x] + [] == [x];
  }

  lemma RedeclaredEntry()
    ensures EntryEnv(Redeclared(), []) == [map["a" := None]]
  {
    RedeclaredHoists();
    var none: Option<Fe> := None;
    assert ArgEnv([], []) == map[];
    assert EntryEnv(Redeclared(), [])[0] == map["a" := none];
  }

  lemma FirstHolds(env: Env)
    requires env == [map["a" := None]]
    ensures Exec({"a"}, {}, Branch(), env + [map[]]) == Next([map["a" := Some(1)], map[]])
  {
    var e1: Env := env + [map[]];
    assert e1[..1] == env && Find(env, "a") == Some(0) && Find(e1, "a") == Some(0);
    FirstValue({"a"}, "a", 1, [], e1);
    var one: Fe := 1;
    assert e1[0]["a" := Some(one)] == map["a" := Some(one)];
    assert e1[0 := e1[0]["a" := Some(one)]] == [map["a" := Some(one)], map[]];
  }

  lemma RedeclaredHoisted()
    ensures Exec({"a"}, {}, Redeclared().body, EntryEnv(Redeclared(), [])) == Stuck
  {
    RedeclaredParts();
    RedeclaredEntry();
    var env: Env := [map["a" := None]];
    var held: Env := [map["a" := Some(1)]];
    FirstHolds(env);
    assert [map["a" := Some(1)], map[]][..1] == held;
    SecondSticks(held);
    hide Branch, Tail, Redeclared, Hoisted;
    ExecBranch({"a"}, {}, Redeclared().body, env, Branch());
  }

  lemma SecondSticks(held: Env)
    requires held == [map["a" := Some(1)]]
    ensures Exec({"a"}, {}, Tail(), held) == Stuck
  {
    var env: Env := [map[]];
    assert RelH({"a"}, env, held, {});
    AddZero(2);
    RedeclaredSticksIff({"a"}, {}, env, held, {}, "a", 1, 2, Plus, Number(2), Number(0), [FunctionRet([Name("a")])]);
  }

  /** Its body returns 2; hoisted, the second assignment contradicts the first, and the compiled code breaks. */
  lemma RedeclaredSticks(st: CState, p: Program, lay: Layout, mem: Memory)
    requires Loaded(Redeclared(), st, p, lay, [], mem)
    ensures Meaning(Redeclared(), []) == Returned([2]) && CodeBreaks(Redeclared(), st, p, lay, mem) && !IntroducedOnce(Redeclared())
  {
    RedeclaredHoists();
    RedeclaredPlain();
    RedeclaredHoisted();
    assert Redeclared().name != "main" && |Redeclared().arguments| == 0 && Redeclared().retCount == 1 && Hoisted(Redeclared()).Keys == {"a"};
    hide *;
    if IntroducedOnce(Redeclared()) {
      HoistingKeepsMeaning(Redeclared(), {}, []);
    }
    FunctionRuns(Redeclared(), st, p, lay, [], mem);
  }

  // ----- a dead store that sticks

  /** x = 1 / a; return 7. */
  function Unread(): Function {
    Function("unread", ["a"], 1, [Assignment(Name("x"), Divide, Number(1), Name("a")), FunctionRet([Number(7)])])
  }

  lemma UnreadParts()
    ensures var f := Unread();
            f.body[1..] == [FunctionRet([Number(7)])] && f.body[1..][1..] == [] && AllReturns(f.body) == [[Number(7)]]
            && Hoisted(f) == map[] && DeadVars(f.body) == {"x"}
  {
    var f := Unread();
    assert f.body[1..] == [FunctionRet([Number(7)])] && f.body[1..][1..] == [];
    assert AllReturns(f.body[1..]) == [[Number(7)]] + [];
    assert AllReturns(f.body) == [] + AllReturns(f.body[1..]);
    var r: seq<Expr> := [Number(7)];
    assert [r][1..] == [] && SeeAllAt(Unseen, [r], 0) == Mixed;
    assert CoalescedSlots(f, 0) == map[] && CoalescedSlots(f, 1) == map[];
    assert Declared(f.body[1..]) == {};
    assert Declared(f.body) == {"x"} + {} + Declared(f.body[1..]);
    var data, ops: seq<Expr> := [Number(7)], [Number(1), Name("a")];
    assert data[1..] == [] && ops[1..] == [Name("a")] && ops[1..][1..] == [];
    assert Occurrences(ops, "x") == 0 && Occurrences(data, "x") == 0;
    assert Uses(f.body[1..], "x") == 0;
    assert Uses(f.body, "x") == 0;
  }

  lemma UnreadMeans()
    ensures Meaning(Unread(), [0]) == Stuck && SticksAtDeadStore(Unread(), [0]) && LiveMeaning(Unread(), [0]) == Returned([7])
  {
    UnreadParts();
    var f := Unread();
    var zero: Fe := 0;
    var env: Env := [map["a" := Some(zero)]];
    assert f.arguments[..0] == [] && [zero][..0] == [];
    assert ArgEnv([], []) == map[];
    assert ArgEnv(f.arguments, [zero]) == map["a" := Some(zero)];
    assert Find(env, "x") == None by { assert env[..0] == []; }
    var env1 := InsertLast(env, "x", None);
    assert env1[0] == map["a" := Some(zero), "x" := None];
    assert Find(env1, "x") == Some(0) && Find(env1, "a") == Some(0);
    var q := AsEquation(Divide, Number(1), Name("a"), Name("x"));
    assert q == EquationOf(MulOp, Name("x"), Name("a"), Number(1));
    assert Equation(env1, q.op, q.a, q.b, q.res) == None;
    var data: seq<Expr> := [Number(7)];
    assert data[1..] == [] && EvalAll(env, data[1..]) == Some([]);
    assert EvalAll(env, data).value == [7] + [];
  }

  /** The body gets stuck on 1 / 0; the compiled code has no trace of that assignment and returns 7. */
  lemma UnreadReturns(st: CState, p: Program, lay: Layout, mem: Memory)
    requires Loaded(Unread(), st, p, lay, [0], mem)
    ensures Meaning(Unread(), [0]) == Stuck && SticksAtDeadStore(Unread(), [0]) && DeadStoredOnce(Unread())
    ensures CodeReturns(Unread(), st, p, lay, mem, [7]) && !CodeBreaks(Unread(), st, p, lay, mem)
  {
    UnreadParts();
    UnreadMeans();
    UnreadStoredOnce();
    assert OwnSlots(Unread()) && IntroducedOnce(Unread()) && ReturnsMany(Unread().body, 1);
    assert Unread().name != "main" && |[0]| == |Unread().arguments| && Unread().retCount == 1;
    hide CompileBody, Unread, Meaning, LiveMeaning, ReturnedFrame, Breaks, Reaches, Includes, Placed, Fresh, OwnSlots, IntroducedOnce, ReturnsMany;
    CompiledFunctionRuns(Unread(), st, p, lay, [0], mem);
    BreaksIffLiveStuck(Unread(), st, p, lay, [0], mem);
  }

  lemma UnreadStoredOnce()
    ensures DeadStoredOnce(Unread())
  {
    UnreadParts();
    var f := Unread();
    assert Stores(f.body[1..][1..], "x") == 0;
    assert Stores(f.body[1..], "x") == 0;
    assert Stores(f.body, "x") == 1;
  }

  // ----- a dead store that solves for an operand

  /** var a; x = a + 1; return a, for the argument x. */
  function Backward(): Function {
    Function("backward", ["x"], 1,
      [ForwardDeclaration("a"), Assignment(Name("x"), Plus, Name("a"), Number(1)), FunctionRet([Name("a")])])
  }

  lemma BackwardParts()
    ensures var f := Backward();
            f.body[1..] == [f.body[1], f.body[2]] && f.body[1..][1..] == [f.body[2]] && AllReturns(f.body) == [[Name("a")]]
            && Hoisted(f) == map["a" := 3] && DeadVars(f.body) == {"x"}
  {
    var f := Backward();
    assert f.body[1..] == [f.body[1], f.body[2]] && f.body[1..][1..] == [f.body[2]] && f.body[1..][1..][1..] == [];
    var r: seq<Expr> := [Name("a")];
    assert AllReturns(f.body[1..][1..]) == [r] + [];
    assert AllReturns(f.body[1..]) == [] + AllReturns(f.body[1..][1..]);
    assert AllReturns(f.body) == [] + AllReturns(f.body[1..]);
    assert [r][1..] == [] && SeeAllAt(Unseen, [r], 0) == Same("a");
    assert CoalescedSlots(f, 0) == map[];
    assert CoalescedSlots(f, 1) == map["a" := 3];
    BackwardUses();
  }

  lemma BackwardUses()
    ensures DeadVars(Backward().body) == {"x"}
  {
    var f := Backward();
    var l1, l2 := f.body[1..], f.body[1..][1..];
    assert l1 == [f.body[1], f.body[2]] && l2 == [f.body[2]] && l2[1..] == [];
    assert Declared(l2) == {};
    assert Declared(l1) == {"x"} + {} + Declared(l2);
    assert Declared(f.body) == {"a"} + {} + Declared(l1);
    var ops, data: seq<Expr> := [Name("a"), Number(1)], [Name("a")];
    assert ops[1..] == [Number(1)] && ops[1..][1..] == [] && data[1..] == [];
    assert Occurrences(ops, "x") == 0 && Occurrences(data, "x") == 0 && Occurrences(ops, "a") == 1;
    assert Uses(l2, "x") == 0 && Uses(l1, "x") == 0 && Uses(f.body, "x") == 0;
    assert Uses(l1, "a") >= 1 && Uses(f.body, "a") >= 1;
  }

  lemma BackwardMeans()
    ensures Meaning(Backward(), [5]) == Returned([4]) && LiveMeaning(Backward(), [5]) == Stuck
  {
    BackwardParts();
    var f := Backward();
    var five: Fe, four: Fe := 5, 4;
    var env: Env := [map["x" := Some(five)]];
    assert f.arguments[..0] == [] && [five][..0] == [];
    assert ArgEnv([], []) == map[];
    assert ArgEnv(f.arguments, [five]) == map["x" := Some(five)];
    var env1 := InsertLast(env, "a", None);
    assert env1[0] == map["x" := Some(five), "a" := None];
    assert Find(env1, "x") == Some(0) && Find(env1, "a") == Some(0);
    LiftSelf(5);
    LiftSelf(1);
    LiftSub(5, 1);
    LiftSelf(4);
    assert Sub(five, 1) == four;
    var env2 := env1[0 := env1[0]["a" := Some(four)]];
    assert Equation(env1, AddOp, Name("a"), Number(1), Name("x")) == Some(env2);
    ReturnsOne(env2, "a", four);
    assert Exec({}, {}, f.body[1..], env1) == Returned([4]);
    var data: seq<Expr> := [Name("a")];
    assert EvalAll(env1, data) == None;
    assert Exec({}, {"x"}, f.body[1..], env1) == Stuck;
  }

  lemma BackwardFits()
    ensures OwnSlots(Backward()) && IntroducedOnce(Backward()) && ReturnsMany(Backward().body, 1) && !DeadStoredOnce(Backward())
  {
    BackwardParts();
    var f := Backward();
    forall v | v in Hoisted(f) ensures HoistSafe(f.body, v, false) {
      assert HoistSafe(f.body[1..][1..], "a", true);
      assert HoistSafe(f.body[1..], "a", true);
    }
    assert "x" in f.arguments && "x" in DeadVars(f.body);
  }

  /** The body solves x = a + 1 for a and returns 4; without that line the compiled code leaves the return slot empty. */
  lemma BackwardBreaks(st: CState, p: Program, lay: Layout, mem: Memory)
    requires Loaded(Backward(), st, p, lay, [5], mem)
    ensures Meaning(Backward(), [5]) == Returned([4]) && CodeBreaks(Backward(), st, p, lay, mem)
    ensures !DeadStoredOnce(Backward()) && !DeadStoresSettle(Backward(), [5])
  {
    BackwardFits();
    BackwardMeans();
    assert Backward().name != "main" && |[5]| == |Backward().arguments| && Backward().retCount == 1;
    hide CompileBody, Backward, Meaning, LiveMeaning, ReturnedFrame, Breaks, Reaches, Includes, Placed, Fresh, OwnSlots, IntroducedOnce, ReturnsMany,
         DeadStoredOnce, DeadStoresSettle;
    CompiledFunctionRuns(Backward(), st, p, lay, [5], mem);
    if DeadStoresSettle(Backward(), [5]) {
      DeadStoresKeepMeaning(Backward(), [5]);
    }
  }

  // ----- the code that is left of the second one

  lemma UnreadCompiles(st: CState)
    ensures CompileBody(Unread(), st).Some?
    ensures CompileBody(Unread(), st).value.code
         == [Computation(AddOp, MemoryAfterFp(3), Constant(0), Constant(7)), Jump(MemoryAfterFp(0), Some(MemoryAfterFp(1)))]
  {
    UnreadParts();
    var f, s := Unread(), StartState(Unread(), st);
    var data: seq<Expr> := [Number(7)];
    assert data[1..] == [] && ReturnCopies(ContextOf(f), s.scopes, data[1..], 1) == Some([]);
    assert ReturnCopies(ContextOf(f), s.scopes, data, 0) == Some([Computation(AddOp, MemoryAfterFp(3), Constant(0), Constant(7))] + []);
    assert Compile(ContextOf(f), f.body[1..][1..], s, None).value.code == [];
    assert Compile(ContextOf(f), f.body, s, None) == Compile(ContextOf(f), f.body[1..], s, None);
  }
}
