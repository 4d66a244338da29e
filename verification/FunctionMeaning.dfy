/**
 Compiled functions and the plain meaning of their bodies (crates/lean_compiler/src/b_compile_intermediate.rs).
 */
module FunctionMeaning {
  import opened Field
  import opened Interpolation
  import opened IntermediateCode
  import opened SimpleLang
  import opened CompileLines
  import opened CompileGrowth
  import opened CompileFacts
  import opened CompileCorrect
  import opened Coalescing
  import opened CompileFunction
  import opened Hoisting
  import opened DeadStores
  import opened DroppedStores
  import opened StoredOnce
  import opened CompileOffsets

  /** On every path each coalesced variable is introduced once and not used before. */
  ghost predicate IntroducedOnce(f: Function) { forall v {:trigger v in Hoisted(f)} | v in Hoisted(f) :: HoistSafe(f.body, v, false) }

  lemma EntryHoistable(f: Function, d: set<Var>, values: seq<Fe>)
    requires |values| == |f.arguments| && IntroducedOnce(f) && Hoisted(f).Keys !! d
    ensures Hoistable(Hoisted(f).Keys, d, f.body, [ArgEnv(f.arguments, values)], EntryEnv(f, values), Hoisted(f).Keys)
  {
    var h, env, envH := Hoisted(f).Keys, [ArgEnv(f.arguments, values)], EntryEnv(f, values);
    ArgEnvMeans(f.arguments, values);
    ArgSlotsMeans(f.arguments);
    forall v | v in h ensures !InEnv(env, v) {
      CoalescedMeans(f, f.retCount, v);
    }
    forall v | v in h ensures v !in env[0] {
      CoalescedMeans(f, f.retCount, v);
    }
    assert SameOthers(h, env, envH);
    assert SameHoisted(h, env, envH);
  }

  /** Hoisting does not change what the body returns, nor whether it stops. */
  lemma HoistingKeepsMeaning(f: Function, d: set<Var>, values: seq<Fe>)
    requires |values| == |f.arguments| && IntroducedOnce(f) && Hoisted(f).Keys !! d
    ensures var o, oH := Exec({}, d, f.body, [ArgEnv(f.arguments, values)]), Exec(Hoisted(f).Keys, d, f.body, EntryEnv(f, values));
            !o.Next? ==> oH == o
  {
    hide Exec, Hoistable;
    EntryHoistable(f, d, values);
    HoistLines(Hoisted(f).Keys, d, f.body, [ArgEnv(f.arguments, values)], EntryEnv(f, values), Hoisted(f).Keys);
  }

  /** The frame left behind: the returned values, and everything that was written before still in place. */
  ghost predicate ReturnedFrame(f: Function, t: Machine, mem: Memory, values: seq<Fe>) {
    ReturnsTo(ContextOf(f), t, values) && t.Left? && Within(mem, t.frame)
  }

  // ----- dead stores

  /** A returned variable is read. */
  lemma {:induction false} ReturnUses(lines: seq<Line>, r: seq<Expr>, v: Var)
    requires r in AllReturns(lines) && Name(v) in r
    ensures Uses(lines, v) > 0
    decreases lines, 1
  {
    UsesParts(lines, v);
    if r in ReturnsOf(lines[0], lines) {
      match lines[0]
      case FunctionRet(data) =>
        var k :| 0 <= k < |r| && r[k] == Name(v);
        OccursAt(data, v, k);
      case IfNotZero(_, t, e) =>
        if r in AllReturns(t) { ReturnUses(t, r, v); } else { ReturnUses(e, r, v); }
      case Match(_, arms, _) => ArmReturnUses(arms, r, v);
    } else {
      ReturnUses(lines[1..], r, v);
    }
  }

  lemma {:induction false} ArmReturnUses(arms: seq<Arm>, r: seq<Expr>, v: Var)
    requires r in ReturnsOfArms(arms) && Name(v) in r
    ensures UsesInArms(arms, v) > 0
    decreases arms, 0
  {
    if r in AllReturns(arms[0].body) { ReturnUses(arms[0].body, r, v); } else { ArmReturnUses(arms[1..], r, v); }
  }

  lemma CoalescedIsRead(f: Function)
    requires ReturnsMany(f.body, f.retCount)
    ensures Hoisted(f).Keys !! DeadVars(f.body)
  {
    forall v | v in Hoisted(f) ensures Uses(f.body, v) > 0 {
      CoalescedMeans(f, f.retCount, v);
      var i := Hoisted(f)[v] - 2 - |f.arguments|;
      ChosenMeans(f.body, f.arguments, f.retCount, i, v);
      var r := AllReturns(f.body)[0];
      assert r in AllReturns(f.body);
      ReturnUses(f.body, r, v);
    }
  }

  /** The plain meaning of a function's body. */
  function Meaning(f: Function, values: seq<Fe>): Outcome
    requires |values| == |f.arguments|
  {
    Exec({}, {}, f.body, [ArgEnv(f.arguments, values)])
  }

  /** The meaning of its body without the dead stores. */
  function LiveMeaning(f: Function, values: seq<Fe>): Outcome
    requires |values| == |f.arguments|
  {
    Exec({}, DeadVars(f.body), f.body, [ArgEnv(f.arguments, values)])
  }

  /** No dead variable is an argument, and each is assigned once at most. */
  ghost predicate DeadStoredOnce(f: Function) {
    forall v {:trigger v in DeadVars(f.body)} | v in DeadVars(f.body) :: v !in f.arguments && Stores(f.body, v) <= 1
  }

  predicate SticksAtDeadStore(f: Function, values: seq<Fe>)
    requires |values| == |f.arguments|
  {
    StopsAtDropped({}, DeadVars(f.body), f.body, [ArgEnv(f.arguments, values)])
  }

  /** Every dead store the run meets gives its variable a value or confirms it. */
  predicate DeadStoresSettle(f: Function, values: seq<Fe>)
    requires |values| == |f.arguments|
  {
    Settled({}, DeadVars(f.body), f.body, [ArgEnv(f.arguments, values)])
  }

  /** Dead stores that settle change neither what the body returns nor whether it stops. */
  lemma DeadStoresKeepMeaning(f: Function, values: seq<Fe>)
    requires |values| == |f.arguments| && DeadStoresSettle(f, values)
    ensures !Meaning(f, values).Next? ==> LiveMeaning(f, values) == Meaning(f, values)
  {
    hide Exec, Settled;
    var env := [ArgEnv(f.arguments, values)];
    DropLines({}, DeadVars(f.body), f.body, env, env);
  }

  /** Stored once, they settle exactly when the body does not stick at one; so they do in every run that returns. */
  lemma DeadStoresSettleIff(f: Function, values: seq<Fe>)
    requires |values| == |f.arguments| && DeadStoredOnce(f)
    ensures DeadStoresSettle(f, values) <==> !SticksAtDeadStore(f, values)
    ensures Meaning(f, values).Returned? ==> DeadStoresSettle(f, values)
  {
    var d, env := DeadVars(f.body), [ArgEnv(f.arguments, values)];
    ArgEnvMeans(f.arguments, values);
    ArgSlotsMeans(f.arguments);
    forall v {:trigger v in d} | v in d ensures Stores(f.body, v) <= 1 && Unset(env, v) {
    }
    hide Exec, Settled, StopsAt;
    OnceSettles({}, d, f.body, env);
    StopsIffStuck({}, f.body, env);
  }

  // ----- what the compiled code does

  /**
   A compiled function run in a fresh frame does what its body means without the dead stores: it
   returns exactly those values, or breaks where that body gets stuck, provided coalesced variables
   are introduced once and returned in their own slots.
   */
  lemma CompiledFunctionRuns(f: Function, st: CState, p: Program, lay: Layout, values: seq<Fe>, mem: Memory)
    requires Fresh(st) && CompileBody(f, st).Some? && Includes(p, CompileBody(f, st).value.st) && Placed(p, lay)
    requires ReturnsMany(f.body, f.retCount) && OwnSlots(f) && IntroducedOnce(f) && (f.name == "main" ==> f.retCount == 0)
    requires |values| == |f.arguments| && EntryFrame(f, values, mem, CompileBody(f, st).value.st.stackSize)
    ensures var o, s := LiveMeaning(f, values), Running(CompileBody(f, st).value.code, mem);
            && (o.Returned? ==> exists t: Machine :: Reaches(p, lay, s, t) && ReturnedFrame(f, t, mem, o.values))
            && (o.Stuck? ==> exists t: Machine :: Reaches(p, lay, s, t) && Breaks(SettingOf(f, p, lay), t))
  {
    hide Exec, CompileBody, Placed, Includes, Fresh, ReturnsTo, Breaks, Reaches;
    CoalescedIsRead(f);
    FunctionRuns(f, st, p, lay, values, mem);
    HoistingKeepsMeaning(f, DeadVars(f.body), values);
    var o := LiveMeaning(f, values);
    var s := Running(CompileBody(f, st).value.code, mem);
    if o.Returned? {
      var t: Machine :| Reaches(p, lay, s, t) && ReturnsTo(ContextOf(f), t, o.values);
      ReachesKeeps(p, lay, s, t);
      ReturnsLeft(ContextOf(f), t, o.values);
      assert ReturnedFrame(f, t, mem, o.values);
    }
  }

  /**
   Against the plain meaning: in every run whose dead stores settle, the compiled code returns the
   values the body returns and breaks where it gets stuck.
   */
  lemma CompiledFunctionCorrect(f: Function, st: CState, p: Program, lay: Layout, values: seq<Fe>, mem: Memory)
    requires Fresh(st) && CompileBody(f, st).Some? && Includes(p, CompileBody(f, st).value.st) && Placed(p, lay)
    requires ReturnsMany(f.body, f.retCount) && OwnSlots(f) && IntroducedOnce(f) && (f.name == "main" ==> f.retCount == 0)
    requires |values| == |f.arguments| && EntryFrame(f, values, mem, CompileBody(f, st).value.st.stackSize)
    ensures var o, s := Meaning(f, values), Running(CompileBody(f, st).value.code, mem);
            && (o.Returned? && (DeadStoredOnce(f) || DeadStoresSettle(f, values)) ==>
                  exists t: Machine :: Reaches(p, lay, s, t) && ReturnedFrame(f, t, mem, o.values))
            && (o.Stuck? && DeadStoresSettle(f, values) ==> exists t: Machine :: Reaches(p, lay, s, t) && Breaks(SettingOf(f, p, lay), t))
  {
    hide Meaning, LiveMeaning, CompileBody, Placed, Includes, Fresh, ReturnedFrame, Breaks, Reaches, DeadStoredOnce, DeadStoresSettle;
    CompiledFunctionRuns(f, st, p, lay, values, mem);
    if DeadStoredOnce(f) {
      DeadStoresSettleIff(f, values);
    }
    if DeadStoresSettle(f, values) {
      DeadStoresKeepMeaning(f, values);
    }
  }

  // ----- exactly when

  /** The machine is deterministic: a run ends in one way only. */
  lemma EndsOnce(p: Program, lay: Layout, s: Machine, t: Machine, u: Machine)
    requires Reaches(p, lay, s, t) && Reaches(p, lay, s, u) && Ended(t) && Ended(u)
    ensures t == u
  {
    var m: nat :| Run(p, lay, m, s) == t;
    var n: nat :| Run(p, lay, n, s) == u;
    if m <= n {
      RunAdd(p, lay, m, n - m, s);
    } else {
      RunAdd(p, lay, n, m - n, s);
    }
  }

  ghost predicate Ended(t: Machine) { !t.Running? || t.rest == [] }

  lemma {:induction false} ReturnedMany(h: set<Var>, d: set<Var>, lines: seq<Line>, env: Env, n: nat)
    requires env != [] && ReturnsMany(lines, n) && Exec(h, d, lines, env).Returned?
    ensures |Exec(h, d, lines, env).values| == n
    decreases lines
  {
    hide Equation, Eval, Introduce, InsertLast, ReturnsMany, AllReturns, ReturnsOf;
    ReturnsManyParts(lines, n);
    ManyOfBranches(lines, n);
    var rest := lines[1..];
    match lines[0]
    case ForwardDeclaration(v) => ReturnedMany(h, d, rest, if v in h || v in d then env else InsertLast(env, v, None), n);
    case Assignment(target, op, a, b) =>
      if IsStore(d, target) {
        ReturnedMany(h, d, rest, env, n);
      } else {
        var env1, q := Introduce(env, target), AsEquation(op, a, b, target);
        EquationKeepsScopes(env1, q.op, q.a, q.b, q.res);
        ReturnedMany(h, d, rest, Equation(env1, q.op, q.a, q.b, q.res).value, n);
      }
    case AssertEq(l, r) =>
      var env1 := Introduce(Introduce(env, l), r);
      EquationKeepsScopes(env1, AddOp, l, Number(0), r);
      ReturnedMany(h, d, rest, Equation(env1, AddOp, l, Number(0), r).value, n);
    case IfNotZero(c, t, e) =>
      var body := if Eval(env, c).value != 0 then t else e;
      ExecBranch(h, d, lines, env, body);
      var o := Exec(h, d, body, env + [map[]]);
      if o.Next? { ReturnedMany(h, d, rest, o.env[..|env|], n); } else { ReturnedMany(h, d, body, env + [map[]], n); }
    case Match(value, arms, offset) =>
      var x := Eval(env + [map[]], value).value;
      var body := arms[x - offset].body;
      ExecArm(h, d, lines, env, x);
      var o := Exec(h, d, body, env + [map[]] + [map[]]);
      if o.Next? { ReturnedMany(h, d, rest, o.env[..|env| + 1], n); } else { ReturnedMany(h, d, body, env + [map[]] + [map[]], n); }
    case FunctionRet(data) =>
      assert data in ReturnsOf(lines[0], lines) by { ReturnListed(lines); }
      EvalAllSize(env, data);
  }

  lemma ReturnListed(lines: seq<Line>)
    requires lines != [] && lines[0].FunctionRet?
    ensures lines[0].data in ReturnsOf(lines[0], lines)
  {
  }

  lemma {:induction false} EvalAllSize(env: Env, data: seq<Expr>)
    ensures EvalAll(env, data).Some? ==> |EvalAll(env, data).value| == |data|
    decreases |data|
  {
    if data != [] {
      EvalAllSize(env, data[1..]);
    }
  }

  /** The compiled run breaks exactly when the body without its dead stores gets stuck. */
  lemma BreaksIffLiveStuck(f: Function, st: CState, p: Program, lay: Layout, values: seq<Fe>, mem: Memory)
    requires Fresh(st) && CompileBody(f, st).Some? && Includes(p, CompileBody(f, st).value.st) && Placed(p, lay)
    requires ReturnsMany(f.body, f.retCount) && OwnSlots(f) && IntroducedOnce(f) && (f.name == "main" ==> f.retCount == 0)
    requires |values| == |f.arguments| && EntryFrame(f, values, mem, CompileBody(f, st).value.st.stackSize)
    requires LiveMeaning(f, values).Returned? || LiveMeaning(f, values).Stuck?
    ensures (exists t: Machine :: Reaches(p, lay, Running(CompileBody(f, st).value.code, mem), t) && Breaks(SettingOf(f, p, lay), t))
            <==> LiveMeaning(f, values).Stuck?
  {
    hide Exec, CompileBody, Placed, Includes, Fresh, ReturnedFrame, Breaks, Reaches;
    CompiledFunctionRuns(f, st, p, lay, values, mem);
    var g, o, s := SettingOf(f, p, lay), LiveMeaning(f, values), Running(CompileBody(f, st).value.code, mem);
    if o.Returned? {
      ReturnedMany({}, DeadVars(f.body), f.body, [ArgEnv(f.arguments, values)], f.retCount);
      var u: Machine :| Reaches(p, lay, s, u) && ReturnedFrame(f, u, mem, o.values);
      ReturnedEnds(f, p, lay, u, mem, o.values);
      forall t: Machine {:trigger Breaks(g, t)} | Reaches(p, lay, s, t) && Breaks(g, t) ensures false {
        BreaksEnded(g, t);
        EndsOnce(p, lay, s, t, u);
      }
    }
  }

  lemma BreaksEnded(g: Setting, t: Machine)
    requires Breaks(g, t)
    ensures Ended(t)
  {
  }

  lemma ReturnedEnds(f: Function, p: Program, lay: Layout, t: Machine, mem: Memory, values: seq<Fe>)
    requires ReturnedFrame(f, t, mem, values) && |values| == f.retCount && (f.name == "main" ==> f.retCount == 0)
    ensures Ended(t) && !Breaks(SettingOf(f, p, lay), t)
  {
    if exists k: nat :: k < f.retCount && MissingSlot(ContextOf(f), t.frame, k) {
      var k: nat :| k < f.retCount && MissingSlot(ContextOf(f), t.frame, k);
      assert Get(t.frame, ReturnSlot(ContextOf(f), 0 + k)) == Some(values[k]);
    }
  }

  lemma ReturnsLeft(ctx: Context, t: Machine, values: seq<Fe>)
    requires ReturnsTo(ctx, t, values)
    ensures t.Left?
  {
  }

  lemma ReachesKeeps(p: Program, lay: Layout, s: Machine, t: Machine)
    requires s.Running? && Reaches(p, lay, s, t)
    ensures Kept(s.mem, t)
  {
    var n: nat :| Run(p, lay, n, s) == t;
    RunKeeps(p, lay, n, s);
  }

}
