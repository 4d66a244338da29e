/**
 Compiling a function: the frame holds the return address, the caller's frame pointer, arguments,
 return slots, then variables and temporaries (compile_function,
 crates/lean_compiler/src/b_compile_intermediate.rs).
 */
module CompileFunction {
  import opened Field
  import opened Interpolation
  import opened IntermediateCode
  import opened SimpleLang
  import opened CompileLines
  import opened CompileGrowth
  import opened CompileFacts
  import opened SlotRelation
  import opened CompileCorrect
  import opened CompileSimulation
  import opened Coalescing
  import opened DeadStores

  datatype Function = Function(name: string, arguments: seq<Var>, retCount: nat, body: seq<Line>)

  // ----- the frame

  function ArgSlots(args: seq<Var>): map<Var, nat> {
    if args == [] then map[] else ArgSlots(args[..|args| - 1])[args[|args| - 1] := 2 + |args| - 1]
  }

  /** Coalesced variables of the first k return slots. */
  function CoalescedSlots(f: Function, k: nat): map<Var, nat> {
    if k == 0 then map[]
    else
      var m, c := CoalescedSlots(f, k - 1), Candidate(f.body, f.arguments, k - 1);
      if c.Some? && c.value !in m then m[c.value := 2 + |f.arguments| + k - 1] else m
  }

  function Hoisted(f: Function): map<Var, nat> { CoalescedSlots(f, f.retCount) }

  function ContextOf(f: Function): Context { Context(f.name == "main", |f.arguments|, Hoisted(f).Keys, DeadVars(f.body)) }

  function StartState(f: Function, st: CState): CState {
    st.(scopes := [ArgSlots(f.arguments) + Hoisted(f)], stackPos := 2 + |f.arguments| + f.retCount, stackSize := 2 + |f.arguments| + f.retCount)
  }

  /** compile_function. */
  function CompileBody(f: Function, st: CState): Option<Compiled> { Compile(ContextOf(f), f.body, StartState(f, st), None) }

  // ----- facts about the frame

  lemma {:induction false} ArgSlotsMeans(args: seq<Var>)
    ensures ArgSlots(args).Keys == (set v | v in args)
    ensures forall v {:trigger ArgSlots(args)[v]} | v in ArgSlots(args) :: 2 <= ArgSlots(args)[v] < 2 + |args| && args[ArgSlots(args)[v] - 2] == v
    decreases |args|
  {
    if args != [] {
      var n := |args| - 1;
      ArgSlotsMeans(args[..n]);
      assert args == args[..n] + [args[n]];
    }
  }

  lemma {:induction false} CoalescedMeans(f: Function, k: nat, v: Var)
    ensures v in CoalescedSlots(f, k) ==> 2 + |f.arguments| <= CoalescedSlots(f, k)[v] < 2 + |f.arguments| + k
                                          && Chosen(f.body, f.arguments, CoalescedSlots(f, k)[v] - 2 - |f.arguments|, v)
    ensures v !in CoalescedSlots(f, k) ==> forall i: nat {:trigger Candidate(f.body, f.arguments, i)} | i < k :: Candidate(f.body, f.arguments, i) != Some(v)
    decreases k
  {
    if k > 0 {
      CoalescedMeans(f, k - 1, v);
      assert CoalescedSlots(f, k) == CoalescedSlots(f, k - 1)
          || (Candidate(f.body, f.arguments, k - 1).Some?
              && CoalescedSlots(f, k) == CoalescedSlots(f, k - 1)[Candidate(f.body, f.arguments, k - 1).value := 2 + |f.arguments| + k - 1]);
    }
  }

  /** No two variables of the frame share a slot, and every slot lies below the first free one. */
  lemma FrameDistinct(f: Function, st: CState)
    ensures SlotsDistinct(StartState(f, st).scopes) && SlotsBelow(StartState(f, st).scopes, 2 + |f.arguments| + f.retCount)
    ensures forall v {:trigger StartState(f, st).scopes[0][v]} | v in StartState(f, st).scopes[0] :: StartState(f, st).scopes[0][v] >= 2
  {
    var s := StartState(f, st).scopes;
    ArgSlotsMeans(f.arguments);
    forall v, w {:trigger s[0][v], s[0][w]} | v in s[0] && w in s[0] && s[0][v] == s[0][w] ensures v == w {
      OwnSlot(f, v, w);
    }
    forall v {:trigger s[0][v]} | v in s[0] ensures 2 <= s[0][v] < 2 + |f.arguments| + f.retCount {
      CoalescedMeans(f, f.retCount, v);
    }
  }

  /** Coalesced variables lie behind the arguments, and no two share a return slot. */
  lemma OwnSlot(f: Function, v: Var, w: Var)
    ensures v in Hoisted(f) ==> Hoisted(f)[v] >= 2 + |f.arguments|
    ensures w in Hoisted(f) ==> Hoisted(f)[w] >= 2 + |f.arguments|
    ensures v in Hoisted(f) && w in Hoisted(f) && Hoisted(f)[v] == Hoisted(f)[w] ==> v == w
  {
    CoalescedMeans(f, f.retCount, v);
    CoalescedMeans(f, f.retCount, w);
  }

  // ----- returns of the function

  /** Return slots no variable lives in. */
  function Reserved(f: Function): set<nat> {
    set o: nat | 2 + |f.arguments| <= o < 2 + |f.arguments| + f.retCount && o !in Hoisted(f).Values
  }

  /** A coalesced variable is returned in its own slot only. */
  ghost predicate OwnSlots(f: Function) {
    forall r {:trigger r in AllReturns(f.body)} | r in AllReturns(f.body) :: InOwnSlots(f, r)
  }

  predicate InOwnSlots(f: Function, r: seq<Expr>) {
    forall j {:trigger r[j]} | 0 <= j < |r| && r[j].Name? && r[j].v in Hoisted(f) :: Hoisted(f)[r[j].v] == 2 + |f.arguments| + j
  }

  function SettingOf(f: Function, p: Program, lay: Layout): Setting {
    Setting(ContextOf(f), Hoisted(f), f.retCount, p, lay, Reserved(f))
  }

  ghost predicate GoodReturn(g: Setting, r: seq<Expr>) { |r| == g.retCount && (if g.ctx.isMain then r == [] else ReturnFits(g, r, 0)) }

  lemma OwnSlotsFit(f: Function, p: Program, lay: Layout, r: seq<Expr>)
    requires ReturnsMany(f.body, f.retCount) && InOwnSlots(f, r) && r in AllReturns(f.body) && (f.name == "main" ==> f.retCount == 0)
    ensures GoodReturn(SettingOf(f, p, lay), r)
  {
    var g := SettingOf(f, p, lay);
    forall k {:trigger r[k]} | 0 <= k < |r|
      ensures if r[k].Name? && r[k].v in g.slots then g.slots[r[k].v] == ReturnSlot(g.ctx, k) else ReturnSlot(g.ctx, k) in g.reserved
    {
      if !(r[k].Name? && r[k].v in g.slots) {
        SlotUnclaimed(f, r, k);
      }
    }
    assert ReturnFits(g, r, 0);
  }

  /** Whatever is returned in a slot that a variable lives in is that variable. */
  lemma SlotUnclaimed(f: Function, r: seq<Expr>, k: nat)
    requires ReturnsMany(f.body, f.retCount) && r in AllReturns(f.body) && k < |r|
    ensures 2 + |f.arguments| + k in Hoisted(f).Values ==> r[k].Name? && r[k].v in Hoisted(f) && Hoisted(f)[r[k].v] == 2 + |f.arguments| + k
  {
    if 2 + |f.arguments| + k in Hoisted(f).Values {
      var v :| v in Hoisted(f) && Hoisted(f)[v] == 2 + |f.arguments| + k;
      CoalescedMeans(f, f.retCount, v);
      ChosenMeans(f.body, f.arguments, f.retCount, k, v);
    }
  }

  lemma {:induction false} AllFit(g: Setting, lines: seq<Line>)
    requires forall r {:trigger r in AllReturns(lines)} | r in AllReturns(lines) :: GoodReturn(g, r)
    ensures ReturnsFit(g, lines)
    decreases lines
  {
    if lines != [] {
      var rs, rest := ReturnsOf(lines[0], lines), AllReturns(lines[1..]);
      assert AllReturns(lines) == rs + rest;
      SplitGood(g, rs, rest);
      AllFit(g, lines[1..]);
      match lines[0]
      case IfNotZero(_, t, e) =>
        SplitGood(g, AllReturns(t), AllReturns(e));
        AllFit(g, t);
        AllFit(g, e);
      case Match(_, arms, _) =>
        forall k {:trigger arms[k]} | 0 <= k < |arms| ensures ReturnsFit(g, arms[k].body) {
          ArmReturns(arms, k);
          assert rs == ReturnsOfArms(arms);
          AllFit(g, arms[k].body);
        }
      case FunctionRet(data) =>
        assert data in rs;
      case _ =>
    }
  }

  lemma SplitGood(g: Setting, a: seq<seq<Expr>>, b: seq<seq<Expr>>)
    requires forall r {:trigger r in a + b} | r in a + b :: GoodReturn(g, r)
    ensures forall r {:trigger r in a} | r in a :: GoodReturn(g, r)
    ensures forall r {:trigger r in b} | r in b :: GoodReturn(g, r)
  {
    forall r {:trigger r in a} | r in a ensures GoodReturn(g, r) { assert r in a + b; }
    forall r {:trigger r in b} | r in b ensures GoodReturn(g, r) { assert r in a + b; }
  }

  lemma {:induction false} ArmReturns(arms: seq<Arm>, k: nat)
    requires k < |arms|
    ensures forall r {:trigger r in AllReturns(arms[k].body)} | r in AllReturns(arms[k].body) :: r in ReturnsOfArms(arms)
    decreases k
  {
    if k > 0 {
      ArmReturns(arms[1..], k - 1);
    }
  }

  // ----- running a function

  /** Arguments in order; the last of equal names wins. */
  function ArgEnv(args: seq<Var>, values: seq<Fe>): map<Var, Option<Fe>>
    requires |args| == |values|
  {
    if args == [] then map[] else ArgEnv(args[..|args| - 1], values[..|args| - 1])[args[|args| - 1] := Some(values[|args| - 1])]
  }

  /** The function scope on entry: arguments, and coalesced variables without a value. */
  function EntryEnv(f: Function, values: seq<Fe>): Env
    requires |values| == |f.arguments|
  {
    [ArgEnv(f.arguments, values) + (map v | v in Hoisted(f) :: None)]
  }

  /** A frame on entry: linkage and arguments written, the rest of the frame not. */
  ghost predicate EntryFrame(f: Function, values: seq<Fe>, mem: Memory, size: nat)
    requires |values| == |f.arguments|
  {
    && 0 in mem && 1 in mem
    && (forall k {:trigger values[k]} | 0 <= k < |values| :: Get(mem, 2 + k) == Some(values[k]))
    && (forall o {:trigger o in mem} | o in mem :: o < 2 + |f.arguments| || o >= size)
  }

  lemma {:induction false} ArgEnvMeans(args: seq<Var>, values: seq<Fe>)
    requires |args| == |values|
    ensures ArgEnv(args, values).Keys == ArgSlots(args).Keys
    ensures forall v {:trigger ArgEnv(args, values)[v]} | v in ArgEnv(args, values) ::
              2 <= ArgSlots(args)[v] < 2 + |args| && ArgEnv(args, values)[v] == Some(values[ArgSlots(args)[v] - 2])
    decreases |args|
  {
    ArgSlotsMeans(args);
    if args != [] {
      var n := |args| - 1;
      ArgEnvMeans(args[..n], values[..n]);
      ArgSlotsMeans(args[..n]);
    }
  }

  lemma EntryRel(f: Function, st: CState, values: seq<Fe>, mem: Memory, size: nat)
    requires |values| == |f.arguments| && EntryFrame(f, values, mem, size) && size >= 2 + |f.arguments| + f.retCount
    ensures Rel(StartState(f, st).scopes, 2 + |f.arguments| + f.retCount, size, EntryEnv(f, values), mem, Reserved(f))
  {
    var scopes, env := StartState(f, st).scopes, EntryEnv(f, values);
    var sp := 2 + |f.arguments| + f.retCount;
    FrameDistinct(f, st);
    ArgEnvMeans(f.arguments, values);
    ArgSlotsMeans(f.arguments);
    assert SameKeys(scopes, env);
    forall i, v {:trigger scopes[i][v]} {:trigger env[i][v]} | 0 <= i < |scopes| && v in scopes[i] && v in env[i]
      ensures env[i][v] == Get(mem, scopes[i][v])
    {
      CoalescedMeans(f, f.retCount, v);
      if v !in Hoisted(f) {
        assert env[0][v] == ArgEnv(f.arguments, values)[v];
      }
    }
    forall i, v {:trigger scopes[i][v]} | 0 <= i < |scopes| && v in scopes[i] ensures scopes[i][v] !in Reserved(f) {
      CoalescedMeans(f, f.retCount, v);
      if v in Hoisted(f) {
        assert Hoisted(f)[v] in Hoisted(f).Values;
      }
    }
  }

  /** The compiled function, run in a fresh frame, does what its body means. */
  lemma FunctionRuns(f: Function, st: CState, p: Program, lay: Layout, values: seq<Fe>, mem: Memory)
    requires Fresh(st) && CompileBody(f, st).Some? && Includes(p, CompileBody(f, st).value.st) && Placed(p, lay)
    requires ReturnsMany(f.body, f.retCount) && OwnSlots(f) && (f.name == "main" ==> f.retCount == 0)
    requires |values| == |f.arguments| && EntryFrame(f, values, mem, CompileBody(f, st).value.st.stackSize)
    ensures var c := CompileBody(f, st).value;
            Does(SettingOf(f, p, lay), Exec(Hoisted(f).Keys, DeadVars(f.body), f.body, EntryEnv(f, values)), None, Running(c.code, mem), mem,
                 c.st.scopes, c.st.stackPos, c.st.stackSize)
  {
    var g := SettingOf(f, p, lay);
    var start := StartState(f, st);
    var c := CompileBody(f, st).value;
    FreshSame(st, start);
    CompileGrows(g.ctx, f.body, start, None);
    Positions(start, c.st);
    EntryRel(f, st, values, mem, c.st.stackSize);
    forall r {:trigger r in AllReturns(f.body)} | r in AllReturns(f.body) ensures GoodReturn(g, r) {
      OwnSlotsFit(f, p, lay, r);
    }
    AllFit(g, f.body);
    hide Compile, Rel, Includes, Placed, Fresh, ReturnsFit, Exec, Does;
    assert Coalesced(g, start.scopes);
    Simulate(g, f.body, start, None, c.st.stackSize, EntryEnv(f, values), mem);
  }

  // ----- memory is write-once

  ghost predicate Kept(m: Memory, t: Machine) {
    match t
    case Running(_, m2) => Within(m, m2)
    case Left(_, _, m2) => Within(m, m2)
    case Failed => true
    case Lost => true
  }

  ghost predicate Within(m: Memory, m2: Memory) { forall o {:trigger o in m} {:trigger o in m2} | o in m :: o in m2 && m2[o] == m[o] }

  lemma StepKeeps(p: Program, lay: Layout, s: Machine)
    requires s.Running? && s.rest != []
    ensures Kept(s.mem, Step(p, lay, s))
  {
    hide ArmAt, Compute, InverseCompute, FieldInverse;
  }

  /** No run changes a written cell. */
  lemma {:induction false} RunKeeps(p: Program, lay: Layout, n: nat, s: Machine)
    requires s.Running?
    ensures Kept(s.mem, Run(p, lay, n, s))
    decreases n
  {
    if n > 0 && s.rest != [] {
      StepKeeps(p, lay, s);
      var s1 := Step(p, lay, s);
      if s1.Running? {
        RunKeeps(p, lay, n - 1, s1);
      } else {
        assert Run(p, lay, n - 1, s1) == s1;
      }
    }
  }
}
