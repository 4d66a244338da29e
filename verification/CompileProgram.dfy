/**
 All functions together, and the whole way from lines to low-level code
 (compile_to_intermediate_bytecode, crates/lean_compiler/src/b_compile_intermediate.rs, and
 compile_to_low_level_bytecode, crates/lean_compiler/src/c_compile_final.rs).
 */
module CompileProgram {
  import opened Field
  import opened Interpolation
  import opened IntermediateCode
  import opened SimpleLang
  import opened CompileLines
  import opened CompileGrowth
  import opened CompileFacts
  import opened CompileCorrect
  import opened Coalescing
  import opened CompileFunction
  import opened FunctionMeaning
  import opened CompileOffsets
  import opened CompileScopes
  import opened LowCode
  import opened EmitBlocks
  import opened FinalLayout
  import C = Compiler

  function ProgramOf(st: CState): Program { Program(st.blocks, st.matches) }

  /** The program holds the function's block under its label, everything it refers to, and its frame size. */
  ghost predicate InProgram(f: Function, st: CState, p: Program, sizes: map<string, nat>) {
    && Fresh(st) && CompileBody(f, st).Some? && Includes(p, CompileBody(f, st).value.st)
    && FunctionLabel(f.name) in p.blocks && p.blocks[FunctionLabel(f.name)] == CompileBody(f, st).value.code
    && f.name in sizes && sizes[f.name] == CompileBody(f, st).value.st.stackSize
  }

  /** Labels of functions and of the program's end are only those of the given names. */
  ghost predicate OnlyNames(st: CState, names: set<string>) {
    forall l {:trigger l in st.blocks} | l in st.blocks :: (l.FunctionLabel? ==> l.name in names) && l != EndProgram
  }

  ghost predicate LayableState(st: CState) { Layable(ProgramOf(st)) && SelfContained(ProgramOf(st)) }

  function Added(f: Function, c: Compiled): CState { c.st.(blocks := c.st.blocks[FunctionLabel(f.name) := c.code]) }

  lemma BodyGrows(f: Function, st: CState)
    requires Fresh(st) && CompileBody(f, st).Some?
    ensures Grows(StartState(f, st), CompileBody(f, st).value.st)
  {
    FreshSame(st, StartState(f, st));
    CompileGrows(ContextOf(f), f.body, StartState(f, st), None);
  }

  lemma AddedIncludes(f: Function, st: CState, names: set<string>, sizes: map<string, nat>)
    requires Fresh(st) && CompileBody(f, st).Some? && OnlyNames(st, names) && f.name !in names
    ensures var c := CompileBody(f, st).value;
            && Fresh(Added(f, c)) && OnlyNames(Added(f, c), names + {f.name}) && Includes(ProgramOf(Added(f, c)), c.st)
            && InProgram(f, st, ProgramOf(Added(f, c)), sizes[f.name := c.st.stackSize])
  {
    BodyGrows(f, st);
    hide CompileBody;
    var c := CompileBody(f, st).value;
    var start, l := StartState(f, st), FunctionLabel(f.name);
    forall m {:trigger m in c.st.blocks} | m in c.st.blocks && (m.FunctionLabel? || m == EndProgram) ensures m in st.blocks {
      assert Used(start, m);
      assert m in start.blocks;
    }
    assert l !in c.st.blocks;
    assert Includes(ProgramOf(Added(f, c)), c.st);
  }

  lemma EarlierStays(e: Function, est: CState, f: Function, st: CState, names: set<string>, sizes: map<string, nat>)
    requires Fresh(st) && CompileBody(f, st).Some? && OnlyNames(st, names) && f.name !in names && e.name in names
    requires InProgram(e, est, ProgramOf(st), sizes)
    ensures InProgram(e, est, ProgramOf(Added(f, CompileBody(f, st).value)), sizes[f.name := CompileBody(f, st).value.st.stackSize])
  {
    BodyGrows(f, st);
    hide CompileBody;
    var c := CompileBody(f, st).value;
    var p, p2 := ProgramOf(st), ProgramOf(Added(f, c));
    forall l {:trigger l in p.blocks} | l in p.blocks ensures l in p2.blocks && p2.blocks[l] == p.blocks[l] {
      assert l in StartState(f, st).blocks;
    }
    assert p.matches <= p2.matches;
  }

  /** The new function's code ends its blocks with instructions and refers to what is there; so does the code before it. */
  lemma AddedLayable(f: Function, st: CState)
    requires Fresh(st) && CompileBody(f, st).Some? && ReturnsMany(f.body, f.retCount) && LayableState(st)
    requires Includes(ProgramOf(Added(f, CompileBody(f, st).value)), CompileBody(f, st).value.st)
    ensures LayableState(Added(f, CompileBody(f, st).value))
  {
    var c := CompileBody(f, st).value;
    var p := ProgramOf(Added(f, c));
    FunctionOffsetsBelow(f, st, p);
    BodyGrows(f, st);
    hide CompileBody, CodeBelow, CodeKnown, EndsReal, InstructionBelow, RealCount;
    var lim := Limits(c.st.stackSize, p);
    assert st.matches == StartState(f, st).matches && st.blocks == StartState(f, st).blocks;
    forall l {:trigger l in p.blocks} | l in p.blocks ensures EndsReal(p.blocks[l]) && CodeKnown(p, p.blocks[l]) {
      if l == FunctionLabel(f.name) || !(l in st.blocks && st.blocks[l] == c.st.blocks[l]) {
        assert l != FunctionLabel(f.name) ==> l in c.st.blocks;
        BelowFacts(p.blocks[l], lim);
      } else {
        assert l in ProgramOf(st).blocks;
        KnownGrows(ProgramOf(st), p, p.blocks[l]);
      }
    }
    forall i: nat, k: nat {:trigger p.matches[i][k]} | i < |p.matches| && k < |p.matches[i]|
      ensures EndsReal(p.matches[i][k]) && RealCount(p.matches[i][k]) >= 1 && CodeKnown(p, p.matches[i][k])
    {
      if i < |st.matches| {
        assert p.matches[i] == ProgramOf(st).matches[i];
        assert EndsReal(ProgramOf(st).matches[i][k]);
        KnownGrows(ProgramOf(st), p, p.matches[i][k]);
      } else {
        assert ArmsBelow(c.st.matches[i], lim);
        BelowFacts(p.matches[i][k], lim);
      }
    }
  }

  lemma BelowFacts(code: Code, lim: Limits)
    requires CodeBelow(code, lim)
    ensures EndsReal(code) && CodeKnown(lim.program, code) && (code != [] ==> RealCount(code) >= 1)
  {
    BelowKnown(code, lim);
    if code != [] {
      EndsRealCount(code);
    }
  }

  ghost function NamesBefore(functions: seq<Function>, i: nat): set<string>
    requires i <= |functions|
  {
    set k | 0 <= k < i :: functions[k].name
  }

  /** compile_to_intermediate_bytecode. */
  method CompileFunctions(functions: seq<Function>) returns (r: Option<Program>, sizes: map<string, nat>, ghost starts: seq<CState>)
    requires forall i, j {:trigger functions[i], functions[j]} | 0 <= i < j < |functions| :: functions[i].name != functions[j].name
    requires forall i {:trigger functions[i]} | 0 <= i < |functions| :: ReturnsMany(functions[i].body, functions[i].retCount)
    ensures r.Some? <==> forall i {:trigger functions[i]} | 0 <= i < |functions| :: FunctionScoped(functions[i])
    ensures r.Some? ==> |starts| == |functions| && Layable(r.value) && SelfContained(r.value) && EndProgram !in r.value.blocks
    ensures r.Some? ==> forall name {:trigger FunctionLabel(name)} :: FunctionLabel(name) in r.value.blocks <==> name in NamesBefore(functions, |functions|)
    ensures r.Some? ==> forall i {:trigger functions[i]} | 0 <= i < |functions| :: InProgram(functions[i], starts[i], r.value, sizes)
  {
    hide ReturnsMany, Layable, SelfContained, CompileBody, InProgram, Fresh, FunctionScoped, Includes;
    var c := new C.Compiler();
    sizes, starts := map[], [];
    EmptyState(c.State());
    var i := 0;
    while i < |functions|
      invariant 0 <= i <= |functions| && |starts| == i && fresh(c)
      invariant Fresh(c.State()) && OnlyNames(c.State(), NamesBefore(functions, i)) && LayableState(c.State())
      invariant forall k {:trigger functions[k]} | 0 <= k < i :: InProgram(functions[k], starts[k], ProgramOf(c.State()), sizes) && FunctionScoped(functions[k])
    {
      var f := functions[i];
      ghost var st := c.State();
      ghost var names := NamesBefore(functions, i);
      FunctionCompilesIff(f, st);
      var code := c.CompileOne(f);
      if code.None? {
        return None, sizes, starts;
      }
      AddedIncludes(f, st, names, sizes);
      AddedLayable(f, st);
      forall k {:trigger functions[k]} | 0 <= k < i
        ensures InProgram(functions[k], starts[k], ProgramOf(Added(f, CompileBody(f, st).value)), sizes[f.name := CompileBody(f, st).value.st.stackSize])
      {
        EarlierStays(functions[k], starts[k], f, st, names, sizes);
      }
      NamesNext(functions, i);
      c.bytecode := c.bytecode[FunctionLabel(f.name) := code.value];
      sizes := sizes[f.name := c.stackSize];
      starts := starts + [st];
      assert c.State() == Added(f, CompileBody(f, st).value);
      i := i + 1;
    }
    r := Some(Program(c.bytecode, c.matchBlocks));
    OnlyNamesEnd(c.State(), NamesBefore(functions, i));
    FunctionLabels(functions, starts, c.State(), sizes);
  }

  lemma NamesNext(functions: seq<Function>, i: nat)
    requires i < |functions|
    ensures NamesBefore(functions, i + 1) == NamesBefore(functions, i) + {functions[i].name}
  {
  }

  lemma OnlyNamesEnd(st: CState, names: set<string>)
    requires OnlyNames(st, names)
    ensures EndProgram !in st.blocks
  {
  }

  /** Function labels are those of the functions compiled. */
  lemma FunctionLabels(functions: seq<Function>, starts: seq<CState>, st: CState, sizes: map<string, nat>)
    requires OnlyNames(st, NamesBefore(functions, |functions|)) && |starts| == |functions|
    requires forall k {:trigger functions[k]} | 0 <= k < |functions| :: InProgram(functions[k], starts[k], ProgramOf(st), sizes)
    ensures forall name {:trigger FunctionLabel(name)} :: FunctionLabel(name) in st.blocks <==> name in NamesBefore(functions, |functions|)
  {
    hide Fresh, CompileBody, Includes;
    forall name ensures FunctionLabel(name) in st.blocks <==> name in NamesBefore(functions, |functions|) {
      if name in NamesBefore(functions, |functions|) {
        var k :| 0 <= k < |functions| && functions[k].name == name;
        assert InProgram(functions[k], starts[k], ProgramOf(st), sizes);
      }
    }
  }

  lemma EmptyState(st: CState)
    requires st.blocks == map[] && st.matches == []
    ensures Fresh(st) && OnlyNames(st, {}) && LayableState(st)
  {
  }

  // ----- from lines to low-level code

  /** The low-level run leaves the frame, written cells as they were, with the values in the return slots. */
  ghost predicate LowReturns(f: Function, b: Bytecode, mem: Memory, values: seq<Fe>, t: LowMachine)
    requires 0 in mem && 1 in mem
  {
    && t.LeftAt? && Within(mem, t.frame)
    && (if f.name == "main" then t.address == Res(b.endingPc) && t.newFp == 0
        else t.address == mem[0] && t.newFp == mem[1] && InSlots(ContextOf(f), t.frame, values, 0))
  }

  /** The low-level run fails, or leaves the function with a return slot unwritten. */
  ghost predicate LowBreaks(f: Function, t: LowMachine) {
    t == LowFailed || (t.LeftAt? && exists k: nat :: k < f.retCount && MissingSlot(ContextOf(f), t.frame, k))
  }

  ghost predicate LowReaches(q: LowProgram, fp: Fe, t: LowMachine, u: LowMachine) { exists n: nat :: LowRun(q, fp, n, t) == u }

  /** Whatever intermediate execution reaches, other than a jump to no block, low-level execution reaches too. */
  lemma LowFollows(b: Bytecode, p: Program, fp: Fe, code: Code, pc: nat, mem: Memory, s: Machine) returns (t: LowMachine)
    requires Linked(b.program, p, b.lay) && Located(b.program, b.lay, code, pc, 0)
    requires Reaches(p, b.lay, Running(code, mem), s) && !s.Running?
    ensures LowReaches(b.program, fp, At(pc, 0, mem), t) && Stands(b.program, b.lay, s, t)
  {
    var n: nat :| Run(p, b.lay, n, Running(code, mem)) == s;
    RunStands(b.program, p, b.lay, fp, n, Running(code, mem), At(pc, 0, mem));
    t := LowRun(b.program, fp, n, At(pc, 0, mem));
  }

  lemma ReturnStands(f: Function, b: Bytecode, s: Machine, t: LowMachine, mem: Memory, values: seq<Fe>)
    requires ReturnedFrame(f, s, mem, values) && Stands(b.program, b.lay, s, t) && 0 in mem && 1 in mem
    requires EndProgram in b.lay.labelPcs && b.lay.labelPcs[EndProgram] == b.endingPc
    ensures LowReturns(f, b, mem, values, t)
  {
  }

  lemma BreakStands(f: Function, p: Program, b: Bytecode, s: Machine, t: LowMachine)
    requires Breaks(SettingOf(f, p, b.lay), s) && Stands(b.program, b.lay, s, t)
    ensures LowBreaks(f, t)
  {
    if s.Left? {
      var k: nat :| k < f.retCount && MissingSlot(ContextOf(f), s.frame, k);
      assert MissingSlot(ContextOf(f), t.frame, k);
    }
  }

  /**
   The low-level code of a function, started at its label's address in a fresh frame, returns to the
   caller with exactly the values its lines mean, or breaks where the lines get stuck, in every run
   whose dead stores settle.
   */
  lemma LinesToLowCode(f: Function, st: CState, p: Program, sizes: map<string, nat>, b: Bytecode, fp: Fe, values: seq<Fe>, mem: Memory)
    requires InProgram(f, st, p, sizes) && LaidOut(p, b)
    requires ReturnsMany(f.body, f.retCount) && OwnSlots(f) && IntroducedOnce(f) && (f.name == "main" ==> f.retCount == 0)
    requires |values| == |f.arguments| && EntryFrame(f, values, mem, sizes[f.name])
    ensures FunctionLabel(f.name) in b.lay.labelPcs
    ensures var o, start := Meaning(f, values), At(b.lay.labelPcs[FunctionLabel(f.name)], 0, mem);
            && (o.Returned? && (DeadStoredOnce(f) || DeadStoresSettle(f, values)) ==>
                  exists t: LowMachine :: LowReaches(b.program, fp, start, t) && LowReturns(f, b, mem, o.values, t))
            && (o.Stuck? && DeadStoresSettle(f, values) ==> exists t: LowMachine :: LowReaches(b.program, fp, start, t) && LowBreaks(f, t))
  {
    hide Meaning, DeadStoresSettle, CompileBody, Placed, Includes, Fresh, Located, ReturnsMany, OwnSlots, IntroducedOnce, DeadStoredOnce,
         ReturnedFrame, Reaches, LowReaches, LowReturns, LowBreaks, Breaks, Stands;
    CompiledFunctionCorrect(f, st, p, b.lay, values, mem);
    var code := CompileBody(f, st).value.code;
    var pc := b.lay.labelPcs[FunctionLabel(f.name)];
    var o := Meaning(f, values);
    if o.Returned? && (DeadStoredOnce(f) || DeadStoresSettle(f, values)) {
      var s: Machine :| Reaches(p, b.lay, Running(code, mem), s) && ReturnedFrame(f, s, mem, o.values);
      ReturnedLeft(f, s, mem, o.values);
      var t := LowFollows(b, p, fp, code, pc, mem, s);
      ReturnStands(f, b, s, t, mem, o.values);
    } else if o.Stuck? && DeadStoresSettle(f, values) {
      var s: Machine :| Reaches(p, b.lay, Running(code, mem), s) && Breaks(SettingOf(f, p, b.lay), s);
      BreaksEnd(SettingOf(f, p, b.lay), s);
      var t := LowFollows(b, p, fp, code, pc, mem, s);
      BreakStands(f, p, b, s, t);
    }
  }

  lemma ReturnedLeft(f: Function, s: Machine, mem: Memory, values: seq<Fe>)
    requires ReturnedFrame(f, s, mem, values)
    ensures s.Left?
  {
  }

  lemma BreaksEnd(g: Setting, s: Machine)
    requires Breaks(g, s)
    ensures !s.Running?
  {
  }
}
