/**
 The compiler as the object it is: fields updated while lines are walked
 (crates/lean_compiler/src/b_compile_intermediate.rs).
 */
module Compiler {
  import opened Interpolation
  import opened IntermediateCode
  import opened SimpleLang
  import opened CompileLines
  import opened CompileFacts
  import opened Coalescing
  import opened DeadStores
  import opened CompileFunction

  /** The code returned and the state reached are the ones compiling is specified to give; None is a panic. */
  ghost predicate Done(r: Option<Code>, c: Option<Compiled>, st: CState) {
    if r.None? then c.None? else c == Some(Compiled(r.value, st)) && st.scopes != []
  }

  ghost predicate ArmsDone(codes: Option<seq<Code>>, top: nat, c: Option<CompiledArms>, st: CState) {
    if codes.None? then c.None? else c == Some(CompiledArms(codes.value, st, top)) && st.scopes != []
  }

  class Compiler {
    var bytecode: map<Label, Code>
    var matchBlocks: seq<seq<Code>>
    var ifCounter: nat
    var matchCounter: nat
    var scopes: Scopes<nat>
    var stackPos: nat
    var stackSize: nat
    var isMain: bool
    var argsCount: nat
    var coalescedVars: set<Var>
    var deadStoreVars: set<Var>

    constructor ()
      ensures State() == CState(map[], [], 0, 0, [map[]], 0, 0)
    {
      bytecode, matchBlocks, ifCounter, matchCounter := map[], [], 0, 0;
      scopes, stackPos, stackSize := [map[]], 0, 0;
      isMain, argsCount, coalescedVars, deadStoreVars := false, 0, {}, {};
    }

    function State(): CState
      reads this
    {
      CState(bytecode, matchBlocks, ifCounter, matchCounter, scopes, stackPos, stackSize)
    }

    function Ctx(): Context
      reads this
    {
      Context(isMain, argsCount, coalescedVars, deadStoreVars)
    }

    /** register_var_if_needed on an expression. */
    method RegisterIfNeeded(e: Expr)
      requires scopes != []
      modifies `scopes, `stackPos
      ensures State() == Register(old(State()), e)
    {
      if e.Name? {
        var i := Find(scopes, e.v);
        if i.None? {
          scopes := InsertLast(scopes, e.v, stackPos);
          stackPos := stackPos + 1;
        }
      }
    }

    /** A line that does not branch. */
    method CompileSimpleLine(line: Line) returns (r: Option<Code>)
      requires scopes != [] && !line.IfNotZero? && !line.Match?
      modifies this
      ensures Ctx() == old(Ctx())
      ensures Done(r, SimpleLine(old(Ctx()), line, old(State())), State())
    {
      hide OperandOf, Register, ReturnCopies;
      match line
      case ForwardDeclaration(v) =>
        if v !in deadStoreVars && v !in coalescedVars {
          scopes, stackPos := InsertLast(scopes, v, stackPos), stackPos + 1;
        }
        r := Some([]);
      case Assignment(target, op, arg0, arg1) =>
        if IsStore(deadStoreVars, target) {
          return Some([]);
        }
        RegisterIfNeeded(target);
        var x, y, z := OperandOf(scopes, arg0), OperandOf(scopes, arg1), OperandOf(scopes, target);
        r := if x.None? || y.None? || z.None? then None else Some([ComputationOf(op, x.value, y.value, z.value)]);
      case AssertEq(left, right) =>
        RegisterIfNeeded(left);
        RegisterIfNeeded(right);
        var x, y := OperandOf(scopes, left), OperandOf(scopes, right);
        r := if x.None? || y.None? then None else Some([Computation(AddOp, x.value, Constant(0), y.value)]);
      case PanicLine =>
        r := Some([PanicHint, Panic]);
      case FunctionRet(data) =>
        if isMain {
          r := Some([Computation(AddOp, Constant(0), Constant(0), MemoryAfterFp(stackPos)),
                     Jump(LabelAddress(EndProgram), Some(MemoryAfterFp(stackPos)))]);
          stackPos := stackPos + 1;
        } else {
          var copies := ReturnCopies(Ctx(), scopes, data, 0);
          r := if copies.None? then None else Some(copies.value + [Jump(MemoryAfterFp(0), Some(MemoryAfterFp(1)))]);
        }
    }

    /** compile_lines. */
    method CompileLines(lines: seq<Line>, finalJump: Option<Label>) returns (r: Option<Code>)
      requires scopes != []
      modifies this
      ensures Ctx() == old(Ctx())
      ensures Done(r, Compile(old(Ctx()), lines, old(State()), finalJump), State())
      decreases lines, 2
    {
      hide Compile, SimpleLine;
      ghost var ctx, st0 := Ctx(), State();
      var instructions: Code := [];
      var i := 0;
      PrependNothing(Compile(ctx, lines, st0, finalJump));
      assert lines[0..] == lines;
      while i < |lines|
        invariant 0 <= i <= |lines| && scopes != [] && Ctx() == ctx
        invariant Compile(ctx, lines, st0, finalJump) == Prepend(instructions, Compile(ctx, lines[i..], State(), finalJump))
        decreases |lines| - i
      {
        assert lines[i..][0] == lines[i] && lines[i..][1..] == lines[i + 1..];
        if lines[i].IfNotZero? {
          r := CompileIfNotZero(lines[i].condition, lines[i].thenBranch, lines[i].elseBranch, lines[i + 1..], finalJump, lines[i..]);
          if r.Some? {
            r := Some(instructions + r.value);
          }
          return;
        }
        if lines[i].Match? {
          r := CompileMatchLines(lines[i].value, lines[i].arms, lines[i].offset, lines[i + 1..], finalJump, lines[i..]);
          if r.Some? {
            r := Some(instructions + r.value);
          }
          return;
        }
        SimpleStep(ctx, lines[i..], State(), finalJump);
        var code := CompileSimpleLine(lines[i]);
        if code.None? {
          return None;
        }
        PrependTwice(instructions, code.value, Compile(ctx, lines[i + 1..], State(), finalJump));
        instructions := instructions + code.value;
        i := i + 1;
      }
      assert lines[i..] == [];
      LastStep(ctx, State(), finalJump);
      stackSize := Max(stackSize, stackPos);
      r := Some(instructions + FinalJump(finalJump));
    }

    /** Both branches of a conditional, each in its own scope and from the same stack position. */
    method CompileBranches(t: seq<Line>, e: seq<Line>, id: nat, ghost th: Option<Compiled>, ghost el: Option<Compiled>, ghost lines: seq<Line>)
        returns (ok: bool)
      requires scopes != [] && lines != [] && lines[0].IfNotZero? && lines[0].thenBranch == t && lines[0].elseBranch == e
      requires th == Compile(Ctx(), t, PushScope(State()), Some(IfLabel(id, IfEnd)))
      requires th.Some? ==> th.value.st.scopes != []
                            && el == Compile(Ctx(), e, PushScope(PopScope(th.value.st).(stackPos := stackPos)), Some(IfLabel(id, IfEnd)))
      modifies this
      ensures Ctx() == old(Ctx())
      ensures if ok then th.Some? && el.Some? && el.value.st.scopes != [] && State() == RestStart(id, th.value, el.value)
              else th.None? || el.None?
      decreases lines, 0
    {
      hide Compile;
      var end := IfLabel(id, IfEnd);
      var savedStackPos := stackPos;
      scopes := scopes + [map[]];
      var thenCode := CompileLines(t, Some(end));
      if thenCode.None? {
        return false;
      }
      var thenStackPos := stackPos;
      stackPos, scopes := savedStackPos, scopes[..|scopes| - 1] + [map[]];
      var elseCode := CompileLines(e, Some(end));
      if elseCode.None? {
        return false;
      }
      bytecode := bytecode[IfLabel(id, IfThen) := thenCode.value][IfLabel(id, IfElse) := elseCode.value];
      scopes, stackPos := scopes[..|scopes| - 1], Max(stackPos, thenStackPos);
      ok := true;
    }

    /** A conditional and everything after it. */
    method CompileIfNotZero(c: Expr, t: seq<Line>, e: seq<Line>, rest: seq<Line>, finalJump: Option<Label>, ghost lines: seq<Line>)
        returns (r: Option<Code>)
      requires scopes != [] && lines != [] && lines[0] == IfNotZero(c, t, e) && rest == lines[1..]
      modifies this
      ensures Ctx() == old(Ctx())
      ensures Done(r, Compile(old(Ctx()), lines, old(State()), finalJump), State())
      decreases lines, 1
    {
      ghost var st0 := State();
      ghost var th, el := IfStages(Ctx(), c, t, e, rest, st0, finalJump, lines);
      hide Compile, CompileIf, OperandOf, Prelude, RestStart;
      var id := ifCounter;
      var condition := OperandOf(scopes, c);
      if condition.None? {
        return None;
      }
      var prelude := Prelude(condition.value, stackPos, id);
      ifCounter, stackPos := ifCounter + 1, stackPos + 3;
      var ok := CompileBranches(t, e, id, th, el, lines);
      if !ok {
        return None;
      }
      var remaining := CompileLines(rest, finalJump);
      if remaining.None? {
        return None;
      }
      bytecode := bytecode[IfLabel(id, IfEnd) := remaining.value];
      r := Some(prelude);
    }

    /** A match and everything after it. */
    method CompileMatchLines(value: Expr, arms: seq<Arm>, offset: nat, rest: seq<Line>, finalJump: Option<Label>, ghost lines: seq<Line>)
        returns (r: Option<Code>)
      requires scopes != [] && lines != [] && lines[0] == Match(value, arms, offset) && rest == lines[1..]
      modifies this
      ensures Ctx() == old(Ctx())
      ensures Done(r, Compile(old(Ctx()), lines, old(State()), finalJump), State())
      decreases lines, 1
    {
      ghost var st0 := State();
      MatchStages(Ctx(), value, arms, offset, rest, st0, finalJump, lines);
      ghost var all := CompileArms(Ctx(), arms, ArmsStart(st0), stackPos, stackPos, MatchEnd(matchCounter));
      hide Compile, CompileMatch, CompileArms, OperandOf, MatchJump, CompileIf, Find, InsertLast;
      var end := MatchEnd(matchCounter);
      scopes, matchCounter := scopes + [map[]], matchCounter + 1;
      var x := OperandOf(scopes, value);
      r := None;
      if x.Some? {
        var index := CompileMatchBlock(arms, end, all, lines);
        if index.Some? {
          r := CompileAfterMatch(x.value, index.value, offset, end, rest, finalJump, all.value, lines);
        }
      }
    }

    /** The computed jump, then everything after the match, registered under its end label. */
    method CompileAfterMatch(x: Operand, index: nat, offset: nat, end: Label, rest: seq<Line>, finalJump: Option<Label>,
                             ghost all: CompiledArms, ghost lines: seq<Line>) returns (r: Option<Code>)
      requires State() == MatchAdded(all) && |all.st.scopes| > 1 && index == |all.st.matches| && lines != [] && rest == lines[1..]
      modifies this
      ensures Ctx() == old(Ctx())
      ensures Done(r, MatchThen(old(Ctx()), Some(x), Some(all), offset, rest, end, finalJump), State())
      decreases lines, 0
    {
      hide Compile, CompileArms, MatchJump;
      var jump := MatchJump(x, stackPos, index, offset);
      stackPos := stackPos + 2;
      var remaining := CompileLines(rest, finalJump);
      if remaining.None? {
        return None;
      }
      bytecode, scopes := bytecode[end := remaining.value], scopes[..|scopes| - 1];
      r := Some(jump);
    }

    /** Compiles and registers the arms; nested matches register theirs first, so the index is known only afterwards. */
    method CompileMatchBlock(arms: seq<Arm>, end: Label, ghost all: Option<CompiledArms>, ghost lines: seq<Line>) returns (index: Option<nat>)
      requires scopes != [] && lines != [] && lines[0].Match? && lines[0].arms == arms
      requires all == CompileArms(Ctx(), arms, State(), stackPos, stackPos, end)
      modifies this
      ensures Ctx() == old(Ctx())
      ensures if index.None? then all.None?
              else all.Some? && index.value == |all.value.st.matches| && State() == MatchAdded(all.value) && scopes != []
      decreases lines, 0
    {
      hide Compile, CompileArms;
      var codes, top := CompileAllArms(arms, stackPos, end);
      if codes.None? {
        return None;
      }
      stackPos, matchBlocks := top, matchBlocks + [codes.value];
      index := Some(|matchBlocks| - 1);
    }

    /** The arms of a match, each from the saved stack position; top is the highest position reached. */
    method CompileAllArms(arms: seq<Arm>, saved: nat, end: Label) returns (codes: Option<seq<Code>>, top: nat)
      requires scopes != []
      modifies this
      ensures Ctx() == old(Ctx())
      ensures ArmsDone(codes, top, CompileArms(old(Ctx()), arms, old(State()), saved, saved, end), State())
      decreases arms, 0
    {
      hide Compile, CompileArms;
      ghost var ctx, st0 := Ctx(), State();
      var compiled: seq<Code> := [];
      top := saved;
      var i := 0;
      assert arms[0..] == arms;
      ArmsPrependNothing(CompileArms(ctx, arms, st0, saved, saved, end));
      while i < |arms|
        invariant 0 <= i <= |arms| && scopes != [] && Ctx() == ctx
        invariant CompileArms(ctx, arms, st0, saved, saved, end) == ArmsPrepend(compiled, CompileArms(ctx, arms[i..], State(), saved, top, end))
        decreases |arms| - i
      {
        assert arms[i..][0] == arms[i] && arms[i..][1..] == arms[i + 1..];
        ArmsStep(ctx, arms[i..], State(), saved, top, end);
        stackPos, scopes := saved, scopes + [map[]];
        var code := CompileLines(arms[i].body, Some(end));
        if code.None? {
          return None, top;
        }
        top := Max(top, stackPos);
        scopes := scopes[..|scopes| - 1];
        ArmsPrependTwice(compiled, [code.value], CompileArms(ctx, arms[i + 1..], State(), saved, top, end));
        compiled := compiled + [code.value];
        i := i + 1;
      }
      assert arms[i..] == [];
      ArmsStep(ctx, [], State(), saved, top, end);
      codes := Some(compiled);
    }

    /** compile_function: lays out the frame, then compiles the body. */
    method CompileOne(f: Function) returns (r: Option<Code>)
      requires ReturnsMany(f.body, f.retCount)
      modifies this
      ensures Done(r, CompileBody(f, old(State())), State())
    {
      hide Compile, ReturnsMany;
      var scope, vars := FunctionScope(f);
      var position := 2 + |f.arguments| + f.retCount;
      scopes := [scope];
      isMain, argsCount, coalescedVars := f.name == "main", |f.arguments|, vars;
      deadStoreVars := ComputeDeadVars(f.body);
      stackPos, stackSize := position, position;
      r := CompileLines(f.body, None);
    }
  }

  /** The function scope: arguments, then coalesced variables in their return slots. */
  method FunctionScope(f: Function) returns (scope: map<Var, nat>, vars: set<Var>)
    requires ReturnsMany(f.body, f.retCount)
    ensures scope == ArgSlots(f.arguments) + Hoisted(f) && vars == Hoisted(f).Keys
  {
    hide ReturnsMany, Chosen;
    scope := map[];
    var position := 2;
    for i := 0 to |f.arguments|
      invariant scope == ArgSlots(f.arguments[..i])
    {
      assert f.arguments[..i + 1][..i] == f.arguments[..i];
      scope := scope[f.arguments[i] := position + i];
    }
    assert f.arguments[..|f.arguments|] == f.arguments;
    position := position + |f.arguments|;
    var chosen := CollectReturnCoalescings(f.body, f.retCount, f.arguments);
    vars := {};
    hide ArgSlots, CoalescedSlots;
    EmptySlots(f);
    for i := 0 to f.retCount
      invariant scope == ArgSlots(f.arguments) + CoalescedSlots(f, i) && vars == CoalescedSlots(f, i).Keys
      invariant forall k, v {:trigger chosen[k], Chosen(f.body, f.arguments, k, v)} | 0 <= k < f.retCount ::
                  chosen[k] == Some(v) <==> Chosen(f.body, f.arguments, k, v)
    {
      assert forall v {:trigger Chosen(f.body, f.arguments, i, v)} :: chosen[i] == Some(v) <==> Chosen(f.body, f.arguments, i, v);
      NextSlot(f, i, chosen[i]);
      if chosen[i].Some? {
        scope := scope[chosen[i].value := position + i];
        vars := vars + {chosen[i].value};
      }
    }
  }

  lemma EmptySlots(f: Function)
    ensures CoalescedSlots(f, 0) == map[]
  {
  }

  // ----- lines that do not branch

  /** The code of one such line and the state after it. */
  function SimpleLine(ctx: Context, line: Line, st: CState): (r: Option<Compiled>)
    requires st.scopes != [] && !line.IfNotZero? && !line.Match?
    ensures r.Some? ==> r.value.st.scopes != []
  {
    match line
    case ForwardDeclaration(v) => Some(Compiled([], if v in ctx.coalesced || v in ctx.deadStores then st else Declare(st, v)))
    case Assignment(target, op, a, b) =>
      if IsStore(ctx.deadStores, target) then Some(Compiled([], st))
      else
        var st1 := Register(st, target);
        var x, y, z := OperandOf(st1.scopes, a), OperandOf(st1.scopes, b), OperandOf(st1.scopes, target);
        if x.None? || y.None? || z.None? then None else Some(Compiled([ComputationOf(op, x.value, y.value, z.value)], st1))
    case AssertEq(l, r) =>
      var st1 := Register(Register(st, l), r);
      var x, y := OperandOf(st1.scopes, l), OperandOf(st1.scopes, r);
      if x.None? || y.None? then None else Some(Compiled([Computation(AddOp, x.value, Constant(0), y.value)], st1))
    case PanicLine => Some(Compiled([PanicHint, Panic], st))
    case FunctionRet(data) =>
      if ctx.isMain then
        Some(Compiled([Computation(AddOp, Constant(0), Constant(0), MemoryAfterFp(st.stackPos)),
                       Jump(LabelAddress(EndProgram), Some(MemoryAfterFp(st.stackPos)))], st.(stackPos := st.stackPos + 1)))
      else
        var copies := ReturnCopies(ctx, st.scopes, data, 0);
        if copies.None? then None else Some(Compiled(copies.value + [Jump(MemoryAfterFp(0), Some(MemoryAfterFp(1)))], st))
  }

  lemma SimpleStep(ctx: Context, lines: seq<Line>, st: CState, fj: Option<Label>)
    requires st.scopes != [] && lines != [] && !lines[0].IfNotZero? && !lines[0].Match?
    ensures var c := SimpleLine(ctx, lines[0], st);
            Compile(ctx, lines, st, fj) == if c.None? then None else Prepend(c.value.code, Compile(ctx, lines[1..], c.value.st, fj))
  {
    hide OperandOf, Register, ReturnCopies;
    if lines[0].ForwardDeclaration? || (lines[0].Assignment? && IsStore(ctx.deadStores, lines[0].target)) {
      PrependNothing(Compile(ctx, lines[1..], SimpleLine(ctx, lines[0], st).value.st, fj));
    }
  }

  lemma LastStep(ctx: Context, st: CState, fj: Option<Label>)
    requires st.scopes != []
    ensures Compile(ctx, [], st, fj) == Some(Compiled(FinalJump(fj), st.(stackSize := Max(st.stackSize, st.stackPos))))
  {
  }

  // ----- the stages of a conditional and of a match

  function ThenStart(st: CState): CState { PushScope(st.(ifCounter := st.ifCounter + 1, stackPos := st.stackPos + 3)) }

  function ElseStart(st: CState, th: CState): CState
    requires th.scopes != []
  {
    PushScope(PopScope(th).(stackPos := st.stackPos + 3))
  }

  function RestStart(id: nat, th: Compiled, el: Compiled): CState
    requires el.st.scopes != []
  {
    PopScope(el.st).(blocks := el.st.blocks[IfLabel(id, IfThen) := th.code][IfLabel(id, IfElse) := el.code],
                     stackPos := Max(el.st.stackPos, th.st.stackPos))
  }

  function IfThenRest(ctx: Context, x: Option<Operand>, st: CState, th: Option<Compiled>, el: Option<Compiled>, rest: seq<Line>, fj: Option<Label>)
    : Option<Compiled>
    requires th.Some? && el.Some? ==> |el.value.st.scopes| > 1
  {
    if x.None? || th.None? || el.None? then None
    else
      var re := Compile(ctx, rest, RestStart(st.ifCounter, th.value, el.value), fj);
      if re.None? then None
      else Some(Compiled(Prelude(x.value, st.stackPos, st.ifCounter),
                         re.value.st.(blocks := re.value.st.blocks[IfLabel(st.ifCounter, IfEnd) := re.value.code])))
  }

  lemma IfStages(ctx: Context, c: Expr, t: seq<Line>, e: seq<Line>, rest: seq<Line>, st: CState, fj: Option<Label>, lines: seq<Line>)
      returns (th: Option<Compiled>, el: Option<Compiled>)
    requires st.scopes != [] && lines != [] && lines[0] == IfNotZero(c, t, e) && rest == lines[1..]
    ensures th == Compile(ctx, t, ThenStart(st), Some(IfLabel(st.ifCounter, IfEnd)))
    ensures th.Some? ==> th.value.st.scopes != [] && el == Compile(ctx, e, ElseStart(st, th.value.st), Some(IfLabel(st.ifCounter, IfEnd)))
    ensures th.Some? && el.Some? ==> |el.value.st.scopes| > 1
    ensures Compile(ctx, lines, st, fj) == IfThenRest(ctx, OperandOf(st.scopes, c), st, th, el, rest, fj)
  {
    hide OperandOf, Prelude;
    assert Compile(ctx, lines, st, fj) == CompileIf(ctx, c, t, e, rest, st, fj, lines);
    hide Compile;
    th, el := Compile(ctx, t, ThenStart(st), Some(IfLabel(st.ifCounter, IfEnd))), None;
    if th.Some? {
      el := Compile(ctx, e, ElseStart(st, th.value.st), Some(IfLabel(st.ifCounter, IfEnd)));
    }
  }

  function ArmsStart(st: CState): CState { PushScope(st).(matchCounter := st.matchCounter + 1) }

  function MatchAdded(all: CompiledArms): CState { all.st.(stackPos := all.top, matches := all.st.matches + [all.codes]) }

  function AfterArms(all: CompiledArms): CState { all.st.(stackPos := all.top + 2, matches := all.st.matches + [all.codes]) }

  function MatchThen(ctx: Context, x: Option<Operand>, all: Option<CompiledArms>, offset: nat, rest: seq<Line>, end: Label, fj: Option<Label>)
    : Option<Compiled>
    requires all.Some? ==> |all.value.st.scopes| > 1
  {
    if x.None? || all.None? then None
    else
      var re := Compile(ctx, rest, AfterArms(all.value), fj);
      if re.None? then None
      else Some(Compiled(MatchJump(x.value, all.value.top, |all.value.st.matches|, offset),
                         PopScope(re.value.st.(blocks := re.value.st.blocks[end := re.value.code]))))
  }

  lemma MatchStages(ctx: Context, value: Expr, arms: seq<Arm>, offset: nat, rest: seq<Line>, st: CState, fj: Option<Label>, lines: seq<Line>)
    requires st.scopes != [] && lines != [] && lines[0] == Match(value, arms, offset) && rest == lines[1..]
    ensures var all := CompileArms(ctx, arms, ArmsStart(st), st.stackPos, st.stackPos, MatchEnd(st.matchCounter));
            (all.Some? ==> |all.value.st.scopes| > 1)
            && Compile(ctx, lines, st, fj)
            == MatchThen(ctx, OperandOf(ArmsStart(st).scopes, value), all, offset, rest, MatchEnd(st.matchCounter), fj)
  {
    hide OperandOf, MatchJump;
    assert Compile(ctx, lines, st, fj) == CompileMatch(ctx, value, arms, offset, rest, st, fj, lines);
    hide Compile, CompileArms;
  }

  lemma NextSlot(f: Function, i: nat, c: Option<Var>)
    requires i < f.retCount && forall v {:trigger Chosen(f.body, f.arguments, i, v)} :: c == Some(v) <==> Chosen(f.body, f.arguments, i, v)
    ensures CoalescedSlots(f, i + 1) == if c.Some? then CoalescedSlots(f, i)[c.value := 2 + |f.arguments| + i] else CoalescedSlots(f, i)
    ensures c.Some? ==> c.value !in ArgSlots(f.arguments)
  {
    ArgSlotsMeans(f.arguments);
    var d := Candidate(f.body, f.arguments, i);
    if d.Some? {
      CoalescedMeans(f, i, d.value);
      assert c == d <==> Chosen(f.body, f.arguments, i, d.value);
    }
    if c.Some? {
      assert Chosen(f.body, f.arguments, i, c.value);
    }
  }

  lemma PrependNothing(c: Option<Compiled>)
    ensures Prepend([], c) == c
  {
    if c.Some? {
      assert [] + c.value.code == c.value.code;
    }
  }

  lemma PrependTwice(a: Code, b: Code, c: Option<Compiled>)
    ensures Prepend(a, Prepend(b, c)) == Prepend(a + b, c)
  {
    if c.Some? {
      assert a + (b + c.value.code) == a + b + c.value.code;
    }
  }

  function ArmsPrepend(codes: seq<Code>, c: Option<CompiledArms>): Option<CompiledArms> {
    if c.None? then None else Some(CompiledArms(codes + c.value.codes, c.value.st, c.value.top))
  }

  /** No arm left, or one arm and then the others. */
  lemma ArmsStep(ctx: Context, arms: seq<Arm>, st: CState, saved: nat, top: nat, end: Label)
    requires st.scopes != []
    ensures arms == [] ==> forall codes: seq<Code> {:trigger ArmsPrepend(codes, CompileArms(ctx, arms, st, saved, top, end))} ::
              ArmsPrepend(codes, CompileArms(ctx, arms, st, saved, top, end)) == Some(CompiledArms(codes, st, top))
    ensures arms != [] ==> CompileArms(ctx, arms, st, saved, top, end) == ArmThen(ctx, arms, st, saved, top, end)
  {
    hide Compile;
    if arms == [] {
      forall codes: seq<Code> {:trigger ArmsPrepend(codes, CompileArms(ctx, arms, st, saved, top, end))}
        ensures ArmsPrepend(codes, CompileArms(ctx, arms, st, saved, top, end)) == Some(CompiledArms(codes, st, top))
      {
        assert codes + [] == codes;
      }
    }
  }

  function ArmThen(ctx: Context, arms: seq<Arm>, st: CState, saved: nat, top: nat, end: Label): Option<CompiledArms>
    requires st.scopes != [] && arms != []
  {
    var arm := Compile(ctx, arms[0].body, PushScope(st.(stackPos := saved)), Some(end));
    if arm.None? then None
    else ArmsPrepend([arm.value.code], CompileArms(ctx, arms[1..], PopScope(arm.value.st), saved, Max(top, arm.value.st.stackPos), end))
  }

  lemma ArmsPrependNothing(c: Option<CompiledArms>)
    ensures ArmsPrepend([], c) == c
  {
    if c.Some? {
      assert [] + c.value.codes == c.value.codes;
    }
  }

  lemma ArmsPrependTwice(a: seq<Code>, b: seq<Code>, c: Option<CompiledArms>)
    ensures ArmsPrepend(a, ArmsPrepend(b, c)) == ArmsPrepend(a + b, c)
  {
    if c.Some? {
      assert a + (b + c.value.codes) == a + b + c.value.codes;
    }
  }
}
