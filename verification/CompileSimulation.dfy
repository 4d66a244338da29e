/** The main result on compile_lines: by induction on the lines, compiled code does what they mean. */
module CompileSimulation {
  import opened Field
  import opened Interpolation
  import opened IntermediateCode
  import opened SimpleLang
  import opened CompileLines
  import opened CompileGrowth
  import opened CompileFacts
  import opened SlotRelation
  import opened CompileCorrect

  /** What the lines, the compiler's state and the machine must agree on before the compiled code runs. */
  ghost predicate Ready(g: Setting, lines: seq<Line>, st: CState, fj: Option<Label>, hi: nat, env: Env, mem: Memory) {
    && st.scopes != [] && Fresh(st) && Compile(g.ctx, lines, st, fj).Some?
    && Compile(g.ctx, lines, st, fj).value.st.stackPos <= hi
    && Includes(g.p, Compile(g.ctx, lines, st, fj).value.st) && Placed(g.p, g.lay) && (fj.Some? ==> fj.value in g.p.blocks)
    && Rel(st.scopes, st.stackPos, hi, env, mem, g.reserved)
    && Coalesced(g, st.scopes) && ReturnsFit(g, lines)
  }

  /** The compiled code does what the lines mean. */
  ghost predicate Simulated(g: Setting, lines: seq<Line>, st: CState, fj: Option<Label>, hi: nat, env: Env, mem: Memory)
    requires st.scopes != [] && env != [] && Compile(g.ctx, lines, st, fj).Some?
  {
    var c := Compile(g.ctx, lines, st, fj).value;
    Does(g, Exec(g.ctx.coalesced, g.ctx.deadStores, lines, env), fj, Running(c.code, mem), mem, c.st.scopes, c.st.stackPos, hi)
  }

  lemma ReadyEnv(g: Setting, lines: seq<Line>, st: CState, fj: Option<Label>, hi: nat, env: Env, mem: Memory)
    requires Ready(g, lines, st, fj, hi, env, mem)
    ensures env != [] && |env| == |st.scopes|
  {
  }

  lemma {:induction false} Simulate(g: Setting, lines: seq<Line>, st: CState, fj: Option<Label>, hi: nat, env: Env, mem: Memory)
    requires Ready(g, lines, st, fj, hi, env, mem)
    ensures env != [] && Simulated(g, lines, st, fj, hi, env, mem)
    decreases lines, 3
  {
    ReadyEnv(g, lines, st, fj, hi, env, mem);
    if lines == [] {
      SimulateEnd(g, st, fj, hi, env, mem);
    } else {
      match lines[0]
      case ForwardDeclaration(v) => SimulateDeclaration(g, lines, st, fj, hi, env, mem);
      case Assignment(target, op, a, b) =>
        if IsStore(g.ctx.deadStores, target) {
          SimulateDeadStore(g, lines, st, fj, hi, env, mem);
        } else {
          SimulateAssignment(g, lines, st, fj, hi, env, mem);
        }
      case AssertEq(l, r) => SimulateAssert(g, lines, st, fj, hi, env, mem);
      case IfNotZero(c, t, e) => SimulateIf(g, lines, st, fj, hi, env, mem);
      case Match(value, arms, offset) => SimulateMatch(g, lines, st, fj, hi, env, mem);
      case PanicLine => SimulatePanic(g, lines, st, fj, hi, env, mem);
      case FunctionRet(data) => SimulateReturn(g, lines, st, fj, hi, env, mem);
    }
  }

  lemma SimulateEnd(g: Setting, st: CState, fj: Option<Label>, hi: nat, env: Env, mem: Memory)
    requires Ready(g, [], st, fj, hi, env, mem) && env != []
    ensures Simulated(g, [], st, fj, hi, env, mem)
  {
    var c := Compile(g.ctx, [], st, fj).value;
    var s := Running(c.code, mem);
    hide Rel, Includes, Placed, Coalesced;
    if fj.None? {
      ReachesRefl(g.p, g.lay, s);
    } else {
      assert Step(g.p, g.lay, s) == After(g.p, fj, mem);
      StepReaches(g.p, g.lay, s);
    }
    assert Arrives(g, fj, s, mem, c.st.scopes, c.st.stackPos, hi, env, mem);
  }

  /** The rest of the lines from the next state on. */
  lemma ReadyRest(g: Setting, lines: seq<Line>, st: CState, fj: Option<Label>, hi: nat, env: Env, mem: Memory,
                  st1: CState, env1: Env, mem1: Memory)
    requires lines != [] && Ready(g, lines, st, fj, hi, env, mem) && Grows(st, st1)
    requires Compile(g.ctx, lines[1..], st1, fj).Some?
    requires Compile(g.ctx, lines[1..], st1, fj).value.st == Compile(g.ctx, lines, st, fj).value.st
    requires Rel(st1.scopes, st1.stackPos, hi, env1, mem1, g.reserved) && Coalesced(g, st1.scopes)
    ensures Ready(g, lines[1..], st1, fj, hi, env1, mem1)
  {
    hide Compile, Rel, Includes, Placed, Coalesced;
    GrowsFresh(st, st1);
  }

  lemma CoalescedDeclare(g: Setting, scopes: Scopes<nat>, v: Var, x: nat)
    requires Coalesced(g, scopes) && v !in g.slots
    ensures Coalesced(g, InsertLast(scopes, v, x))
  {
  }

  lemma CoalescedRegister(g: Setting, st: CState, e: Expr)
    requires Coalesced(g, st.scopes)
    ensures Coalesced(g, Register(st, e).scopes)
  {
    if e.Name? && Find(st.scopes, e.v).None? {
      assert e.v !in st.scopes[0];
      CoalescedDeclare(g, st.scopes, e.v, st.stackPos);
    }
  }

  lemma CoalescedPush(g: Setting, scopes: Scopes<nat>)
    requires Coalesced(g, scopes)
    ensures Coalesced(g, scopes + [map[]])
  {
  }

  lemma RegisterKeeps(g: Setting, st: CState, e: Expr, hi: nat, env: Env, mem: Memory)
    requires Rel(st.scopes, st.stackPos, hi, env, mem, g.reserved) && st.scopes != [] && env != [] && Register(st, e).stackPos <= hi
    ensures Rel(Register(st, e).scopes, Register(st, e).stackPos, hi, Introduce(env, e), mem, g.reserved)
  {
    if e.Name? {
      SameFind(st.scopes, env, e.v);
      if Find(st.scopes, e.v).None? {
        DeclareKeeps(st.scopes, st.stackPos, hi, env, mem, g.reserved, e.v);
      }
    }
  }

  lemma SimulateDeclaration(g: Setting, lines: seq<Line>, st: CState, fj: Option<Label>, hi: nat, env: Env, mem: Memory)
    requires lines != [] && lines[0].ForwardDeclaration? && Ready(g, lines, st, fj, hi, env, mem) && env != []
    ensures Simulated(g, lines, st, fj, hi, env, mem)
    decreases lines, 1
  {
    var v := lines[0].v;
    var skipped := v in g.ctx.coalesced || v in g.ctx.deadStores;
    var st1 := if skipped then st else Declare(st, v);
    var env1 := if skipped then env else InsertLast(env, v, None);
    hide Rel, Includes, Placed, Coalesced, Fresh, ReturnsFit;
    GrowsPlain(st, st1);
    GrowsFresh(st, st1);
    CompileGrows(g.ctx, lines[1..], st1, fj);
    Positions(st1, Compile(g.ctx, lines[1..], st1, fj).value.st);
    if !skipped {
      DeclareKeeps(st.scopes, st.stackPos, hi, env, mem, g.reserved, v);
      CoalescedKeys(g, st.scopes);
      CoalescedDeclare(g, st.scopes, v, st.stackPos);
    }
    ReadyRest(g, lines, st, fj, hi, env, mem, st1, env1, mem);
    Simulate(g, lines[1..], st1, fj, hi, env1, mem);
  }

  lemma CoalescedKeys(g: Setting, scopes: Scopes<nat>)
    requires Coalesced(g, scopes)
    ensures g.slots.Keys == g.ctx.coalesced
  {
  }

  /** One computation, then the rest. */
  lemma SimulateEquation(g: Setting, lines: seq<Line>, st: CState, fj: Option<Label>, hi: nat, env: Env, mem: Memory,
                         st1: CState, env1: Env, op: Operation, a: Expr, b: Expr, res: Expr)
    requires lines != [] && Ready(g, lines, st, fj, hi, env, mem) && env != [] && Grows(st, st1)
    requires Rel(st1.scopes, st1.stackPos, hi, env1, mem, g.reserved) && Coalesced(g, st1.scopes) && env1 != []
    requires OperandOf(st1.scopes, a).Some? && OperandOf(st1.scopes, b).Some? && OperandOf(st1.scopes, res).Some?
    requires Compile(g.ctx, lines[1..], st1, fj).Some?
    requires Compile(g.ctx, lines, st, fj) == Prepend([Computation(op, OperandOf(st1.scopes, a).value, OperandOf(st1.scopes, b).value,
               OperandOf(st1.scopes, res).value)], Compile(g.ctx, lines[1..], st1, fj))
    requires var env2 := Equation(env1, op, a, b, res);
             if env2.None? then Exec(g.ctx.coalesced, g.ctx.deadStores, lines, env) == Stuck
             else env2.value != [] && Exec(g.ctx.coalesced, g.ctx.deadStores, lines, env) == Exec(g.ctx.coalesced, g.ctx.deadStores, lines[1..], env2.value)
    ensures Simulated(g, lines, st, fj, hi, env, mem)
    decreases lines, 0
  {
    hide Compile, Exec, Rel, Includes, Placed, Coalesced, Fresh, ReturnsFit, Grows, Equation, ExecComputation, OperandOf;
    var ins := Computation(op, OperandOf(st1.scopes, a).value, OperandOf(st1.scopes, b).value, OperandOf(st1.scopes, res).value);
    var re := Compile(g.ctx, lines[1..], st1, fj).value;
    var s := Running([ins] + re.code, mem);
    assert s.rest[1..] == re.code && s.rest[0] == ins;
    SameEquation(st1.scopes, st1.stackPos, hi, env1, mem, g.reserved, g.lay, op, a, b, res);
    var env2 := Equation(env1, op, a, b, res);
    StepReaches(g.p, g.lay, s);
    if env2.None? {
      DoesFail(g, fj, s, mem, re.st.scopes, re.st.stackPos, hi);
    } else {
      var mem2 := ExecComputation(g.lay, mem, op, ins.argA, ins.argB, ins.res).value;
      ReadyRest(g, lines, st, fj, hi, env, mem, st1, env2.value, mem2);
      Simulate(g, lines[1..], st1, fj, hi, env2.value, mem2);
      DoesAfter(g, Exec(g.ctx.coalesced, g.ctx.deadStores, lines[1..], env2.value), fj, s, Running(re.code, mem2), mem, mem2, re.st.scopes, re.st.stackPos, hi);
    }
  }

  lemma OperandsOfEquation(scopes: Scopes<nat>, op: MathOperation, a: Expr, b: Expr, res: Expr)
    requires OperandOf(scopes, a).Some? && OperandOf(scopes, b).Some? && OperandOf(scopes, res).Some?
    ensures var q := AsEquation(op, a, b, res);
            OperandOf(scopes, q.a).Some? && OperandOf(scopes, q.b).Some? && OperandOf(scopes, q.res).Some?
            && ComputationOf(op, OperandOf(scopes, a).value, OperandOf(scopes, b).value, OperandOf(scopes, res).value)
            == Computation(q.op, OperandOf(scopes, q.a).value, OperandOf(scopes, q.b).value, OperandOf(scopes, q.res).value)
  {
  }

  /** A dead store leaves no trace in the code. */
  lemma SimulateDeadStore(g: Setting, lines: seq<Line>, st: CState, fj: Option<Label>, hi: nat, env: Env, mem: Memory)
    requires lines != [] && lines[0].Assignment? && Ready(g, lines, st, fj, hi, env, mem) && env != []
    requires IsStore(g.ctx.deadStores, lines[0].target)
    ensures Simulated(g, lines, st, fj, hi, env, mem)
    decreases lines, 1
  {
    hide Rel, Includes, Placed, Coalesced, Fresh, ReturnsFit;
    GrowsPlain(st, st);
    CompileGrows(g.ctx, lines[1..], st, fj);
    Positions(st, Compile(g.ctx, lines[1..], st, fj).value.st);
    ReadyRest(g, lines, st, fj, hi, env, mem, st, env, mem);
    Simulate(g, lines[1..], st, fj, hi, env, mem);
  }

  lemma SimulateAssignment(g: Setting, lines: seq<Line>, st: CState, fj: Option<Label>, hi: nat, env: Env, mem: Memory)
    requires lines != [] && lines[0].Assignment? && Ready(g, lines, st, fj, hi, env, mem) && env != []
    requires !IsStore(g.ctx.deadStores, lines[0].target)
    ensures Simulated(g, lines, st, fj, hi, env, mem)
    decreases lines, 1
  {
    var target, op, a, b := lines[0].target, lines[0].op, lines[0].arg0, lines[0].arg1;
    var st1, env1 := Register(st, target), Introduce(env, target);
    var q := AsEquation(op, a, b, target);
    hide Rel, Includes, Placed, Coalesced, Fresh, ReturnsFit, Grows, Equation, OperandOf, AsEquation, ComputationOf, Register, Introduce;
    OperandsOfEquation(st1.scopes, op, a, b, target);
    assert Compile(g.ctx, lines, st, fj) == Prepend([ComputationOf(op, OperandOf(st1.scopes, a).value, OperandOf(st1.scopes, b).value,
      OperandOf(st1.scopes, target).value)], Compile(g.ctx, lines[1..], st1, fj));
    hide Compile;
    RegisterGrows(st, target);
    GrowsFresh(st, st1);
    CompileGrows(g.ctx, lines[1..], st1, fj);
    Positions(st1, Compile(g.ctx, lines[1..], st1, fj).value.st);
    RegisterKeeps(g, st, target, hi, env, mem);
    CoalescedRegister(g, st, target);
    if Equation(env1, q.op, q.a, q.b, q.res).Some? {
      EquationKeepsScopes(env1, q.op, q.a, q.b, q.res);
    }
    SimulateEquation(g, lines, st, fj, hi, env, mem, st1, env1, q.op, q.a, q.b, q.res);
  }

  lemma SimulateAssert(g: Setting, lines: seq<Line>, st: CState, fj: Option<Label>, hi: nat, env: Env, mem: Memory)
    requires lines != [] && lines[0].AssertEq? && Ready(g, lines, st, fj, hi, env, mem) && env != []
    ensures Simulated(g, lines, st, fj, hi, env, mem)
    decreases lines, 1
  {
    var l, r := lines[0].left, lines[0].right;
    var st0, env0 := Register(st, l), Introduce(env, l);
    var st1, env1 := Register(st0, r), Introduce(env0, r);
    hide Rel, Includes, Placed, Coalesced, Fresh, ReturnsFit, Grows, Equation, Register;
    RegisterGrows(st, l);
    GrowsFresh(st, st0);
    RegisterGrows(st0, r);
    GrowsTrans(st, st0, st1);
    GrowsFresh(st, st1);
    CompileGrows(g.ctx, lines[1..], st1, fj);
    Positions(st1, Compile(g.ctx, lines[1..], st1, fj).value.st);
    Positions(st0, st1);
    RegisterKeeps(g, st, l, hi, env, mem);
    RegisterKeeps(g, st0, r, hi, env0, mem);
    CoalescedRegister(g, st, l);
    CoalescedRegister(g, st0, r);
    if Equation(env1, AddOp, l, Number(0), r).Some? {
      EquationKeepsScopes(env1, AddOp, l, Number(0), r);
    }
    SimulateEquation(g, lines, st, fj, hi, env, mem, st1, env1, AddOp, l, Number(0), r);
  }

  lemma SimulatePanic(g: Setting, lines: seq<Line>, st: CState, fj: Option<Label>, hi: nat, env: Env, mem: Memory)
    requires lines != [] && lines[0].PanicLine? && Ready(g, lines, st, fj, hi, env, mem) && env != []
    ensures Simulated(g, lines, st, fj, hi, env, mem)
  {
    hide Rel, Includes, Placed, Coalesced, Fresh, ReturnsFit;
    var c := Compile(g.ctx, lines, st, fj).value;
    var s := Running(c.code, mem);
    assert Step(g.p, g.lay, s) == Running(c.code[1..], mem);
    assert Step(g.p, g.lay, Running(c.code[1..], mem)) == Failed;
    hide Step;
    ReachesRefl(g.p, g.lay, Failed);
    ReachesStep(g.p, g.lay, Running(c.code[1..], mem), Failed);
    ReachesStep(g.p, g.lay, s, Failed);
    DoesFail(g, fj, s, mem, c.st.scopes, c.st.stackPos, hi);
  }

  // ----- returns

  lemma MainReturns(g: Setting, tail: Code, slot: nat, mem: Memory)
    requires g.ctx.isMain && slot !in mem
    ensures var s := Running([Computation(AddOp, Constant(0), Constant(0), MemoryAfterFp(slot)),
                              Jump(LabelAddress(EndProgram), Some(MemoryAfterFp(slot)))] + tail, mem);
            exists t: Machine :: Reaches(g.p, g.lay, s, t) && ReturnsTo(g.ctx, t, [])
  {
    var code := [Computation(AddOp, Constant(0), Constant(0), MemoryAfterFp(slot)), Jump(LabelAddress(EndProgram), Some(MemoryAfterFp(slot)))] + tail;
    var s := Running(code, mem);
    AddZero(0);
    var s1 := Running(code[1..], mem[slot := 0]);
    assert Step(g.p, g.lay, s) == s1;
    var t := Step(g.p, g.lay, s1);
    hide Step;
    StepReaches(g.p, g.lay, s1);
    ReachesStep(g.p, g.lay, s, t);
    assert ReturnsTo(g.ctx, t, []);
  }

  /** The jump back to the caller, once the return slots are written. */
  lemma ReturnJump(g: Setting, data: seq<Expr>, env: Env, tail: Code, mem0: Memory, mem: Memory)
    requires !g.ctx.isMain && |data| == g.retCount && Copied(g, data, 0, env, mem0, mem0, mem)
    requires 0 in mem0 && 1 in mem0 && 0 !in g.reserved && 1 !in g.reserved
    ensures var t := Step(g.p, g.lay, Running([Jump(MemoryAfterFp(0), Some(MemoryAfterFp(1)))] + tail, mem));
            if EvalAll(env, data).Some? then ReturnsTo(g.ctx, t, EvalAll(env, data).value) else Breaks(g, t)
  {
    assert Get(mem0, 0) == Get(mem, 0) && Get(mem0, 1) == Get(mem, 1);
    hide AgreesOff, LowKept, InSlots, EvalAll;
  }

  lemma SimulateReturn(g: Setting, lines: seq<Line>, st: CState, fj: Option<Label>, hi: nat, env: Env, mem: Memory)
    requires lines != [] && lines[0].FunctionRet? && Ready(g, lines, st, fj, hi, env, mem) && env != []
    ensures Simulated(g, lines, st, fj, hi, env, mem)
  {
    var data := lines[0].data;
    var c := Compile(g.ctx, lines, st, fj).value;
    var s := Running(c.code, mem);
    ReservedUnwritten(g, st.scopes, st.stackPos, hi, env, mem);
    hide Rel, Includes, Placed, Coalesced, Fresh, Reaches, Grows;
    if g.ctx.isMain {
      SlotFree(g, lines, st, fj, hi, env, mem);
      MainReturns(g, Compile(g.ctx, lines[1..], st.(stackPos := st.stackPos + 1), fj).value.code, st.stackPos, mem);
      assert Exec(g.ctx.coalesced, g.ctx.deadStores, lines, env) == Returned([]);
    } else {
      var re := Compile(g.ctx, lines[1..], st, fj).value;
      var tail := [Jump(MemoryAfterFp(0), Some(MemoryAfterFp(1)))] + re.code;
      var copies := ReturnCopies(g.ctx, st.scopes, data, 0).value;
      assert c.code == copies + tail;
      hide Compile, ReturnCopies;
      CopyReturns(g, data, 0, st.scopes, st.stackPos, hi, env, mem, mem, tail);
      ReturnFromCopies(g, data, env, s, re.code, mem);
    }
  }

  lemma SlotFree(g: Setting, lines: seq<Line>, st: CState, fj: Option<Label>, hi: nat, env: Env, mem: Memory)
    requires lines != [] && lines[0].FunctionRet? && Ready(g, lines, st, fj, hi, env, mem) && g.ctx.isMain
    ensures st.stackPos !in mem
  {
    var st1 := st.(stackPos := st.stackPos + 1);
    FreshSame(st, st1);
    CompileGrows(g.ctx, lines[1..], st1, fj);
    Positions(st1, Compile(g.ctx, lines[1..], st1, fj).value.st);
  }

  lemma ReturnFromCopies(g: Setting, data: seq<Expr>, env: Env, s: Machine, code: Code, mem: Memory)
    requires !g.ctx.isMain && |data| == g.retCount && 0 in mem && 1 in mem && 0 !in g.reserved && 1 !in g.reserved
    requires CopyEnds(g, data, 0, env, s, [Jump(MemoryAfterFp(0), Some(MemoryAfterFp(1)))] + code, mem, mem)
    ensures if EvalAll(env, data).Some? then exists t: Machine :: Reaches(g.p, g.lay, s, t) && ReturnsTo(g.ctx, t, EvalAll(env, data).value)
            else exists t: Machine :: Reaches(g.p, g.lay, s, t) && Breaks(g, t)
  {
    hide Reaches, Copied, EvalAll, ReturnsTo;
    var tail := [Jump(MemoryAfterFp(0), Some(MemoryAfterFp(1)))] + code;
    if EvalAll(env, data).None? && Reaches(g.p, g.lay, s, Failed) {
      assert Breaks(g, Failed);
    } else {
      var mem2: Memory :| Reaches(g.p, g.lay, s, Running(tail, mem2)) && Copied(g, data, 0, env, mem, mem, mem2);
      ReturnJump(g, data, env, code, mem, mem2);
      var t := Step(g.p, g.lay, Running(tail, mem2));
      hide Step, Breaks;
      StepReaches(g.p, g.lay, Running(tail, mem2));
      ReachesTrans(g.p, g.lay, s, Running(tail, mem2), t);
    }
  }

  // ----- conditionals

  lemma ReadyBranch(g: Setting, body: seq<Line>, start: CState, end: Label, hi: nat, scopes: Scopes<nat>, env: Env, mem: Memory)
    requires start.scopes == scopes + [map[]] && Fresh(start) && Compile(g.ctx, body, start, Some(end)).Some?
    requires Compile(g.ctx, body, start, Some(end)).value.st.stackPos <= hi
    requires Includes(g.p, Compile(g.ctx, body, start, Some(end)).value.st) && Placed(g.p, g.lay) && end in g.p.blocks
    requires Rel(scopes, start.stackPos, hi, env, mem, g.reserved) && Coalesced(g, scopes) && ReturnsFit(g, body)
    ensures Ready(g, body, start, Some(end), hi, env + [map[]], mem)
  {
    hide Compile, Rel, Includes, Placed, Coalesced, Fresh, ReturnsFit;
    PushKeeps(scopes, start.stackPos, hi, env, mem, g.reserved);
    CoalescedPush(g, scopes);
  }

  /** A branch that goes on arrives at the label with its scope popped. */
  lemma BranchArrives(g: Setting, body: seq<Line>, start: CState, end: Label, hi: nat, scopes: Scopes<nat>, env: Env, mem: Memory, sp2: nat)
      returns (mem2: Memory)
    requires end in g.p.blocks && start.scopes == scopes + [map[]] && scopes != [] && env != [] && Compile(g.ctx, body, start, Some(end)).Some?
    requires Simulated(g, body, start, Some(end), hi, env + [map[]], mem)
    requires Exec(g.ctx.coalesced, g.ctx.deadStores, body, env + [map[]]).Next?
    requires Compile(g.ctx, body, start, Some(end)).value.st.scopes[..|scopes|] == scopes
    requires Compile(g.ctx, body, start, Some(end)).value.st.stackPos <= sp2 <= hi
    ensures |Exec(g.ctx.coalesced, g.ctx.deadStores, body, env + [map[]]).env| == |env| + 1
    ensures Rel(scopes, sp2, hi, Exec(g.ctx.coalesced, g.ctx.deadStores, body, env + [map[]]).env[..|env|], mem2, g.reserved) && HighKept(mem, mem2, hi)
    ensures Reaches(g.p, g.lay, Running(Compile(g.ctx, body, start, Some(end)).value.code, mem), Running(g.p.blocks[end], mem2))
  {
    hide Compile, Exec, Reaches;
    var c := Compile(g.ctx, body, start, Some(end)).value;
    var env2 := Exec(g.ctx.coalesced, g.ctx.deadStores, body, env + [map[]]).env;
    mem2 :| Arrives(g, Some(end), Running(c.code, mem), mem, c.st.scopes, c.st.stackPos, hi, env2, mem2);
    PopKeeps(c.st.scopes, c.st.stackPos, hi, env2, mem2, g.reserved);
    hide Rel;
    assert c.st.scopes[..|c.st.scopes| - 1] == scopes;
    assert env2[..|env2| - 1] == env2[..|env|];
    Raise(scopes, c.st.stackPos, hi, env2[..|env|], mem2, g.reserved, sp2);
  }

  lemma ExecIfUnset(hoisted: set<Var>, dropped: set<Var>, lines: seq<Line>, env: Env)
    requires lines != [] && lines[0].IfNotZero? && env != []
    ensures Eval(env, lines[0].condition).None? ==> Exec(hoisted, dropped, lines, env) == Stuck
  {
  }

  lemma SimulateIf(g: Setting, lines: seq<Line>, st: CState, fj: Option<Label>, hi: nat, env: Env, mem: Memory)
    requires lines != [] && lines[0].IfNotZero? && Ready(g, lines, st, fj, hi, env, mem) && env != []
    ensures Simulated(g, lines, st, fj, hi, env, mem)
    decreases lines, 1
  {
    hide Rel, Includes, Placed, Coalesced, Fresh, Reaches, Grows, Prelude, Exec, ReturnsFit;
    var c, t, e, rest := lines[0].condition, lines[0].thenBranch, lines[0].elseBranch, lines[1..];
    assert CompileIf(g.ctx, c, t, e, rest, st, fj, lines) == Compile(g.ctx, lines, st, fj);
    hide Compile;
    IfHolds(g.ctx, c, t, e, rest, st, fj, lines, g.p);
    var q := PartsOfIf(g.ctx, c, t, e, rest, st, fj, lines);
    var x := OperandOf(st.scopes, c).value;
    var id := st.ifCounter;
    var code := Compile(g.ctx, lines, st, fj).value.code;
    assert code == Prelude(x, st.stackPos, id);
    hide CompileIf;
    SameValue(st.scopes, st.stackPos, hi, env, mem, g.reserved, c, g.lay);
    var v := Eval(env, c);
    var s := Running(code, mem);
    hide Eval, OperandOf, Value;
    ExecIfUnset(g.ctx.coalesced, g.ctx.deadStores, lines, env);
    if v.None? {
      PreludeFails(g.p, g.lay, x, st.stackPos, id, mem);
      DoesFail(g, fj, s, mem, q.rest.st.scopes, q.rest.st.stackPos, hi);
    } else {
      PreludeKeeps(g, st.scopes, st.stackPos, hi, env, mem, v.value);
      PreludeRuns(g.p, g.lay, x, st.stackPos, id, mem, v.value);
      if v.value != 0 {
        SimulateBranch(g, lines, st, fj, hi, env, mem, t, q.thenStart, v.value);
      } else {
        SimulateBranch(g, lines, st, fj, hi, env, mem, e, q.elseStart, v.value);
      }
    }
  }

  lemma FinalOfIf(g: Setting, lines: seq<Line>, st: CState, fj: Option<Label>)
    requires st.scopes != [] && lines != [] && lines[0].IfNotZero? && Compile(g.ctx, lines, st, fj).Some?
    requires CompileIf(g.ctx, lines[0].condition, lines[0].thenBranch, lines[0].elseBranch, lines[1..], st, fj, lines).Some?
    ensures var q := PartsOfIf(g.ctx, lines[0].condition, lines[0].thenBranch, lines[0].elseBranch, lines[1..], st, fj, lines);
            var final := Compile(g.ctx, lines, st, fj).value.st;
            final.stackPos == q.rest.st.stackPos && final.scopes == q.rest.st.scopes
  {
    assert CompileIf(g.ctx, lines[0].condition, lines[0].thenBranch, lines[0].elseBranch, lines[1..], st, fj, lines) == Compile(g.ctx, lines, st, fj);
    hide Compile;
  }

  lemma ExecIf(hoisted: set<Var>, dropped: set<Var>, lines: seq<Line>, env: Env, body: seq<Line>)
    requires lines != [] && lines[0].IfNotZero? && env != [] && Eval(env, lines[0].condition).Some?
    requires body == if Eval(env, lines[0].condition).value != 0 then lines[0].thenBranch else lines[0].elseBranch
    ensures var o := Exec(hoisted, dropped, body, env + [map[]]);
            Exec(hoisted, dropped, lines, env) == if o.Next? then Exec(hoisted, dropped, lines[1..], o.env[..|env|]) else o
  {
    hide Eval, Equation, Introduce, InsertLast, EvalAll, AsEquation;
    var o := Exec(hoisted, dropped, body, env + [map[]]);
    assert o.Next? ==> o.env[..|o.env| - 1] == o.env[..|env|];
  }

  lemma SimulateBranch(g: Setting, lines: seq<Line>, st: CState, fj: Option<Label>, hi: nat, env: Env, mem: Memory,
                       body: seq<Line>, start: CState, v: Fe)
    requires lines != [] && lines[0].IfNotZero? && Ready(g, lines, st, fj, hi, env, mem) && env != []
    requires Eval(env, lines[0].condition) == Some(v) && CompileIf(g.ctx, lines[0].condition, lines[0].thenBranch, lines[0].elseBranch, lines[1..], st, fj, lines).Some?
    requires var q := PartsOfIf(g.ctx, lines[0].condition, lines[0].thenBranch, lines[0].elseBranch, lines[1..], st, fj, lines);
             HoldsIf(g.p, st, q)
             && Rel(st.scopes, st.stackPos + 3, hi, env, PreludeMemory(mem, st.stackPos, v), g.reserved)
             && HighKept(mem, PreludeMemory(mem, st.stackPos, v), hi)
             && (if v != 0 then body == lines[0].thenBranch && start == q.thenStart else body == lines[0].elseBranch && start == q.elseStart)
    requires Reaches(g.p, g.lay, Running(Compile(g.ctx, lines, st, fj).value.code, mem),
                     Running(g.p.blocks[IfLabel(st.ifCounter, if v != 0 then IfThen else IfElse)], PreludeMemory(mem, st.stackPos, v)))
    ensures Simulated(g, lines, st, fj, hi, env, mem)
    decreases lines, 0
  {
    hide Rel, Includes, Placed, Coalesced, Fresh, Reaches, Grows, Compile, PreludeMemory, HighKept, Eval, OperandOf;
    var rest := lines[1..];
    var q := PartsOfIf(g.ctx, lines[0].condition, lines[0].thenBranch, lines[0].elseBranch, rest, st, fj, lines);
    var end := IfLabel(st.ifCounter, IfEnd);
    var m1 := PreludeMemory(mem, st.stackPos, v);
    var c := Compile(g.ctx, body, start, Some(end)).value;
    var s, s1 := Running(Compile(g.ctx, lines, st, fj).value.code, mem), Running(c.code, m1);
    var final := Compile(g.ctx, lines, st, fj).value.st;
    FinalOfIf(g, lines, st, fj);
    assert ReturnsFit(g, body) && ReturnsFit(g, rest);
    var o := Exec(g.ctx.coalesced, g.ctx.deadStores, body, env + [map[]]);
    hide Exec, ReturnsFit, PartsOfIf, CompileIf;
    ExecIf(g.ctx.coalesced, g.ctx.deadStores, lines, env, body);
    ReadyBranch(g, body, start, end, hi, st.scopes, env, m1);
    Simulate(g, body, start, Some(end), hi, env + [map[]], m1);
    if o.Next? {
      var mem2 := BranchArrives(g, body, start, end, hi, st.scopes, env, m1, q.restStart.stackPos);
      var env2 := o.env[..|env|];
      assert Ready(g, rest, q.restStart, fj, hi, env2, mem2);
      Simulate(g, rest, q.restStart, fj, hi, env2, mem2);
      ReachesTrans(g.p, g.lay, s, s1, Running(g.p.blocks[end], mem2));
      HighKeptTrans(mem, m1, mem2, hi);
      DoesAfter(g, Exec(g.ctx.coalesced, g.ctx.deadStores, rest, env2), fj, s, Running(g.p.blocks[end], mem2), mem, mem2, final.scopes, final.stackPos, hi);
    } else {
      DoesElsewhere(g, o, fj, s, s1, mem, final.scopes, final.stackPos, hi, Some(end), m1, c.st.scopes, c.st.stackPos, hi);
    }
  }

  // ----- matches

  lemma DoesClosed(g: Setting, o: Outcome, fj: Option<Label>, s: Machine, mem: Memory, scopes: Scopes<nat>, sp: nat, hi: nat)
    requires Does(g, o, fj, s, mem, scopes, sp, hi) && |scopes| > 1
    ensures Does(g, Closed(o), fj, s, mem, scopes[..|scopes| - 1], sp, hi)
  {
    hide Reaches;
    if o.Next? {
      var mem2: Memory :| Arrives(g, fj, s, mem, scopes, sp, hi, o.env, mem2);
      PopKeeps(scopes, sp, hi, o.env, mem2, g.reserved);
      assert |o.env| == |scopes|;
      hide Rel;
      assert Arrives(g, fj, s, mem, scopes[..|scopes| - 1], sp, hi, o.env[..|o.env| - 1], mem2);
    }
  }

  lemma ExecMatchCases(hoisted: set<Var>, dropped: set<Var>, lines: seq<Line>, env: Env)
    requires lines != [] && lines[0].Match? && env != []
    ensures var v := Eval(env + [map[]], lines[0].value);
            (v.None? ==> Exec(hoisted, dropped, lines, env) == Stuck)
            && (v.Some? && !(lines[0].offset <= v.value < lines[0].offset + |lines[0].arms|) ==> Exec(hoisted, dropped, lines, env) == Wild)
  {
  }

  lemma CodeOfMatch(ctx: Context, lines: seq<Line>, st: CState, fj: Option<Label>)
    requires st.scopes != [] && lines != [] && lines[0].Match? && Compile(ctx, lines, st, fj).Some?
    ensures CompileMatch(ctx, lines[0].value, lines[0].arms, lines[0].offset, lines[1..], st, fj, lines) == Compile(ctx, lines, st, fj)
    ensures var q := PartsOfMatch(ctx, lines[0].value, lines[0].arms, lines[0].offset, lines[1..], st, fj, lines);
            OperandOf(PushScope(st).scopes, lines[0].value).Some? && |q.arms.codes| == |lines[0].arms|
            && Compile(ctx, lines, st, fj).value.code == MatchJump(OperandOf(PushScope(st).scopes, lines[0].value).value, q.temps, q.index, lines[0].offset)
  {
    assert CompileMatch(ctx, lines[0].value, lines[0].arms, lines[0].offset, lines[1..], st, fj, lines) == Compile(ctx, lines, st, fj);
    hide Compile;
  }

  lemma SimulateMatch(g: Setting, lines: seq<Line>, st: CState, fj: Option<Label>, hi: nat, env: Env, mem: Memory)
    requires lines != [] && lines[0].Match? && Ready(g, lines, st, fj, hi, env, mem) && env != []
    ensures Simulated(g, lines, st, fj, hi, env, mem)
    decreases lines, 2
  {
    hide Rel, Includes, Placed, Coalesced, Fresh, Reaches, Grows, MatchJump, Exec, ReturnsFit, Compile, CompileMatch, CompileArms, PartsOfMatch;
    var value, arms, offset, rest := lines[0].value, lines[0].arms, lines[0].offset, lines[1..];
    CodeOfMatch(g.ctx, lines, st, fj);
    MatchHolds(g.ctx, value, arms, offset, rest, st, fj, lines, g.p);
    var q := PartsOfMatch(g.ctx, value, arms, offset, rest, st, fj, lines);
    FinalOfMatch(g, lines, st, fj);
    var x := OperandOf(PushScope(st).scopes, value).value;
    var c := Compile(g.ctx, lines, st, fj).value;
    var s := Running(c.code, mem);
    PushKeeps(st.scopes, st.stackPos, hi, env, mem, g.reserved);
    SameValue(st.scopes + [map[]], st.stackPos, hi, env + [map[]], mem, g.reserved, value, g.lay);
    var v := Eval(env + [map[]], value);
    hide Eval, OperandOf, Value;
    MatchTempsKeep(g, st.scopes + [map[]], st.stackPos, q.temps, hi, env + [map[]], mem, 0, 0);
    ExecMatchCases(g.ctx.coalesced, g.ctx.deadStores, lines, env);
    if v.None? {
      MatchJumpFails(g.p, g.lay, x, q.temps, q.index, offset, mem);
      DoesFail(g, fj, s, mem, c.st.scopes, c.st.stackPos, hi);
    } else if offset <= v.value < offset + |arms| {
      MatchJumpRuns(g.p, g.lay, x, q.temps, q.index, offset, mem, v.value);
      var pc := g.lay.firstStarts[q.index] + (v.value - offset) * g.lay.blockSizes[q.index];
      SimulateArm(g, lines, st, fj, hi, env, mem, v.value, Mul(v.value, Res(g.lay.blockSizes[q.index])), pc,
                  q, arms[v.value - offset].body, MatchEnd(st.matchCounter));
    }
  }

  lemma FinalOfMatch(g: Setting, lines: seq<Line>, st: CState, fj: Option<Label>)
    requires st.scopes != [] && lines != [] && lines[0].Match? && Compile(g.ctx, lines, st, fj).Some?
    requires CompileMatch(g.ctx, lines[0].value, lines[0].arms, lines[0].offset, lines[1..], st, fj, lines).Some?
    requires PartsOfMatch(g.ctx, lines[0].value, lines[0].arms, lines[0].offset, lines[1..], st, fj, lines).rest.st.scopes != []
    ensures var q := PartsOfMatch(g.ctx, lines[0].value, lines[0].arms, lines[0].offset, lines[1..], st, fj, lines);
            var final := Compile(g.ctx, lines, st, fj).value.st;
            final.stackPos == q.rest.st.stackPos && final.scopes == q.rest.st.scopes[..|q.rest.st.scopes| - 1]
  {
    assert CompileMatch(g.ctx, lines[0].value, lines[0].arms, lines[0].offset, lines[1..], st, fj, lines) == Compile(g.ctx, lines, st, fj);
    hide Compile;
  }

  lemma ArmReturnsFit(g: Setting, lines: seq<Line>, k: nat)
    requires lines != [] && lines[0].Match? && k < |lines[0].arms| && ReturnsFit(g, lines)
    ensures ReturnsFit(g, lines[0].arms[k].body) && ReturnsFit(g, lines[1..])
  {
  }

  lemma ExecMatch(hoisted: set<Var>, dropped: set<Var>, lines: seq<Line>, env: Env, v: Fe)
    requires lines != [] && lines[0].Match? && env != [] && Eval(env + [map[]], lines[0].value) == Some(v)
    requires lines[0].offset <= v < lines[0].offset + |lines[0].arms|
    ensures var o := Exec(hoisted, dropped, lines[0].arms[v - lines[0].offset].body, env + [map[]] + [map[]]);
            Exec(hoisted, dropped, lines, env) == if o.Next? then Closed(Exec(hoisted, dropped, lines[1..], o.env[..|env| + 1])) else o
  {
    hide Eval, Equation, Introduce, InsertLast, EvalAll, AsEquation;
    var o := Exec(hoisted, dropped, lines[0].arms[v - lines[0].offset].body, env + [map[]] + [map[]]);
    assert o.Next? ==> o.env[..|o.env| - 1] == o.env[..|env| + 1];
  }

  ghost predicate AtMatch(g: Setting, lines: seq<Line>, st: CState, fj: Option<Label>, hi: nat, env: Env, mem: Memory, v: Fe) {
    && lines != [] && lines[0].Match? && Ready(g, lines, st, fj, hi, env, mem) && env != []
    && CompileMatch(g.ctx, lines[0].value, lines[0].arms, lines[0].offset, lines[1..], st, fj, lines).Some?
    && Eval(env + [map[]], lines[0].value) == Some(v) && lines[0].offset <= v < lines[0].offset + |lines[0].arms|
    && HoldsMatch(g.p, st, PartsOfMatch(g.ctx, lines[0].value, lines[0].arms, lines[0].offset, lines[1..], st, fj, lines))
    && Rel(st.scopes + [map[]], st.stackPos, hi, env + [map[]], mem, g.reserved)
  }

  ghost function ChosenStart(g: Setting, lines: seq<Line>, st: CState, fj: Option<Label>, hi: nat, env: Env, mem: Memory, v: Fe): CState
    requires AtMatch(g, lines, st, fj, hi, env, mem, v)
  {
    var q := PartsOfMatch(g.ctx, lines[0].value, lines[0].arms, lines[0].offset, lines[1..], st, fj, lines);
    ArmStart(g.ctx, lines[0].arms, q.armsStart, st.stackPos, st.stackPos, MatchEnd(st.matchCounter), v - lines[0].offset)
  }

  lemma ChosenHolds(g: Setting, lines: seq<Line>, st: CState, fj: Option<Label>, hi: nat, env: Env, mem: Memory, v: Fe)
    requires AtMatch(g, lines, st, fj, hi, env, mem, v)
    ensures var q := PartsOfMatch(g.ctx, lines[0].value, lines[0].arms, lines[0].offset, lines[1..], st, fj, lines);
            var start := ChosenStart(g, lines, st, fj, hi, env, mem, v);
            |q.arms.codes| == |lines[0].arms| && start.scopes != []
            && HoldsArm(g.p, start, Compile(g.ctx, lines[0].arms[v - lines[0].offset].body, start, Some(MatchEnd(st.matchCounter))),
                        st.scopes + [map[]], st.stackPos, q.temps, q.arms.codes[v - lines[0].offset])
  {
    hide Rel, Includes, Placed, Coalesced, Fresh, Grows, Compile, ReturnsFit, ArmStart, Eval;
    var q := PartsOfMatch(g.ctx, lines[0].value, lines[0].arms, lines[0].offset, lines[1..], st, fj, lines);
    ArmHolds(g.ctx, lines[0].arms, q.armsStart, st.stackPos, st.stackPos, MatchEnd(st.matchCounter), v - lines[0].offset, g.p);
  }

  /** The chosen arm runs as its lines say, below the temporaries of the match. */
  lemma ChosenSimulated(g: Setting, lines: seq<Line>, st: CState, fj: Option<Label>, hi: nat, env: Env, mem: Memory, v: Fe, a: Fe, b: Fe,
                        q: MatchParts, start: CState, body: seq<Line>, end: Label)
    requires AtMatch(g, lines, st, fj, hi, env, mem, v) && end == MatchEnd(st.matchCounter)
    requires q == PartsOfMatch(g.ctx, lines[0].value, lines[0].arms, lines[0].offset, lines[1..], st, fj, lines)
    requires start == ChosenStart(g, lines, st, fj, hi, env, mem, v) && body == lines[0].arms[v - lines[0].offset].body
    ensures start.scopes != [] && Compile(g.ctx, body, start, Some(end)).Some?
    ensures Simulated(g, body, start, Some(end), q.temps, env + [map[]] + [map[]], mem[q.temps := a][q.temps + 1 := b])
    decreases lines, 0
  {
    hide Rel, Includes, Placed, Coalesced, Fresh, Grows, Compile, CompileArms, CompileMatch, ReturnsFit, Eval, PartsOfMatch, ChosenStart, Simulated;
    var m1 := mem[q.temps := a][q.temps + 1 := b];
    ChosenHolds(g, lines, st, fj, hi, env, mem, v);
    FinalOfMatch(g, lines, st, fj);
    ArmReturnsFit(g, lines, v - lines[0].offset);
    MatchTempsKeep(g, st.scopes + [map[]], st.stackPos, q.temps, hi, env + [map[]], mem, a, b);
    CoalescedPush(g, st.scopes);
    ReadyBranch(g, body, start, end, q.temps, st.scopes + [map[]], env + [map[]], m1);
    Simulate(g, body, start, Some(end), q.temps, env + [map[]] + [map[]], m1);
  }

  /** An arm that goes on arrives at the end label with everything above the temporaries as before the match. */
  lemma ArmGoesOn(g: Setting, scopes: Scopes<nat>, sp: nat, temps: nat, hi: nat, env1: Env, mem: Memory, a: Fe, b: Fe,
                  body: seq<Line>, start: CState, end: Label, code: Code, s: Machine) returns (mem2: Memory)
    requires Rel(scopes, sp, hi, env1, mem, g.reserved) && sp <= temps && temps + 2 <= hi && scopes != [] && env1 != [] && end in g.p.blocks
    requires start.scopes != [] && HoldsArm(g.p, start, Compile(g.ctx, body, start, Some(end)), scopes, sp, temps, code)
    requires Simulated(g, body, start, Some(end), temps, env1 + [map[]], mem[temps := a][temps + 1 := b])
    requires Reaches(g.p, g.lay, s, Running(code, mem[temps := a][temps + 1 := b]))
    requires Exec(g.ctx.coalesced, g.ctx.deadStores, body, env1 + [map[]]).Next?
    ensures Reaches(g.p, g.lay, s, Running(g.p.blocks[end], mem2)) && HighKept(mem, mem2, hi)
    ensures |Exec(g.ctx.coalesced, g.ctx.deadStores, body, env1 + [map[]]).env| == |env1| + 1
    ensures Rel(scopes, temps + 2, hi, Exec(g.ctx.coalesced, g.ctx.deadStores, body, env1 + [map[]]).env[..|env1|], mem2, g.reserved)
  {
    hide Rel, Includes, Fresh, Compile, Exec, Reaches, Simulated, HighKept;
    var m1 := mem[temps := a][temps + 1 := b];
    mem2 := BranchArrives(g, body, start, end, temps, scopes, env1, m1, temps);
    MatchArmLeaves(g, scopes, sp, temps, temps, hi, scopes, env1, Exec(g.ctx.coalesced, g.ctx.deadStores, body, env1 + [map[]]).env[..|env1|], mem, a, b, mem2);
    ReachesTrans(g.p, g.lay, s, Running(code, m1), Running(g.p.blocks[end], mem2));
  }

  lemma SimulateArm(g: Setting, lines: seq<Line>, st: CState, fj: Option<Label>, hi: nat, env: Env, mem: Memory, v: Fe, a: Fe, b: Fe,
                    q: MatchParts, body: seq<Line>, end: Label)
    requires AtMatch(g, lines, st, fj, hi, env, mem, v)
    requires q == PartsOfMatch(g.ctx, lines[0].value, lines[0].arms, lines[0].offset, lines[1..], st, fj, lines)
    requires body == lines[0].arms[v - lines[0].offset].body && end == MatchEnd(st.matchCounter)
    requires Reaches(g.p, g.lay, Running(Compile(g.ctx, lines, st, fj).value.code, mem),
                        Running(q.arms.codes[v - lines[0].offset], mem[q.temps := a][q.temps + 1 := b]))
    ensures Simulated(g, lines, st, fj, hi, env, mem)
    decreases lines, 1
  {
    hide Rel, Includes, Placed, Coalesced, Fresh, Grows, Compile, CompileArms, CompileMatch, ReturnsFit, Eval, PartsOfMatch, ChosenStart,
         Exec, Reaches, Does, HighKept;
    ChosenHolds(g, lines, st, fj, hi, env, mem, v);
    ExecMatch(g.ctx.coalesced, g.ctx.deadStores, lines, env, v);
    var start := ChosenStart(g, lines, st, fj, hi, env, mem, v);
    ChosenSimulated(g, lines, st, fj, hi, env, mem, v, a, b, q, start, body, end);
    var code := q.arms.codes[v - lines[0].offset];
    var o := Exec(g.ctx.coalesced, g.ctx.deadStores, body, env + [map[]] + [map[]]);
    var s := Running(Compile(g.ctx, lines, st, fj).value.code, mem);
    var final := Compile(g.ctx, lines, st, fj).value.st;
    FinalOfMatch(g, lines, st, fj);
    if o.Next? {
      var mem2 := ArmGoesOn(g, st.scopes + [map[]], st.stackPos, q.temps, hi, env + [map[]], mem, a, b, body, start, end, code, s);
      var env2 := o.env[..|env| + 1];
      SimulateAfterArm(g, lines, st, fj, hi, env, mem, env2, mem2);
      DoesAfter(g, Closed(Exec(g.ctx.coalesced, g.ctx.deadStores, lines[1..], env2)), fj, s, Running(g.p.blocks[end], mem2), mem, mem2,
                final.scopes, final.stackPos, hi);
    } else {
      var arm := Compile(g.ctx, body, start, Some(end)).value;
      DoesElsewhere(g, o, fj, s, Running(code, mem[q.temps := a][q.temps + 1 := b]), mem, final.scopes, final.stackPos, hi,
                    Some(end), mem[q.temps := a][q.temps + 1 := b], arm.st.scopes, arm.st.stackPos, q.temps);
    }
  }

  /** A match ends in the state of the lines behind it, without their scope. */
  lemma MatchState(ctx: Context, lines: seq<Line>, st: CState, fj: Option<Label>)
    requires st.scopes != [] && lines != [] && lines[0].Match?
    requires CompileMatch(ctx, lines[0].value, lines[0].arms, lines[0].offset, lines[1..], st, fj, lines).Some?
    ensures Compile(ctx, lines, st, fj).Some?
    ensures var q := PartsOfMatch(ctx, lines[0].value, lines[0].arms, lines[0].offset, lines[1..], st, fj, lines);
            var final := Compile(ctx, lines, st, fj).value.st;
            final.stackPos == q.rest.st.stackPos && q.rest.st.scopes != [] && final.scopes == q.rest.st.scopes[..|q.rest.st.scopes| - 1]
  {
  }

  lemma SimulateAfterArm(g: Setting, lines: seq<Line>, st: CState, fj: Option<Label>, hi: nat, env: Env, mem: Memory, env2: Env, mem2: Memory)
    requires lines != [] && lines[0].Match? && Ready(g, lines, st, fj, hi, env, mem)
    requires CompileMatch(g.ctx, lines[0].value, lines[0].arms, lines[0].offset, lines[1..], st, fj, lines).Some?
    requires var q := PartsOfMatch(g.ctx, lines[0].value, lines[0].arms, lines[0].offset, lines[1..], st, fj, lines);
             HoldsMatch(g.p, st, q) && Rel(st.scopes + [map[]], q.temps + 2, hi, env2, mem2, g.reserved)
    ensures var q := PartsOfMatch(g.ctx, lines[0].value, lines[0].arms, lines[0].offset, lines[1..], st, fj, lines);
            var final := Compile(g.ctx, lines, st, fj).value.st;
            MatchEnd(st.matchCounter) in g.p.blocks && env2 != []
            && Does(g, Closed(Exec(g.ctx.coalesced, g.ctx.deadStores, lines[1..], env2)), fj, Running(g.p.blocks[MatchEnd(st.matchCounter)], mem2), mem2,
                    final.scopes, final.stackPos, hi)
    decreases lines, 0
  {
    var rest := lines[1..];
    var q := PartsOfMatch(g.ctx, lines[0].value, lines[0].arms, lines[0].offset, rest, st, fj, lines);
    var final := Compile(g.ctx, lines, st, fj).value.st;
    assert Compile(g.ctx, lines, st, fj).Some? && final.stackPos == q.rest.st.stackPos
        && q.rest.st.scopes != [] && final.scopes == q.rest.st.scopes[..|q.rest.st.scopes| - 1] by {
      MatchState(g.ctx, lines, st, fj);
    }
    assert ReturnsFit(g, rest);
    hide Rel, Includes, Placed, Coalesced, Fresh, Reaches, Grows, Compile, Exec, ReturnsFit, HighKept, CompileArms;
    CoalescedPush(g, st.scopes);
    assert Ready(g, rest, q.restStart, fj, hi, env2, mem2);
    Simulate(g, rest, q.restStart, fj, hi, env2, mem2);
    var o2 := Exec(g.ctx.coalesced, g.ctx.deadStores, rest, env2);
    DoesClosed(g, o2, fj, Running(q.rest.code, mem2), mem2, q.rest.st.scopes, q.rest.st.stackPos, hi);
  }
}
