/**
 Compiled lines run to the same outcome as the lines (compile_lines,
 crates/lean_compiler/src/b_compile_intermediate.rs).
 */
module CompileCorrect {
  import opened Field
  import opened Prime
  import opened Interpolation
  import opened IntermediateCode
  import opened SimpleLang
  import opened CompileLines
  import opened SlotRelation

  /** One function being run: its compilation context, the return slots of its coalesced variables, and the whole program. */
  datatype Setting = Setting(ctx: Context, slots: map<Var, nat>, retCount: nat, p: Program, lay: Layout, reserved: set<nat>)

  /** fp + 2 + n_args + i. */
  function ReturnSlot(ctx: Context, i: nat): nat { 2 + ctx.argsCount + i }

  /** Coalesced variables live in the function scope, in their return slot, and nowhere else. */
  ghost predicate Coalesced(g: Setting, scopes: Scopes<nat>) {
    && g.slots.Keys == g.ctx.coalesced && scopes != []
    && (forall v {:trigger g.slots[v]} {:trigger scopes[0][v]} | v in g.slots :: v in scopes[0] && scopes[0][v] == g.slots[v])
    && (forall i, v {:trigger v in scopes[i]} | 0 < i < |scopes| && v in g.slots :: v !in scopes[i])
  }

  /** Every returned value either is a coalesced variable of that very slot or has a reserved slot. */
  ghost predicate ReturnFits(g: Setting, data: seq<Expr>, i: nat) {
    forall k {:trigger data[k]} | 0 <= k < |data| ::
      if data[k].Name? && data[k].v in g.slots then g.slots[data[k].v] == ReturnSlot(g.ctx, i + k)
      else ReturnSlot(g.ctx, i + k) in g.reserved
  }

  ghost predicate ReturnsFit(g: Setting, lines: seq<Line>)
    decreases lines
  {
    lines == [] ||
    (ReturnsFit(g, lines[1..]) &&
      match lines[0]
      case IfNotZero(_, t, e) => ReturnsFit(g, t) && ReturnsFit(g, e)
      case Match(_, arms, _) => forall k {:trigger arms[k]} | 0 <= k < |arms| :: ReturnsFit(g, arms[k].body)
      case FunctionRet(data) => |data| == g.retCount && (if g.ctx.isMain then data == [] else ReturnFits(g, data, 0))
      case _ => true)
  }

  /** What execution goes on with after the lines. */
  function After(p: Program, fj: Option<Label>, m: Memory): Machine {
    if fj.None? then Running([], m) else if fj.value in p.blocks then Running(p.blocks[fj.value], m) else Failed
  }

  ghost predicate Arrives(g: Setting, fj: Option<Label>, s: Machine, mem: Memory, scopes: Scopes<nat>, sp: nat, hi: nat, env: Env, mem2: Memory) {
    Reaches(g.p, g.lay, s, After(g.p, fj, mem2)) && Rel(scopes, sp, hi, env, mem2, g.reserved) && HighKept(mem, mem2, hi)
  }

  /** The frame left behind by a return holds the values in the return slots. */
  ghost predicate ReturnsTo(ctx: Context, t: Machine, values: seq<Fe>) {
    t.Left? &&
    if ctx.isMain then t.dest == LabelAddress(EndProgram) && t.fp == 0
    else t.dest == MemoryAfterFp(0) && 0 in t.frame && Get(t.frame, 1) == Some(t.fp) && InSlots(ctx, t.frame, values, 0)
  }

  ghost predicate InSlots(ctx: Context, m: Memory, values: seq<Fe>, i: nat) {
    forall k {:trigger values[k]} | 0 <= k < |values| :: Get(m, ReturnSlot(ctx, i + k)) == Some(values[k])
  }

  ghost predicate MissingSlot(ctx: Context, m: Memory, k: nat) { ReturnSlot(ctx, k) !in m }

  /** A run that cannot go on, or that leaves a return slot without a value. */
  ghost predicate Breaks(g: Setting, t: Machine) {
    t.Failed? || (t.Left? && exists k: nat :: k < g.retCount && MissingSlot(g.ctx, t.frame, k))
  }

  /** s runs as the outcome says; scopes, sp and hi describe the state reached when lines go on. */
  ghost predicate Does(g: Setting, o: Outcome, fj: Option<Label>, s: Machine, mem: Memory, scopes: Scopes<nat>, sp: nat, hi: nat) {
    match o
    case Next(env) => exists mem2: Memory :: Arrives(g, fj, s, mem, scopes, sp, hi, env, mem2)
    case Returned(values) => exists t: Machine :: Reaches(g.p, g.lay, s, t) && ReturnsTo(g.ctx, t, values)
    case Stuck => exists t: Machine :: Reaches(g.p, g.lay, s, t) && Breaks(g, t)
    case Wild => true
  }

  lemma DoesAfter(g: Setting, o: Outcome, fj: Option<Label>, s: Machine, s1: Machine, mem: Memory, mem1: Memory,
                  scopes: Scopes<nat>, sp: nat, hi: nat)
    requires Reaches(g.p, g.lay, s, s1) && Does(g, o, fj, s1, mem1, scopes, sp, hi) && HighKept(mem, mem1, hi)
    ensures Does(g, o, fj, s, mem, scopes, sp, hi)
  {
    hide Reaches, Rel, HighKept;
    match o
    case Next(env) =>
      var mem2: Memory :| Arrives(g, fj, s1, mem1, scopes, sp, hi, env, mem2);
      ReachesTrans(g.p, g.lay, s, s1, After(g.p, fj, mem2));
      HighKeptTrans(mem, mem1, mem2, hi);
      assert Arrives(g, fj, s, mem, scopes, sp, hi, env, mem2);
    case Returned(values) =>
      var t: Machine :| Reaches(g.p, g.lay, s1, t) && ReturnsTo(g.ctx, t, values);
      ReachesTrans(g.p, g.lay, s, s1, t);
    case Stuck =>
      var t: Machine :| Reaches(g.p, g.lay, s1, t) && Breaks(g, t);
      ReachesTrans(g.p, g.lay, s, s1, t);
    case Wild =>
  }

  lemma HighKeptTrans(a: Memory, b: Memory, c: Memory, hi: nat)
    requires HighKept(a, b, hi) && HighKept(b, c, hi)
    ensures HighKept(a, c, hi)
  {
    forall o: nat {:trigger Get(a, o)} {:trigger Get(c, o)} | o >= hi ensures Get(a, o) == Get(c, o) {
      assert Get(a, o) == Get(b, o);
    }
  }

  /** Outcomes that do not go on do not depend on what would have come after. */
  lemma DoesElsewhere(g: Setting, o: Outcome, fj: Option<Label>, s: Machine, s1: Machine, mem: Memory, scopes: Scopes<nat>, sp: nat, hi: nat,
                      fj1: Option<Label>, mem1: Memory, scopes1: Scopes<nat>, sp1: nat, hi1: nat)
    requires !o.Next? && Reaches(g.p, g.lay, s, s1) && Does(g, o, fj1, s1, mem1, scopes1, sp1, hi1)
    ensures Does(g, o, fj, s, mem, scopes, sp, hi)
  {
    hide Reaches;
    match o
    case Returned(values) =>
      var t: Machine :| Reaches(g.p, g.lay, s1, t) && ReturnsTo(g.ctx, t, values);
      ReachesTrans(g.p, g.lay, s, s1, t);
    case Stuck =>
      var t: Machine :| Reaches(g.p, g.lay, s1, t) && Breaks(g, t);
      ReachesTrans(g.p, g.lay, s, s1, t);
    case Wild =>
  }

  lemma DoesFail(g: Setting, fj: Option<Label>, s: Machine, mem: Memory, scopes: Scopes<nat>, sp: nat, hi: nat)
    requires Reaches(g.p, g.lay, s, Failed)
    ensures Does(g, Stuck, fj, s, mem, scopes, sp, hi)
  {
    assert Breaks(g, Failed);
  }

  lemma StepReaches(p: Program, lay: Layout, s: Machine)
    requires s.Running? && s.rest != []
    ensures Reaches(p, lay, s, Step(p, lay, s))
  {
    assert Run(p, lay, 1, s) == Step(p, lay, s);
  }

  // ----- returns

  ghost predicate AgreesOff(a: Memory, b: Memory, reserved: set<nat>) {
    forall o: nat {:trigger Get(a, o)} {:trigger Get(b, o)} | o !in reserved :: Get(a, o) == Get(b, o)
  }

  ghost predicate LowKept(a: Memory, b: Memory, o1: nat) {
    forall o: nat {:trigger Get(a, o)} {:trigger Get(b, o)} | o < o1 :: Get(a, o) == Get(b, o)
  }

  /** Copying into an unwritten return slot: it takes the value, or fails when there is none. */
  lemma CopyStep(g: Setting, slot: nat, x: Operand, mem: Memory, tail: Code)
    requires slot !in mem && !x.LabelAddress? && !x.MatchBlockSize? && !x.MatchBase?
    ensures var s := Running([Computation(AddOp, MemoryAfterFp(slot), Constant(0), x)] + tail, mem);
            Step(g.p, g.lay, s) == (if Value(g.lay, mem, x).None? then Failed else Running(tail, mem[slot := Value(g.lay, mem, x).value]))
  {
    var s := Running([Computation(AddOp, MemoryAfterFp(slot), Constant(0), x)] + tail, mem);
    assert s.rest[1..] == tail;
    if Value(g.lay, mem, x).Some? {
      AddZero(Value(g.lay, mem, x).value);
    }
  }

  ghost predicate Copied(g: Setting, data: seq<Expr>, i: nat, env: Env, mem0: Memory, mem: Memory, mem2: Memory) {
    && AgreesOff(mem0, mem2, g.reserved) && LowKept(mem, mem2, ReturnSlot(g.ctx, i))
    && (if EvalAll(env, data).Some? then InSlots(g.ctx, mem2, EvalAll(env, data).value, i)
        else exists k: nat :: i <= k < i + |data| && MissingSlot(g.ctx, mem2, k))
  }

  ghost predicate CopyEnds(g: Setting, data: seq<Expr>, i: nat, env: Env, s: Machine, tail: Code, mem0: Memory, mem: Memory) {
    (EvalAll(env, data).None? && Reaches(g.p, g.lay, s, Failed))
    || exists mem2: Memory :: Reaches(g.p, g.lay, s, Running(tail, mem2)) && Copied(g, data, i, env, mem0, mem, mem2)
  }

  lemma ReservedUnwritten(g: Setting, scopes: Scopes<nat>, sp: nat, hi: nat, env: Env, mem: Memory)
    requires Rel(scopes, sp, hi, env, mem, g.reserved)
    ensures forall o {:trigger o in g.reserved} | o in g.reserved :: o < sp && o !in mem
    ensures 0 in mem && 1 in mem
  {
  }

  lemma VariableUnreserved(g: Setting, scopes: Scopes<nat>, sp: nat, hi: nat, env: Env, mem: Memory, e: Expr)
    requires Rel(scopes, sp, hi, env, mem, g.reserved) && OperandOf(scopes, e).Some? && e.Name?
    ensures OperandOf(scopes, e).value.offset !in g.reserved
  {
    var i := Find(scopes, e.v).value;
    assert scopes[i][e.v] !in g.reserved;
  }

  lemma CoalescedOperand(g: Setting, scopes: Scopes<nat>, v: Var)
    requires Coalesced(g, scopes) && v in g.slots
    ensures OperandOf(scopes, Name(v)) == Some(MemoryAfterFp(g.slots[v]))
  {
    assert v in scopes[0];
    var i := Find(scopes, v).value;
    assert v in scopes[i];
  }

  lemma CopyOne(g: Setting, data: seq<Expr>, i: nat, scopes: Scopes<nat>, sp: nat, hi: nat, env: Env, mem0: Memory, mem: Memory, tail: Code)
    requires data != [] && Rel(scopes, sp, hi, env, mem0, g.reserved) && AgreesOff(mem0, mem, g.reserved) && ReturnSlot(g.ctx, i) in g.reserved
    requires !(data[0].Name? && data[0].v in g.slots) && ReturnSlot(g.ctx, i) !in mem && OperandOf(scopes, data[0]).Some?
    ensures var x := OperandOf(scopes, data[0]).value;
            var s := Running([Computation(AddOp, MemoryAfterFp(ReturnSlot(g.ctx, i)), Constant(0), x)] + tail, mem);
            var v := Eval(env, data[0]);
            if v.None? then Reaches(g.p, g.lay, s, Failed)
            else Reaches(g.p, g.lay, s, Running(tail, mem[ReturnSlot(g.ctx, i) := v.value]))
                 && AgreesOff(mem0, mem[ReturnSlot(g.ctx, i) := v.value], g.reserved)
  {
    var x := OperandOf(scopes, data[0]).value;
    SameValue(scopes, sp, hi, env, mem0, g.reserved, data[0], g.lay);
    if data[0].Name? {
      VariableUnreserved(g, scopes, sp, hi, env, mem0, data[0]);
      assert Get(mem0, x.offset) == Get(mem, x.offset);
    }
    assert Value(g.lay, mem, x) == Eval(env, data[0]);
    hide Rel, Eval, OperandOf;
    CopyStep(g, ReturnSlot(g.ctx, i), x, mem, tail);
    StepReaches(g.p, g.lay, Running([Computation(AddOp, MemoryAfterFp(ReturnSlot(g.ctx, i)), Constant(0), x)] + tail, mem));
  }

  lemma ReturnFitsTail(g: Setting, data: seq<Expr>, i: nat)
    requires data != [] && ReturnFits(g, data, i)
    ensures ReturnFits(g, data[1..], i + 1)
    ensures data[0].Name? && data[0].v in g.slots ==> g.slots[data[0].v] == ReturnSlot(g.ctx, i)
    ensures !(data[0].Name? && data[0].v in g.slots) ==> ReturnSlot(g.ctx, i) in g.reserved
  {
    forall k {:trigger data[1..][k]} | 0 <= k < |data| - 1
      ensures if data[1..][k].Name? && data[1..][k].v in g.slots then g.slots[data[1..][k].v] == ReturnSlot(g.ctx, i + 1 + k)
              else ReturnSlot(g.ctx, i + 1 + k) in g.reserved
    {
      assert data[1..][k] == data[k + 1];
    }
  }

  lemma AlreadyThere(g: Setting, data: seq<Expr>, i: nat, scopes: Scopes<nat>, sp: nat, hi: nat, env: Env, mem0: Memory, mem: Memory)
    requires data != [] && Rel(scopes, sp, hi, env, mem0, g.reserved) && AgreesOff(mem0, mem, g.reserved) && ReturnFits(g, data, i)
    requires Coalesced(g, scopes) && data[0].Name? && data[0].v in g.slots
    ensures Get(mem, ReturnSlot(g.ctx, i)) == Eval(env, data[0])
  {
    var slot := ReturnSlot(g.ctx, i);
    CoalescedOperand(g, scopes, data[0].v);
    SameValue(scopes, sp, hi, env, mem0, g.reserved, data[0], g.lay);
    VariableUnreserved(g, scopes, sp, hi, env, mem0, data[0]);
    hide Rel, Coalesced;
    assert Get(mem0, slot) == Get(mem, slot);
  }

  lemma SlotsAscend(ctx: Context, i: nat)
    ensures ReturnSlot(ctx, i) < ReturnSlot(ctx, i + 1)
  {
  }

  lemma LowKeptAt(mem: Memory, slot: nat, x: Fe)
    ensures LowKept(mem, mem[slot := x], slot) && LowKept(mem, mem, slot)
  {
  }

  lemma {:induction false} CopyReturns(g: Setting, data: seq<Expr>, i: nat, scopes: Scopes<nat>, sp: nat, hi: nat, env: Env,
                                       mem0: Memory, mem: Memory, tail: Code)
    requires Rel(scopes, sp, hi, env, mem0, g.reserved) && Coalesced(g, scopes) && ReturnFits(g, data, i)
    requires AgreesOff(mem0, mem, g.reserved) && ReturnCopies(g.ctx, scopes, data, i).Some?
    requires forall o {:trigger o in g.reserved} | o in g.reserved && o >= ReturnSlot(g.ctx, i) :: o !in mem
    ensures CopyEnds(g, data, i, env, Running(ReturnCopies(g.ctx, scopes, data, i).value + tail, mem), tail, mem0, mem)
    decreases |data|
  {
    assert g.slots.Keys == g.ctx.coalesced;
    hide Rel, Coalesced, Reaches, LowKept, AgreesOff, ReturnFits, OperandOf, Eval, ReturnSlot;
    var code := ReturnCopies(g.ctx, scopes, data, i).value;
    var s := Running(code + tail, mem);
    LowKeptAt(mem, ReturnSlot(g.ctx, i), 0);
    SlotsAscend(g.ctx, i);
    if data == [] {
      assert code + tail == tail;
      ReachesRefl(g.p, g.lay, s);
      assert Copied(g, data, i, env, mem0, mem, mem);
    } else {
      var slot := ReturnSlot(g.ctx, i);
      var rest := ReturnCopies(g.ctx, scopes, data[1..], i + 1).value;
      ReturnFitsTail(g, data, i);
      if data[0].Name? && data[0].v in g.slots {
        CopyReturns(g, data[1..], i + 1, scopes, sp, hi, env, mem0, mem, tail);
        AlreadyThere(g, data, i, scopes, sp, hi, env, mem0, mem);
        CopiedHead(g, data, i, env, s, tail, mem0, mem, mem);
      } else {
        assert code + tail == [Computation(AddOp, MemoryAfterFp(slot), Constant(0), OperandOf(scopes, data[0]).value)] + (rest + tail);
        CopyOne(g, data, i, scopes, sp, hi, env, mem0, mem, rest + tail);
        if Eval(env, data[0]).Some? {
          var mem1 := mem[slot := Eval(env, data[0]).value];
          LowKeptAt(mem, slot, Eval(env, data[0]).value);
          CopyReturns(g, data[1..], i + 1, scopes, sp, hi, env, mem0, mem1, tail);
          CopyEndsAfter(g, data[1..], i + 1, env, s, Running(rest + tail, mem1), tail, mem0, mem1);
          CopiedHead(g, data, i, env, s, tail, mem0, mem, mem1);
        }
      }
    }
  }

  lemma CopyEndsAfter(g: Setting, data: seq<Expr>, i: nat, env: Env, s: Machine, s1: Machine, tail: Code, mem0: Memory, mem: Memory)
    requires Reaches(g.p, g.lay, s, s1) && CopyEnds(g, data, i, env, s1, tail, mem0, mem)
    ensures CopyEnds(g, data, i, env, s, tail, mem0, mem)
  {
    hide Reaches, Copied, EvalAll;
    if EvalAll(env, data).None? && Reaches(g.p, g.lay, s1, Failed) {
      ReachesTrans(g.p, g.lay, s, s1, Failed);
    } else {
      var mem2: Memory :| Reaches(g.p, g.lay, s1, Running(tail, mem2)) && Copied(g, data, i, env, mem0, mem, mem2);
      ReachesTrans(g.p, g.lay, s, s1, Running(tail, mem2));
    }
  }

  lemma CopiedHead(g: Setting, data: seq<Expr>, i: nat, env: Env, s: Machine, tail: Code, mem0: Memory, mem: Memory, mem1: Memory)
    requires data != [] && CopyEnds(g, data[1..], i + 1, env, s, tail, mem0, mem1)
    requires Get(mem1, ReturnSlot(g.ctx, i)) == Eval(env, data[0]) && LowKept(mem, mem1, ReturnSlot(g.ctx, i))
    ensures CopyEnds(g, data, i, env, s, tail, mem0, mem)
  {
    hide Reaches;
    if !(EvalAll(env, data[1..]).None? && Reaches(g.p, g.lay, s, Failed)) {
      var mem2: Memory :| Reaches(g.p, g.lay, s, Running(tail, mem2)) && Copied(g, data[1..], i + 1, env, mem0, mem1, mem2);
      CopiedTail(g, data, i, env, mem0, mem, mem1, mem2);
    }
  }

  lemma CopiedTail(g: Setting, data: seq<Expr>, i: nat, env: Env, mem0: Memory, mem: Memory, mem1: Memory, mem2: Memory)
    requires data != [] && Copied(g, data[1..], i + 1, env, mem0, mem1, mem2)
    requires Get(mem1, ReturnSlot(g.ctx, i)) == Eval(env, data[0]) && LowKept(mem, mem1, ReturnSlot(g.ctx, i))
    ensures Copied(g, data, i, env, mem0, mem, mem2)
  {
    var slot := ReturnSlot(g.ctx, i);
    assert Get(mem2, slot) == Get(mem1, slot);
    assert LowKept(mem, mem2, slot) by {
      forall o: nat {:trigger Get(mem, o)} {:trigger Get(mem2, o)} | o < slot ensures Get(mem, o) == Get(mem2, o) {
        assert Get(mem, o) == Get(mem1, o);
      }
    }
    if EvalAll(env, data).Some? {
      var vals := EvalAll(env, data).value;
      var rest := EvalAll(env, data[1..]).value;
      forall k {:trigger vals[k]} | 0 <= k < |vals| ensures Get(mem2, ReturnSlot(g.ctx, i + k)) == Some(vals[k]) {
        if k > 0 {
          assert vals[k] == rest[k - 1];
        }
      }
    } else if Eval(env, data[0]).None? {
      assert MissingSlot(g.ctx, mem2, i);
    } else {
      assert EvalAll(env, data[1..]).None?;
      var k: nat :| i + 1 <= k < i + 1 + |data[1..]| && MissingSlot(g.ctx, mem2, k);
      assert i <= k < i + |data| && MissingSlot(g.ctx, mem2, k);
    }
  }

  // ----- conditionals

  function IsNonZero(v: Fe): Fe { if v != 0 then 1 else 0 }

  /** The three temporaries of a conditional: inverse, product, complement. */
  function PreludeMemory(mem: Memory, s: nat, v: Fe): Memory {
    mem[s := InverseOrZero(v)][s + 1 := IsNonZero(v)][s + 2 := Sub(1, IsNonZero(v))]
  }

  lemma PreludeFacts(v: Fe)
    ensures Mul(v, InverseOrZero(v)) == IsNonZero(v) && Mul(Sub(1, IsNonZero(v)), v) == 0
  {
    AddZero(1);
    MulOne(v);
    MulOne(0);
  }

  lemma PreludeFirst(p: Program, lay: Layout, x: Operand, s: nat, rest: Code, mem: Memory, v: Fe)
    requires Value(lay, mem, x) == Some(v) && (x.MemoryAfterFp? ==> x.offset < s) && s !in mem && s + 1 !in mem
    ensures var m1 := mem[s := InverseOrZero(v)];
            var m2 := m1[s + 1 := IsNonZero(v)];
            var code := [Inverse(x, s), Computation(MulOp, x, MemoryAfterFp(s), MemoryAfterFp(s + 1))] + rest;
            Reaches(p, lay, Running(code, mem), Running(rest, m2)) && Value(lay, m2, x) == Some(v)
  {
    var code := [Inverse(x, s), Computation(MulOp, x, MemoryAfterFp(s), MemoryAfterFp(s + 1))] + rest;
    var m1 := mem[s := InverseOrZero(v)];
    var s1 := Running([Computation(MulOp, x, MemoryAfterFp(s), MemoryAfterFp(s + 1))] + rest, m1);
    assert code[1..] == s1.rest;
    assert Step(p, lay, Running(code, mem)) == s1;
    PreludeFacts(v);
    assert s1.rest[1..] == rest;
    var s2 := Running(rest, m1[s + 1 := IsNonZero(v)]);
    assert Step(p, lay, s1) == s2;
    hide Step, Value;
    ReachesRefl(p, lay, s2);
    ReachesStep(p, lay, s1, s2);
    ReachesStep(p, lay, Running(code, mem), s2);
  }

  lemma PreludeSecond(p: Program, lay: Layout, x: Operand, s: nat, rest: Code, mem: Memory, v: Fe)
    requires Value(lay, mem, x) == Some(v) && (x.MemoryAfterFp? ==> x.offset < s) && s + 2 !in mem && Get(mem, s + 1) == Some(IsNonZero(v))
    ensures var code := [Computation(AddOp, MemoryAfterFp(s + 2), MemoryAfterFp(s + 1), Constant(1)),
                         Computation(MulOp, MemoryAfterFp(s + 2), x, Constant(0))] + rest;
            Reaches(p, lay, Running(code, mem), Running(rest, mem[s + 2 := Sub(1, IsNonZero(v))]))
  {
    var code := [Computation(AddOp, MemoryAfterFp(s + 2), MemoryAfterFp(s + 1), Constant(1)),
                 Computation(MulOp, MemoryAfterFp(s + 2), x, Constant(0))] + rest;
    var m1 := mem[s + 2 := Sub(1, IsNonZero(v))];
    var s1 := Running([Computation(MulOp, MemoryAfterFp(s + 2), x, Constant(0))] + rest, m1);
    assert code[1..] == s1.rest;
    assert Step(p, lay, Running(code, mem)) == s1;
    PreludeFacts(v);
    assert s1.rest[1..] == rest;
    var s2 := Running(rest, m1);
    assert Step(p, lay, s1) == s2;
    hide Step, Value;
    ReachesRefl(p, lay, s2);
    ReachesStep(p, lay, s1, s2);
    ReachesStep(p, lay, Running(code, mem), s2);
  }

  lemma BranchJump(p: Program, lay: Layout, s: nat, id: nat, mem: Memory, v: Fe)
    requires Get(mem, s) == Some(IsNonZero(v)) && IfLabel(id, IfThen) in p.blocks && IfLabel(id, IfElse) in p.blocks
    ensures var code := [JumpIfNotZero(MemoryAfterFp(s), LabelAddress(IfLabel(id, IfThen))), Jump(LabelAddress(IfLabel(id, IfElse)), None)];
            Reaches(p, lay, Running(code, mem), Running(p.blocks[IfLabel(id, if v != 0 then IfThen else IfElse)], mem))
  {
    var code := [JumpIfNotZero(MemoryAfterFp(s), LabelAddress(IfLabel(id, IfThen))), Jump(LabelAddress(IfLabel(id, IfElse)), None)];
    var t := Running(p.blocks[IfLabel(id, if v != 0 then IfThen else IfElse)], mem);
    assert code[1..] == [Jump(LabelAddress(IfLabel(id, IfElse)), None)];
    if v == 0 {
      var s1 := Running([Jump(LabelAddress(IfLabel(id, IfElse)), None)], mem);
      assert Step(p, lay, Running(code, mem)) == s1;
      assert Step(p, lay, s1) == t;
      ReachesRefl(p, lay, t);
      ReachesStep(p, lay, s1, t);
      ReachesStep(p, lay, Running(code, mem), t);
    } else {
      assert Step(p, lay, Running(code, mem)) == t;
      StepReaches(p, lay, Running(code, mem));
    }
  }

  /** The condition decides which branch runs. */
  lemma PreludeRuns(p: Program, lay: Layout, x: Operand, s: nat, id: nat, mem: Memory, v: Fe)
    requires Value(lay, mem, x) == Some(v) && (x.MemoryAfterFp? ==> x.offset < s) && s !in mem && s + 1 !in mem && s + 2 !in mem
    requires IfLabel(id, IfThen) in p.blocks && IfLabel(id, IfElse) in p.blocks
    ensures Reaches(p, lay, Running(Prelude(x, s, id), mem),
                    Running(p.blocks[IfLabel(id, if v != 0 then IfThen else IfElse)], PreludeMemory(mem, s, v)))
  {
    var third := [JumpIfNotZero(MemoryAfterFp(s + 1), LabelAddress(IfLabel(id, IfThen))), Jump(LabelAddress(IfLabel(id, IfElse)), None)];
    var second := [Computation(AddOp, MemoryAfterFp(s + 2), MemoryAfterFp(s + 1), Constant(1)),
                   Computation(MulOp, MemoryAfterFp(s + 2), x, Constant(0))] + third;
    var first := [Inverse(x, s), Computation(MulOp, x, MemoryAfterFp(s), MemoryAfterFp(s + 1))] + second;
    assert first == Prelude(x, s, id);
    var m2 := mem[s := InverseOrZero(v)][s + 1 := IsNonZero(v)];
    var m3 := m2[s + 2 := Sub(1, IsNonZero(v))];
    hide Reaches, Value;
    PreludeFirst(p, lay, x, s, second, mem, v);
    PreludeSecond(p, lay, x, s, third, m2, v);
    BranchJump(p, lay, s + 1, id, m3, v);
    ReachesTrans(p, lay, Running(first, mem), Running(second, m2), Running(third, m3));
    ReachesTrans(p, lay, Running(first, mem), Running(third, m3),
                 Running(p.blocks[IfLabel(id, if v != 0 then IfThen else IfElse)], m3));
  }

  lemma PreludeFails(p: Program, lay: Layout, x: Operand, s: nat, id: nat, mem: Memory)
    requires Value(lay, mem, x).None?
    ensures Reaches(p, lay, Running(Prelude(x, s, id), mem), Failed)
  {
    StepReaches(p, lay, Running(Prelude(x, s, id), mem));
  }

  lemma PreludeKeeps(g: Setting, scopes: Scopes<nat>, sp: nat, hi: nat, env: Env, mem: Memory, v: Fe)
    requires Rel(scopes, sp, hi, env, mem, g.reserved) && sp + 3 <= hi
    ensures Rel(scopes, sp + 3, hi, env, PreludeMemory(mem, sp, v), g.reserved) && HighKept(mem, PreludeMemory(mem, sp, v), hi)
    ensures sp !in mem && sp + 1 !in mem && sp + 2 !in mem
  {
    assert sp !in mem && sp + 1 !in mem && sp + 2 !in mem;
    hide Rel, HighKept;
    var m1 := mem[sp := InverseOrZero(v)];
    var m2 := m1[sp + 1 := IsNonZero(v)];
    TemporaryKeeps(scopes, sp, hi, env, mem, g.reserved, InverseOrZero(v));
    TemporaryKeeps(scopes, sp + 1, hi, env, m1, g.reserved, IsNonZero(v));
    TemporaryKeeps(scopes, sp + 2, hi, env, m2, g.reserved, Sub(1, IsNonZero(v)));
    HighKeptTrans(mem, m1, m2, hi);
    HighKeptTrans(mem, m2, PreludeMemory(mem, sp, v), hi);
  }

  // ----- matches

  /** The two temporaries of a match: the scaled value and the address of the chosen arm. */
  function MatchMemory(mem: Memory, s: nat, size: nat, v: Fe, pc: nat): Memory
    requires pc < P
  {
    mem[s := Mul(v, Res(size))][s + 1 := pc]
  }

  lemma ArmAddress(v: Fe, offset: nat, start: nat, size: nat)
    requires offset <= v && start + (v - offset) * size < P
    ensures Add(Mul(v, Res(size)), Sub(Res(start), Mul(Res(offset), Res(size)))) == start + (v - offset) * size
  {
    LiftSelf(v);
    LiftMul(v, size);
    LiftMul(offset, size);
    LiftSub(start, offset * size);
    LiftAdd(v * size, start - offset * size);
    assert v * size + (start - offset * size) == start + (v - offset) * size;
    LiftSelf(start + (v - offset) * size);
  }

  /** Arms are told apart by their addresses. */
  lemma ArmFound(p: Program, lay: Layout, index: nat, k: nat, pc: nat)
    requires Placed(p, lay) && IsArm(p, lay, pc, index, k)
    ensures ArmAt(p, lay, pc) == Some(p.matches[index][k])
  {
    var i: nat, l: nat :| IsArm(p, lay, pc, i, l) && ArmAt(p, lay, pc) == Some(p.matches[i][l]);
    assert i == index && l == k;
  }

  lemma MatchJumpRuns(p: Program, lay: Layout, x: Operand, s: nat, index: nat, offset: nat, mem: Memory, v: Fe)
    requires Placed(p, lay) && index < |p.matches| && offset <= v < offset + |p.matches[index]|
    requires Value(lay, mem, x) == Some(v) && s !in mem && s + 1 !in mem
    ensures index < |lay.firstStarts| && index < |lay.blockSizes|
    ensures var pc := lay.firstStarts[index] + (v - offset) * lay.blockSizes[index];
            pc < P && Reaches(p, lay, Running(MatchJump(x, s, index, offset), mem),
                              Running(p.matches[index][v - offset], MatchMemory(mem, s, lay.blockSizes[index], v, pc)))
  {
    var start, size := lay.firstStarts[index], lay.blockSizes[index];
    var pc := start + (v - offset) * size;
    assert IsArm(p, lay, pc, index, v - offset);
    ArmFound(p, lay, index, v - offset, pc);
    ArmAddress(v, offset, start, size);
    var code := MatchJump(x, s, index, offset);
    var m1 := mem[s := Mul(v, Res(size))];
    var m2 := m1[s + 1 := pc];
    hide IsArm, Placed, ArmAt;
    var s1, s2 := Running(code[1..], m1), Running(code[2..], m2);
    var t := Running(p.matches[index][v - offset], m2);
    assert Step(p, lay, Running(code, mem)) == s1;
    assert s1.rest[1..] == code[2..];
    assert Step(p, lay, s1) == s2;
    assert Step(p, lay, s2) == t;
    hide Step;
    ReachesRefl(p, lay, t);
    ReachesStep(p, lay, s2, t);
    ReachesStep(p, lay, s1, t);
    ReachesStep(p, lay, Running(code, mem), t);
  }

  lemma MatchJumpFails(p: Program, lay: Layout, x: Operand, s: nat, index: nat, offset: nat, mem: Memory)
    requires Value(lay, mem, x).None? && s !in mem
    ensures Reaches(p, lay, Running(MatchJump(x, s, index, offset), mem), Failed)
  {
    StepReaches(p, lay, Running(MatchJump(x, s, index, offset), mem));
  }

  /** The temporaries of a match lie above what its arms use. */
  lemma MatchTempsKeep(g: Setting, scopes: Scopes<nat>, sp: nat, temps: nat, hi: nat, env: Env, mem: Memory, x: Fe, y: Fe)
    requires Rel(scopes, sp, hi, env, mem, g.reserved) && sp <= temps && temps + 2 <= hi
    ensures Rel(scopes, sp, temps, env, mem[temps := x][temps + 1 := y], g.reserved)
    ensures temps !in mem && temps + 1 !in mem
  {
    var m2 := mem[temps := x][temps + 1 := y];
    assert ValuesMatch(scopes, env, m2) by {
      forall i, v {:trigger scopes[i][v]} {:trigger env[i][v]} | 0 <= i < |scopes| && v in scopes[i] && v in env[i]
        ensures env[i][v] == Get(m2, scopes[i][v])
      {
        assert scopes[i][v] < sp;
      }
    }
  }

  /** After the arm, the cells above the temporaries are as before the match. */
  lemma MatchArmLeaves(g: Setting, scopes: Scopes<nat>, sp: nat, sp2: nat, temps: nat, hi: nat, scopes2: Scopes<nat>, env: Env, env2: Env,
                       mem: Memory, x: Fe, y: Fe, mem2: Memory)
    requires Rel(scopes, sp, hi, env, mem, g.reserved) && sp <= temps && temps + 2 <= hi
    requires Rel(scopes2, sp2, temps, env2, mem2, g.reserved) && HighKept(mem[temps := x][temps + 1 := y], mem2, temps)
    ensures Rel(scopes2, temps + 2, hi, env2, mem2, g.reserved) && HighKept(mem, mem2, hi)
  {
    var m1 := mem[temps := x][temps + 1 := y];
    hide SameKeys, SlotsDistinct, ValuesMatch;
    forall o {:trigger o in mem2} | o in mem2 ensures o < temps + 2 || o >= hi {
      if o >= temps + 2 {
        assert Get(m1, o) == Get(mem2, o);
        assert Get(m1, o) == Get(mem, o);
      }
    }
    forall o: nat {:trigger Get(mem, o)} {:trigger Get(mem2, o)} | o >= hi ensures Get(mem, o) == Get(mem2, o) {
      assert Get(m1, o) == Get(mem2, o);
    }
  }
}
