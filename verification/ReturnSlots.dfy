/**
 When a return writes all its slots.  A coalesced variable is never copied, not even when a return
 gives it in a slot other than its own (compile_function_ret, crates/lean_compiler/src/b_compile_intermediate.rs).
 */
module ReturnSlots {
  import opened Field
  import opened Interpolation
  import opened IntermediateCode
  import opened SimpleLang
  import opened CompileLines
  import opened SlotRelation
  import opened CompileCorrect
  import opened CompileSimulation
  import opened Coalescing
  import opened CompileFunction

  /** A run that has ended ends in one state only. */
  lemma EndsOnce(p: Program, lay: Layout, s: Machine, t: Machine, u: Machine)
    requires Reaches(p, lay, s, t) && Reaches(p, lay, s, u) && !t.Running? && !u.Running?
    ensures t == u
  {
    var m: nat :| Run(p, lay, m, s) == t;
    var n: nat :| Run(p, lay, n, s) == u;
    if m <= n {
      RunAdd(p, lay, m, n - m, s);
    } else {
      RunAdd(p, lay, n, m - n, s);
    }
  }

  /** Return slots of values that are not coalesced variables are reserved. */
  ghost predicate CopiesReserved(g: Setting, data: seq<Expr>, i: nat) {
    forall k {:trigger data[k]} | 0 <= k < |data| && !(data[k].Name? && data[k].v in g.slots) :: ReturnSlot(g.ctx, i + k) in g.reserved
  }

  ghost predicate OnlyCopied(g: Setting, data: seq<Expr>, i: nat, mem: Memory, mem2: Memory) {
    && (forall o {:trigger o in mem2} | o in mem2 && o !in mem && o >= ReturnSlot(g.ctx, i) :: IsCopy(g, data, i, o - ReturnSlot(g.ctx, i)))
    && LowKept(mem, mem2, ReturnSlot(g.ctx, i))
  }

  ghost predicate IsCopy(g: Setting, data: seq<Expr>, i: nat, k: int) { 0 <= k < |data| && !(data[k].Name? && data[k].v in g.slots) }

  lemma OnlyCopiedCons(g: Setting, data: seq<Expr>, i: nat, mem: Memory, mem1: Memory, mem2: Memory, x: Fe)
    requires data != [] && OnlyCopied(g, data[1..], i + 1, mem1, mem2)
    requires mem1 == mem || (IsCopy(g, data, i, 0) && mem1 == mem[ReturnSlot(g.ctx, i) := x])
    ensures OnlyCopied(g, data, i, mem, mem2)
  {
    forall o {:trigger o in mem2} | o in mem2 && o !in mem && o >= ReturnSlot(g.ctx, i) ensures IsCopy(g, data, i, o - ReturnSlot(g.ctx, i)) {
      if o == ReturnSlot(g.ctx, i) {
        assert Get(mem1, o) == Get(mem2, o);
      } else {
        assert o !in mem1;
        assert IsCopy(g, data[1..], i + 1, o - ReturnSlot(g.ctx, i + 1));
        assert data[1..][o - ReturnSlot(g.ctx, i + 1)] == data[o - ReturnSlot(g.ctx, i)];
      }
    }
    forall o: nat {:trigger Get(mem, o)} {:trigger Get(mem2, o)} | o < ReturnSlot(g.ctx, i) ensures Get(mem, o) == Get(mem2, o) {
      assert Get(mem, o) == Get(mem1, o) == Get(mem2, o);
    }
  }

  /** Copies write the slots of values that are not coalesced variables, and nothing else. */
  lemma {:induction false} CopiesRun(g: Setting, data: seq<Expr>, i: nat, scopes: Scopes<nat>, sp: nat, hi: nat, env: Env,
                                     mem0: Memory, mem: Memory, tail: Code) returns (mem2: Memory)
    requires Rel(scopes, sp, hi, env, mem0, g.reserved) && Coalesced(g, scopes) && CopiesReserved(g, data, i)
    requires AgreesOff(mem0, mem, g.reserved) && ReturnCopies(g.ctx, scopes, data, i).Some? && EvalAll(env, data).Some?
    requires forall o {:trigger o in g.reserved} | o in g.reserved && o >= ReturnSlot(g.ctx, i) :: o !in mem
    ensures Reaches(g.p, g.lay, Running(ReturnCopies(g.ctx, scopes, data, i).value + tail, mem), Running(tail, mem2))
    ensures OnlyCopied(g, data, i, mem, mem2)
    decreases |data|
  {
    assert g.slots.Keys == g.ctx.coalesced;
    hide Rel, Coalesced, Reaches, AgreesOff, OperandOf, Eval, OnlyCopied;
    var code := ReturnCopies(g.ctx, scopes, data, i).value;
    var s := Running(code + tail, mem);
    if data == [] {
      assert code + tail == tail;
      ReachesRefl(g.p, g.lay, s);
      mem2 := mem;
      OnlyCopiedRefl(g, data, i, mem);
    } else {
      var slot := ReturnSlot(g.ctx, i);
      CopiesReservedTail(g, data, i);
      if data[0].Name? && data[0].v in g.slots {
        mem2 := CopiesRun(g, data[1..], i + 1, scopes, sp, hi, env, mem0, mem, tail);
        OnlyCopiedCons(g, data, i, mem, mem, mem2, 0);
      } else {
        var rest := ReturnCopies(g.ctx, scopes, data[1..], i + 1).value;
        assert code + tail == [Computation(AddOp, MemoryAfterFp(slot), Constant(0), OperandOf(scopes, data[0]).value)] + (rest + tail);
        CopyOne(g, data, i, scopes, sp, hi, env, mem0, mem, rest + tail);
        var mem1 := mem[slot := Eval(env, data[0]).value];
        mem2 := CopiesRun(g, data[1..], i + 1, scopes, sp, hi, env, mem0, mem1, tail);
        ReachesTrans(g.p, g.lay, s, Running(rest + tail, mem1), Running(tail, mem2));
        assert IsCopy(g, data, i, 0);
        OnlyCopiedCons(g, data, i, mem, mem1, mem2, Eval(env, data[0]).value);
      }
    }
  }

  lemma OnlyCopiedRefl(g: Setting, data: seq<Expr>, i: nat, mem: Memory)
    ensures OnlyCopied(g, data, i, mem, mem)
  {
  }

  lemma CopiesReservedTail(g: Setting, data: seq<Expr>, i: nat)
    requires data != [] && CopiesReserved(g, data, i)
    ensures CopiesReserved(g, data[1..], i + 1)
    ensures !(data[0].Name? && data[0].v in g.slots) ==> ReturnSlot(g.ctx, i) in g.reserved
  {
    forall k {:trigger data[1..][k]} | 0 <= k < |data| - 1 && !(data[1..][k].Name? && data[1..][k].v in g.slots)
      ensures ReturnSlot(g.ctx, i + 1 + k) in g.reserved
    {
      assert data[1..][k] == data[k + 1];
    }
  }

  /** The code of a return followed by the jump back to the caller. */
  function ReturnCode(ctx: Context, scopes: Scopes<nat>, data: seq<Expr>): Code
    requires ReturnCopies(ctx, scopes, data, 0).Some?
  {
    ReturnCopies(ctx, scopes, data, 0).value + [Jump(MemoryAfterFp(0), Some(MemoryAfterFp(1)))]
  }

  ghost predicate ReturnsProperly(g: Setting, scopes: Scopes<nat>, data: seq<Expr>, env: Env, mem: Memory)
    requires ReturnCopies(g.ctx, scopes, data, 0).Some? && EvalAll(env, data).Some?
  {
    exists t: Machine :: Reaches(g.p, g.lay, Running(ReturnCode(g.ctx, scopes, data), mem), t) && ReturnsTo(g.ctx, t, EvalAll(env, data).value)
  }

  /** The machine leaves the function with slot j unwritten. */
  lemma GapReached(g: Setting, data: seq<Expr>, scopes: Scopes<nat>, sp: nat, hi: nat, env: Env, mem: Memory, j: nat) returns (t: Machine)
    requires Rel(scopes, sp, hi, env, mem, g.reserved) && Coalesced(g, scopes) && CopiesReserved(g, data, 0)
    requires ReturnCopies(g.ctx, scopes, data, 0).Some? && EvalAll(env, data).Some?
    requires j < |data| && data[j].Name? && data[j].v in g.slots && ReturnSlot(g.ctx, j) in g.reserved
    ensures Reaches(g.p, g.lay, Running(ReturnCode(g.ctx, scopes, data), mem), t) && t.Left? && ReturnSlot(g.ctx, j) !in t.frame
  {
    ReservedUnwritten(g, scopes, sp, hi, env, mem);
    hide Rel, Coalesced, Reaches, CopiesReserved, EvalAll, ReturnCopies;
    var tail := [Jump(MemoryAfterFp(0), Some(MemoryAfterFp(1)))];
    var mem2 := CopiesRun(g, data, 0, scopes, sp, hi, env, mem, mem, tail);
    assert ReturnSlot(g.ctx, j) !in mem2 by {
      assert !IsCopy(g, data, 0, j);
    }
    assert Get(mem, 0) == Get(mem2, 0) && Get(mem, 1) == Get(mem2, 1);
    t := Step(g.p, g.lay, Running(tail, mem2));
    assert t.Left? && t.frame == mem2;
    hide Step;
    StepReaches(g.p, g.lay, Running(tail, mem2));
    ReachesTrans(g.p, g.lay, Running(ReturnCode(g.ctx, scopes, data), mem), Running(tail, mem2), t);
  }

  lemma GapRefutes(ctx: Context, t: Machine, values: seq<Fe>, j: nat)
    requires t.Left? && !ctx.isMain && j < |values| && ReturnSlot(ctx, j) !in t.frame
    ensures !ReturnsTo(ctx, t, values)
  {
    var x := values[j];
    assert ReturnSlot(ctx, 0 + j) == ReturnSlot(ctx, j);
  }

  lemma MisplacedReturn(f: Function, p: Program, lay: Layout, data: seq<Expr>, scopes: Scopes<nat>, sp: nat, hi: nat, env: Env, mem: Memory)
    requires f.name != "main" && ReturnsMany(f.body, f.retCount) && data in AllReturns(f.body)
    requires Rel(scopes, sp, hi, env, mem, Reserved(f)) && Coalesced(SettingOf(f, p, lay), scopes)
    requires ReturnCopies(ContextOf(f), scopes, data, 0).Some? && EvalAll(env, data).Some? && !InOwnSlots(f, data)
    ensures !ReturnsProperly(SettingOf(f, p, lay), scopes, data, env, mem)
  {
    var g := SettingOf(f, p, lay);
    hide Rel, Coalesced, Reaches, EvalAll, ReturnCopies;
    var j :| 0 <= j < |data| && data[j].Name? && data[j].v in Hoisted(f) && Hoisted(f)[data[j].v] != 2 + |f.arguments| + j;
    forall k {:trigger data[k]} | 0 <= k < |data| && !(data[k].Name? && data[k].v in g.slots) ensures ReturnSlot(g.ctx, k) in g.reserved {
      SlotUnclaimed(f, data, k);
    }
    SlotUnclaimed(f, data, j);
    hide Hoisted, Reserved;
    var t := GapReached(g, data, scopes, sp, hi, env, mem, j);
    EvalAllLength(env, data);
    var s := Running(ReturnCode(g.ctx, scopes, data), mem);
    forall u: Machine | Reaches(p, lay, s, u) ensures !ReturnsTo(g.ctx, u, EvalAll(env, data).value) {
      if u.Left? {
        EndsOnce(p, lay, s, t, u);
        GapRefutes(g.ctx, t, EvalAll(env, data).value, j);
      }
    }
  }

  lemma {:induction false} EvalAllLength(env: Env, data: seq<Expr>)
    requires EvalAll(env, data).Some?
    ensures |EvalAll(env, data).value| == |data|
  {
    if data != [] {
      EvalAllLength(env, data[1..]);
    }
  }

  /** A return hands back its values exactly when every coalesced variable in it stands in its own slot. */
  lemma ReturnExactlyWhenOwn(f: Function, p: Program, lay: Layout, data: seq<Expr>, scopes: Scopes<nat>, sp: nat, hi: nat, env: Env, mem: Memory)
    requires f.name != "main" && ReturnsMany(f.body, f.retCount) && data in AllReturns(f.body)
    requires Rel(scopes, sp, hi, env, mem, Reserved(f)) && Coalesced(SettingOf(f, p, lay), scopes)
    requires ReturnCopies(ContextOf(f), scopes, data, 0).Some? && EvalAll(env, data).Some?
    ensures ReturnsProperly(SettingOf(f, p, lay), scopes, data, env, mem) <==> InOwnSlots(f, data)
  {
    var g := SettingOf(f, p, lay);
    if InOwnSlots(f, data) {
      OwnSlotsFit(f, p, lay, data);
      ReservedUnwritten(g, scopes, sp, hi, env, mem);
      hide Rel, Coalesced, Reaches, ReturnFits, Hoisted, Reserved, CopyEnds, ReturnCopies, EvalAll, ReturnsTo;
      var tail := [Jump(MemoryAfterFp(0), Some(MemoryAfterFp(1)))];
      CopyReturns(g, data, 0, scopes, sp, hi, env, mem, mem, tail);
      assert tail == [Jump(MemoryAfterFp(0), Some(MemoryAfterFp(1)))] + [];
      ReturnFromCopies(g, data, env, Running(ReturnCode(g.ctx, scopes, data), mem), [], mem);
    } else {
      MisplacedReturn(f, p, lay, data, scopes, sp, hi, env, mem);
    }
  }

  // ----- a function that returns one variable twice

  /** a = 5 + 0; return a, a. */
  function Twice(): Function {
    Function("twice", [], 2, [Assignment(Name("a"), Plus, Number(5), Number(0)), FunctionRet([Name("a"), Name("a")])])
  }

  lemma TwiceFrame()
    ensures Hoisted(Twice()) == map["a" := 2] && AllReturns(Twice().body) == [[Name("a"), Name("a")]]
  {
    var f := Twice();
    var r := [Name("a"), Name("a")];
    assert f.body[1..] == [FunctionRet(r)] && f.body[1..][1..] == [];
    assert AllReturns(f.body[1..]) == ReturnsOf(f.body[1], f.body[1..]) + AllReturns([]);
    assert AllReturns(f.body) == [r];
    assert [r][1..] == [];
    assert SeeAllAt(Unseen, [r], 0) == Same("a");
    assert SeeAllAt(Unseen, [r], 1) == Same("a");
    assert CoalescedSlots(f, 0) == map[];
    assert CoalescedSlots(f, 1) == map["a" := 2];
  }

  /** Its body returns (5, 5), but the compiled code leaves the second return slot unwritten. */
  lemma TwiceLosesAValue(st: CState, p: Program, lay: Layout, mem: Memory)
    requires EntryFrame(Twice(), [], mem, 4)
    ensures Exec(Hoisted(Twice()).Keys, {}, Twice().body, EntryEnv(Twice(), [])) == Returned([5, 5]) && !OwnSlots(Twice())
    ensures CompileBody(Twice(), st).Some?
    ensures exists t: Machine :: Reaches(p, lay, Running(CompileBody(Twice(), st).value.code, mem), t) && t.Left? && Get(t.frame, 2) == Some(5) && 3 !in t.frame
  {
    TwiceMeans();
    TwiceCode(st);
    TwiceMisplaced();
    assert 2 !in mem && 3 !in mem;
    hide CompileBody, Exec, Step;
    TwiceRuns(p, lay, mem, CompileBody(Twice(), st).value.code);
  }

  lemma TwiceMisplaced()
    ensures !OwnSlots(Twice())
  {
    TwiceFrame();
    var f, r := Twice(), [Name("a"), Name("a")];
    assert r[1].Name? && r[1].v in Hoisted(f) && Hoisted(f)[r[1].v] != 2 + |f.arguments| + 1;
    assert r in AllReturns(f.body);
  }

  lemma TwiceRuns(p: Program, lay: Layout, mem: Memory, code: Code)
    requires 0 in mem && 1 in mem && 2 !in mem && 3 !in mem
    requires code == [Computation(AddOp, Constant(5), Constant(0), MemoryAfterFp(2)), Jump(MemoryAfterFp(0), Some(MemoryAfterFp(1)))]
    ensures exists t: Machine :: Reaches(p, lay, Running(code, mem), t) && t.Left? && Get(t.frame, 2) == Some(5) && 3 !in t.frame
  {
    AddZero(5);
    var s1 := Running(code[1..], mem[2 := 5]);
    assert Step(p, lay, Running(code, mem)) == s1;
    var t := Step(p, lay, s1);
    assert t.Left? && Get(t.frame, 2) == Some(5) && 3 !in t.frame;
    hide Step;
    StepReaches(p, lay, s1);
    ReachesStep(p, lay, Running(code, mem), t);
  }

  lemma TwiceMeans()
    ensures Exec(Hoisted(Twice()).Keys, {}, Twice().body, EntryEnv(Twice(), [])) == Returned([5, 5])
  {
    TwiceFrame();
    var f := Twice();
    var env := EntryEnv(f, []);
    AddZero(5);
    assert ArgEnv(f.arguments, []) == map[];
    assert env[0] == map["a" := None];
    assert env == [map["a" := None]];
    assert f.body[1..] == [FunctionRet([Name("a"), Name("a")])];
    var five: Fe := 5;
    var env2: Env := [map["a" := Some(five)]];
    assert Find(env, "a") == Some(0);
    assert Eval(env, Name("a")) == None;
    assert Solve(AddOp, Some(5), Some(0), None) == SetRes(five);
    assert env[0]["a" := Some(five)] == env2[0];
    assert env[0 := env[0]["a" := Some(five)]] == env2;
    assert SetVar(env, Name("a"), five) == Some(env2);
    assert Equation(env, AddOp, Number(5), Number(0), Name("a")) == Some(env2);
    assert Find(env2, "a") == Some(0);
    assert Eval(env2, Name("a")) == Some(five);
    ReturnsTwo(env2, "a", five);
  }

  lemma ReturnsTwo(env: Env, v: Var, x: Fe)
    requires Eval(env, Name(v)) == Some(x)
    ensures EvalAll(env, [Name(v), Name(v)]) == Some([x, x])
  {
    var one, two := [Name(v)], [Name(v), Name(v)];
    assert two[1..] == one && one[1..] == [];
    assert EvalAll(env, one[1..]) == Some([]);
    assert one[0] == Name(v) && two[0] == Name(v);
    assert EvalAll(env, one) == Some([x] + []);
    assert EvalAll(env, two).value == [x] + ([x] + []) == [x, x];
  }

  lemma TwiceCode(st: CState)
    ensures CompileBody(Twice(), st).Some?
    ensures CompileBody(Twice(), st).value.code
         == [Computation(AddOp, Constant(5), Constant(0), MemoryAfterFp(2)), Jump(MemoryAfterFp(0), Some(MemoryAfterFp(1)))]
  {
    TwiceFrame();
    var f := Twice();
    var s := StartState(f, st);
    assert ArgSlots(f.arguments) == map[];
    assert s.scopes[0] == map["a" := 2];
    assert s.scopes == [map["a" := 2]];
    assert f.body[1..] == [FunctionRet([Name("a"), Name("a")])] && f.body[1..][1..] == [];
    assert [Name("a"), Name("a")][1..] == [Name("a")] && [Name("a")][1..] == [];
    assert ReturnCopies(ContextOf(f), s.scopes, [Name("a")], 1) == Some([]);
    assert ReturnCopies(ContextOf(f), s.scopes, [Name("a"), Name("a")], 0) == Some([]);
    assert Compile(ContextOf(f), [], s, None).value.code == [];
    assert Compile(ContextOf(f), f.body[1..], s, None).value.code == [Jump(MemoryAfterFp(0), Some(MemoryAfterFp(1)))];
  }
}
