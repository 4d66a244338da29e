/**
 Low-level instructions, their meaning, and how each intermediate instruction becomes one of them
 (crates/lean_compiler/src/c_compile_final.rs; execution in crates/lean_vm/src/isa/instruction.rs).
 */
module LowCode {
  import opened Field
  import opened Prime
  import opened Interpolation
  import opened IntermediateCode

  datatype LowOperand = LowConst(value: Fe) | LowMem(offset: nat) | LowFp(offset: nat)

  datatype LowInstruction =
    | LowComputation(operation: Operation, argA: LowOperand, argC: LowOperand, res: LowOperand)
    | LowJump(condition: LowOperand, dest: LowOperand, updatedFp: LowOperand)

  datatype LowHint = LowInverse(arg: LowOperand, resOffset: nat) | LowPanic

  /** Hints at an address run, in order, before the instruction there. */
  datatype LowProgram = LowProgram(code: seq<LowInstruction>, hints: map<nat, seq<LowHint>>)

  function HintsAt(hints: map<nat, seq<LowHint>>, pc: nat): seq<LowHint> { if pc in hints then hints[pc] else [] }

  // ----- lowering

  /** A memory operand stays; anything else must be a constant the layout knows. */
  function Resolve(lay: Layout, x: Operand): Option<LowOperand> {
    if x.MemoryAfterFp? then Some(LowMem(x.offset))
    else if Value(lay, map[], x).Some? then Some(LowConst(Value(lay, map[], x).value))
    else None
  }

  /** compile_block on a computation: two constants are folded, a constant second operand is moved to the front. */
  function LowerComputation(lay: Layout, op: Operation, a: Operand, b: Operand, res: Operand): Option<LowInstruction> {
    var x, y, z := Resolve(lay, a), Resolve(lay, b), Resolve(lay, res);
    if x.None? || y.None? || z.None? then None
    else if x.value.LowConst? && y.value.LowConst? then
      Some(LowComputation(AddOp, LowConst(0), z.value, LowConst(Compute(op, x.value.value, y.value.value))))
    else if y.value.LowConst? then Some(LowComputation(op, y.value, x.value, z.value))
    else Some(LowComputation(op, x.value, y.value, z.value))
  }

  function LowerJump(lay: Layout, condition: Option<LowOperand>, dest: Operand, updatedFp: Option<Operand>): Option<LowInstruction> {
    var d := Resolve(lay, dest);
    var fp := if updatedFp.None? then Some(LowFp(0)) else Resolve(lay, updatedFp.value);
    if condition.None? || d.None? || fp.None? then None else Some(LowJump(condition.value, d.value, fp.value))
  }

  function LowerInstruction(lay: Layout, i: Instruction): Option<LowInstruction>
    requires !IsHint(i)
  {
    match i
    case Computation(op, a, b, res) => LowerComputation(lay, op, a, b, res)
    case Panic => Some(LowComputation(MulOp, LowConst(0), LowFp(0), LowConst(1)))
    case JumpIfNotZero(c, dest) => LowerJump(lay, Resolve(lay, c), dest, None)
    case Jump(dest, fp) => LowerJump(lay, Some(LowConst(1)), dest, fp)
  }

  function LowerHint(lay: Layout, i: Instruction): Option<LowHint>
    requires IsHint(i)
  {
    match i
    case Inverse(arg, o) => if Resolve(lay, arg).None? then None else Some(LowInverse(Resolve(lay, arg).value, o))
    case PanicHint => Some(LowPanic)
  }

  // ----- the machine

  /** At: `done` hints of the address have run.  LeftAt: a jump that changed the frame pointer. */
  datatype LowMachine = At(pc: nat, done: nat, mem: Memory) | LeftAt(address: Fe, newFp: Fe, frame: Memory) | LowFailed

  function LowValue(fp: Fe, m: Memory, x: LowOperand): Option<Fe> {
    match x
    case LowConst(v) => Some(v)
    case LowMem(o) => Get(m, o)
    case LowFp(o) => Some(Add(fp, Res(o)))
  }

  function LowWrite(m: Memory, x: LowOperand, v: Fe): Option<Memory> { if x.LowMem? then Some(m[x.offset := v]) else None }

  function LowExec(fp: Fe, m: Memory, i: LowInstruction): Option<Memory>
    requires i.LowComputation?
  {
    match Solve(i.operation, LowValue(fp, m, i.argA), LowValue(fp, m, i.argC), LowValue(fp, m, i.res))
    case SetA(x) => LowWrite(m, i.argA, x)
    case SetB(x) => LowWrite(m, i.argC, x)
    case SetRes(x) => LowWrite(m, i.res, x)
    case Holds => Some(m)
    case Fails => None
  }

  function LowJumps(fp: Fe, pc: nat, m: Memory, i: LowInstruction): LowMachine
    requires i.LowJump?
  {
    var c := LowValue(fp, m, i.condition);
    var d := LowValue(fp, m, i.dest);
    var newFp := LowValue(fp, m, i.updatedFp);
    if c == Some(0) then At(pc + 1, 0, m)
    else if c != Some(1) || d.None? || newFp.None? then LowFailed
    else if i.updatedFp == LowFp(0) then At(d.value, 0, m)
    else LeftAt(d.value, newFp.value, m)
  }

  function LowStep(q: LowProgram, fp: Fe, t: LowMachine): LowMachine
    requires t.At?
  {
    var hints := HintsAt(q.hints, t.pc);
    if t.done < |hints| then
      match hints[t.done]
      case LowPanic => At(t.pc, t.done + 1, t.mem)
      case LowInverse(arg, o) =>
        var v := LowValue(fp, t.mem, arg);
        if v.None? then LowFailed
        else
          var x := if v.value == 0 then 0 else FieldInverse(v.value);
          if o in t.mem && t.mem[o] != x then LowFailed else At(t.pc, t.done + 1, t.mem[o := x])
    else if t.pc >= |q.code| then LowFailed
    else
      var i := q.code[t.pc];
      if i.LowComputation? then
        var r := LowExec(fp, t.mem, i);
        if r.Some? then At(t.pc + 1, 0, r.value) else LowFailed
      else LowJumps(fp, t.pc, t.mem, i)
  }

  function LowRun(q: LowProgram, fp: Fe, n: nat, t: LowMachine): LowMachine
    decreases n
  {
    if n == 0 || !t.At? then t else LowRun(q, fp, n - 1, LowStep(q, fp, t))
  }

  // ----- lowering keeps the meaning

  lemma ResolvedValue(lay: Layout, fp: Fe, m: Memory, x: Operand)
    requires Resolve(lay, x).Some?
    ensures LowValue(fp, m, Resolve(lay, x).value) == Value(lay, m, x)
    ensures Resolve(lay, x).value.LowMem? <==> x.MemoryAfterFp?
    ensures x.MemoryAfterFp? ==> Resolve(lay, x).value.offset == x.offset
    ensures !x.MemoryAfterFp? ==> Resolve(lay, x).value.LowConst? && Value(lay, m, x).Some?
    ensures forall v: Fe {:trigger Write(m, x, v)} :: LowWrite(m, Resolve(lay, x).value, v) == Write(m, x, v)
  {
  }

  /** Folding and swapping do not change what a computation does to memory. */
  lemma LoweringPreserves(lay: Layout, fp: Fe, m: Memory, op: Operation, a: Operand, b: Operand, res: Operand)
    requires LowerComputation(lay, op, a, b, res).Some?
    ensures LowerComputation(lay, op, a, b, res).value.LowComputation?
    ensures LowExec(fp, m, LowerComputation(lay, op, a, b, res).value) == ExecComputation(lay, m, op, a, b, res)
  {
    ResolvedValue(lay, fp, m, a);
    ResolvedValue(lay, fp, m, b);
    ResolvedValue(lay, fp, m, res);
    hide Solve, Compute, Resolve;
    var x, y := Resolve(lay, a).value, Resolve(lay, b).value;
    if x.LowConst? && y.LowConst? {
      FoldedSolution(op, x.value, y.value, Value(lay, m, res));
    } else if y.LowConst? {
      SwappedSolution(op, Value(lay, m, a), y.value, Value(lay, m, res));
    }
  }

  /** 0 x fp = 1 never holds. */
  lemma PanicFails(fp: Fe, m: Memory)
    ensures LowExec(fp, m, LowComputation(MulOp, LowConst(0), LowFp(0), LowConst(1))) == None
  {
    MulOne(Add(fp, Res(0)));
  }

  // ----- blocks in their place

  /** The code, with hints, sits at pc, the first `done` hints of that address belonging to what came before. */
  ghost predicate Located(q: LowProgram, lay: Layout, code: Code, pc: nat, done: nat)
    decreases |code|
  {
    code == [] ||
    if IsHint(code[0]) then
      done < |HintsAt(q.hints, pc)| && LowerHint(lay, code[0]) == Some(HintsAt(q.hints, pc)[done]) && Located(q, lay, code[1..], pc, done + 1)
    else
      done == |HintsAt(q.hints, pc)| && pc < |q.code| && LowerInstruction(lay, code[0]) == Some(q.code[pc]) && Located(q, lay, code[1..], pc + 1, 0)
  }

  lemma {:induction false} LocatedPrefix(q: LowProgram, lay: Layout, code: Code, tail: Code, pc: nat, done: nat)
    requires Located(q, lay, code + tail, pc, done)
    ensures Located(q, lay, code, pc, done)
    decreases |code|
  {
    if code != [] {
      assert (code + tail)[0] == code[0] && (code + tail)[1..] == code[1..] + tail;
      if IsHint(code[0]) {
        LocatedPrefix(q, lay, code[1..], tail, pc, done + 1);
      } else {
        LocatedPrefix(q, lay, code[1..], tail, pc + 1, 0);
      }
    }
  }

  /** Every label's block is at its pc, and every match arm at start + k * size. */
  ghost predicate Linked(q: LowProgram, p: Program, lay: Layout) {
    && (forall l {:trigger l in p.blocks} | l in p.blocks ::
          l in lay.labelPcs && lay.labelPcs[l] < P && Located(q, lay, p.blocks[l], lay.labelPcs[l], 0))
    && (forall pc: nat, i: nat, k: nat {:trigger IsArm(p, lay, pc, i, k)} | IsArm(p, lay, pc, i, k) ::
          pc < P && Located(q, lay, p.matches[i][k], pc, 0))
  }

  /** The low-level state stands for the intermediate one. */
  ghost predicate Stands(q: LowProgram, lay: Layout, s: Machine, t: LowMachine) {
    match s
    case Running(rest, mem) => t.At? && t.mem == mem && Located(q, lay, rest, t.pc, t.done)
    case Left(dest, fp, frame) => t.LeftAt? && t.frame == frame && t.newFp == fp && Value(lay, frame, dest) == Some(t.address)
    case Failed => t == LowFailed
    case Lost => true
  }

  lemma JumpStands(q: LowProgram, p: Program, lay: Layout, dest: Operand, m: Memory, fp: Fe)
    requires Linked(q, p, lay) && Resolve(lay, dest).Some?
    ensures var d := LowValue(fp, m, Resolve(lay, dest).value);
            Stands(q, lay, JumpInside(p, lay, dest, m), if d.None? then LowFailed else At(d.value, 0, m))
  {
    ResolvedValue(lay, fp, m, dest);
    if dest.LabelAddress? && dest.address in p.blocks {
      LiftSelf(lay.labelPcs[dest.address]);
    } else if dest.MemoryAfterFp? && Get(m, dest.offset).Some? {
      var pc := Get(m, dest.offset).value;
      if ArmAt(p, lay, pc).Some? {
        var i: nat, k: nat :| IsArm(p, lay, pc, i, k) && ArmAt(p, lay, pc) == Some(p.matches[i][k]);
      }
    }
  }

  /** One intermediate step is one low-level step. */
  lemma StepStands(q: LowProgram, p: Program, lay: Layout, fp: Fe, s: Machine, t: LowMachine)
    requires Linked(q, p, lay) && s.Running? && s.rest != [] && Stands(q, lay, s, t)
    ensures Stands(q, lay, Step(p, lay, s), LowStep(q, fp, t))
  {
    hide Linked, JumpInside, LowerComputation, LowExec, ExecComputation, Resolve;
    match s.rest[0]
    case Computation(op, a, b, res) => LoweringPreserves(lay, fp, s.mem, op, a, b, res);
    case Inverse(arg, o) => ResolvedValue(lay, fp, s.mem, arg);
    case JumpIfNotZero(c, dest) =>
      ResolvedValue(lay, fp, s.mem, c);
      JumpStands(q, p, lay, dest, s.mem, fp);
    case Jump(dest, newFp) =>
      if newFp.None? {
        JumpStands(q, p, lay, dest, s.mem, fp);
      } else {
        ResolvedValue(lay, fp, s.mem, dest);
        ResolvedValue(lay, fp, s.mem, newFp.value);
      }
    case PanicHint =>
    case Panic => PanicFails(fp, s.mem);
  }

  /** Low-level execution follows intermediate execution step by step, until a jump to no block. */
  lemma {:induction false} RunStands(q: LowProgram, p: Program, lay: Layout, fp: Fe, n: nat, s: Machine, t: LowMachine)
    requires Linked(q, p, lay) && Stands(q, lay, s, t) && (Run(p, lay, n, s).Running? ==> Run(p, lay, n, s).rest != [])
    ensures Stands(q, lay, Run(p, lay, n, s), LowRun(q, fp, n, t))
    decreases n
  {
    hide Linked, Step, LowStep;
    if n > 0 && s.Running? {
      if s.rest != [] {
        StepStands(q, p, lay, fp, s, t);
        RunStands(q, p, lay, fp, n - 1, Step(p, lay, s), LowStep(q, fp, t));
      }
    }
  }
}
