/**
 Intermediate code and the machine that runs it (crates/lean_compiler/src/ir, the instruction
 semantics of crates/lean_vm/src/isa/instruction.rs).  Memory cells are written once; a
 computation solves its single unknown or checks its equation.
 */
module IntermediateCode {
  import opened Field
  import opened Prime
  import opened Interpolation

  datatype IfKind = IfThen | IfElse | IfEnd

  datatype Label = FunctionLabel(name: string) | EndProgram | IfLabel(id: nat, kind: IfKind) | MatchEnd(matchId: nat)

  /** Operands; MatchBase is MatchFirstBlockStart - offset * MatchBlockSize. */
  datatype Operand =
    | Constant(value: Fe)
    | MemoryAfterFp(offset: nat)
    | LabelAddress(address: Label)
    | MatchBlockSize(index: nat)
    | MatchBase(baseIndex: nat, first: nat)

  datatype Operation = AddOp | MulOp

  datatype Instruction =
    | Computation(operation: Operation, argA: Operand, argB: Operand, res: Operand)
    | Inverse(arg: Operand, resOffset: nat)
    | JumpIfNotZero(condition: Operand, target: Operand)
    | Jump(dest: Operand, updatedFp: Option<Operand>)
    | PanicHint
    | Panic

  /** is_hint. */
  predicate IsHint(i: Instruction) { i.Inverse? || i.PanicHint? }

  type Code = seq<Instruction>

  // ----- equations

  function Compute(op: Operation, a: Fe, b: Fe): Fe {
    match op case AddOp => Add(a, b) case MulOp => Mul(a, b)
  }

  function InverseCompute(op: Operation, a: Fe, b: Fe): Option<Fe> {
    match op
    case AddOp => Some(Sub(a, b))
    case MulOp => if b == 0 then None else Some(Mul(a, FieldInverse(b)))
  }

  datatype Solution = SetA(a: Fe) | SetB(b: Fe) | SetRes(r: Fe) | Holds | Fails

  /** a op b = res: the unknown is looked for in the order res, a, b. */
  function Solve(op: Operation, a: Option<Fe>, b: Option<Fe>, res: Option<Fe>): Solution {
    if res.None? then
      if a.Some? && b.Some? then SetRes(Compute(op, a.value, b.value)) else Fails
    else if a.None? then
      if b.Some? && InverseCompute(op, res.value, b.value).Some? then SetA(InverseCompute(op, res.value, b.value).value) else Fails
    else if b.None? then
      if InverseCompute(op, res.value, a.value).Some? then SetB(InverseCompute(op, res.value, a.value).value) else Fails
    else if Compute(op, a.value, b.value) == res.value then Holds else Fails
  }

  // ----- the machine

  type Memory = map<nat, Fe>

  function Get(m: Memory, o: nat): Option<Fe> { if o in m then Some(m[o]) else None }

  /** match_block_sizes, match_first_block_starts and label_to_pc. */
  datatype Layout = Layout(blockSizes: seq<nat>, firstStarts: seq<nat>, labelPcs: map<Label, nat>)

  datatype Program = Program(blocks: map<Label, Code>, matches: seq<seq<Code>>)

  /** A label of the program, or its end; a match of the program. */
  predicate OperandKnown(p: Program, x: Operand) {
    match x
    case Constant(_) => true
    case MemoryAfterFp(_) => true
    case LabelAddress(l) => l in p.blocks || l == EndProgram
    case MatchBlockSize(i) => i < |p.matches|
    case MatchBase(i, _) => i < |p.matches|
  }

  predicate InstructionKnown(p: Program, i: Instruction) {
    match i
    case Computation(_, a, b, res) => OperandKnown(p, a) && OperandKnown(p, b) && OperandKnown(p, res)
    case Inverse(arg, _) => OperandKnown(p, arg)
    case JumpIfNotZero(c, t) => OperandKnown(p, c) && OperandKnown(p, t)
    case Jump(dest, fp) => OperandKnown(p, dest) && (fp.Some? ==> OperandKnown(p, fp.value))
    case PanicHint => true
    case Panic => true
  }

  ghost predicate CodeKnown(p: Program, code: Code) { forall i {:trigger code[i]} | 0 <= i < |code| :: InstructionKnown(p, code[i]) }

  /** Every label and match that the program refers to is there. */
  ghost predicate SelfContained(p: Program) {
    && (forall l {:trigger l in p.blocks} | l in p.blocks :: CodeKnown(p, p.blocks[l]))
    && (forall i: nat, k: nat {:trigger p.matches[i][k]} | i < |p.matches| && k < |p.matches[i]| :: CodeKnown(p, p.matches[i][k]))
  }

  lemma KnownGrows(p: Program, p2: Program, code: Code)
    requires p.blocks.Keys <= p2.blocks.Keys && |p.matches| <= |p2.matches| && CodeKnown(p, code)
    ensures CodeKnown(p2, code)
  {
    forall i {:trigger code[i]} | 0 <= i < |code| ensures InstructionKnown(p2, code[i]) {
      assert InstructionKnown(p, code[i]);
    }
  }

  /** The value of an operand; symbolic constants come from the layout. */
  function Value(lay: Layout, m: Memory, x: Operand): Option<Fe> {
    match x
    case Constant(c) => Some(c)
    case MemoryAfterFp(o) => Get(m, o)
    case LabelAddress(l) => if l in lay.labelPcs then Some(Res(lay.labelPcs[l])) else None
    case MatchBlockSize(i) => if i < |lay.blockSizes| then Some(Res(lay.blockSizes[i])) else None
    case MatchBase(i, f) =>
      if i < |lay.blockSizes| && i < |lay.firstStarts| then
        Some(Sub(Res(lay.firstStarts[i]), Mul(Res(f), Res(lay.blockSizes[i]))))
      else None
  }

  /** Writes the solved unknown; only memory cells are ever unknown. */
  function Write(m: Memory, x: Operand, v: Fe): Option<Memory> {
    if x.MemoryAfterFp? then Some(m[x.offset := v]) else None
  }

  function ExecComputation(lay: Layout, m: Memory, op: Operation, a: Operand, b: Operand, res: Operand): Option<Memory> {
    match Solve(op, Value(lay, m, a), Value(lay, m, b), Value(lay, m, res))
    case SetA(x) => Write(m, a, x)
    case SetB(x) => Write(m, b, x)
    case SetRes(x) => Write(m, res, x)
    case Holds => Some(m)
    case Fails => None
  }

  /** `Left`: a jump that also moves the frame pointer, out of the current frame.  `Lost`: a jump to no block. */
  datatype Machine = Running(rest: Code, mem: Memory) | Left(dest: Operand, fp: Fe, frame: Memory) | Failed | Lost

  ghost predicate IsArm(p: Program, lay: Layout, pc: nat, i: nat, k: nat) {
    i < |p.matches| && k < |p.matches[i]| && i < |lay.firstStarts| && i < |lay.blockSizes|
    && lay.firstStarts[i] + k * lay.blockSizes[i] == pc
  }

  /** Match arms sit at pairwise different addresses that fit the field. */
  ghost predicate Placed(p: Program, lay: Layout) {
    && |lay.firstStarts| == |lay.blockSizes| >= |p.matches|
    && (forall pc: nat, i: nat, k: nat {:trigger IsArm(p, lay, pc, i, k)} | IsArm(p, lay, pc, i, k) :: pc < P)
    && (forall pc: nat, i: nat, k: nat, j: nat, l: nat {:trigger IsArm(p, lay, pc, i, k), IsArm(p, lay, pc, j, l)} |
          IsArm(p, lay, pc, i, k) && IsArm(p, lay, pc, j, l) :: i == j && k == l)
  }

  /** A jump to a computed address lands on the arm placed there. */
  ghost function ArmAt(p: Program, lay: Layout, pc: nat): Option<Code> {
    if exists i: nat, k: nat :: IsArm(p, lay, pc, i, k) then
      var i: nat, k: nat :| IsArm(p, lay, pc, i, k);
      Some(p.matches[i][k])
    else None
  }

  ghost function JumpInside(p: Program, lay: Layout, dest: Operand, m: Memory): Machine {
    if dest.LabelAddress? && dest.address in p.blocks then Running(p.blocks[dest.address], m)
    else if dest.MemoryAfterFp? && Get(m, dest.offset).Some? && ArmAt(p, lay, Get(m, dest.offset).value).Some? then
      Running(ArmAt(p, lay, Get(m, dest.offset).value).value, m)
    else if dest.MemoryAfterFp? && Get(m, dest.offset).None? then Failed
    else Lost
  }

  /** A jump that changes frames: to the code address in a cell, or to the end of the program. */
  ghost function JumpOut(lay: Layout, dest: Operand, fp: Operand, m: Memory): Machine {
    if (dest.LabelAddress? || Value(lay, m, dest).Some?) && Value(lay, m, fp).Some? then Left(dest, Value(lay, m, fp).value, m)
    else Failed
  }

  ghost function Step(p: Program, lay: Layout, s: Machine): Machine
    requires s.Running? && s.rest != []
  {
    var next := s.rest[1..];
    match s.rest[0]
    case Computation(op, a, b, res) =>
      var r := ExecComputation(lay, s.mem, op, a, b, res);
      if r.Some? then Running(next, r.value) else Failed
    case Inverse(arg, o) =>
      var v := Value(lay, s.mem, arg);
      if v.None? then Failed
      else
        var x := if v.value == 0 then 0 else FieldInverse(v.value);
        if o in s.mem && s.mem[o] != x then Failed else Running(next, s.mem[o := x])
    case JumpIfNotZero(c, dest) =>
      var v := Value(lay, s.mem, c);
      if v == Some(0) then Running(next, s.mem)
      else if v == Some(1) then JumpInside(p, lay, dest, s.mem)
      else Failed
    case Jump(dest, fp) => if fp.None? then JumpInside(p, lay, dest, s.mem) else JumpOut(lay, dest, fp.value, s.mem)
    case PanicHint => Running(next, s.mem)
    case Panic => Failed
  }

  function FieldInverse(x: Fe): Fe
    requires x != 0
  {
    Prime.Inverse(x)
  }

  ghost function Run(p: Program, lay: Layout, n: nat, s: Machine): Machine
    decreases n
  {
    if n == 0 || !s.Running? || s.rest == [] then s else Run(p, lay, n - 1, Step(p, lay, s))
  }

  ghost predicate Reaches(p: Program, lay: Layout, s: Machine, t: Machine) { exists n: nat :: Run(p, lay, n, s) == t }

  lemma ReachesRefl(p: Program, lay: Layout, s: Machine)
    ensures Reaches(p, lay, s, s)
  {
    assert Run(p, lay, 0, s) == s;
  }

  lemma {:induction false} RunAdd(p: Program, lay: Layout, m: nat, n: nat, s: Machine)
    ensures Run(p, lay, m + n, s) == Run(p, lay, n, Run(p, lay, m, s))
    decreases m
  {
    if m > 0 && s.Running? && s.rest != [] {
      RunAdd(p, lay, m - 1, n, Step(p, lay, s));
    }
  }

  lemma ReachesTrans(p: Program, lay: Layout, s: Machine, t: Machine, u: Machine)
    requires Reaches(p, lay, s, t) && Reaches(p, lay, t, u)
    ensures Reaches(p, lay, s, u)
  {
    var m: nat :| Run(p, lay, m, s) == t;
    var n: nat :| Run(p, lay, n, t) == u;
    RunAdd(p, lay, m, n, s);
    assert Run(p, lay, m + n, s) == u;
  }

  lemma ReachesStep(p: Program, lay: Layout, s: Machine, u: Machine)
    requires s.Running? && s.rest != [] && Reaches(p, lay, Step(p, lay, s), u)
    ensures Reaches(p, lay, s, u)
  {
    assert Run(p, lay, 1, s) == Step(p, lay, s);
    assert Reaches(p, lay, s, Step(p, lay, s));
    ReachesTrans(p, lay, s, Step(p, lay, s), u);
  }

  // ----- equations turned around

  lemma ComputeComm(op: Operation, a: Fe, b: Fe)
    ensures Compute(op, a, b) == Compute(op, b, a)
  {
    AddComm(a, b);
    MulComm(a, b);
  }

  /** The operands may be exchanged when the second one is known. */
  lemma SwappedSolution(op: Operation, a: Option<Fe>, c: Fe, res: Option<Fe>)
    ensures Solve(op, Some(c), a, res)
         == match Solve(op, a, Some(c), res) case SetA(x) => SetB(x) case other => other
    ensures !Solve(op, a, Some(c), res).SetB?
  {
    if a.Some? {
      ComputeComm(op, a.value, c);
    }
  }

  /** Two known operands: the result is computed and only copied. */
  lemma FoldedSolution(op: Operation, x: Fe, y: Fe, res: Option<Fe>)
    ensures Solve(AddOp, Some(0), res, Some(Compute(op, x, y)))
         == match Solve(op, Some(x), Some(y), res) case SetRes(r) => SetB(r) case other => other
    ensures !Solve(op, Some(x), Some(y), res).SetA? && !Solve(op, Some(x), Some(y), res).SetB?
  {
    AddZero(Compute(op, x, y));
    if res.Some? {
      AddZero(res.value);
    }
  }
}
