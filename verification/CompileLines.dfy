/**
 Compiling lines to labelled blocks (compile_lines, crates/lean_compiler/src/b_compile_intermediate.rs)
 as a function of the compiler's state.  None is a panic: a variable that no scope holds.
 */
module CompileLines {
  import opened Interpolation
  import opened IntermediateCode
  import opened SimpleLang

  /** What does not change while a function body is compiled. */
  datatype Context = Context(isMain: bool, argsCount: nat, coalesced: set<Var>, deadStores: set<Var>)

  /** The compiler's fields that change. */
  datatype CState = CState(
    blocks: map<Label, Code>,
    matches: seq<seq<Code>>,
    ifCounter: nat,
    matchCounter: nat,
    scopes: Scopes<nat>,
    stackPos: nat,
    stackSize: nat)

  function Max(a: nat, b: nat): nat { if a >= b then a else b }

  /** from_simple_expr. */
  function OperandOf(scopes: Scopes<nat>, e: Expr): Option<Operand> {
    match e
    case Number(c) => Some(Constant(c))
    case Name(v) =>
      var i := Find(scopes, v);
      if i.None? then None else Some(MemoryAfterFp(scopes[i.value][v]))
  }

  /** A fresh slot for v in the innermost scope. */
  function Declare(st: CState, v: Var): CState
    requires st.scopes != []
  {
    st.(scopes := InsertLast(st.scopes, v, st.stackPos), stackPos := st.stackPos + 1)
  }

  /** register_var_if_needed. */
  function Register(st: CState, e: Expr): (r: CState)
    requires st.scopes != []
    ensures |r.scopes| == |st.scopes|
  {
    if e.Name? && Find(st.scopes, e.v).None? then Declare(st, e.v) else st
  }

  function ComputationOf(op: MathOperation, a: Operand, b: Operand, res: Operand): Instruction {
    var q := AsEquation(op, a, b, res);
    Computation(q.op, q.a, q.b, q.res)
  }

  function FinalJump(fj: Option<Label>): Code {
    if fj.Some? then [Jump(LabelAddress(fj.value), None)] else []
  }

  /** The six instructions before the branches of a conditional: s holds 1/c, s + 1 holds c/c, s + 2 its complement. */
  function Prelude(c: Operand, s: nat, id: nat): Code {
    [ Inverse(c, s),
      Computation(MulOp, c, MemoryAfterFp(s), MemoryAfterFp(s + 1)),
      Computation(AddOp, MemoryAfterFp(s + 2), MemoryAfterFp(s + 1), Constant(1)),
      Computation(MulOp, MemoryAfterFp(s + 2), c, Constant(0)),
      JumpIfNotZero(MemoryAfterFp(s + 1), LabelAddress(IfLabel(id, IfThen))),
      Jump(LabelAddress(IfLabel(id, IfElse)), None) ]
  }

  /** The computed jump of a match whose block has the given index. */
  function MatchJump(value: Operand, s: nat, index: nat, offset: nat): Code {
    [ Computation(MulOp, value, MatchBlockSize(index), MemoryAfterFp(s)),
      Computation(AddOp, MemoryAfterFp(s), MatchBase(index, offset), MemoryAfterFp(s + 1)),
      Jump(MemoryAfterFp(s + 1), None) ]
  }

  /** compile_function_ret: variables that already live in their return slot are not copied. */
  function ReturnCopies(ctx: Context, scopes: Scopes<nat>, data: seq<Expr>, i: nat): Option<Code> {
    if data == [] then Some([])
    else
      var rest := ReturnCopies(ctx, scopes, data[1..], i + 1);
      var x := OperandOf(scopes, data[0]);
      if rest.None? then None
      else if data[0].Name? && data[0].v in ctx.coalesced then rest
      else if x.None? then None
      else Some([Computation(AddOp, MemoryAfterFp(2 + ctx.argsCount + i), Constant(0), x.value)] + rest.value)
  }

  datatype Compiled = Compiled(code: Code, st: CState)

  function Prepend(code: Code, c: Option<Compiled>): Option<Compiled> {
    if c.None? then None else Some(Compiled(code + c.value.code, c.value.st))
  }

  function PopScope(st: CState): CState
    requires st.scopes != []
  {
    st.(scopes := st.scopes[..|st.scopes| - 1])
  }

  function PushScope(st: CState): CState { st.(scopes := st.scopes + [map[]]) }

  /** compile_lines. */
  function Compile(ctx: Context, lines: seq<Line>, st: CState, fj: Option<Label>): (r: Option<Compiled>)
    requires st.scopes != []
    ensures r.Some? ==> |r.value.st.scopes| == |st.scopes|
    decreases lines, 1
  {
    if lines == [] then Some(Compiled(FinalJump(fj), st.(stackSize := Max(st.stackSize, st.stackPos))))
    else
      var rest := lines[1..];
      match lines[0]
      case ForwardDeclaration(v) => Compile(ctx, rest, if v in ctx.coalesced || v in ctx.deadStores then st else Declare(st, v), fj)
      case Assignment(target, op, a, b) =>
        if IsStore(ctx.deadStores, target) then Compile(ctx, rest, st, fj)
        else
          var st1 := Register(st, target);
          var x, y, z := OperandOf(st1.scopes, a), OperandOf(st1.scopes, b), OperandOf(st1.scopes, target);
          if x.None? || y.None? || z.None? then None
          else Prepend([ComputationOf(op, x.value, y.value, z.value)], Compile(ctx, rest, st1, fj))
      case AssertEq(l, r) =>
        var st1 := Register(Register(st, l), r);
        var x, y := OperandOf(st1.scopes, l), OperandOf(st1.scopes, r);
        if x.None? || y.None? then None
        else Prepend([Computation(AddOp, x.value, Constant(0), y.value)], Compile(ctx, rest, st1, fj))
      case IfNotZero(c, t, e) => CompileIf(ctx, c, t, e, rest, st, fj, lines)
      case Match(value, arms, offset) => CompileMatch(ctx, value, arms, offset, rest, st, fj, lines)
      case PanicLine => Prepend([PanicHint, Panic], Compile(ctx, rest, st, fj))
      case FunctionRet(data) =>
        if ctx.isMain then
          Prepend([Computation(AddOp, Constant(0), Constant(0), MemoryAfterFp(st.stackPos)),
                   Jump(LabelAddress(EndProgram), Some(MemoryAfterFp(st.stackPos)))],
                  Compile(ctx, rest, st.(stackPos := st.stackPos + 1), fj))
        else
          var copies := ReturnCopies(ctx, st.scopes, data, 0);
          if copies.None? then None
          else Prepend(copies.value + [Jump(MemoryAfterFp(0), Some(MemoryAfterFp(1)))], Compile(ctx, rest, st, fj))
  }

  function CompileIf(ctx: Context, c: Expr, t: seq<Line>, e: seq<Line>, rest: seq<Line>, st: CState, fj: Option<Label>,
                     ghost lines: seq<Line>): (r: Option<Compiled>)
    requires st.scopes != [] && lines != [] && lines[0] == IfNotZero(c, t, e) && rest == lines[1..]
    ensures r.Some? ==> |r.value.st.scopes| == |st.scopes|
    decreases lines, 0
  {
    var id := st.ifCounter;
    var end := IfLabel(id, IfEnd);
    var x := OperandOf(st.scopes, c);
    if x.None? then None
    else
      var st1 := st.(ifCounter := id + 1, stackPos := st.stackPos + 3);
      var th := Compile(ctx, t, PushScope(st1), Some(end));
      if th.None? then None
      else
        var el := Compile(ctx, e, PushScope(PopScope(th.value.st).(stackPos := st1.stackPos)), Some(end));
        if el.None? then None
        else
          var st4 := PopScope(el.value.st);
          var st5 := st4.(blocks := st4.blocks[IfLabel(id, IfThen) := th.value.code][IfLabel(id, IfElse) := el.value.code],
                          stackPos := Max(st4.stackPos, th.value.st.stackPos));
          var re := Compile(ctx, rest, st5, fj);
          if re.None? then None
          else Some(Compiled(Prelude(x.value, st.stackPos, id), re.value.st.(blocks := re.value.st.blocks[end := re.value.code])))
  }

  function CompileMatch(ctx: Context, value: Expr, arms: seq<Arm>, offset: nat, rest: seq<Line>, st: CState, fj: Option<Label>,
                        ghost lines: seq<Line>): (r: Option<Compiled>)
    requires st.scopes != [] && lines != [] && lines[0] == Match(value, arms, offset) && rest == lines[1..]
    ensures r.Some? ==> |r.value.st.scopes| == |st.scopes|
    decreases lines, 0
  {
    var end := MatchEnd(st.matchCounter);
    var st1 := PushScope(st).(matchCounter := st.matchCounter + 1);
    var x := OperandOf(st1.scopes, value);
    if x.None? then None
    else
      var compiled := CompileArms(ctx, arms, st1, st1.stackPos, st1.stackPos, end);
      if compiled.None? then None
      else
        var st2 := compiled.value.st.(stackPos := compiled.value.top, matches := compiled.value.st.matches + [compiled.value.codes]);
        var index := |st2.matches| - 1;
        var re := Compile(ctx, rest, st2.(stackPos := st2.stackPos + 2), fj);
        if re.None? then None
        else
          Some(Compiled(MatchJump(x.value, st2.stackPos, index, offset),
                        PopScope(re.value.st.(blocks := re.value.st.blocks[end := re.value.code]))))
  }

  datatype CompiledArms = CompiledArms(codes: seq<Code>, st: CState, top: nat)

  /** Every arm starts from the same stack position; the highest one reached is kept. */
  function CompileArms(ctx: Context, arms: seq<Arm>, st: CState, saved: nat, top: nat, end: Label): (r: Option<CompiledArms>)
    requires st.scopes != []
    ensures r.Some? ==> |r.value.st.scopes| == |st.scopes| && |r.value.codes| == |arms|
    decreases arms, 0
  {
    if arms == [] then Some(CompiledArms([], st, top))
    else
      var arm := Compile(ctx, arms[0].body, PushScope(st.(stackPos := saved)), Some(end));
      if arm.None? then None
      else
        var rest := CompileArms(ctx, arms[1..], PopScope(arm.value.st), saved, Max(top, arm.value.st.stackPos), end);
        if rest.None? then None
        else Some(CompiledArms([arm.value.code] + rest.value.codes, rest.value.st, rest.value.top))
  }
}
