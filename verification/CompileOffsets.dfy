/**
 Every frame offset that compiled code uses lies below the recorded frame size, every label and match
 it refers to exists, and every block ends with an instruction rather than a hint
 (crates/lean_compiler/src/b_compile_intermediate.rs).
 */
module CompileOffsets {
  import opened Interpolation
  import opened IntermediateCode
  import opened SimpleLang
  import opened CompileLines
  import opened CompileGrowth
  import opened CompileFacts
  import opened SlotRelation
  import opened Coalescing
  import opened CompileFunction
  import opened EmitBlocks

  /** The frame size, and the program that labels and matches are looked up in. */
  datatype Limits = Limits(frame: nat, program: Program)

  /** The state stays within the limits. */
  ghost predicate Fits(st: CState, lim: Limits) { st.stackSize <= lim.frame && Includes(lim.program, st) }

  ghost predicate JumpsInside(fj: Option<Label>, lim: Limits) { fj.Some? ==> fj.value in lim.program.blocks }

  predicate OperandBelow(x: Operand, lim: Limits) { (x.MemoryAfterFp? ==> x.offset < lim.frame) && OperandKnown(lim.program, x) }

  predicate InstructionBelow(i: Instruction, lim: Limits) {
    match i
    case Computation(_, a, b, res) => OperandBelow(a, lim) && OperandBelow(b, lim) && OperandBelow(res, lim)
    case Inverse(arg, o) => OperandBelow(arg, lim) && o < lim.frame
    case JumpIfNotZero(c, t) => OperandBelow(c, lim) && OperandBelow(t, lim)
    case Jump(dest, fp) => OperandBelow(dest, lim) && (fp.Some? ==> OperandBelow(fp.value, lim))
    case PanicHint => true
    case Panic => true
  }

  /** Operands within the limits, and no hint at the end. */
  ghost predicate CodeBelow(code: Code, lim: Limits) {
    EndsReal(code) && forall i {:trigger code[i]} | 0 <= i < |code| :: InstructionBelow(code[i], lim)
  }

  lemma BelowKnown(code: Code, lim: Limits)
    requires CodeBelow(code, lim)
    ensures CodeKnown(lim.program, code)
  {
    forall i {:trigger code[i]} | 0 <= i < |code| ensures InstructionKnown(lim.program, code[i]) {
      assert InstructionBelow(code[i], lim);
    }
  }

  ghost predicate ArmsBelow(codes: seq<Code>, lim: Limits) { forall k {:trigger codes[k]} | 0 <= k < |codes| :: codes[k] != [] && CodeBelow(codes[k], lim) }

  /** Blocks and match arms of b that a does not have keep to the limits. */
  ghost predicate AddedBelow(a: CState, b: CState, lim: Limits) {
    && (forall l {:trigger l in b.blocks} | l in b.blocks :: (l in a.blocks && a.blocks[l] == b.blocks[l]) || CodeBelow(b.blocks[l], lim))
    && a.matches <= b.matches
    && (forall i {:trigger b.matches[i]} | |a.matches| <= i < |b.matches| :: ArmsBelow(b.matches[i], lim))
  }

  lemma AddedTrans(a: CState, b: CState, c: CState, lim: Limits)
    requires AddedBelow(a, b, lim) && AddedBelow(b, c, lim)
    ensures AddedBelow(a, c, lim)
  {
    forall l {:trigger l in c.blocks} | l in c.blocks ensures (l in a.blocks && a.blocks[l] == c.blocks[l]) || CodeBelow(c.blocks[l], lim) {
      if !CodeBelow(c.blocks[l], lim) {
        assert l in b.blocks;
      }
    }
    forall i {:trigger c.matches[i]} | |a.matches| <= i < |c.matches| ensures ArmsBelow(c.matches[i], lim) {
      if i < |b.matches| {
        assert c.matches[i] == b.matches[i];
      }
    }
  }

  lemma AddedSame(a: CState, b: CState, lim: Limits)
    requires a.blocks == b.blocks && a.matches == b.matches
    ensures AddedBelow(a, b, lim)
  {
  }

  lemma AddedBlock(a: CState, b: CState, l: Label, code: Code, lim: Limits)
    requires AddedBelow(a, b, lim) && CodeBelow(code, lim)
    ensures AddedBelow(a, b.(blocks := b.blocks[l := code]), lim)
  {
  }

  lemma AddedMatch(a: CState, b: CState, codes: seq<Code>, lim: Limits)
    requires AddedBelow(a, b, lim) && ArmsBelow(codes, lim)
    ensures AddedBelow(a, b.(matches := b.matches + [codes]), lim)
  {
  }

  lemma CodeAppend(a: Code, b: Code, lim: Limits)
    requires CodeBelow(a, lim) && CodeBelow(b, lim)
    ensures CodeBelow(a + b, lim)
  {
  }

  lemma OperandIsBelow(scopes: Scopes<nat>, sp: nat, lim: Limits, e: Expr)
    requires SlotsBelow(scopes, sp) && sp <= lim.frame && OperandOf(scopes, e).Some?
    ensures OperandBelow(OperandOf(scopes, e).value, lim)
  {
  }

  lemma RegisterBelow(st: CState, e: Expr)
    requires st.scopes != [] && SlotsBelow(st.scopes, st.stackPos)
    ensures SlotsBelow(Register(st, e).scopes, Register(st, e).stackPos)
  {
  }

  /** Slots of the state reached lie below its stack position, code and added blocks keep to the limits. */
  ghost predicate Below(st: CState, c: Compiled, lim: Limits) {
    CodeBelow(c.code, lim) && SlotsBelow(c.st.scopes, c.st.stackPos) && AddedBelow(st, c.st, lim)
  }

  ghost predicate Start(ctx: Context, lines: seq<Line>, st: CState, fj: Option<Label>, lim: Limits, ret: nat) {
    && st.scopes != [] && Fresh(st) && Compile(ctx, lines, st, fj).Some?
    && SlotsBelow(st.scopes, st.stackPos) && ReturnsMany(lines, ret) && 2 + ctx.argsCount + ret <= lim.frame
    && Fits(Compile(ctx, lines, st, fj).value.st, lim) && JumpsInside(fj, lim)
  }

  lemma {:induction false} OffsetsBelow(ctx: Context, lines: seq<Line>, st: CState, fj: Option<Label>, lim: Limits, ret: nat)
    requires Start(ctx, lines, st, fj, lim, ret)
    ensures Below(st, Compile(ctx, lines, st, fj).value, lim)
    decreases lines, 2
  {
    if lines == [] {
      assert CodeBelow(FinalJump(fj), lim);
      AddedSame(st, Compile(ctx, lines, st, fj).value.st, lim);
    } else {
      ReturnsManyParts(lines, ret);
      hide Fresh, SlotsBelow, ReturnsMany, Below, OperandOf, Register, ReturnCopies, AllReturns, ReturnsOf;
      var rest := lines[1..];
      match lines[0]
      case ForwardDeclaration(v) =>
        var st1 := if v in ctx.coalesced || v in ctx.deadStores then st else Declare(st, v);
        GrowsPlain(st, st1);
        if v !in ctx.coalesced && v !in ctx.deadStores { DeclareBelow(st, v); }
        RestBelow(ctx, lines, st, st1, fj, lim, ret, []);
        assert [] + Compile(ctx, rest, st1, fj).value.code == Compile(ctx, rest, st1, fj).value.code;
      case Assignment(_, _, _, _) => AssignmentBelow(ctx, lines, st, fj, lim, ret);
      case AssertEq(l, r) =>
        var st0 := Register(st, l);
        var st1 := Register(st0, r);
        RegisterGrows(st, l);
        GrowsFresh(st, st0);
        RegisterGrows(st0, r);
        GrowsTrans(st, st0, st1);
        RegisterBelow(st, l);
        RegisterBelow(st0, r);
        RestPosition(ctx, rest, st, st1, fj, lim);
        OperandIsBelow(st1.scopes, st1.stackPos, lim, l);
        OperandIsBelow(st1.scopes, st1.stackPos, lim, r);
        RestBelow(ctx, lines, st, st1, fj, lim, ret, [Computation(AddOp, OperandOf(st1.scopes, l).value, Constant(0), OperandOf(st1.scopes, r).value)]);
      case IfNotZero(c, t, e) => IfBelow(ctx, lines, st, fj, lim, ret);
      case Match(value, arms, offset) => MatchBelow(ctx, lines, st, fj, lim, ret);
      case PanicLine =>
        GrowsPlain(st, st);
        RestBelow(ctx, lines, st, st, fj, lim, ret, [PanicHint, Panic]);
      case FunctionRet(data) => ReturnBelow(ctx, lines, st, fj, lim, ret);
    }
  }

  lemma AssignmentBelow(ctx: Context, lines: seq<Line>, st: CState, fj: Option<Label>, lim: Limits, ret: nat)
    requires lines != [] && lines[0].Assignment? && Start(ctx, lines, st, fj, lim, ret)
    ensures Below(st, Compile(ctx, lines, st, fj).value, lim)
    decreases lines, 1
  {
    ReturnsManyParts(lines, ret);
    hide Fresh, SlotsBelow, ReturnsMany, Below, OperandOf, Register, ReturnCopies, AllReturns, ReturnsOf;
    var rest, target, op, a, b := lines[1..], lines[0].target, lines[0].op, lines[0].arg0, lines[0].arg1;
    if IsStore(ctx.deadStores, target) {
      GrowsPlain(st, st);
      RestBelow(ctx, lines, st, st, fj, lim, ret, []);
      assert [] + Compile(ctx, rest, st, fj).value.code == Compile(ctx, rest, st, fj).value.code;
    } else {
      var st1 := Register(st, target);
      RegisterGrows(st, target);
      RegisterBelow(st, target);
      RestPosition(ctx, rest, st, st1, fj, lim);
      OperandIsBelow(st1.scopes, st1.stackPos, lim, a);
      OperandIsBelow(st1.scopes, st1.stackPos, lim, b);
      OperandIsBelow(st1.scopes, st1.stackPos, lim, target);
      RestBelow(ctx, lines, st, st1, fj, lim, ret,
                [ComputationOf(op, OperandOf(st1.scopes, a).value, OperandOf(st1.scopes, b).value, OperandOf(st1.scopes, target).value)]);
    }
  }

  /** A block that goes on somewhere is never empty. */
  lemma {:induction false} GoesOn(ctx: Context, lines: seq<Line>, st: CState, end: Label)
    requires st.scopes != [] && Compile(ctx, lines, st, Some(end)).Some?
    ensures Compile(ctx, lines, st, Some(end)).value.code != []
    decreases lines
  {
    hide OperandOf, Register, ReturnCopies;
    if lines != [] && lines[0].ForwardDeclaration? {
      GoesOn(ctx, lines[1..], if lines[0].v in ctx.coalesced || lines[0].v in ctx.deadStores then st else Declare(st, lines[0].v), end);
    } else if lines != [] && lines[0].Assignment? && IsStore(ctx.deadStores, lines[0].target) {
      GoesOn(ctx, lines[1..], st, end);
    }
  }

  lemma DeclareBelow(st: CState, v: Var)
    requires st.scopes != [] && SlotsBelow(st.scopes, st.stackPos)
    ensures SlotsBelow(Declare(st, v).scopes, Declare(st, v).stackPos)
  {
  }

  lemma RestPosition(ctx: Context, rest: seq<Line>, st: CState, st1: CState, fj: Option<Label>, lim: Limits)
    requires Grows(st, st1) && st1.scopes != [] && Compile(ctx, rest, st1, fj).Some? && Compile(ctx, rest, st1, fj).value.st.stackSize <= lim.frame
    ensures st1.stackPos <= lim.frame && st.stackPos <= lim.frame && st1.stackSize <= lim.frame
  {
    hide Compile, Fresh;
    GrowsFresh(st, st1);
    CompileGrows(ctx, rest, st1, fj);
    Positions(st1, Compile(ctx, rest, st1, fj).value.st);
    Positions(st, st1);
  }

  /** Some code, then the rest of the lines from a state with the same blocks. */
  lemma RestBelow(ctx: Context, lines: seq<Line>, st: CState, st1: CState, fj: Option<Label>, lim: Limits, ret: nat, code: Code)
    requires lines != [] && Grows(st, st1) && st1.scopes != [] && st1.blocks == st.blocks && st1.matches == st.matches
    requires Compile(ctx, lines[1..], st1, fj).Some? && Fits(Compile(ctx, lines[1..], st1, fj).value.st, lim) && JumpsInside(fj, lim)
    requires SlotsBelow(st1.scopes, st1.stackPos) && ReturnsMany(lines[1..], ret) && 2 + ctx.argsCount + ret <= lim.frame && CodeBelow(code, lim)
    ensures Below(st, Compiled(code + Compile(ctx, lines[1..], st1, fj).value.code, Compile(ctx, lines[1..], st1, fj).value.st), lim)
    decreases lines, 0
  {
    hide Compile, Fresh, SlotsBelow, ReturnsMany, AddedBelow, CodeBelow;
    GrowsFresh(st, st1);
    OffsetsBelow(ctx, lines[1..], st1, fj, lim, ret);
    var c := Compile(ctx, lines[1..], st1, fj).value;
    CodeAppend(code, c.code, lim);
    AddedSame(st, st1, lim);
    AddedTrans(st, st1, c.st, lim);
  }

  lemma {:induction false} CopiesBelow(ctx: Context, scopes: Scopes<nat>, sp: nat, data: seq<Expr>, i: nat, lim: Limits)
    requires SlotsBelow(scopes, sp) && sp <= lim.frame && ReturnCopies(ctx, scopes, data, i).Some? && 2 + ctx.argsCount + i + |data| <= lim.frame
    ensures CodeBelow(ReturnCopies(ctx, scopes, data, i).value, lim)
    decreases |data|
  {
    if data != [] {
      CopiesBelow(ctx, scopes, sp, data[1..], i + 1, lim);
      if OperandOf(scopes, data[0]).Some? {
        OperandIsBelow(scopes, sp, lim, data[0]);
      }
    }
  }

  lemma ReturnBelow(ctx: Context, lines: seq<Line>, st: CState, fj: Option<Label>, lim: Limits, ret: nat)
    requires lines != [] && lines[0].FunctionRet? && Start(ctx, lines, st, fj, lim, ret)
    ensures Below(st, Compile(ctx, lines, st, fj).value, lim)
    decreases lines, 1
  {
    ReturnsManyParts(lines, ret);
    var data := lines[0].data;
    assert data in ReturnsOf(lines[0], lines);
    hide Fresh, SlotsBelow, ReturnsMany, Below, OperandOf, ReturnCopies, AllReturns, ReturnsOf;
    if ctx.isMain {
      var st1 := st.(stackPos := st.stackPos + 1);
      GrowsPlain(st, st1);
      RestPosition(ctx, lines[1..], st, st1, fj, lim);
      RaiseBelow(st.scopes, st.stackPos, st.stackPos + 1);
      RestBelow(ctx, lines, st, st1, fj, lim, ret, [Computation(AddOp, Constant(0), Constant(0), MemoryAfterFp(st.stackPos)),
                                                   Jump(LabelAddress(EndProgram), Some(MemoryAfterFp(st.stackPos)))]);
    } else {
      GrowsPlain(st, st);
      RestPosition(ctx, lines[1..], st, st, fj, lim);
      var copies := ReturnCopies(ctx, st.scopes, data, 0).value;
      CopiesBelow(ctx, st.scopes, st.stackPos, data, 0, lim);
      CodeAppend(copies, [Jump(MemoryAfterFp(0), Some(MemoryAfterFp(1)))], lim);
      RestBelow(ctx, lines, st, st, fj, lim, ret, copies + [Jump(MemoryAfterFp(0), Some(MemoryAfterFp(1)))]);
    }
  }

  lemma RaiseBelow(scopes: Scopes<nat>, sp: nat, sp1: nat)
    requires SlotsBelow(scopes, sp) && sp <= sp1
    ensures SlotsBelow(scopes, sp1) && SlotsBelow(scopes + [map[]], sp1)
  {
    var s1 := scopes + [map[]];
    forall i, v {:trigger s1[i][v]} | 0 <= i < |s1| && v in s1[i] ensures s1[i][v] < sp1 {
      assert s1[i][v] == scopes[i][v];
    }
  }

  lemma ManyOfBranches(lines: seq<Line>, ret: nat)
    requires lines != [] && ReturnsMany(lines, ret)
    ensures lines[0].IfNotZero? ==> ReturnsMany(lines[0].thenBranch, ret) && ReturnsMany(lines[0].elseBranch, ret)
    ensures lines[0].Match? ==> forall k {:trigger lines[0].arms[k]} | 0 <= k < |lines[0].arms| :: ReturnsMany(lines[0].arms[k].body, ret)
    ensures ReturnsMany(lines[1..], ret)
  {
    ReturnsManyParts(lines, ret);
    match lines[0]
    case IfNotZero(_, t, e) =>
      assert ReturnsOf(lines[0], lines) == AllReturns(t) + AllReturns(e);
      ReturnsManyNested(t, AllReturns(e), ret);
      ManyIs(e, ret);
    case Match(_, arms, _) =>
      assert ReturnsOf(lines[0], lines) == ReturnsOfArms(arms);
      forall k {:trigger arms[k]} | 0 <= k < |arms| ensures ReturnsMany(arms[k].body, ret) {
        ArmReturns(arms, k);
      }
    case _ =>
  }

  /** Sizes along the parts of a conditional. */
  lemma IfSizes(ctx: Context, c: Expr, t: seq<Line>, e: seq<Line>, rest: seq<Line>, st: CState, fj: Option<Label>, lines: seq<Line>, lim: Limits)
    requires st.scopes != [] && Fresh(st) && lines != [] && lines[0] == IfNotZero(c, t, e) && rest == lines[1..]
    requires CompileIf(ctx, c, t, e, rest, st, fj, lines).Some? && CompileIf(ctx, c, t, e, rest, st, fj, lines).value.st.stackSize <= lim.frame
    ensures var q := PartsOfIf(ctx, c, t, e, rest, st, fj, lines);
            q.then_.st.stackSize <= lim.frame && q.else_.st.stackSize <= lim.frame && q.rest.st.stackSize <= lim.frame && st.stackPos + 3 <= lim.frame
            && Fresh(q.thenStart) && Fresh(q.elseStart) && Fresh(q.restStart)
            && q.thenStart.scopes == q.elseStart.scopes == st.scopes + [map[]] && q.restStart.scopes == st.scopes
            && q.thenStart.stackPos == q.elseStart.stackPos == st.stackPos + 3 <= q.restStart.stackPos
  {
    hide Compile, Grows, Fresh, OperandOf, Prelude;
    var id := st.ifCounter;
    var end := IfLabel(id, IfEnd);
    var st1 := st.(ifCounter := id + 1, stackPos := st.stackPos + 3);
    FreshSame(st, st1);
    FreshSame(st, PushScope(st1));
    var th := Compile(ctx, t, PushScope(st1), Some(end)).value;
    BranchGrows(ctx, t, st1, end);
    var st2 := PopScope(th.st);
    GrowsFresh(st1, st2);
    var st3 := st2.(stackPos := st1.stackPos);
    FreshSame(st2, st3);
    FreshSame(st2, PushScope(st3));
    var el := Compile(ctx, e, PushScope(st3), Some(end)).value;
    BranchGrows(ctx, e, st3, end);
    var st4 := PopScope(el.st);
    var st5 := st4.(blocks := st4.blocks[IfLabel(id, IfThen) := th.code][IfLabel(id, IfElse) := el.code],
                    stackPos := Max(st4.stackPos, th.st.stackPos));
    BranchesJoin(st, st1, st2, st3, st4, id, th.code, el.code);
    GrowsFresh(st, st5);
    CompileGrows(ctx, rest, st5, fj);
    Positions(st5, Compile(ctx, rest, st5, fj).value.st);
    Positions(st3, st4);
    Positions(st1, st2);
  }

  lemma IfBelow(ctx: Context, lines: seq<Line>, st: CState, fj: Option<Label>, lim: Limits, ret: nat)
    requires lines != [] && lines[0].IfNotZero? && Start(ctx, lines, st, fj, lim, ret)
    ensures Below(st, Compile(ctx, lines, st, fj).value, lim)
    decreases lines, 1
  {
    var c, t, e, rest := lines[0].condition, lines[0].thenBranch, lines[0].elseBranch, lines[1..];
    var id := st.ifCounter;
    var end := IfLabel(id, IfEnd);
    assert CompileIf(ctx, c, t, e, rest, st, fj, lines) == Compile(ctx, lines, st, fj);
    IfSizes(ctx, c, t, e, rest, st, fj, lines, lim);
    IfHolds(ctx, c, t, e, rest, st, fj, lines, lim.program);
    ManyOfBranches(lines, ret);
    var q := PartsOfIf(ctx, c, t, e, rest, st, fj, lines);
    RaiseBelow(st.scopes, st.stackPos, st.stackPos + 3);
    RaiseBelow(st.scopes, st.stackPos, q.restStart.stackPos);
    hide Compile, Fresh, Grows, Includes, SlotsBelow, ReturnsMany, AddedBelow, CodeBelow, OperandOf, OperandBelow, Prelude;
    OffsetsBelow(ctx, t, q.thenStart, Some(end), lim, ret);
    OffsetsBelow(ctx, e, q.elseStart, Some(end), lim, ret);
    OffsetsBelow(ctx, rest, q.restStart, fj, lim, ret);
    OperandIsBelow(st.scopes, st.stackPos, lim, c);
    PreludeBelow(OperandOf(st.scopes, c).value, st.stackPos, id, lim);
    IfAdded(st, q, id, lim);
  }

  lemma PreludeBelow(x: Operand, s: nat, id: nat, lim: Limits)
    requires OperandBelow(x, lim) && s + 3 <= lim.frame
    requires IfLabel(id, IfThen) in lim.program.blocks && IfLabel(id, IfElse) in lim.program.blocks
    ensures CodeBelow(Prelude(x, s, id), lim)
  {
  }

  lemma IfAdded(st: CState, q: IfParts, id: nat, lim: Limits)
    requires q.thenStart.blocks == st.blocks && q.thenStart.matches == st.matches
    requires AddedBelow(q.thenStart, q.then_.st, lim) && CodeBelow(q.then_.code, lim)
    requires q.elseStart.blocks == q.then_.st.blocks && q.elseStart.matches == q.then_.st.matches
    requires AddedBelow(q.elseStart, q.else_.st, lim) && CodeBelow(q.else_.code, lim)
    requires q.restStart.blocks == q.else_.st.blocks[IfLabel(id, IfThen) := q.then_.code][IfLabel(id, IfElse) := q.else_.code]
    requires q.restStart.matches == q.else_.st.matches && AddedBelow(q.restStart, q.rest.st, lim) && CodeBelow(q.rest.code, lim)
    ensures AddedBelow(st, q.rest.st.(blocks := q.rest.st.blocks[IfLabel(id, IfEnd) := q.rest.code]), lim)
  {
    AddedSame(st, q.thenStart, lim);
    AddedSame(q.then_.st, q.elseStart, lim);
    var s1 := q.else_.st.(blocks := q.else_.st.blocks[IfLabel(id, IfThen) := q.then_.code]);
    var s2 := s1.(blocks := s1.blocks[IfLabel(id, IfElse) := q.else_.code]);
    AddedSame(s2, q.restStart, lim);
    hide AddedBelow, CodeBelow;
    AddedTrans(st, q.thenStart, q.then_.st, lim);
    AddedTrans(st, q.then_.st, q.elseStart, lim);
    AddedTrans(st, q.elseStart, q.else_.st, lim);
    AddedBlock(st, q.else_.st, IfLabel(id, IfThen), q.then_.code, lim);
    AddedBlock(st, s1, IfLabel(id, IfElse), q.else_.code, lim);
    AddedTrans(st, s2, q.restStart, lim);
    AddedTrans(st, q.restStart, q.rest.st, lim);
    AddedBlock(st, q.rest.st, IfLabel(id, IfEnd), q.rest.code, lim);
  }

  // ----- matches

  lemma {:induction false} ArmsOffsets(ctx: Context, arms: seq<Arm>, st: CState, saved: nat, top: nat, end: Label, lim: Limits, ret: nat)
    requires st.scopes != [] && Fresh(st) && CompileArms(ctx, arms, st, saved, top, end).Some?
    requires SlotsBelow(st.scopes, saved) && 2 + ctx.argsCount + ret <= lim.frame && end in lim.program.blocks
    requires forall k {:trigger arms[k]} | 0 <= k < |arms| :: ReturnsMany(arms[k].body, ret)
    requires Fits(CompileArms(ctx, arms, st, saved, top, end).value.st, lim) && saved <= top <= lim.frame
    ensures var r := CompileArms(ctx, arms, st, saved, top, end).value;
            ArmsBelow(r.codes, lim) && AddedBelow(st, r.st, lim) && r.st.scopes == st.scopes && saved <= r.top <= lim.frame
    decreases arms, 0
  {
    if arms == [] {
      AddedSame(st, CompileArms(ctx, arms, st, saved, top, end).value.st, lim);
    } else {
      hide Compile, Grows, Fresh, SlotsBelow, ReturnsMany, AddedBelow, CodeBelow;
      var st1 := st.(stackPos := saved);
      FreshSame(st, st1);
      FreshSame(st, PushScope(st1));
      var arm := Compile(ctx, arms[0].body, PushScope(st1), Some(end)).value;
      BranchGrows(ctx, arms[0].body, st1, end);
      var st2 := PopScope(arm.st);
      GrowsFresh(st1, st2);
      ArmsGrow(ctx, arms[1..], st2, saved, Max(top, arm.st.stackPos), end);
      RaiseBelow(st.scopes, saved, saved);
      OffsetsBelow(ctx, arms[0].body, PushScope(st1), Some(end), lim, ret);
      GoesOn(ctx, arms[0].body, PushScope(st1), end);
      forall k {:trigger arms[1..][k]} | 0 <= k < |arms| - 1 ensures ReturnsMany(arms[1..][k].body, ret) {
        assert arms[1..][k] == arms[k + 1];
      }
      ArmsOffsets(ctx, arms[1..], st2, saved, Max(top, arm.st.stackPos), end, lim, ret);
      AddedSame(st, PushScope(st1), lim);
      AddedTrans(st, PushScope(st1), arm.st, lim);
      AddedSame(arm.st, st2, lim);
      AddedTrans(st, arm.st, st2, lim);
      AddedTrans(st, st2, CompileArms(ctx, arms, st, saved, top, end).value.st, lim);
    }
  }

  lemma MatchSizes(ctx: Context, value: Expr, arms: seq<Arm>, offset: nat, rest: seq<Line>, st: CState, fj: Option<Label>,
                   lines: seq<Line>, lim: Limits)
    requires st.scopes != [] && Fresh(st) && lines != [] && lines[0] == Match(value, arms, offset) && rest == lines[1..]
    requires CompileMatch(ctx, value, arms, offset, rest, st, fj, lines).Some?
    requires CompileMatch(ctx, value, arms, offset, rest, st, fj, lines).value.st.stackSize <= lim.frame
    ensures var q := PartsOfMatch(ctx, value, arms, offset, rest, st, fj, lines);
            q.arms.st.stackSize <= lim.frame && q.rest.st.stackSize <= lim.frame && st.stackPos <= q.temps && q.temps + 2 <= lim.frame
            && Fresh(q.armsStart) && Fresh(q.restStart) && q.armsStart.scopes == st.scopes + [map[]] == q.restStart.scopes
            && q.rest.st.scopes != []
  {
    hide Compile, CompileArms, Grows, Fresh, OperandOf, MatchJump;
    var end := MatchEnd(st.matchCounter);
    var st1 := PushScope(st).(matchCounter := st.matchCounter + 1);
    FreshSame(st, st1);
    ArmsGrow(ctx, arms, st1, st1.stackPos, st1.stackPos, end);
    var compiled := CompileArms(ctx, arms, st1, st1.stackPos, st1.stackPos, end).value;
    var st3 := compiled.st.(stackPos := compiled.top + 2, matches := compiled.st.matches + [compiled.codes]);
    MatchJoins(st, st1, compiled.st, st3, compiled.codes, end);
    GrowsFresh(PushScope(st), st3);
    CompileGrows(ctx, rest, st3, fj);
    Positions(st3, Compile(ctx, rest, st3, fj).value.st);
  }

  lemma PoppedBelow(scopes: Scopes<nat>, sp: nat)
    requires SlotsBelow(scopes, sp) && scopes != []
    ensures SlotsBelow(scopes[..|scopes| - 1], sp)
  {
    var s1 := scopes[..|scopes| - 1];
    forall i, v {:trigger s1[i][v]} | 0 <= i < |s1| && v in s1[i] ensures s1[i][v] < sp {
      assert s1[i][v] == scopes[i][v];
    }
  }

  lemma MatchBelow(ctx: Context, lines: seq<Line>, st: CState, fj: Option<Label>, lim: Limits, ret: nat)
    requires lines != [] && lines[0].Match? && Start(ctx, lines, st, fj, lim, ret)
    ensures Below(st, Compile(ctx, lines, st, fj).value, lim)
    decreases lines, 1
  {
    var value, arms, offset, rest := lines[0].value, lines[0].arms, lines[0].offset, lines[1..];
    var end := MatchEnd(st.matchCounter);
    assert CompileMatch(ctx, value, arms, offset, rest, st, fj, lines) == Compile(ctx, lines, st, fj);
    MatchSizes(ctx, value, arms, offset, rest, st, fj, lines, lim);
    MatchHolds(ctx, value, arms, offset, rest, st, fj, lines, lim.program);
    ManyOfBranches(lines, ret);
    var q := PartsOfMatch(ctx, value, arms, offset, rest, st, fj, lines);
    RaiseBelow(st.scopes, st.stackPos, st.stackPos);
    RaiseBelow(st.scopes, st.stackPos, q.temps + 2);
    hide Compile, Fresh, SlotsBelow, ReturnsMany, AddedBelow, CodeBelow, OperandOf, ArmsBelow;
    ArmsOffsets(ctx, arms, q.armsStart, st.stackPos, st.stackPos, end, lim, ret);
    OffsetsBelow(ctx, rest, q.restStart, fj, lim, ret);
    OperandIsBelow(PushScope(st).scopes, st.stackPos, lim, value);
    MatchJumpBelow(OperandOf(PushScope(st).scopes, value).value, q.temps, q.index, offset, lim);
    PoppedBelow(q.rest.st.scopes, q.rest.st.stackPos);
    MatchAdded(st, q, end, Compile(ctx, lines, st, fj).value.st, lim);
  }

  lemma MatchJumpBelow(x: Operand, s: nat, index: nat, offset: nat, lim: Limits)
    requires OperandBelow(x, lim) && s + 2 <= lim.frame && index < |lim.program.matches|
    ensures CodeBelow(MatchJump(x, s, index, offset), lim)
  {
  }

  lemma MatchAdded(st: CState, q: MatchParts, end: Label, final: CState, lim: Limits)
    requires q.armsStart.blocks == st.blocks && q.armsStart.matches == st.matches
    requires AddedBelow(q.armsStart, q.arms.st, lim) && ArmsBelow(q.arms.codes, lim)
    requires q.restStart.blocks == q.arms.st.blocks && q.restStart.matches == q.arms.st.matches + [q.arms.codes]
    requires AddedBelow(q.restStart, q.rest.st, lim) && CodeBelow(q.rest.code, lim)
    requires final.blocks == q.rest.st.blocks[end := q.rest.code] && final.matches == q.rest.st.matches
    ensures AddedBelow(st, final, lim)
  {
    var s1 := q.arms.st.(matches := q.arms.st.matches + [q.arms.codes]);
    AddedSame(st, q.armsStart, lim);
    AddedSame(s1, q.restStart, lim);
    var s2 := q.rest.st.(blocks := q.rest.st.blocks[end := q.rest.code]);
    AddedSame(s2, final, lim);
    hide AddedBelow, CodeBelow, ArmsBelow;
    AddedTrans(st, q.armsStart, q.arms.st, lim);
    AddedMatch(st, q.arms.st, q.arms.codes, lim);
    AddedTrans(st, s1, q.restStart, lim);
    AddedTrans(st, q.restStart, q.rest.st, lim);
    AddedBlock(st, q.rest.st, end, q.rest.code, lim);
    AddedTrans(st, s2, final, lim);
  }

  /** All code a function adds, its own and that of its blocks and match arms, stays inside its frame and refers to what is there. */
  lemma FunctionOffsetsBelow(f: Function, st: CState, p: Program)
    requires Fresh(st) && CompileBody(f, st).Some? && ReturnsMany(f.body, f.retCount) && Includes(p, CompileBody(f, st).value.st)
    ensures var c := CompileBody(f, st).value;
            CodeBelow(c.code, Limits(c.st.stackSize, p)) && AddedBelow(st, c.st, Limits(c.st.stackSize, p))
  {
    var start, c := StartState(f, st), CompileBody(f, st).value;
    var lim := Limits(c.st.stackSize, p);
    FrameDistinct(f, st);
    FreshSame(st, start);
    CompileGrows(ContextOf(f), f.body, start, None);
    Positions(start, c.st);
    hide Compile, Fresh, SlotsBelow, ReturnsMany, Includes;
    OffsetsBelow(ContextOf(f), f.body, start, None, lim, f.retCount);
    AddedSame(st, start, lim);
    AddedTrans(st, start, c.st, lim);
  }
}
