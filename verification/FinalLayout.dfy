/**
 Laying out the program: main first, then the labelled blocks, then the padded match arms, then
 unreachable cells up to the self-loop in the last cell (compile_to_low_level_bytecode,
 crates/lean_compiler/src/c_compile_final.rs).
 */
module FinalLayout {
  import opened Arith
  import opened Field
  import opened Interpolation
  import opened IntermediateCode
  import opened LowCode
  import opened EmitBlocks

  const MIN_BYTECODE_LOG_SIZE := 8
  const MAX_BYTECODE_LOG_SIZE := 22

  const MIN_BYTECODE_SIZE := 0x100
  const MAX_BYTECODE_SIZE := 0x40_0000

  lemma BytecodeSizes()
    ensures MIN_BYTECODE_SIZE == Pow2(MIN_BYTECODE_LOG_SIZE) && MAX_BYTECODE_SIZE == Pow2(MAX_BYTECODE_LOG_SIZE) < P
  {
    assert Pow2(8) == 256;
    assert Pow2(16) == 65536 by { Pow2Add(8, 8); }
    assert Pow2(22) == 4194304 by { assert Pow2(6) == 64; Pow2Add(16, 6); }
  }

  datatype LayoutError = MissingMain | EmptyMatch | UnresolvedOperand | TooLarge

  datatype Result<T> = Ok(value: T) | Err(error: LayoutError)

  datatype Bytecode = Bytecode(program: LowProgram, lay: Layout, endingPc: nat)

  // ----- padding

  function Panics(n: nat): Code { seq(n, _ => Panic) }

  lemma {:induction false} PanicsReal(n: nat)
    ensures RealCount(Panics(n)) == n && EndsReal(Panics(n))
    decreases n
  {
    if n > 0 {
      assert Panics(n)[1..] == Panics(n - 1);
      PanicsReal(n - 1);
    }
  }

  lemma PaddedReal(code: Code, size: nat)
    requires RealCount(code) <= size && EndsReal(code)
    ensures RealCount(Padded(code, size)) == size && EndsReal(Padded(code, size))
  {
    PanicsReal(size - RealCount(code));
    RealCountAppend(code, Panics(size - RealCount(code)));
  }

  function MaxReal(arms: seq<Code>): nat {
    if arms == [] then 0 else var m := MaxReal(arms[..|arms| - 1]); if RealCount(arms[|arms| - 1]) >= m then RealCount(arms[|arms| - 1]) else m
  }

  lemma {:induction false} MaxRealBounds(arms: seq<Code>, k: nat)
    requires k < |arms|
    ensures RealCount(arms[k]) <= MaxReal(arms)
    decreases |arms|
  {
    if k < |arms| - 1 {
      MaxRealBounds(arms[..|arms| - 1], k);
    }
  }

  /** The cells of the blocks with the given labels. */
  function BlocksSize(blocks: map<Label, Code>, order: seq<Label>): nat
    requires forall i {:trigger order[i]} | 0 <= i < |order| :: order[i] in blocks
  {
    if order == [] then 0 else BlocksSize(blocks, order[..|order| - 1]) + RealCount(blocks[order[|order| - 1]])
  }

  /** The cells of the match arms: every arm takes as many as the longest of its match. */
  function MatchesSize(matches: seq<seq<Code>>): nat {
    if matches == [] then 0 else var m := matches[|matches| - 1]; ArmPc(MatchesSize(matches[..|matches| - 1]), |m|, MaxReal(m))
  }

  /** n_real_instructions. */
  function ProgramSize(p: Program, order: seq<Label>): nat
    requires FunctionLabel("main") in p.blocks && forall i {:trigger order[i]} | 0 <= i < |order| :: order[i] in p.blocks
  {
    RealCount(p.blocks[FunctionLabel("main")]) + BlocksSize(p.blocks, order) + MatchesSize(p.matches)
  }

  /** Where arm k of a match stands. */
  function ArmPc(start: nat, k: nat, size: nat): nat { start + k * size }

  lemma NextArmPc(start: nat, k: nat, size: nat)
    ensures ArmPc(start, 0, size) == start && ArmPc(start, k + 1, size) == ArmPc(start, k, size) + size
  {
  }

  function Padded(code: Code, size: nat): Code
    requires RealCount(code) <= size
  {
    code + Panics(size - RealCount(code))
  }

  // ----- what the block list must hold

  /** Ends with an instruction; refers to what is there, if the whole program does. */
  ghost predicate Sound(p: Program, code: Code) { EndsReal(code) && (SelfContained(p) ==> CodeKnown(p, code)) }

  ghost predicate AllSound(p: Program, cb: seq<CodeBlock>) { forall j {:trigger cb[j]} | 0 <= j < |cb| :: Sound(p, cb[j].code) }

  ghost predicate ArmsSound(p: Program, arms: seq<Code>) { forall k {:trigger arms[k]} | 0 <= k < |arms| :: Sound(p, arms[k]) }

  lemma SoundAppend(p: Program, cb: seq<CodeBlock>, b: CodeBlock)
    requires AllSound(p, cb) && Sound(p, b.code)
    ensures AllSound(p, cb + [b])
  {
  }

  lemma SoundPadded(p: Program, code: Code, size: nat)
    requires RealCount(code) <= size && Sound(p, code)
    ensures Sound(p, Padded(code, size))
  {
    PaddedReal(code, size);
    var all, k := Padded(code, size), |code|;
    if SelfContained(p) {
      forall i {:trigger all[i]} | 0 <= i < |all| ensures InstructionKnown(p, all[i]) {
        if i < k {
          assert all[i] == code[i];
        }
      }
    }
  }

  /** Labels of the given set have their block in the list, at their pc. */
  ghost predicate LabelsPlaced(blocks: map<Label, Code>, labels: set<Label>, labelPcs: map<Label, nat>, cb: seq<CodeBlock>) {
    forall l {:trigger labelPcs[l]} {:trigger l in labels} | l in labels ::
      l in labelPcs && l in blocks && CodeBlock(labelPcs[l], blocks[l]) in cb
  }

  ghost predicate HasArm(matches: seq<seq<Code>>, i: nat, k: nat) { i < |matches| && k < |matches[i]| }

  /** Arm k of match i, padded to the size of the match, is block armBase[i] + k of the list. */
  ghost predicate ArmPlaced(matches: seq<seq<Code>>, firstStarts: seq<nat>, sizes: seq<nat>, armBase: seq<nat>, cb: seq<CodeBlock>, i: nat, k: nat)
    requires i < |matches| && i < |firstStarts| && i < |sizes| && i < |armBase| && k < |matches[i]|
  {
    RealCount(matches[i][k]) <= sizes[i] && armBase[i] + k < |cb|
    && cb[armBase[i] + k] == CodeBlock(ArmPc(firstStarts[i], k, sizes[i]), Padded(matches[i][k], sizes[i]))
  }

  ghost predicate MatchesPlaced(matches: seq<seq<Code>>, n: nat, firstStarts: seq<nat>, sizes: seq<nat>, armBase: seq<nat>, cb: seq<CodeBlock>) {
    && n <= |matches| && |firstStarts| == |sizes| == |armBase| == n
    && (forall i: nat, k: nat {:trigger HasArm(matches, i, k)} | HasArm(matches, i, k) && i < n :: ArmPlaced(matches, firstStarts, sizes, armBase, cb, i, k))
    && (forall i {:trigger armBase[i]} | 0 <= i < n :: armBase[i] + |matches[i]| <= |cb|)
    && (forall i, j {:trigger armBase[i], armBase[j]} | 0 <= i < j < n :: armBase[i] + |matches[i]| <= armBase[j])
  }

  lemma LabelsStay(blocks: map<Label, Code>, labels: set<Label>, labelPcs: map<Label, nat>, cb: seq<CodeBlock>, b: CodeBlock)
    requires LabelsPlaced(blocks, labels, labelPcs, cb)
    ensures LabelsPlaced(blocks, labels, labelPcs, cb + [b])
  {
    forall l {:trigger labelPcs[l]} {:trigger l in labels} | l in labels
      ensures l in labelPcs && l in blocks && CodeBlock(labelPcs[l], blocks[l]) in cb + [b]
    {
      assert CodeBlock(labelPcs[l], blocks[l]) in cb;
    }
  }

  lemma MatchesStay(matches: seq<seq<Code>>, n: nat, firstStarts: seq<nat>, sizes: seq<nat>, armBase: seq<nat>, cb: seq<CodeBlock>, b: CodeBlock)
    requires MatchesPlaced(matches, n, firstStarts, sizes, armBase, cb)
    ensures MatchesPlaced(matches, n, firstStarts, sizes, armBase, cb + [b])
  {
    hide ArmPc, Padded, RealCount;
    forall i: nat, k: nat {:trigger HasArm(matches, i, k)} | HasArm(matches, i, k) && i < n ensures ArmPlaced(matches, firstStarts, sizes, armBase, cb + [b], i, k) {
      assert ArmPlaced(matches, firstStarts, sizes, armBase, cb, i, k);
    }
  }

  // ----- the two passes over blocks

  /** Labelled blocks, one after the other. */
  method LayBlocks(blocks: map<Label, Code>, order: seq<Label>, cb0: seq<CodeBlock>, labelPcs0: map<Label, nat>, ghost p: Program)
      returns (cb: seq<CodeBlock>, labelPcs: map<Label, nat>)
    requires Consecutive(cb0) && forall i {:trigger order[i]} | 0 <= i < |order| :: order[i] in blocks && order[i] !in labelPcs0
    requires forall i, j {:trigger order[i], order[j]} | 0 <= i < j < |order| :: order[i] != order[j]
    requires LabelsPlaced(blocks, labelPcs0.Keys, labelPcs0, cb0)
    requires (forall l {:trigger l in blocks} | l in blocks :: Sound(p, blocks[l])) && AllSound(p, cb0)
    ensures Consecutive(cb) && labelPcs.Keys == labelPcs0.Keys + (set l | l in order) && End(cb) == End(cb0) + BlocksSize(blocks, order)
    ensures forall l {:trigger labelPcs[l]} | l in labelPcs0 :: labelPcs[l] == labelPcs0[l]
    ensures LabelsPlaced(blocks, labelPcs.Keys, labelPcs, cb) && AllSound(p, cb)
  {
    NoBlocks(blocks, order);
    hide Sound, AllSound, Consecutive, LabelsPlaced, RealCount, End, BlocksSize;
    cb, labelPcs := cb0, labelPcs0;
    var pc := End(cb);
    var i := 0;
    while i < |order|
      invariant 0 <= i <= |order| && pc == End(cb) == End(cb0) + BlocksSize(blocks, order[..i]) && Consecutive(cb)
      invariant labelPcs.Keys == labelPcs0.Keys + (set l | l in order[..i])
      invariant forall l {:trigger labelPcs[l]} | l in labelPcs0 :: l in labelPcs && labelPcs[l] == labelPcs0[l]
      invariant LabelsPlaced(blocks, labelPcs.Keys, labelPcs, cb) && AllSound(p, cb)
    {
      var l := order[i];
      assert l in order;
      assert order[..i + 1] == order[..i] + [l];
      OneMoreBlock(blocks, order, i);
      ConsecutiveAppend(cb, blocks[l]);
      LabelAdded(blocks, labelPcs, cb, l, pc);
      SoundAppend(p, cb, CodeBlock(pc, blocks[l]));
      labelPcs := labelPcs[l := pc];
      cb := cb + [CodeBlock(pc, blocks[l])];
      pc := pc + RealCount(blocks[l]);
      i := i + 1;
    }
    assert order[..i] == order;
  }

  lemma NoBlocks(blocks: map<Label, Code>, order: seq<Label>)
    ensures order[..0] == [] && BlocksSize(blocks, order[..0]) == 0
  {
  }

  lemma OneMoreBlock(blocks: map<Label, Code>, order: seq<Label>, i: nat)
    requires i < |order| && forall j {:trigger order[j]} | 0 <= j < |order| :: order[j] in blocks
    ensures BlocksSize(blocks, order[..i + 1]) == BlocksSize(blocks, order[..i]) + RealCount(blocks[order[i]])
  {
    var o := order[..i + 1];
    assert o[..i] == order[..i] && o[i] == order[i];
  }

  lemma LabelAdded(blocks: map<Label, Code>, labelPcs: map<Label, nat>, cb: seq<CodeBlock>, l: Label, pc: nat)
    requires LabelsPlaced(blocks, labelPcs.Keys, labelPcs, cb) && l in blocks && l !in labelPcs
    ensures LabelsPlaced(blocks, labelPcs[l := pc].Keys, labelPcs[l := pc], cb + [CodeBlock(pc, blocks[l])])
  {
    var pcs, cb2 := labelPcs[l := pc], cb + [CodeBlock(pc, blocks[l])];
    forall m {:trigger pcs[m]} {:trigger m in pcs.Keys} | m in pcs.Keys ensures m in pcs && m in blocks && CodeBlock(pcs[m], blocks[m]) in cb2 {
      if m == l {
        assert cb2[|cb|] == CodeBlock(pc, blocks[l]);
      } else {
        assert m in labelPcs.Keys;
        assert CodeBlock(labelPcs[m], blocks[m]) in cb;
      }
    }
  }

  /** The arms of one match, each padded with unreachable instructions to the size of the longest. */
  method LayArms(arms: seq<Code>, cb0: seq<CodeBlock>, size: nat, ghost p: Program) returns (cb: seq<CodeBlock>)
    requires Consecutive(cb0) && size == MaxReal(arms) && ArmsSound(p, arms) && AllSound(p, cb0)
    ensures Consecutive(cb) && |cb| == |cb0| + |arms| && cb0 <= cb && End(cb) == ArmPc(End(cb0), |arms|, size)
    ensures forall k: nat {:trigger arms[k]} | k < |arms| ::
              RealCount(arms[k]) <= size && cb[|cb0| + k] == CodeBlock(ArmPc(End(cb0), k, size), Padded(arms[k], size))
    ensures AllSound(p, cb)
  {
    hide Sound, AllSound, Consecutive, MaxReal, RealCount, End, ArmPc, Padded;
    cb := cb0;
    var pc := End(cb0);
    NextArmPc(pc, 0, size);
    var k := 0;
    while k < |arms|
      invariant 0 <= k <= |arms| && Consecutive(cb) && |cb| == |cb0| + k && cb0 <= cb
      invariant pc == End(cb) == ArmPc(End(cb0), k, size)
      invariant forall j: nat {:trigger arms[j]} | j < k ::
                  RealCount(arms[j]) <= size && cb[|cb0| + j] == CodeBlock(ArmPc(End(cb0), j, size), Padded(arms[j], size))
      invariant AllSound(p, cb)
    {
      MaxRealBounds(arms, k);
      assert Sound(p, arms[k]);
      PaddedCount(arms[k], size, p);
      SoundPadded(p, arms[k], size);
      NextArmPc(End(cb0), k, size);
      var block := Padded(arms[k], size);
      ConsecutiveAppend(cb, block);
      SoundAppend(p, cb, CodeBlock(pc, block));
      cb := cb + [CodeBlock(pc, block)];
      pc := pc + size;
      k := k + 1;
    }
  }

  lemma PaddedCount(code: Code, size: nat, p: Program)
    requires RealCount(code) <= size && Sound(p, code)
    ensures RealCount(Padded(code, size)) == size
  {
    PaddedReal(code, size);
  }

  /** Match blocks: None if a match has no arm. */
  method LayMatches(matches: seq<seq<Code>>, cb0: seq<CodeBlock>, ghost p: Program)
      returns (ok: bool, cb: seq<CodeBlock>, firstStarts: seq<nat>, sizes: seq<nat>, ghost armBase: seq<nat>)
    requires Consecutive(cb0) && (forall i {:trigger matches[i]} | 0 <= i < |matches| :: ArmsSound(p, matches[i])) && AllSound(p, cb0)
    ensures ok <==> forall i {:trigger matches[i]} | 0 <= i < |matches| :: matches[i] != []
    ensures ok ==> End(cb) == End(cb0) + MatchesSize(matches)
    ensures ok ==> Consecutive(cb) && cb0 <= cb && MatchesPlaced(matches, |matches|, firstStarts, sizes, armBase, cb)
    ensures ok ==> forall i {:trigger sizes[i]} | 0 <= i < |matches| :: sizes[i] == MaxReal(matches[i])
    ensures ok ==> AllSound(p, cb)
  {
    hide ArmsSound, AllSound, Consecutive, MaxReal, MatchesPlaced, RealCount, End, ArmPc, Padded;
    ok, cb, firstStarts, sizes, armBase := true, cb0, [], [], [];
    NoMatches(matches, cb);
    var i := 0;
    while i < |matches|
      invariant 0 <= i <= |matches| && |firstStarts| == |sizes| == |armBase| == i && End(cb) == End(cb0) + MatchesSize(matches[..i])
      invariant Consecutive(cb) && cb0 <= cb && MatchesPlaced(matches, i, firstStarts, sizes, armBase, cb)
      invariant forall j {:trigger sizes[j]} | 0 <= j < i :: sizes[j] == MaxReal(matches[j])
      invariant forall j {:trigger matches[j]} | 0 <= j < i :: matches[j] != []
      invariant AllSound(p, cb)
    {
      if matches[i] == [] {
        return false, cb, firstStarts, sizes, armBase;
      }
      var size := MaxReal(matches[i]);
      var pc := End(cb);
      var next := LayArms(matches[i], cb, size, p);
      MatchAdded(matches, i, firstStarts, sizes, armBase, cb, next, size);
      OneMoreMatch(matches, i, End(cb0));
      firstStarts := firstStarts + [pc];
      sizes := sizes + [size];
      armBase := armBase + [|cb|];
      cb := next;
      i := i + 1;
    }
    assert matches[..i] == matches;
  }

  lemma OneMoreMatch(matches: seq<seq<Code>>, i: nat, start: nat)
    requires i < |matches|
    ensures start + MatchesSize(matches[..i + 1]) == ArmPc(start + MatchesSize(matches[..i]), |matches[i]|, MaxReal(matches[i]))
  {
    var m := matches[..i + 1];
    assert m[..i] == matches[..i] && m[i] == matches[i];
  }

  lemma NoMatches(matches: seq<seq<Code>>, cb: seq<CodeBlock>)
    ensures MatchesPlaced(matches, 0, [], [], [], cb)
  {
  }

  lemma MatchAdded(matches: seq<seq<Code>>, n: nat, firstStarts: seq<nat>, sizes: seq<nat>, armBase: seq<nat>, cb: seq<CodeBlock>, next: seq<CodeBlock>, size: nat)
    requires MatchesPlaced(matches, n, firstStarts, sizes, armBase, cb) && n < |matches| && cb <= next && |next| == |cb| + |matches[n]|
    requires forall k: nat {:trigger matches[n][k]} | k < |matches[n]| :: RealCount(matches[n][k]) <= size
               && next[|cb| + k] == CodeBlock(ArmPc(End(cb), k, size), Padded(matches[n][k], size))
    ensures MatchesPlaced(matches, n + 1, firstStarts + [End(cb)], sizes + [size], armBase + [|cb|], next)
  {
    hide ArmPc, Padded, RealCount, End;
    var f2, s2, a2 := firstStarts + [End(cb)], sizes + [size], armBase + [|cb|];
    forall i: nat, k: nat {:trigger HasArm(matches, i, k)} | HasArm(matches, i, k) && i < n + 1 ensures ArmPlaced(matches, f2, s2, a2, next, i, k) {
      if i < n {
        assert ArmPlaced(matches, firstStarts, sizes, armBase, cb, i, k);
      }
    }
  }

  // ----- sizes

  /** next_power_of_two. */
  method NextPowerOfTwo(n: nat) returns (p: nat, ghost k: nat)
    ensures p == Pow2(k) && n <= p && (k > 0 ==> Pow2(k - 1) < n)
  {
    p, k := 1, 0;
    while p < n
      invariant p == Pow2(k) && (k > 0 ==> Pow2(k - 1) < n)
      decreases n - p
    {
      p, k := 2 * p, k + 1;
    }
  }

  // ----- the whole program

  /** Blocks end with an instruction, and every match arm holds at least one. */
  ghost predicate Layable(p: Program) {
    && (forall l {:trigger l in p.blocks} | l in p.blocks :: EndsReal(p.blocks[l]))
    && (forall i: nat, k: nat {:trigger p.matches[i][k]} | i < |p.matches| && k < |p.matches[i]| :: EndsReal(p.matches[i][k]) && RealCount(p.matches[i][k]) >= 1)
  }

  /** An enumeration of the labels of the program other than main. */
  ghost predicate Enumerates(order: seq<Label>, p: Program) {
    && (forall i, j {:trigger order[i], order[j]} | 0 <= i < j < |order| :: order[i] != order[j])
    && (forall l {:trigger l in order} {:trigger l in p.blocks} :: l in order <==> l in p.blocks && l != FunctionLabel("main"))
  }

  /** The last cell jumps to itself and keeps the frame. */
  function SelfLoop(pc: nat): LowInstruction { LowJump(LowConst(1), LowConst(Res(pc)), LowFp(0)) }

  ghost predicate LaidOut(p: Program, b: Bytecode) {
    && Linked(b.program, p, b.lay) && Placed(p, b.lay)
    && FunctionLabel("main") in b.lay.labelPcs && b.lay.labelPcs[FunctionLabel("main")] == 0
    && (exists k: nat :: |b.program.code| == Pow2(k)) && MIN_BYTECODE_SIZE <= |b.program.code| <= MAX_BYTECODE_SIZE
    && b.endingPc == |b.program.code| - 1 && b.program.code[b.endingPc] == SelfLoop(b.endingPc)
    && EndProgram in b.lay.labelPcs && b.lay.labelPcs[EndProgram] == b.endingPc
  }

  ghost predicate HasEmptyMatch(p: Program) { exists i {:trigger p.matches[i]} :: 0 <= i < |p.matches| && p.matches[i] == [] }

  /** compile_to_low_level_bytecode; `order` is the order of the label map. */
  method Assemble(p: Program, order: seq<Label>) returns (r: Result<Bytecode>)
    requires Layable(p) && EndProgram !in p.blocks && (FunctionLabel("main") in p.blocks ==> Enumerates(order, p))
    ensures r.Ok? ==> LaidOut(p, r.value)
    ensures r == Err(MissingMain) <==> FunctionLabel("main") !in p.blocks
    ensures r == Err(EmptyMatch) <==> FunctionLabel("main") in p.blocks && HasEmptyMatch(p)
    ensures r == Err(UnresolvedOperand) <==> FunctionLabel("main") in p.blocks && !HasEmptyMatch(p) && !SelfContained(p)
    ensures r == Err(TooLarge) <==> FunctionLabel("main") in p.blocks && !HasEmptyMatch(p) && SelfContained(p)
                                    && ProgramSize(p, order) >= MAX_BYTECODE_SIZE
  {
    hide LabelsPlaced, MatchesPlaced, Consecutive, EndsReal, LaidOut, RealCount, End, SelfContained, BlocksSize, MatchesSize, Sound, AllSound, ArmsSound;
    var main := FunctionLabel("main");
    if main !in p.blocks {
      return Err(MissingMain);
    }
    var cb0 := [CodeBlock(0, p.blocks[main])];
    FirstBlock(p, cb0);
    PartsSound(p, cb0);
    var cb1, labelPcs := LayBlocks(p.blocks, order, cb0, map[main := 0], p);
    assert labelPcs.Keys == p.blocks.Keys;
    var ok, cb2, firstStarts, sizes, armBase := LayMatches(p.matches, cb1, p);
    if !ok {
      return Err(EmptyMatch);
    }
    LabelsPrefix(p.blocks, labelPcs, cb1, cb2);
    r := Finish(p, cb2, labelPcs, firstStarts, sizes, armBase);
  }

  lemma PartsSound(p: Program, cb0: seq<CodeBlock>)
    requires Layable(p) && FunctionLabel("main") in p.blocks && cb0 == [CodeBlock(0, p.blocks[FunctionLabel("main")])]
    ensures forall l {:trigger l in p.blocks} | l in p.blocks :: Sound(p, p.blocks[l])
    ensures AllSound(p, cb0) && forall i {:trigger p.matches[i]} | 0 <= i < |p.matches| :: ArmsSound(p, p.matches[i])
  {
    hide CodeKnown;
    forall i {:trigger p.matches[i]} | 0 <= i < |p.matches| ensures ArmsSound(p, p.matches[i]) {
      forall k {:trigger p.matches[i][k]} | 0 <= k < |p.matches[i]| ensures Sound(p, p.matches[i][k]) {
      }
    }
  }

  lemma FirstBlock(p: Program, cb0: seq<CodeBlock>)
    requires FunctionLabel("main") in p.blocks && cb0 == [CodeBlock(0, p.blocks[FunctionLabel("main")])]
    ensures Consecutive(cb0) && End(cb0) == RealCount(p.blocks[FunctionLabel("main")])
    ensures LabelsPlaced(p.blocks, map[FunctionLabel("main") := 0].Keys, map[FunctionLabel("main") := 0], cb0)
  {
    assert cb0[0] in cb0;
    assert cb0[..0] == [];
  }

  lemma LabelsPrefix(blocks: map<Label, Code>, labelPcs: map<Label, nat>, cb: seq<CodeBlock>, cb2: seq<CodeBlock>)
    requires LabelsPlaced(blocks, labelPcs.Keys, labelPcs, cb) && cb <= cb2
    ensures LabelsPlaced(blocks, labelPcs.Keys, labelPcs, cb2)
  {
    forall l {:trigger labelPcs[l]} {:trigger l in labelPcs.Keys} | l in labelPcs.Keys
      ensures l in labelPcs && l in blocks && CodeBlock(labelPcs[l], blocks[l]) in cb2
    {
      assert CodeBlock(labelPcs[l], blocks[l]) in cb;
      var j :| 0 <= j < |cb| && cb[j] == CodeBlock(labelPcs[l], blocks[l]);
      assert cb2[j] == cb[j];
    }
  }

  // ----- operands that do not resolve

  /** The layout knows the labels of the program, its end, and its matches. */
  ghost predicate Names(lay: Layout, p: Program) {
    lay.labelPcs.Keys == p.blocks.Keys + {EndProgram} && |lay.blockSizes| == |lay.firstStarts| == |p.matches|
  }

  lemma NamesOf(p: Program, lay: Layout, labelPcs0: map<Label, nat>, endingPc: nat, armBase: seq<nat>, cb: seq<CodeBlock>)
    requires labelPcs0.Keys == p.blocks.Keys && lay.labelPcs == labelPcs0[EndProgram := endingPc]
    requires MatchesPlaced(p.matches, |p.matches|, lay.firstStarts, lay.blockSizes, armBase, cb)
    ensures Names(lay, p)
  {
  }

  lemma KnownResolves(p: Program, lay: Layout, code: Code)
    requires Names(lay, p)
    ensures CodeKnown(p, code) <==> !Unresolved(lay, code)
  {
    forall i {:trigger code[i]} | 0 <= i < |code|
      ensures InstructionKnown(p, code[i]) <==> (if IsHint(code[i]) then LowerHint(lay, code[i]).Some? else LowerInstruction(lay, code[i]).Some?)
    {
    }
  }

  lemma ExitKnown(p: Program, n: nat)
    ensures CodeKnown(p, Panics(n) + [Jump(LabelAddress(EndProgram), None)])
  {
  }

  lemma PaddedKnown(p: Program, code: Code, size: nat)
    requires RealCount(code) <= size && CodeKnown(p, Padded(code, size))
    ensures CodeKnown(p, code)
  {
    var all := Padded(code, size);
    forall i {:trigger code[i]} | 0 <= i < |code| ensures InstructionKnown(p, code[i]) {
      assert all[i] == code[i];
    }
  }

  /** Some block fails to resolve exactly when the program refers to something it does not have. */
  lemma WholeResolves(p: Program, lay: Layout, labelPcs0: map<Label, nat>, armBase: seq<nat>, cb: seq<CodeBlock>, start: nat, n: nat)
    requires Names(lay, p) && AllSound(p, cb) && labelPcs0.Keys == p.blocks.Keys && LabelsPlaced(p.blocks, labelPcs0.Keys, labelPcs0, cb)
    requires MatchesPlaced(p.matches, |p.matches|, lay.firstStarts, lay.blockSizes, armBase, cb)
    ensures var cb2 := cb + [CodeBlock(start, Panics(n) + [Jump(LabelAddress(EndProgram), None)])];
            (exists j {:trigger cb2[j]} :: 0 <= j < |cb2| && Unresolved(lay, cb2[j].code)) <==> !SelfContained(p)
  {
    var cb2 := cb + [CodeBlock(start, Panics(n) + [Jump(LabelAddress(EndProgram), None)])];
    forall j {:trigger cb2[j]} | 0 <= j < |cb2| ensures CodeKnown(p, cb2[j].code) <==> !Unresolved(lay, cb2[j].code) {
      KnownResolves(p, lay, cb2[j].code);
    }
    ExitKnown(p, n);
    hide CodeKnown, Unresolved, Panics, Padded, ArmPc, RealCount, EndsReal, Names;
    if SelfContained(p) {
      forall j {:trigger cb2[j]} | 0 <= j < |cb2| ensures CodeKnown(p, cb2[j].code) {
        if j < |cb| {
          assert cb2[j] == cb[j];
        }
      }
    } else if forall j {:trigger cb2[j]} | 0 <= j < |cb2| :: CodeKnown(p, cb2[j].code) {
      forall l {:trigger l in p.blocks} | l in p.blocks ensures CodeKnown(p, p.blocks[l]) {
        assert l in labelPcs0.Keys;
        assert CodeBlock(labelPcs0[l], p.blocks[l]) in cb;
        var j :| 0 <= j < |cb| && cb[j] == CodeBlock(labelPcs0[l], p.blocks[l]);
        assert cb2[j] == cb[j];
      }
      forall i: nat, k: nat {:trigger p.matches[i][k]} | i < |p.matches| && k < |p.matches[i]| ensures CodeKnown(p, p.matches[i][k]) {
        assert HasArm(p.matches, i, k);
        assert ArmPlaced(p.matches, lay.firstStarts, lay.blockSizes, armBase, cb, i, k);
        assert cb2[armBase[i] + k] == cb[armBase[i] + k];
        PaddedKnown(p, p.matches[i][k], lay.blockSizes[i]);
      }
    }
  }

  // ----- the last cell

  lemma SizeLimit(used: nat, least: nat, size: nat, k: nat)
    requires least == (if used + 1 >= MIN_BYTECODE_SIZE then used + 1 else MIN_BYTECODE_SIZE)
    requires size == Pow2(k) && least <= size && (k > 0 ==> Pow2(k - 1) < least)
    ensures size > MAX_BYTECODE_SIZE <==> used >= MAX_BYTECODE_SIZE
  {
    hide Pow2;
    BytecodeSizes();
    if k > MAX_BYTECODE_LOG_SIZE {
      Pow2Monotone(MAX_BYTECODE_LOG_SIZE, k - 1);
    } else {
      Pow2Monotone(k, MAX_BYTECODE_LOG_SIZE);
    }
  }

  /** (n_real_instructions + 1).max(1 << MIN_BYTECODE_LOG_SIZE).next_power_of_two(). */
  method BytecodeSize(used: nat) returns (size: nat, ghost k: nat)
    ensures used < size == Pow2(k) && MIN_BYTECODE_SIZE <= size
    ensures size > MAX_BYTECODE_SIZE <==> used >= MAX_BYTECODE_SIZE
  {
    var least := if used + 1 >= MIN_BYTECODE_SIZE then used + 1 else MIN_BYTECODE_SIZE;
    size, k := NextPowerOfTwo(least);
    SizeLimit(used, least, size, k);
  }

  lemma SoundEnds(p: Program, cb: seq<CodeBlock>, b: CodeBlock)
    requires AllSound(p, cb) && EndsReal(b.code)
    ensures forall j {:trigger (cb + [b])[j]} | 0 <= j < |cb + [b]| :: EndsReal((cb + [b])[j].code)
  {
    forall j {:trigger (cb + [b])[j]} | 0 <= j < |cb + [b]| ensures EndsReal((cb + [b])[j].code) {
      if j < |cb| {
        assert Sound(p, cb[j].code);
      }
    }
  }

  /** Fills up to the last cell of a power of two and emits everything. */
  method Finish(p: Program, cb: seq<CodeBlock>, labelPcs0: map<Label, nat>, firstStarts: seq<nat>, sizes: seq<nat>, ghost armBase: seq<nat>)
      returns (r: Result<Bytecode>)
    requires Layable(p) && EndProgram !in p.blocks && FunctionLabel("main") in labelPcs0 && labelPcs0[FunctionLabel("main")] == 0
    requires Consecutive(cb) && labelPcs0.Keys == p.blocks.Keys && LabelsPlaced(p.blocks, labelPcs0.Keys, labelPcs0, cb)
    requires MatchesPlaced(p.matches, |p.matches|, firstStarts, sizes, armBase, cb)
    requires AllSound(p, cb)
    ensures r.Ok? ==> LaidOut(p, r.value)
    ensures r == Err(UnresolvedOperand) <==> !SelfContained(p)
    ensures r == Err(TooLarge) <==> SelfContained(p) && End(cb) >= MAX_BYTECODE_SIZE
    ensures r.Err? ==> r.error == UnresolvedOperand || r.error == TooLarge
  {
    hide *;
    var used := End(cb);
    var size, k := BytecodeSize(used);
    var endingPc := size - 1;
    var labelPcs := labelPcs0[EndProgram := endingPc];
    var lay := Layout(sizes, firstStarts, labelPcs);
    var exit := Panics(endingPc - used) + [Jump(LabelAddress(EndProgram), None)];
    var cb2 := cb + [CodeBlock(used, exit)];
    NamesOf(p, lay, labelPcs0, endingPc, armBase, cb);
    ExitBlock(cb, exit, endingPc);
    SoundEnds(p, cb, CodeBlock(used, exit));
    WholeResolves(p, lay, labelPcs0, armBase, cb, used, endingPc - used);
    var q := EmitAll(lay, cb2);
    if q.None? {
      return Err(UnresolvedOperand);
    }
    if size > MAX_BYTECODE_SIZE {
      return Err(TooLarge);
    }
    r := Ok(Bytecode(q.value, lay, endingPc));
    FinishedBlocks(p, lay, labelPcs0, armBase, cb, exit, endingPc, cb2);
    FinishedLaidOut(p, q.value, lay, labelPcs0, armBase, cb2, used, endingPc, k);
  }

  /** Everything up to the last cell: the block list with the exit block behind it. */
  lemma FinishedBlocks(p: Program, lay: Layout, labelPcs0: map<Label, nat>, armBase: seq<nat>, cb: seq<CodeBlock>, exit: Code, endingPc: nat,
                       cb2: seq<CodeBlock>)
    requires Consecutive(cb) && LabelsPlaced(p.blocks, labelPcs0.Keys, labelPcs0, cb)
    requires |lay.firstStarts| == |lay.blockSizes| && MatchesPlaced(p.matches, |p.matches|, lay.firstStarts, lay.blockSizes, armBase, cb)
    requires End(cb) <= endingPc && exit == Panics(endingPc - End(cb)) + [Jump(LabelAddress(EndProgram), None)]
    requires cb2 == cb + [CodeBlock(End(cb), exit)]
    ensures Consecutive(cb2) && End(cb2) == endingPc + 1 && RealCount(cb2[|cb2| - 1].code) >= 1
    ensures LabelsPlaced(p.blocks, labelPcs0.Keys, labelPcs0, cb2)
    ensures MatchesPlaced(p.matches, |p.matches|, lay.firstStarts, lay.blockSizes, armBase, cb2)
  {
    hide LabelsPlaced, MatchesPlaced, Consecutive, EndsReal, RealCount, End, Panics;
    var b := CodeBlock(End(cb), exit);
    ExitBlock(cb, exit, endingPc);
    ExitCount(exit, endingPc - End(cb));
    assert cb2[|cb2| - 1] == b;
    MatchesStay(p.matches, |p.matches|, lay.firstStarts, lay.blockSizes, armBase, cb, b);
    LabelsStay(p.blocks, labelPcs0.Keys, labelPcs0, cb, b);
  }

  lemma FinishedLaidOut(p: Program, q: LowProgram, lay: Layout, labelPcs0: map<Label, nat>, armBase: seq<nat>, cb: seq<CodeBlock>, used: nat,
                        endingPc: nat, k: nat)
    requires Layable(p) && EndProgram !in p.blocks && FunctionLabel("main") in labelPcs0 && labelPcs0[FunctionLabel("main")] == 0
    requires Consecutive(cb) && labelPcs0.Keys == p.blocks.Keys && LabelsPlaced(p.blocks, labelPcs0.Keys, labelPcs0, cb)
    requires |lay.firstStarts| == |lay.blockSizes| == |p.matches| && MatchesPlaced(p.matches, |p.matches|, lay.firstStarts, lay.blockSizes, armBase, cb)
    requires lay.labelPcs == labelPcs0[EndProgram := endingPc] && used <= endingPc && |cb| > 0 && End(cb) == endingPc + 1
    requires cb[|cb| - 1] == CodeBlock(used, Panics(endingPc - used) + [Jump(LabelAddress(EndProgram), None)]) && RealCount(cb[|cb| - 1].code) >= 1
    requires MIN_BYTECODE_SIZE <= endingPc + 1 == Pow2(k) <= MAX_BYTECODE_SIZE && |q.code| == endingPc + 1
    requires forall j {:trigger cb[j]} | 0 <= j < |cb| :: Located(q, lay, cb[j].code, cb[j].start, 0)
    ensures LaidOut(p, Bytecode(q, lay, endingPc))
  {
    hide LabelsPlaced, MatchesPlaced, Located, Consecutive, EndsReal, Linked, Placed, RealCount, End, Layable, Panics, Pow2;
    BytecodeSizes();
    FinalPlaced(p, lay, armBase, cb);
    FinalLinked(q, p, lay, labelPcs0, armBase, cb);
    FinalLoop(q, lay, used, endingPc, cb[|cb| - 1]);
  }

  lemma ExitCount(exit: Code, n: nat)
    requires exit == Panics(n) + [Jump(LabelAddress(EndProgram), None)]
    ensures RealCount(exit) == n + 1
  {
    PanicsReal(n);
    RealCountAppend(Panics(n), [Jump(LabelAddress(EndProgram), None)]);
  }

  lemma ExitBlock(cb: seq<CodeBlock>, exit: Code, endingPc: nat)
    requires Consecutive(cb) && End(cb) <= endingPc && exit == Panics(endingPc - End(cb)) + [Jump(LabelAddress(EndProgram), None)]
    ensures Consecutive(cb + [CodeBlock(End(cb), exit)]) && End(cb + [CodeBlock(End(cb), exit)]) == endingPc + 1 && EndsReal(exit)
  {
    PanicsReal(endingPc - End(cb));
    RealCountAppend(Panics(endingPc - End(cb)), [Jump(LabelAddress(EndProgram), None)]);
    ConsecutiveAppend(cb, exit);
  }

  lemma ArmStart(p: Program, lay: Layout, armBase: seq<nat>, cb: seq<CodeBlock>, pc: nat, i: nat, k: nat)
    requires Layable(p) && IsArm(p, lay, pc, i, k) && Consecutive(cb)
    requires MatchesPlaced(p.matches, |p.matches|, lay.firstStarts, lay.blockSizes, armBase, cb)
    ensures i < |armBase| && armBase[i] + k < |cb| && cb[armBase[i] + k].start == pc
    ensures RealCount(p.matches[i][k]) <= lay.blockSizes[i] && cb[armBase[i] + k].code == Padded(p.matches[i][k], lay.blockSizes[i])
    ensures RealCount(cb[armBase[i] + k].code) == lay.blockSizes[i] >= 1
    ensures pc < End(cb)
  {
    assert HasArm(p.matches, i, k);
    assert ArmPlaced(p.matches, lay.firstStarts, lay.blockSizes, armBase, cb, i, k);
    assert EndsReal(p.matches[i][k]) && RealCount(p.matches[i][k]) >= 1;
    PaddedReal(p.matches[i][k], lay.blockSizes[i]);
    EndBounds(cb, armBase[i] + k);
  }

  /** Arms stand at different addresses. */
  lemma FinalPlaced(p: Program, lay: Layout, armBase: seq<nat>, cb: seq<CodeBlock>)
    requires Layable(p) && Consecutive(cb) && End(cb) <= P && |lay.firstStarts| == |lay.blockSizes| >= |p.matches|
    requires MatchesPlaced(p.matches, |p.matches|, lay.firstStarts, lay.blockSizes, armBase, cb)
    ensures Placed(p, lay)
  {
    hide IsArm, Layable, MatchesPlaced, Consecutive;
    forall pc: nat, i: nat, k: nat {:trigger IsArm(p, lay, pc, i, k)} | IsArm(p, lay, pc, i, k) ensures pc < P {
      ArmStart(p, lay, armBase, cb, pc, i, k);
    }
    forall pc: nat, i: nat, k: nat, j: nat, l: nat {:trigger IsArm(p, lay, pc, i, k), IsArm(p, lay, pc, j, l)} |
      IsArm(p, lay, pc, i, k) && IsArm(p, lay, pc, j, l)
      ensures i == j && k == l
    {
      SameArm(p, lay, armBase, cb, pc, i, k, j, l);
    }
  }

  lemma SameArm(p: Program, lay: Layout, armBase: seq<nat>, cb: seq<CodeBlock>, pc: nat, i: nat, k: nat, j: nat, l: nat)
    requires Layable(p) && Consecutive(cb) && IsArm(p, lay, pc, i, k) && IsArm(p, lay, pc, j, l)
    requires MatchesPlaced(p.matches, |p.matches|, lay.firstStarts, lay.blockSizes, armBase, cb)
    ensures i == j && k == l
  {
    ArmStart(p, lay, armBase, cb, pc, i, k);
    ArmStart(p, lay, armBase, cb, pc, j, l);
    var a, b := armBase[i] + k, armBase[j] + l;
    if a < b {
      LaterStart(cb, a, b);
    } else if b < a {
      LaterStart(cb, b, a);
    }
  }

  lemma FinalLinked(q: LowProgram, p: Program, lay: Layout, labelPcs0: map<Label, nat>, armBase: seq<nat>, cb: seq<CodeBlock>)
    requires Layable(p) && Consecutive(cb) && End(cb) <= P && labelPcs0.Keys == p.blocks.Keys && EndProgram !in p.blocks
    requires forall l {:trigger l in labelPcs0} | l in labelPcs0 :: l in lay.labelPcs && lay.labelPcs[l] == labelPcs0[l]
    requires LabelsPlaced(p.blocks, labelPcs0.Keys, labelPcs0, cb)
    requires MatchesPlaced(p.matches, |p.matches|, lay.firstStarts, lay.blockSizes, armBase, cb)
    requires forall j {:trigger cb[j]} | 0 <= j < |cb| :: Located(q, lay, cb[j].code, cb[j].start, 0)
    requires |cb| > 0 && RealCount(cb[|cb| - 1].code) >= 1
    ensures Linked(q, p, lay)
  {
    hide Located, Layable, MatchesPlaced, RealCount;
    forall l {:trigger l in p.blocks} | l in p.blocks
      ensures l in lay.labelPcs && lay.labelPcs[l] < P && Located(q, lay, p.blocks[l], lay.labelPcs[l], 0)
    {
      assert l in labelPcs0.Keys;
      var j :| 0 <= j < |cb| && cb[j] == CodeBlock(labelPcs0[l], p.blocks[l]);
      StartBelowEnd(cb, j);
    }
    forall pc: nat, i: nat, k: nat {:trigger IsArm(p, lay, pc, i, k)} | IsArm(p, lay, pc, i, k) ensures pc < P && Located(q, lay, p.matches[i][k], pc, 0) {
      ArmStart(p, lay, armBase, cb, pc, i, k);
      LocatedPrefix(q, lay, p.matches[i][k], Panics(lay.blockSizes[i] - RealCount(p.matches[i][k])), pc, 0);
    }
  }

  lemma StartBelowEnd(cb: seq<CodeBlock>, j: nat)
    requires Consecutive(cb) && j < |cb| && RealCount(cb[|cb| - 1].code) >= 1
    ensures cb[j].start < End(cb)
  {
    if j < |cb| - 1 {
      LaterStart(cb, j, |cb| - 1);
    }
  }

  lemma {:induction false} PanicsLocated(q: LowProgram, lay: Layout, n: nat, last: Instruction, pc: nat)
    requires Located(q, lay, Panics(n) + [last], pc, 0) && !IsHint(last)
    ensures pc + n < |q.code| && LowerInstruction(lay, last) == Some(q.code[pc + n])
    decreases n
  {
    if n > 0 {
      assert (Panics(n) + [last])[1..] == Panics(n - 1) + [last];
      PanicsLocated(q, lay, n - 1, last, pc + 1);
    } else {
      assert Panics(0) + [last] == [last];
    }
  }

  lemma FinalLoop(q: LowProgram, lay: Layout, used: nat, endingPc: nat, b: CodeBlock)
    requires used <= endingPc && b == CodeBlock(used, Panics(endingPc - used) + [Jump(LabelAddress(EndProgram), None)])
    requires Located(q, lay, b.code, b.start, 0) && EndProgram in lay.labelPcs && lay.labelPcs[EndProgram] == endingPc
    ensures endingPc < |q.code| && q.code[endingPc] == SelfLoop(endingPc)
  {
    PanicsLocated(q, lay, endingPc - used, Jump(LabelAddress(EndProgram), None), used);
  }
}
