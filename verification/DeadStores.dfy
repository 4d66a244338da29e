/**
 Variables that are stored and never read (compute_dead_vars and collect_use_info,
 crates/lean_compiler/src/b_compile_intermediate.rs): their declarations and assignments leave no
 code.
 */
module DeadStores {
  import opened SimpleLang
  import opened Sequences

  /** operand_exprs: what a line reads; the target of an assignment is not read. */
  function Operands(line: Line): seq<Expr> {
    match line
    case ForwardDeclaration(_) => []
    case Assignment(_, _, a, b) => [a, b]
    case AssertEq(l, r) => [l, r]
    case IfNotZero(c, _, _) => [c]
    case Match(value, _, _) => [value]
    case PanicLine => []
    case FunctionRet(data) => data
  }

  function Occurrences(data: seq<Expr>, v: Var): nat {
    if data == [] then 0 else (if data[0] == Name(v) then 1 else 0) + Occurrences(data[1..], v)
  }

  function DeclaredBy(line: Line): set<Var> {
    if line.ForwardDeclaration? then {line.v}
    else if line.Assignment? && line.target.Name? then {line.target.v}
    else {}
  }

  // ----- declarations and uses, nested blocks included

  function Declared(lines: seq<Line>): set<Var>
    decreases lines, 1
  {
    if lines == [] then {} else DeclaredBy(lines[0]) + DeclaredInside(lines[0], lines) + Declared(lines[1..])
  }

  function DeclaredInside(line: Line, ghost lines: seq<Line>): set<Var>
    requires lines != [] && line == lines[0]
    decreases lines, 0
  {
    match line
    case IfNotZero(_, t, e) => Declared(t) + Declared(e)
    case Match(_, arms, _) => DeclaredInArms(arms)
    case _ => {}
  }

  function DeclaredInArms(arms: seq<Arm>): set<Var>
    decreases arms, 0
  {
    if arms == [] then {} else Declared(arms[0].body) + DeclaredInArms(arms[1..])
  }

  function Uses(lines: seq<Line>, v: Var): nat
    decreases lines, 1
  {
    if lines == [] then 0 else Occurrences(Operands(lines[0]), v) + UsesInside(lines[0], v, lines) + Uses(lines[1..], v)
  }

  function UsesInside(line: Line, v: Var, ghost lines: seq<Line>): nat
    requires lines != [] && line == lines[0]
    decreases lines, 0
  {
    match line
    case IfNotZero(_, t, e) => Uses(t, v) + Uses(e, v)
    case Match(_, arms, _) => UsesInArms(arms, v)
    case _ => 0
  }

  function UsesInArms(arms: seq<Arm>, v: Var): nat
    decreases arms, 0
  {
    if arms == [] then 0 else Uses(arms[0].body, v) + UsesInArms(arms[1..], v)
  }

  /** Declared or assigned, and read nowhere. */
  function DeadVars(lines: seq<Line>): set<Var> { set v | v in Declared(lines) && Uses(lines, v) == 0 }

  // ----- the walk that collects them

  /** total_uses of a variable; absent means 0. */
  function CountIn(uses: map<Var, nat>, v: Var): nat { if v in uses then uses[v] else 0 }

  /** collect_use_info without the pointer analysis: declarations and operand uses are added up. */
  method CollectUseInfo(lines: seq<Line>, declared0: set<Var>, uses0: map<Var, nat>) returns (declared: set<Var>, uses: map<Var, nat>)
    ensures declared == declared0 + Declared(lines)
    ensures forall v {:trigger CountIn(uses, v)} :: CountIn(uses, v) == CountIn(uses0, v) + Uses(lines, v)
    decreases lines, 1
  {
    declared, uses := declared0, uses0;
    var k := 0;
    while k < |lines|
      invariant 0 <= k <= |lines|
      invariant declared + Declared(lines[k..]) == declared0 + Declared(lines)
      invariant forall v {:trigger CountIn(uses, v)} :: CountIn(uses, v) + Uses(lines[k..], v) == CountIn(uses0, v) + Uses(lines, v)
    {
      TailFrom(lines, k);
      declared := declared + DeclaredBy(lines[k]);
      uses := AddOperands(Operands(lines[k]), uses);
      match lines[k] {
        case IfNotZero(_, t, e) =>
          declared, uses := CollectUseInfo(t, declared, uses);
          declared, uses := CollectUseInfo(e, declared, uses);
        case Match(_, arms, _) =>
          declared, uses := CollectInArms(arms, declared, uses);
        case _ =>
      }
      k := k + 1;
    }
  }

  method CollectInArms(arms: seq<Arm>, declared0: set<Var>, uses0: map<Var, nat>) returns (declared: set<Var>, uses: map<Var, nat>)
    ensures declared == declared0 + DeclaredInArms(arms)
    ensures forall v {:trigger CountIn(uses, v)} :: CountIn(uses, v) == CountIn(uses0, v) + UsesInArms(arms, v)
    decreases arms, 0
  {
    declared, uses := declared0, uses0;
    if arms != [] {
      declared, uses := CollectUseInfo(arms[0].body, declared, uses);
      declared, uses := CollectInArms(arms[1..], declared, uses);
    }
  }

  method AddOperands(data: seq<Expr>, uses0: map<Var, nat>) returns (uses: map<Var, nat>)
    ensures forall v {:trigger CountIn(uses, v)} :: CountIn(uses, v) == CountIn(uses0, v) + Occurrences(data, v)
  {
    uses := uses0;
    for k := 0 to |data|
      invariant forall v {:trigger CountIn(uses, v)} :: CountIn(uses, v) + Occurrences(data[k..], v) == CountIn(uses0, v) + Occurrences(data, v)
    {
      TailFrom(data, k);
      ghost var before := uses;
      if data[k].Name? {
        uses := uses[data[k].v := CountIn(uses, data[k].v) + 1];
      }
      forall v ensures CountIn(uses, v) == CountIn(before, v) + if data[k] == Name(v) then 1 else 0 {
      }
    }
  }

  /** compute_dead_vars, the dead stores: declared and without an operand use. */
  method ComputeDeadVars(lines: seq<Line>) returns (dead: set<Var>)
    ensures dead == DeadVars(lines)
  {
    var declared, uses := CollectUseInfo(lines, {}, map[]);
    dead := set v | v in declared && CountIn(uses, v) == 0;
    forall v ensures v in dead <==> v in DeadVars(lines) {
      assert CountIn(uses, v) == CountIn(map[], v) + Uses(lines, v);
    }
  }
}
