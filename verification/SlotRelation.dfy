/**
 How frame memory represents the variables in scope: every variable has its own slot, slots and
 temporaries lie below the stack position, everything from it on is unused.
 */
module SlotRelation {
  import opened Field
  import opened Interpolation
  import opened IntermediateCode
  import opened SimpleLang
  import opened CompileLines

  ghost predicate SameKeys(scopes: Scopes<nat>, env: Env) {
    |scopes| == |env| > 0 && forall i {:trigger scopes[i]} {:trigger env[i]} | 0 <= i < |scopes| :: scopes[i].Keys == env[i].Keys
  }

  /** No two variables in scope share a slot. */
  ghost predicate SlotsDistinct(scopes: Scopes<nat>) {
    forall i, v, j, w {:trigger scopes[i][v], scopes[j][w]} |
      0 <= i < |scopes| && v in scopes[i] && 0 <= j < |scopes| && w in scopes[j] && scopes[i][v] == scopes[j][w] :: i == j && v == w
  }

  ghost predicate SlotsBelow(scopes: Scopes<nat>, sp: nat) {
    forall i, v {:trigger scopes[i][v]} | 0 <= i < |scopes| && v in scopes[i] :: scopes[i][v] < sp
  }

  ghost predicate ValuesMatch(scopes: Scopes<nat>, env: Env, mem: Memory)
    requires SameKeys(scopes, env)
  {
    forall i, v {:trigger scopes[i][v]} {:trigger env[i][v]} | 0 <= i < |scopes| && v in scopes[i] && v in env[i] ::
      env[i][v] == Get(mem, scopes[i][v])
  }

  /** Nothing is stored between the stack position and hi. */
  ghost predicate MemoryFree(mem: Memory, sp: nat, hi: nat) { forall o {:trigger o in mem} | o in mem :: o < sp || o >= hi }

  /** Cells from hi on are as before. */
  ghost predicate HighKept(mem: Memory, mem2: Memory, hi: nat) {
    forall o: nat {:trigger Get(mem, o)} {:trigger Get(mem2, o)} | o >= hi :: Get(mem, o) == Get(mem2, o)
  }

  /** Reserved cells (return slots) are neither written nor given to a variable. */
  ghost predicate Untouched(scopes: Scopes<nat>, mem: Memory, reserved: set<nat>, sp: nat) {
    && (forall o {:trigger o in reserved} | o in reserved :: o < sp && o !in mem)
    && (forall i, v {:trigger scopes[i][v]} | 0 <= i < |scopes| && v in scopes[i] :: scopes[i][v] !in reserved)
  }

  /** Cells that stay as they are: the caller's code address and frame pointer. */
  ghost predicate KeepsLinkage(scopes: Scopes<nat>, mem: Memory) {
    && 0 in mem && 1 in mem
    && (forall i, v {:trigger scopes[i][v]} | 0 <= i < |scopes| && v in scopes[i] :: scopes[i][v] >= 2)
  }

  ghost predicate Rel(scopes: Scopes<nat>, sp: nat, hi: nat, env: Env, mem: Memory, reserved: set<nat>) {
    SameKeys(scopes, env) && SlotsDistinct(scopes) && SlotsBelow(scopes, sp) && ValuesMatch(scopes, env, mem) && MemoryFree(mem, sp, hi)
    && Untouched(scopes, mem, reserved, sp) && KeepsLinkage(scopes, mem) && 2 <= sp <= hi
  }

  lemma {:induction false} SameFind(scopes: Scopes<nat>, env: Env, v: Var)
    requires |scopes| == |env| && forall i {:trigger scopes[i]} {:trigger env[i]} | 0 <= i < |scopes| :: scopes[i].Keys == env[i].Keys
    ensures Find(scopes, v) == Find(env, v)
    decreases |scopes|
  {
    if scopes != [] {
      var n := |scopes|;
      assert scopes[n - 1].Keys == env[n - 1].Keys;
      assert v in scopes[n - 1] <==> v in env[n - 1];
      SameFind(scopes[..n - 1], env[..n - 1], v);
    }
  }

  /** Reading a variable reads its slot. */
  lemma SameValue(scopes: Scopes<nat>, sp: nat, hi: nat, env: Env, mem: Memory, reserved: set<nat>, e: Expr, lay: Layout)
    requires Rel(scopes, sp, hi, env, mem, reserved) && OperandOf(scopes, e).Some?
    ensures Eval(env, e) == Value(lay, mem, OperandOf(scopes, e).value)
    ensures OperandOf(scopes, e).value.MemoryAfterFp? ==> OperandOf(scopes, e).value.offset < sp
  {
    if e.Name? {
      SameFind(scopes, env, e.v);
      var i := Find(scopes, e.v).value;
      assert scopes[i].Keys == env[i].Keys;
      assert e.v in env[i];
    }
  }

  ghost predicate SetAt(env: Env, env1: Env, i: nat, v: Var, x: Fe) {
    i < |env| && v in env[i] && env1 == env[i := env[i][v := Some(x)]]
  }

  lemma SetKeepsKeys(scopes: Scopes<nat>, env: Env, env1: Env, i: nat, v: Var, x: Fe)
    requires SameKeys(scopes, env) && SetAt(env, env1, i, v, x)
    ensures SameKeys(scopes, env1)
  {
    assert env1[i].Keys == env[i].Keys;
    forall j {:trigger scopes[j]} {:trigger env1[j]} | 0 <= j < |scopes| ensures scopes[j].Keys == env1[j].Keys {
      assert scopes[j].Keys == env[j].Keys;
    }
  }

  lemma SetMatches(scopes: Scopes<nat>, env: Env, env1: Env, mem: Memory, i: nat, v: Var, x: Fe)
    requires SameKeys(scopes, env) && SameKeys(scopes, env1) && SlotsDistinct(scopes) && ValuesMatch(scopes, env, mem)
    requires SetAt(env, env1, i, v, x) && v in scopes[i]
    ensures ValuesMatch(scopes, env1, mem[scopes[i][v] := x])
  {
    assert |env1| == |scopes| == |env|;
    hide SameKeys;
    var mem1 := mem[scopes[i][v] := x];
    forall j, w {:trigger scopes[j][w]} {:trigger env1[j][w]} | 0 <= j < |scopes| && w in scopes[j] && w in env1[j]
      ensures env1[j][w] == Get(mem1, scopes[j][w])
    {
      if j != i || w != v {
        assert scopes[j][w] != scopes[i][v];
        assert w in env[j] && env[j][w] == Get(mem, scopes[j][w]);
      }
    }
  }

  lemma WriteFrame(scopes: Scopes<nat>, sp: nat, hi: nat, mem: Memory, reserved: set<nat>, i: nat, v: Var, x: Fe)
    requires SlotsBelow(scopes, sp) && MemoryFree(mem, sp, hi) && Untouched(scopes, mem, reserved, sp) && KeepsLinkage(scopes, mem)
    requires i < |scopes| && v in scopes[i] && sp <= hi
    ensures var mem1 := mem[scopes[i][v] := x];
            MemoryFree(mem1, sp, hi) && Untouched(scopes, mem1, reserved, sp) && KeepsLinkage(scopes, mem1) && HighKept(mem, mem1, hi)
  {
  }

  /** Assigning an unset variable writes its slot. */
  lemma SameWrite(scopes: Scopes<nat>, sp: nat, hi: nat, env: Env, mem: Memory, reserved: set<nat>, e: Expr, x: Fe, lay: Layout)
    requires Rel(scopes, sp, hi, env, mem, reserved) && OperandOf(scopes, e).Some? && Eval(env, e).None?
    ensures SetVar(env, e, x).Some? && Write(mem, OperandOf(scopes, e).value, x).Some?
    ensures Rel(scopes, sp, hi, SetVar(env, e, x).value, Write(mem, OperandOf(scopes, e).value, x).value, reserved)
    ensures HighKept(mem, Write(mem, OperandOf(scopes, e).value, x).value, hi)
    ensures |SetVar(env, e, x).value| == |env|
  {
    var v := e.v;
    SameFind(scopes, env, v);
    var i := Find(scopes, v).value;
    var env1 := SetVar(env, e, x).value;
    assert v in scopes[i] && v in env[i];
    hide SlotsDistinct, ValuesMatch, SameKeys, SlotsBelow, MemoryFree, Untouched, KeepsLinkage, HighKept;
    SetKeepsKeys(scopes, env, env1, i, v, x);
    SetMatches(scopes, env, env1, mem, i, v, x);
    WriteFrame(scopes, sp, hi, mem, reserved, i, v, x);
  }

  /** An equation on variables and the computation on their slots succeed together. */
  lemma SameEquation(scopes: Scopes<nat>, sp: nat, hi: nat, env: Env, mem: Memory, reserved: set<nat>, lay: Layout,
                     op: Operation, a: Expr, b: Expr, res: Expr)
    requires Rel(scopes, sp, hi, env, mem, reserved)
    requires OperandOf(scopes, a).Some? && OperandOf(scopes, b).Some? && OperandOf(scopes, res).Some?
    ensures var r := ExecComputation(lay, mem, op, OperandOf(scopes, a).value, OperandOf(scopes, b).value, OperandOf(scopes, res).value);
            var q := Equation(env, op, a, b, res);
            (r.Some? <==> q.Some?) && (q.Some? ==> |q.value| == |env| && Rel(scopes, sp, hi, q.value, r.value, reserved) && HighKept(mem, r.value, hi))
  {
    hide Rel;
    SameValue(scopes, sp, hi, env, mem, reserved, a, lay);
    SameValue(scopes, sp, hi, env, mem, reserved, b, lay);
    SameValue(scopes, sp, hi, env, mem, reserved, res, lay);
    match Solve(op, Eval(env, a), Eval(env, b), Eval(env, res))
    case SetA(x) => SameWrite(scopes, sp, hi, env, mem, reserved, a, x, lay);
    case SetB(x) => SameWrite(scopes, sp, hi, env, mem, reserved, b, x, lay);
    case SetRes(x) => SameWrite(scopes, sp, hi, env, mem, reserved, res, x, lay);
    case Holds =>
    case Fails =>
  }

  ghost predicate IsNew<T>(s: Scopes<T>, i: int, w: Var, v: Var) { i == |s| - 1 && w == v }

  lemma InsertedAt<T>(s: Scopes<T>, v: Var, x: T, i: int, w: Var)
    requires s != [] && 0 <= i < |s| && w in InsertLast(s, v, x)[i]
    ensures IsNew(s, i, w, v) ==> InsertLast(s, v, x)[i][w] == x
    ensures !IsNew(s, i, w, v) ==> w in s[i] && InsertLast(s, v, x)[i][w] == s[i][w]
  {
  }

  lemma InsertedKeys(scopes: Scopes<nat>, env: Env, v: Var, sp: nat)
    requires SameKeys(scopes, env)
    ensures SameKeys(InsertLast(scopes, v, sp), InsertLast(env, v, None))
  {
    var s1, e1 := InsertLast(scopes, v, sp), InsertLast(env, v, None);
    forall i {:trigger s1[i]} {:trigger e1[i]} | 0 <= i < |s1| ensures s1[i].Keys == e1[i].Keys {
      assert scopes[i].Keys == env[i].Keys;
    }
  }

  lemma InsertedDistinct(scopes: Scopes<nat>, v: Var, sp: nat)
    requires scopes != [] && SlotsDistinct(scopes) && SlotsBelow(scopes, sp)
    ensures SlotsDistinct(InsertLast(scopes, v, sp)) && SlotsBelow(InsertLast(scopes, v, sp), sp + 1)
  {
    var s1 := InsertLast(scopes, v, sp);
    forall i, w {:trigger s1[i][w]} | 0 <= i < |s1| && w in s1[i] ensures s1[i][w] < sp + 1 && (s1[i][w] == sp <==> IsNew(scopes, i, w, v)) {
      InsertedAt(scopes, v, sp, i, w);
    }
    forall i, u, j, w {:trigger s1[i][u], s1[j][w]} | 0 <= i < |s1| && u in s1[i] && 0 <= j < |s1| && w in s1[j] && s1[i][u] == s1[j][w]
      ensures i == j && u == w
    {
      InsertedAt(scopes, v, sp, i, u);
      InsertedAt(scopes, v, sp, j, w);
    }
  }

  /** A new variable takes the next free slot. */
  lemma DeclareKeeps(scopes: Scopes<nat>, sp: nat, hi: nat, env: Env, mem: Memory, reserved: set<nat>, v: Var)
    requires Rel(scopes, sp, hi, env, mem, reserved) && sp < hi
    ensures Rel(InsertLast(scopes, v, sp), sp + 1, hi, InsertLast(env, v, None), mem, reserved)
  {
    var s1, e1 := InsertLast(scopes, v, sp), InsertLast(env, v, None);
    InsertedKeys(scopes, env, v, sp);
    InsertedDistinct(scopes, v, sp);
    hide InsertLast, SlotsDistinct, SameKeys;
    forall i, w {:trigger s1[i][w]} | 0 <= i < |s1| && w in s1[i] ensures s1[i][w] >= 2 && s1[i][w] !in reserved {
      InsertedAt(scopes, v, sp, i, w);
    }
    forall i, w {:trigger s1[i][w]} {:trigger e1[i][w]} | 0 <= i < |s1| && w in s1[i] && w in e1[i]
      ensures e1[i][w] == Get(mem, s1[i][w])
    {
      InsertedAt(scopes, v, sp, i, w);
      InsertedAt(env, v, None, i, w);
      if !IsNew(scopes, i, w, v) {
        assert env[i][w] == Get(mem, scopes[i][w]);
      }
    }
  }

  /** Temporaries: a write at the stack position, which moves past it. */
  lemma TemporaryKeeps(scopes: Scopes<nat>, sp: nat, hi: nat, env: Env, mem: Memory, reserved: set<nat>, x: Fe)
    requires Rel(scopes, sp, hi, env, mem, reserved) && sp < hi
    ensures sp !in mem && HighKept(mem, mem[sp := x], hi) && Rel(scopes, sp + 1, hi, env, mem[sp := x], reserved)
  {
    var m1 := mem[sp := x];
    forall i, v {:trigger scopes[i][v]} {:trigger env[i][v]} | 0 <= i < |scopes| && v in scopes[i] && v in env[i]
      ensures env[i][v] == Get(m1, scopes[i][v])
    {
      assert scopes[i][v] < sp;
    }
  }

  lemma Raise(scopes: Scopes<nat>, sp: nat, hi: nat, env: Env, mem: Memory, reserved: set<nat>, sp1: nat)
    requires Rel(scopes, sp, hi, env, mem, reserved) && sp <= sp1 <= hi
    ensures Rel(scopes, sp1, hi, env, mem, reserved)
  {
  }

  lemma PushKeeps(scopes: Scopes<nat>, sp: nat, hi: nat, env: Env, mem: Memory, reserved: set<nat>)
    requires Rel(scopes, sp, hi, env, mem, reserved)
    ensures Rel(scopes + [map[]], sp, hi, env + [map[]], mem, reserved)
  {
    var s1, e1 := scopes + [map[]], env + [map[]];
    assert SameKeys(s1, e1);
    forall i, v {:trigger s1[i][v]} | 0 <= i < |s1| && v in s1[i] ensures i < |scopes| && v in scopes[i] && s1[i][v] == scopes[i][v] {
    }
    forall i, v {:trigger s1[i][v]} {:trigger e1[i][v]} | 0 <= i < |s1| && v in s1[i] && v in e1[i]
      ensures e1[i][v] == Get(mem, s1[i][v])
    {
      assert env[i][v] == Get(mem, scopes[i][v]);
    }
  }

  lemma PopKeeps(scopes: Scopes<nat>, sp: nat, hi: nat, env: Env, mem: Memory, reserved: set<nat>)
    requires Rel(scopes, sp, hi, env, mem, reserved) && |scopes| > 1
    ensures Rel(scopes[..|scopes| - 1], sp, hi, env[..|env| - 1], mem, reserved)
  {
    var s1, e1 := scopes[..|scopes| - 1], env[..|env| - 1];
    forall i {:trigger s1[i]} {:trigger e1[i]} | 0 <= i < |s1| ensures s1[i].Keys == e1[i].Keys {
      assert scopes[i].Keys == env[i].Keys;
    }
    assert SameKeys(s1, e1);
    forall i, v {:trigger s1[i][v]} {:trigger e1[i][v]} | 0 <= i < |s1| && v in s1[i] && v in e1[i]
      ensures e1[i][v] == Get(mem, s1[i][v])
    {
      assert env[i][v] == Get(mem, scopes[i][v]);
    }
    forall i, v {:trigger s1[i][v]} | 0 <= i < |s1| && v in s1[i] ensures s1[i][v] == scopes[i][v] {
    }
  }
}
