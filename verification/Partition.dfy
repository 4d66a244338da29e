/**
 Assigning every aggregated key to a raw signature or to a child proof, and the check made inside the
 aggregation program (crates/rec_aggregation/src/type_1_aggregation.rs,
 crates/rec_aggregation/zkdsl_implem/main.py).
 */
module Partition {
  import opened Interpolation

  /** Public keys, compared by their order. */
  type Key = int

  const MAX_RECURSIONS := 16
  const MAX_N_SIGS := 32768
  const MAX_N_DUPS := 32768

  function Elements(s: seq<Key>): set<Key> { set k | k in s }

  ghost predicate StrictlySorted(s: seq<Key>) { forall i, j {:trigger s[i], s[j]} | 0 <= i < j < |s| :: s[i] < s[j] }

  // ----- sort and dedup

  /** Puts a key in its place of a strictly sorted list, unless it is there already. */
  function Inserted(s: seq<Key>, k: Key): seq<Key> {
    if s == [] then [k]
    else if k < s[0] then [k] + s
    else if k == s[0] then s
    else [s[0]] + Inserted(s[1..], k)
  }

  /** The sorted list without repetitions: sort, then dedup. */
  function SortedSet(s: seq<Key>): seq<Key> {
    if s == [] then [] else Inserted(SortedSet(s[..|s| - 1]), s[|s| - 1])
  }

  lemma ElementsSum(a: seq<Key>, b: seq<Key>)
    ensures Elements(a + b) == Elements(a) + Elements(b)
  {
  }

  lemma StrictCons(x: Key, s: seq<Key>)
    requires StrictlySorted(s) && forall i {:trigger s[i]} | 0 <= i < |s| :: x < s[i]
    ensures StrictlySorted([x] + s)
  {
  }

  lemma {:induction false} InsertedSorted(s: seq<Key>, k: Key)
    requires StrictlySorted(s)
    ensures StrictlySorted(Inserted(s, k)) && Elements(Inserted(s, k)) == Elements(s) + {k}
    decreases |s|
  {
    if s == [] {
      assert Elements([k]) == {k};
    } else if k < s[0] {
      StrictCons(k, s);
      ElementsSum([k], s);
      assert Elements([k]) == {k};
    } else if k > s[0] {
      InsertedSorted(s[1..], k);
      InsertedBehind(s, k, Inserted(s[1..], k));
    } else {
      assert s[0] in s;
    }
  }

  lemma InsertedBehind(s: seq<Key>, k: Key, rest: seq<Key>)
    requires s != [] && StrictlySorted(s) && s[0] < k && StrictlySorted(rest) && Elements(rest) == Elements(s[1..]) + {k}
    ensures StrictlySorted([s[0]] + rest) && Elements([s[0]] + rest) == Elements(s) + {k}
  {
    forall i {:trigger rest[i]} | 0 <= i < |rest| ensures s[0] < rest[i] {
      assert rest[i] in Elements(rest);
      assert rest[i] in s[1..] || rest[i] == k;
    }
    StrictCons(s[0], rest);
    assert s == [s[0]] + s[1..];
    ElementsSum([s[0]], rest);
    ElementsSum([s[0]], s[1..]);
  }

  /** Sorting and dropping repetitions keeps exactly the keys. */
  lemma {:induction false} SortedSetIs(s: seq<Key>)
    ensures StrictlySorted(SortedSet(s)) && Elements(SortedSet(s)) == Elements(s)
    decreases |s|
  {
    if s != [] {
      var n := |s| - 1;
      SortedSetIs(s[..n]);
      InsertedSorted(SortedSet(s[..n]), s[n]);
      assert s == s[..n] + [s[n]];
      ElementsSum(s[..n], [s[n]]);
    }
  }

  /** binary_search on a strictly sorted list that holds the key. */
  method BinarySearch(s: seq<Key>, k: Key) returns (i: nat)
    requires StrictlySorted(s) && k in s
    ensures i < |s| && s[i] == k
  {
    var lo, hi := 0, |s|;
    ghost var p :| 0 <= p < |s| && s[p] == k;
    i := (lo + hi) / 2;
    while s[i] != k
      invariant 0 <= lo <= p < hi <= |s| && i == (lo + hi) / 2
      decreases hi - lo
    {
      if s[i] < k {
        lo := i + 1;
      } else {
        hi := i;
      }
      i := (lo + hi) / 2;
    }
  }

  // ----- the host's assignment

  /** Global keys, extra copies, and the indices given to raw signatures and to every child, all into keys + duplicates. */
  datatype Assignment = Assignment(keys: seq<Key>, duplicates: seq<Key>, rawIndices: seq<nat>, subIndices: seq<seq<nat>>)

  function AllKeys(a: Assignment): seq<Key> { a.keys + a.duplicates }

  function Flat<T>(ss: seq<seq<T>>): seq<T> { if ss == [] then [] else Flat(ss[..|ss| - 1]) + ss[|ss| - 1] }

  /** All indices in the order the program meets them. */
  function Order(a: Assignment): seq<nat> { a.rawIndices + Flat(a.subIndices) }

  /** The indices are 0, 1, ..., n - 1, each exactly once. */
  ghost predicate IsPermutation(s: seq<nat>, n: nat) {
    && |s| == n && (forall i {:trigger s[i]} | 0 <= i < |s| :: s[i] < n)
    && (forall i, j {:trigger s[i], s[j]} | 0 <= i < j < |s| :: s[i] != s[j])
  }

  function Range(n: nat): set<nat> { if n == 0 then {} else Range(n - 1) + {n - 1} }

  lemma {:induction false} RangeIs(n: nat)
    ensures |Range(n)| == n && forall x: nat {:trigger x in Range(n)} :: x in Range(n) <==> x < n
    decreases n
  {
    if n > 0 {
      RangeIs(n - 1);
    }
  }

  function Members(s: seq<nat>): set<nat> { if s == [] then {} else Members(s[..|s| - 1]) + {s[|s| - 1]} }

  lemma {:induction false} DistinctMembers(s: seq<nat>)
    requires forall i, j {:trigger s[i], s[j]} | 0 <= i < j < |s| :: s[i] != s[j]
    ensures |Members(s)| == |s| && forall x {:trigger x in Members(s)} :: x in Members(s) <==> x in s
    decreases |s|
  {
    if s != [] {
      var n := |s| - 1;
      DistinctMembers(s[..n]);
      assert s == s[..n] + [s[n]];
      assert s[n] !in s[..n];
    }
  }

  lemma {:induction false} SubsetCount<T>(a: set<T>, b: set<T>)
    requires a <= b
    ensures |a| <= |b|
    decreases |a|
  {
    if a != {} {
      var x :| x in a;
      SubsetCount(a - {x}, b - {x});
    }
  }

  /** Every index below n occurs: a permutation leaves none out. */
  lemma PermutationCovers(s: seq<nat>, n: nat, x: nat)
    requires IsPermutation(s, n) && x < n
    ensures x in s
  {
    DistinctMembers(s);
    RangeIs(n);
    if x !in s {
      assert Members(s) <= Range(n) - {x};
      SubsetCount(Members(s), Range(n) - {x});
    }
  }

  // ----- invariants of the assignment

  /** Distinct indices; below n_sigs they are the positions of the claimed keys, from n_sigs on those of the duplicates. */
  ghost predicate Consistent(keys: seq<Key>, claimed: set<Key>, dups: seq<Key>, order: seq<nat>) {
    && (forall i, j {:trigger order[i], order[j]} | 0 <= i < j < |order| :: order[i] != order[j])
    && (forall i {:trigger order[i]} | 0 <= i < |order| :: order[i] < |keys| + |dups| && (order[i] < |keys| ==> keys[order[i]] in claimed))
    && claimed <= Elements(keys) && |order| == |claimed| + |dups|
  }

  lemma ClaimNew(keys: seq<Key>, claimed: set<Key>, dups: seq<Key>, order: seq<nat>, k: Key, pos: nat)
    requires StrictlySorted(keys) && Consistent(keys, claimed, dups, order) && k !in claimed && pos < |keys| && keys[pos] == k
    ensures Consistent(keys, claimed + {k}, dups, order + [pos])
  {
  }

  lemma AddDuplicate(keys: seq<Key>, claimed: set<Key>, dups: seq<Key>, order: seq<nat>, k: Key)
    requires Consistent(keys, claimed, dups, order)
    ensures Consistent(keys, claimed, dups + [k], order + [|keys| + |dups|])
  {
  }

  lemma {:induction false} StrictCount(s: seq<Key>)
    requires StrictlySorted(s)
    ensures |Elements(s)| == |s|
    decreases |s|
  {
    if s != [] {
      var n := |s| - 1;
      StrictCount(s[..n]);
      assert s == s[..n] + [s[n]];
      assert Elements(s) == Elements(s[..n]) + {s[n]};
    }
  }

  /** Once every key is claimed the indices are a permutation. */
  lemma AllClaimed(keys: seq<Key>, claimed: set<Key>, dups: seq<Key>, order: seq<nat>)
    requires StrictlySorted(keys) && Consistent(keys, claimed, dups, order) && Elements(keys) <= claimed
    ensures IsPermutation(order, |keys| + |dups|)
  {
    StrictCount(keys);
    assert claimed == Elements(keys);
  }

  /** The indices spell the keys. */
  ghost predicate Spells(all: seq<Key>, indices: seq<nat>, keys: seq<Key>) {
    |indices| == |keys| && forall j {:trigger indices[j]} {:trigger keys[j]} | 0 <= j < |keys| :: indices[j] < |all| && all[indices[j]] == keys[j]
  }

  lemma SpellsMore(all: seq<Key>, extra: seq<Key>, indices: seq<nat>, keys: seq<Key>)
    requires Spells(all, indices, keys)
    ensures Spells(all + extra, indices, keys)
  {
  }

  lemma SpellsNext(all: seq<Key>, indices: seq<nat>, keys: seq<Key>, pos: nat, k: Key)
    requires Spells(all, indices, keys) && pos < |all| && all[pos] == k
    ensures Spells(all, indices + [pos], keys + [k])
  {
  }

  lemma SpellsNothing(all: seq<Key>)
    ensures Spells(all, [], [])
  {
  }

  lemma ConsistentNothing(keys: seq<Key>)
    ensures Consistent(keys, {}, [], [])
  {
  }

  function ChildKeys(children: seq<seq<Key>>): set<Key> {
    if children == [] then {} else ChildKeys(children[..|children| - 1]) + Elements(children[|children| - 1])
  }

  ghost predicate AssignmentGood(a: Assignment, raw: seq<Key>, children: seq<seq<Key>>) {
    && StrictlySorted(a.keys) && Elements(a.keys) == Elements(raw) + ChildKeys(children)
    && IsPermutation(Order(a), |a.keys| + |a.duplicates|)
    && Spells(AllKeys(a), a.rawIndices, SortedSet(raw))
    && |a.subIndices| == |children| && (forall c {:trigger a.subIndices[c]} {:trigger children[c]} | 0 <= c < |children| :: Spells(AllKeys(a), a.subIndices[c], children[c]))
  }

  /** The union of raw and child keys, sorted, without repetitions. */
  method GlobalKeys(raw: seq<Key>, children: seq<seq<Key>>) returns (keys: seq<Key>)
    ensures StrictlySorted(keys) && Elements(keys) == Elements(raw) + ChildKeys(children)
  {
    var all := raw;
    for c := 0 to |children|
      invariant Elements(all) == Elements(raw) + ChildKeys(children[..c])
    {
      assert children[..c + 1][..c] == children[..c];
      ElementsSum(all, children[c]);
      all := all + children[c];
    }
    assert children[..|children|] == children;
    SortedSetIs(all);
    keys := SortedSet(all);
  }

  /** After some children: their keys are claimed, and everything handed out so far spells its keys. */
  ghost predicate Progress(keys: seq<Key>, claimed: set<Key>, dups: seq<Key>, rawIndices: seq<nat>, subIndices: seq<seq<nat>>,
                           raw: seq<Key>, children: seq<seq<Key>>, c: nat) {
    && c <= |children| && |subIndices| == c
    && Consistent(keys, claimed, dups, rawIndices + Flat(subIndices)) && Elements(raw) + ChildKeys(children[..c]) <= claimed
    && Spells(keys + dups, rawIndices, SortedSet(raw))
    && (forall d {:trigger subIndices[d]} {:trigger children[d]} | 0 <= d < c :: Spells(keys + dups, subIndices[d], children[d]))
  }

  lemma ProgressStart(keys: seq<Key>, claimed: set<Key>, rawIndices: seq<nat>, raw: seq<Key>, children: seq<seq<Key>>)
    requires Consistent(keys, claimed, [], rawIndices) && claimed == Elements(raw) && Spells(keys, rawIndices, SortedSet(raw))
    ensures Progress(keys, claimed, [], rawIndices, [], raw, children, 0)
  {
    var none: seq<seq<nat>> := [];
    assert rawIndices + Flat(none) == rawIndices && keys + [] == keys && children[..0] == [];
  }

  lemma ProgressNext(keys: seq<Key>, claimed: set<Key>, dups: seq<Key>, rawIndices: seq<nat>, subIndices: seq<seq<nat>>,
                     raw: seq<Key>, children: seq<seq<Key>>, c: nat, claimed1: set<Key>, extra: seq<Key>, sub: seq<nat>)
    requires Progress(keys, claimed, dups, rawIndices, subIndices, raw, children, c) && c < |children|
    requires Consistent(keys, claimed1, dups + extra, rawIndices + Flat(subIndices) + sub) && claimed1 == claimed + Elements(children[c])
    requires Spells(keys + (dups + extra), sub, children[c])
    ensures Progress(keys, claimed1, dups + extra, rawIndices, subIndices + [sub], raw, children, c + 1)
  {
    assert keys + dups + extra == keys + (dups + extra);
    assert (subIndices + [sub])[..c] == subIndices && children[..c + 1][..c] == children[..c];
    assert rawIndices + Flat(subIndices + [sub]) == rawIndices + Flat(subIndices) + sub;
    hide Consistent, Spells, Elements;
    SpellsMore(keys + dups, extra, rawIndices, SortedSet(raw));
    var subs := subIndices + [sub];
    forall d {:trigger subs[d]} {:trigger children[d]} | 0 <= d < c + 1 ensures Spells(keys + (dups + extra), subs[d], children[d]) {
      if d < c {
        assert subs[d] == subIndices[d];
        SpellsMore(keys + dups, extra, subIndices[d], children[d]);
      }
    }
  }

  lemma ProgressEnd(a: Assignment, claimed: set<Key>, raw: seq<Key>, children: seq<seq<Key>>)
    requires StrictlySorted(a.keys) && Elements(a.keys) == Elements(raw) + ChildKeys(children)
    requires Progress(a.keys, claimed, a.duplicates, a.rawIndices, a.subIndices, raw, children, |children|)
    ensures AssignmentGood(a, raw, children)
  {
    assert children[..|children|] == children;
    hide Spells, Elements;
    AllClaimed(a.keys, claimed, a.duplicates, Order(a));
  }

  /** The index and duplicate assignment of aggregate_type_1. */
  method Assign(raw: seq<Key>, children: seq<seq<Key>>) returns (a: Assignment)
    ensures AssignmentGood(a, raw, children)
  {
    hide Progress, Consistent, Spells, Elements, SortedSet, StrictlySorted, ChildKeys, AssignmentGood, Flat;
    SortedSetIs(raw);
    var rawKeys := SortedSet(raw);
    var keys := GlobalKeys(raw, children);
    var claimed, rawIndices := AssignRaw(keys, rawKeys);
    var dups: seq<Key> := [];
    var subIndices: seq<seq<nat>> := [];
    ProgressStart(keys, claimed, rawIndices, raw, children);
    for c := 0 to |children|
      invariant Progress(keys, claimed, dups, rawIndices, subIndices, raw, children, c)
    {
      ChildIn(children, c);
      ProgressConsistent(keys, claimed, dups, rawIndices, subIndices, raw, children, c);
      var claimed1, dups1, sub := AssignChild(keys, children[c], claimed, dups, rawIndices + Flat(subIndices));
      ghost var extra := dups1[|dups|..];
      assert dups1 == dups + extra;
      ProgressNext(keys, claimed, dups, rawIndices, subIndices, raw, children, c, claimed1, extra, sub);
      claimed, dups, subIndices := claimed1, dups1, subIndices + [sub];
    }
    a := Assignment(keys, dups, rawIndices, subIndices);
    ProgressEnd(a, claimed, raw, children);
  }

  lemma ProgressConsistent(keys: seq<Key>, claimed: set<Key>, dups: seq<Key>, rawIndices: seq<nat>, subIndices: seq<seq<nat>>,
                           raw: seq<Key>, children: seq<seq<Key>>, c: nat)
    requires Progress(keys, claimed, dups, rawIndices, subIndices, raw, children, c)
    ensures Consistent(keys, claimed, dups, rawIndices + Flat(subIndices))
  {
  }

  lemma {:induction false} ChildIn(children: seq<seq<Key>>, c: nat)
    requires c < |children|
    ensures Elements(children[c]) <= ChildKeys(children)
    decreases |children|
  {
    if c < |children| - 1 {
      ChildIn(children[..|children| - 1], c);
    }
  }

  lemma FirstOnes(s: seq<Key>, i: nat)
    requires i < |s|
    ensures s[..i + 1] == s[..i] + [s[i]] && s[i] in s && s[i] in Elements(s)
    ensures Elements(s[..i + 1]) == Elements(s[..i]) + {s[i]}
    ensures StrictlySorted(s) ==> s[i] !in Elements(s[..i])
  {
  }

  lemma ElementIsIn(s: seq<Key>, k: Key)
    ensures k in Elements(s) <==> k in s
  {
  }

  /** Raw signers come first: each key claims its own position. */
  method AssignRaw(keys: seq<Key>, rawKeys: seq<Key>) returns (claimed: set<Key>, indices: seq<nat>)
    requires StrictlySorted(keys) && StrictlySorted(rawKeys) && Elements(rawKeys) <= Elements(keys)
    ensures Consistent(keys, claimed, [], indices) && claimed == Elements(rawKeys) && Spells(keys, indices, rawKeys)
  {
    claimed, indices := {}, [];
    ConsistentNothing(keys);
    SpellsNothing(keys);
    assert Elements(rawKeys[..0]) == {};
    hide Consistent, Spells, StrictlySorted;
    for i := 0 to |rawKeys|
      invariant Consistent(keys, claimed, [], indices) && claimed == Elements(rawKeys[..i]) && Spells(keys, indices, rawKeys[..i])
    {
      FirstOnes(rawKeys, i);
      var pos := BinarySearch(keys, rawKeys[i]);
      ClaimNew(keys, claimed, [], indices, rawKeys[i], pos);
      SpellsNext(keys, indices, rawKeys[..i], pos, rawKeys[i]);
      claimed := claimed + {rawKeys[i]};
      indices := indices + [pos];
    }
    assert rawKeys[..|rawKeys|] == rawKeys;
  }

  /** What one child has been given so far. */
  ghost predicate ChildProgress(keys: seq<Key>, child: seq<Key>, j: nat, claimed0: set<Key>, claimed: set<Key>, dups0: seq<Key>, dups: seq<Key>,
                                order: seq<nat>, sub: seq<nat>) {
    && j <= |child| && Consistent(keys, claimed, dups, order + sub) && claimed == claimed0 + Elements(child[..j]) && dups0 <= dups
    && Spells(keys + dups, sub, child[..j])
  }

  lemma ChildStart(keys: seq<Key>, child: seq<Key>, claimed: set<Key>, dups: seq<Key>, order: seq<nat>)
    requires Consistent(keys, claimed, dups, order)
    ensures ChildProgress(keys, child, 0, claimed, claimed, dups, dups, order, [])
  {
    assert order + [] == order && Elements(child[..0]) == {};
  }

  lemma ChildNew(keys: seq<Key>, child: seq<Key>, j: nat, claimed0: set<Key>, claimed: set<Key>, dups0: seq<Key>, dups: seq<Key>,
                 order: seq<nat>, sub: seq<nat>, pos: nat)
    requires StrictlySorted(keys) && ChildProgress(keys, child, j, claimed0, claimed, dups0, dups, order, sub) && j < |child|
    requires child[j] !in claimed && pos < |keys| && keys[pos] == child[j]
    ensures ChildProgress(keys, child, j + 1, claimed0, claimed + {child[j]}, dups0, dups, order, sub + [pos])
  {
    FirstOnes(child, j);
    hide Consistent, Spells, StrictlySorted, Elements;
    var k, before := child[j], child[..j];
    assert child[..j + 1] == before + [k];
    assert claimed + {k} == claimed0 + (Elements(before) + {k});
    ClaimNew(keys, claimed, dups, order + sub, k, pos);
    assert (keys + dups)[pos] == k;
    SpellsNext(keys + dups, sub, before, pos, k);
    assert order + sub + [pos] == order + (sub + [pos]);
  }

  lemma ChildDuplicate(keys: seq<Key>, child: seq<Key>, j: nat, claimed0: set<Key>, claimed: set<Key>, dups0: seq<Key>, dups: seq<Key>,
                       order: seq<nat>, sub: seq<nat>)
    requires ChildProgress(keys, child, j, claimed0, claimed, dups0, dups, order, sub) && j < |child| && child[j] in claimed
    ensures ChildProgress(keys, child, j + 1, claimed0, claimed, dups0, dups + [child[j]], order, sub + [|keys| + |dups|])
  {
    FirstOnes(child, j);
    hide Consistent, Spells, Elements;
    var k, pos := child[j], |keys| + |dups|;
    AddDuplicate(keys, claimed, dups, order + sub, k);
    SpellsMore(keys + dups, [k], sub, child[..j]);
    assert (keys + dups + [k])[pos] == k;
    SpellsNext(keys + dups + [k], sub, child[..j], pos, k);
    assert order + sub + [pos] == order + (sub + [pos]) && keys + dups + [k] == keys + (dups + [k]);
  }

  lemma ChildDone(keys: seq<Key>, child: seq<Key>, claimed0: set<Key>, claimed: set<Key>, dups0: seq<Key>, dups: seq<Key>, order: seq<nat>, sub: seq<nat>)
    requires ChildProgress(keys, child, |child|, claimed0, claimed, dups0, dups, order, sub)
    ensures Consistent(keys, claimed, dups, order + sub) && claimed == claimed0 + Elements(child) && dups0 <= dups && Spells(keys + dups, sub, child)
  {
    assert child[..|child|] == child;
  }

  /** One child: a key met for the first time takes its position, any other one a duplicate slot. */
  method AssignChild(keys: seq<Key>, child: seq<Key>, claimed0: set<Key>, dups0: seq<Key>, ghost order: seq<nat>)
      returns (claimed: set<Key>, dups: seq<Key>, sub: seq<nat>)
    requires StrictlySorted(keys) && Consistent(keys, claimed0, dups0, order) && Elements(child) <= Elements(keys)
    ensures Consistent(keys, claimed, dups, order + sub) && claimed == claimed0 + Elements(child) && dups0 <= dups
    ensures Spells(keys + dups, sub, child)
  {
    hide Consistent, Spells, StrictlySorted, Elements, ChildProgress;
    claimed, dups, sub := claimed0, dups0, [];
    ChildStart(keys, child, claimed0, dups0, order);
    for j := 0 to |child|
      invariant ChildProgress(keys, child, j, claimed0, claimed, dups0, dups, order, sub)
    {
      ElementIsIn(child, child[j]);
      ElementIsIn(keys, child[j]);
      if child[j] !in claimed {
        var pos := BinarySearch(keys, child[j]);
        ChildNew(keys, child, j, claimed0, claimed, dups0, dups, order, sub, pos);
        claimed := claimed + {child[j]};
        sub := sub + [pos];
      } else {
        ChildDuplicate(keys, child, j, claimed0, claimed, dups0, dups, order, sub);
        sub := sub + [|keys| + |dups|];
        dups := dups + [child[j]];
      }
    }
    ChildDone(keys, child, claimed0, claimed, dups0, dups, order, sub);
  }

  // ----- the program's check

  /** What the program reads: counts, and the indices of raw signatures and of each child. */
  datatype Hints = Hints(nSigs: nat, nDup: nat, rawIndices: seq<nat>, subIndices: seq<seq<nat>>)

  function HintsOf(a: Assignment): Hints { Hints(|a.keys|, |a.duplicates|, a.rawIndices, a.subIndices) }

  function Met(h: Hints): seq<nat> { h.rawIndices + Flat(h.subIndices) }

  /** The bounds the program asserts. */
  ghost predicate Bounded(h: Hints) {
    && h.nSigs != 0 && h.nSigs - 1 < MAX_N_SIGS && |h.subIndices| <= MAX_RECURSIONS && h.nDup < MAX_N_DUPS
    && (|h.subIndices| == 1 ==> h.nDup == 0)
  }

  /** One recursive child, no raw signature: nothing to partition. */
  predicate FastPath(h: Hints) { |h.subIndices| == 1 && h.rawIndices == [] }

  ghost predicate SubSizes(h: Hints) {
    forall c {:trigger h.subIndices[c]} | 0 <= c < |h.subIndices| :: 0 < |h.subIndices[c]| < MAX_N_SIGS
  }

  /** Cells are written once; cell idx holds the counter of the index that was met there. */
  ghost predicate Written(buffer: seq<Option<nat>>, met: seq<nat>) {
    && (forall i {:trigger met[i]} | 0 <= i < |met| :: met[i] < |buffer| && buffer[met[i]] == Some(i))
    && (forall x {:trigger buffer[x]} | 0 <= x < |buffer| && buffer[x].Some? :: buffer[x].value < |met| && met[buffer[x].value] == x)
  }

  lemma WrittenDistinct(buffer: seq<Option<nat>>, met: seq<nat>)
    requires Written(buffer, met)
    ensures forall i, j {:trigger met[i], met[j]} | 0 <= i < j < |met| :: met[i] != met[j]
  {
  }

  lemma CellOf(buffer: seq<Option<nat>>, met: seq<nat>, idx: nat)
    requires Written(buffer, met) && idx < |buffer|
    ensures buffer[idx].Some? <==> idx in met
    ensures buffer[idx].Some? ==> buffer[idx].value < |met|
  {
    if idx in met {
      var i :| 0 <= i < |met| && met[i] == idx;
      assert buffer[met[i]] == Some(i);
    }
  }

  lemma WrittenNext(buffer: seq<Option<nat>>, met: seq<nat>, idx: nat)
    requires Written(buffer, met) && idx < |buffer| && buffer[idx].None?
    ensures Written(buffer[idx := Some(|met|)], met + [idx])
  {
    CellOf(buffer, met, idx);
  }

  /** `buffer[idx] = counter` on a write-once buffer, with the assertion on idx. */
  method Put(buffer: array<Option<nat>>, idx: nat, counter: nat, ghost met: seq<nat>) returns (ok: bool)
    requires Written(buffer[..], met) && counter == |met|
    modifies buffer
    ensures ok <==> idx < buffer.Length && idx !in met
    ensures ok ==> Written(buffer[..], met + [idx])
  {
    hide Written;
    if idx >= buffer.Length {
      return false;
    }
    CellOf(buffer[..], met, idx);
    if buffer[idx].Some? && buffer[idx].value != counter {
      return false;
    }
    ghost var before := buffer[..];
    WrittenNext(before, met, idx);
    buffer[idx] := Some(counter);
    assert buffer[..] == before[idx := Some(counter)];
    ok := true;
  }

  /** All indices are below n and no two are equal. */
  ghost predicate Disjoint(met: seq<nat>, n: nat) {
    && (forall i {:trigger met[i]} | 0 <= i < |met| :: met[i] < n)
    && (forall i, j {:trigger met[i], met[j]} | 0 <= i < j < |met| :: met[i] != met[j])
  }

  lemma DisjointPrefix(met: seq<nat>, rest: seq<nat>, n: nat)
    requires Disjoint(met + rest, n)
    ensures Disjoint(met, n) && (rest != [] ==> rest[0] < n && rest[0] !in met)
  {
    forall i, j {:trigger met[i], met[j]} | 0 <= i < j < |met| ensures met[i] != met[j] {
      assert (met + rest)[i] != (met + rest)[j];
    }
    forall i {:trigger met[i]} | 0 <= i < |met| ensures met[i] < n && (rest != [] ==> rest[0] != met[i]) {
      assert (met + rest)[i] < n;
      if rest != [] {
        assert (met + rest)[i] != (met + rest)[|met|];
      }
    }
    if rest != [] {
      assert (met + rest)[|met|] < n;
    }
  }

  /** Indices written one after the other. */
  method PutAll(buffer: array<Option<nat>>, indices: seq<nat>, counter0: nat, ghost met: seq<nat>) returns (ok: bool, counter: nat)
    requires Written(buffer[..], met) && counter0 == |met|
    modifies buffer
    ensures ok <==> Disjoint(met + indices, buffer.Length)
    ensures ok ==> Written(buffer[..], met + indices) && counter == |met + indices|
  {
    ok, counter := true, counter0;
    var i := 0;
    assert met + indices[..0] == met;
    while i < |indices|
      invariant 0 <= i <= |indices| && Written(buffer[..], met + indices[..i]) && counter == |met| + i
    {
      var fits := Put(buffer, indices[i], counter, met + indices[..i]);
      assert met + indices == met + indices[..i] + indices[i..];
      if !fits {
        if Disjoint(met + indices, buffer.Length) {
          DisjointPrefix(met + indices[..i], indices[i..], buffer.Length);
        }
        return false, counter;
      }
      assert met + indices[..i] + [indices[i]] == met + indices[..i + 1];
      counter := counter + 1;
      i := i + 1;
    }
    assert indices[..i] == indices;
    WrittenDistinct(buffer[..], met + indices);
  }

  lemma {:induction false} FlatPrefix(ss: seq<seq<nat>>, k: nat)
    requires k <= |ss|
    ensures exists rest: seq<nat> :: Flat(ss) == Flat(ss[..k]) + rest
    decreases |ss|
  {
    if k == |ss| {
      assert ss[..k] == ss;
      assert Flat(ss) == Flat(ss[..k]) + [];
    } else {
      var init := ss[..|ss| - 1];
      FlatPrefix(init, k);
      assert init[..k] == ss[..k];
      var rest: seq<nat> :| Flat(init) == Flat(ss[..k]) + rest;
      assert Flat(ss) == Flat(ss[..k]) + (rest + ss[|ss| - 1]);
    }
  }

  lemma PermutationPrefix(h: Hints, c: nat)
    requires c <= |h.subIndices| && IsPermutation(Met(h), h.nSigs + h.nDup)
    ensures Disjoint(h.rawIndices + Flat(h.subIndices[..c]), h.nSigs + h.nDup)
  {
    FlatPrefix(h.subIndices, c);
    var rest: seq<nat> :| Flat(h.subIndices) == Flat(h.subIndices[..c]) + rest;
    assert Met(h) == h.rawIndices + Flat(h.subIndices[..c]) + rest;
    DisjointPrefix(h.rawIndices + Flat(h.subIndices[..c]), rest, h.nSigs + h.nDup);
  }

  lemma WholeIsPermutation(buffer: seq<Option<nat>>, met: seq<nat>)
    requires Written(buffer, met)
    ensures IsPermutation(met, |buffer|) <==> |met| == |buffer|
  {
  }

  lemma NextFlat(h: Hints, c: nat)
    requires c < |h.subIndices|
    ensures h.rawIndices + Flat(h.subIndices[..c]) + h.subIndices[c] == h.rawIndices + Flat(h.subIndices[..c + 1])
  {
    assert h.subIndices[..c + 1][..c] == h.subIndices[..c];
  }

  lemma NothingWritten(buffer: seq<Option<nat>>)
    requires forall x {:trigger buffer[x]} | 0 <= x < |buffer| :: buffer[x] == None
    ensures Written(buffer, [])
  {
  }

  /** The general path accepts exactly when the sizes are in range and the indices met are a permutation of 0 .. n_sigs + n_dup. */
  method CheckGeneral(h: Hints) returns (ok: bool)
    ensures ok <==> SubSizes(h) && IsPermutation(Met(h), h.nSigs + h.nDup)
  {
    hide Written, IsPermutation, Disjoint, Flat;
    var total := h.nSigs + h.nDup;
    var buffer := new Option<nat>[total](_ => None);
    NothingWritten(buffer[..]);
    var counter;
    NoFlat(h);
    assert [] + h.rawIndices == h.rawIndices;
    ok, counter := PutAll(buffer, h.rawIndices, 0, []);
    if !ok {
      if IsPermutation(Met(h), total) {
        PermutationPrefix(h, 0);
      }
      return;
    }
    var c := 0;
    while c < |h.subIndices|
      invariant 0 <= c <= |h.subIndices| && counter == |h.rawIndices + Flat(h.subIndices[..c])|
      invariant Written(buffer[..], h.rawIndices + Flat(h.subIndices[..c]))
      invariant forall d {:trigger h.subIndices[d]} | 0 <= d < c :: 0 < |h.subIndices[d]| < MAX_N_SIGS
    {
      if |h.subIndices[c]| == 0 || |h.subIndices[c]| >= MAX_N_SIGS {
        return false;
      }
      NextFlat(h, c);
      ok, counter := PutAll(buffer, h.subIndices[c], counter, h.rawIndices + Flat(h.subIndices[..c]));
      if !ok {
        if IsPermutation(Met(h), total) {
          PermutationPrefix(h, c + 1);
        }
        return;
      }
      c := c + 1;
    }
    assert h.subIndices[..c] == h.subIndices;
    WholeIsPermutation(buffer[..], Met(h));
    ok := counter == total;
  }

  lemma NoFlat(h: Hints)
    ensures h.rawIndices + Flat(h.subIndices[..0]) == h.rawIndices
  {
  }

  /** What the program asserts, as a whole. */
  ghost predicate Accepts(h: Hints) { Bounded(h) && (FastPath(h) || (SubSizes(h) && IsPermutation(Met(h), h.nSigs + h.nDup))) }

  /** The type-1 path of main: bounds, the shortcut for one child alone, the partition check. */
  method Check(h: Hints) returns (ok: bool)
    ensures ok <==> Accepts(h)
  {
    if h.nSigs == 0 || h.nSigs - 1 >= MAX_N_SIGS || |h.subIndices| > MAX_RECURSIONS || h.nDup >= MAX_N_DUPS {
      return false;
    }
    if |h.subIndices| == 1 {
      if h.nDup != 0 {
        return false;
      }
      if h.rawIndices == [] {
        return true;
      }
    }
    ok := CheckGeneral(h);
  }

  // ----- what acceptance means

  /** In the general path every index, so every aggregated key, belongs to a raw signature or to a child. */
  lemma AcceptedCovers(h: Hints, x: nat)
    requires IsPermutation(Met(h), h.nSigs + h.nDup) && x < h.nSigs
    ensures x in h.rawIndices || exists c {:trigger h.subIndices[c]} :: 0 <= c < |h.subIndices| && x in h.subIndices[c]
  {
    PermutationCovers(Met(h), h.nSigs + h.nDup, x);
    if x !in h.rawIndices {
      FlatMember(h.subIndices, x);
    }
  }

  lemma {:induction false} FlatMember(ss: seq<seq<nat>>, x: nat)
    requires x in Flat(ss)
    ensures exists c {:trigger ss[c]} :: 0 <= c < |ss| && x in ss[c]
    decreases |ss|
  {
    var n := |ss| - 1;
    if x in ss[n] {
    } else {
      FlatMember(ss[..n], x);
      var c :| 0 <= c < n && x in ss[..n][c];
      assert ss[c] == ss[..n][c];
    }
  }

  /** In terms of the assignment: the counts are in range, no child is empty or too long, a single child comes without duplicates. */
  lemma AcceptedByCounts(a: Assignment, raw: seq<Key>, children: seq<seq<Key>>)
    requires AssignmentGood(a, raw, children)
    ensures Accepts(HintsOf(a))
            <==> 0 < |a.keys| <= MAX_N_SIGS && |children| <= MAX_RECURSIONS && |a.duplicates| < MAX_N_DUPS && (|children| == 1 ==> a.duplicates == [])
                 && ((|children| == 1 && SortedSet(raw) == [])
                     || forall c {:trigger children[c]} | 0 <= c < |children| :: 0 < |children[c]| < MAX_N_SIGS)
  {
    var h := HintsOf(a);
    assert Met(h) == Order(a);
    forall c {:trigger h.subIndices[c]} | 0 <= c < |children| ensures |h.subIndices[c]| == |children[c]| {
      assert Spells(AllKeys(a), a.subIndices[c], children[c]);
    }
  }

  // ----- acceptance in terms of the keys given

  function Total(children: seq<seq<Key>>): nat {
    if children == [] then 0 else Total(children[..|children| - 1]) + |children[|children| - 1]|
  }

  function Union(raw: seq<Key>, children: seq<seq<Key>>): set<Key> { Elements(raw) + ChildKeys(children) }

  predicate NoRepeat(s: seq<Key>) { forall i, j {:trigger s[i], s[j]} | 0 <= i < j < |s| :: s[i] != s[j] }

  lemma {:induction false} FlatSize(subs: seq<seq<nat>>, children: seq<seq<Key>>)
    requires |subs| == |children|
    requires forall c {:trigger subs[c]} {:trigger children[c]} | 0 <= c < |children| :: |subs[c]| == |children[c]|
    ensures |Flat(subs)| == Total(children)
    decreases |subs|
  {
    if subs != [] {
      var n := |subs| - 1;
      forall c {:trigger subs[..n][c]} {:trigger children[..n][c]} | 0 <= c < n ensures |subs[..n][c]| == |children[..n][c]| {
        assert subs[..n][c] == subs[c] && children[..n][c] == children[c];
      }
      FlatSize(subs[..n], children[..n]);
    }
  }

  /** The host hands out one duplicate slot for every key beyond the first of its kind. */
  lemma DuplicatesCount(a: Assignment, raw: seq<Key>, children: seq<seq<Key>>)
    requires AssignmentGood(a, raw, children)
    ensures |a.keys| == |Union(raw, children)| && |a.keys| + |a.duplicates| == |Elements(raw)| + Total(children)
    ensures SortedSet(raw) == [] <==> raw == []
  {
    StrictCount(a.keys);
    SortedSetIs(raw);
    StrictCount(SortedSet(raw));
    forall c {:trigger a.subIndices[c]} {:trigger children[c]} | 0 <= c < |children| ensures |a.subIndices[c]| == |children[c]| {
      assert Spells(AllKeys(a), a.subIndices[c], children[c]);
    }
    FlatSize(a.subIndices, children);
    if raw != [] {
      assert raw[0] in Elements(raw);
    }
  }

  lemma {:induction false} ElementsCount(s: seq<Key>)
    ensures |Elements(s)| <= |s| && (|Elements(s)| == |s| <==> NoRepeat(s))
    decreases |s|
  {
    if s != [] {
      var n := |s| - 1;
      ElementsCount(s[..n]);
      assert s == s[..n] + [s[n]];
      assert Elements(s) == Elements(s[..n]) + {s[n]};
      if NoRepeat(s) {
        assert s[n] !in Elements(s[..n]);
      } else if NoRepeat(s[..n]) {
        var i, j :| 0 <= i < j < |s| && s[i] == s[j];
        assert j == n && s[n] in Elements(s[..n]);
      }
    }
  }

  /** One child: no slot is surplus exactly when it repeats no key and shares none with the raw signers. */
  lemma SingleChildCount(raw: seq<Key>, child: seq<Key>)
    ensures |Elements(raw)| + |child| == |Elements(raw) + Elements(child)| <==> NoRepeat(child) && Elements(raw) !! Elements(child)
  {
    ElementsCount(child);
    var r, c := Elements(raw), Elements(child);
    assert r + c == r + (c - r) && |r + (c - r)| == |r| + |c - r|;
    assert c == (c - r) + (c * r) && |c| == |c - r| + |c * r|;
    assert c * r == {} <==> r !! c;
  }

  /**
   The program accepts the host's assignment exactly when there are keys, not too many of them, not too
   many children, fewer than MAX_N_DUPS surplus keys, no empty or over-long child (unless it is alone),
   and a single child neither repeats a key nor shares one with the raw signers.
   */
  lemma HostAcceptedIff(a: Assignment, raw: seq<Key>, children: seq<seq<Key>>)
    requires AssignmentGood(a, raw, children)
    ensures var n := |Union(raw, children)|;
            Accepts(HintsOf(a))
            <==> 0 < n <= MAX_N_SIGS && |children| <= MAX_RECURSIONS && |Elements(raw)| + Total(children) - n < MAX_N_DUPS
                 && (|children| == 1 ==> NoRepeat(children[0]) && Elements(raw) !! Elements(children[0]))
                 && ((|children| == 1 && raw == [])
                     || forall c {:trigger children[c]} | 0 <= c < |children| :: 0 < |children[c]| < MAX_N_SIGS)
  {
    hide *;
    AcceptedByCounts(a, raw, children);
    DuplicatesCount(a, raw, children);
    if |children| == 1 {
      SingleChildSurplus(raw, children);
    }
  }

  lemma SingleChildSurplus(raw: seq<Key>, children: seq<seq<Key>>)
    requires |children| == 1
    ensures |Elements(raw)| + Total(children) == |Union(raw, children)| <==> NoRepeat(children[0]) && Elements(raw) !! Elements(children[0])
  {
    assert children[..0] == [];
    assert ChildKeys(children) == ChildKeys(children[..0]) + Elements(children[0]) == Elements(children[0]);
    assert Total(children) == Total(children[..0]) + |children[0]|;
    SingleChildCount(raw, children[0]);
  }

  /** One child whose key also signs directly: the host gives it a duplicate slot, which the program does not allow with one child. */
  lemma SingleChildOverlap()
    ensures var a := Assignment([7], [7], [0], [[1]]); AssignmentGood(a, [7], [[7]]) && !Accepts(HintsOf(a))
  {
    var a := Assignment([7], [7], [0], [[1]]);
    assert SortedSet([7]) == [7] by {
      assert [7][..0] == [];
      assert SortedSet([]) == [];
    }
    var none: seq<seq<nat>>, noKeys: seq<seq<Key>> := [], [];
    assert [[1]][..0] == none && [[7]][..0] == noKeys;
    assert Flat([[1]]) == Flat(none) + [1];
    assert Flat(none) == [];
    assert Order(a) == [0, 1];
    assert ChildKeys([[7]]) == ChildKeys(noKeys) + Elements([7]);
    assert Elements([7]) == {7};
  }
}
