/**
 The fixed-size arena allocator as a state machine: which nodes are in use and the order of the
 free list that hangs off node 0. Node 0 itself is never on the list.
 */
module ArenaModel {
  import opened Wrappers

  // used: one flag a node. free: the list from node 0, first to be handed out first.
  datatype Arena = Arena(used: seq<bool>, free: seq<nat>)

  predicate Distinct(s: seq<nat>) {
    forall i, j :: 0 <= i < j < |s| ==> s[i] != s[j]
  }

  // The list holds exactly the unused nodes of index 1 and above, each once.
  ghost predicate Inv(a: Arena) {
    && |a.used| >= 1 && Distinct(a.free)
    && forall n: nat :: n in a.free <==> 1 <= n < |a.used| && !a.used[n]
  }

  function Init(size: nat): Arena
    requires size >= 1
  {
    Arena(seq(size, _ => false), seq(size - 1, i => i + 1))
  }

  lemma InitInv(size: nat)
    requires size >= 1
    ensures Inv(Init(size))
  {
    var a := Init(size);
    forall n: nat
      ensures n in a.free <==> 1 <= n < |a.used| && !a.used[n]
    {
      if 1 <= n < size {
        assert a.free[n - 1] == n;
      }
    }
  }

  function Alloc(a: Arena): (Arena, Option<nat>)
    requires |a.used| >= 1 && forall i :: 0 <= i < |a.free| ==> a.free[i] < |a.used|
  {
    if !a.used[0] then (a.(used := a.used[0 := true]), Some(0))
    else if a.free == [] then (a, None)
    else (Arena(a.used[a.free[0] := true], a.free[1..]), Some(a.free[0]))
  }

  // Pointers are node indices; any other pointer is refused.
  function Free(a: Arena, p: int): (Arena, bool) {
    if p < 0 || p >= |a.used| || !a.used[p] then (a, false)
    else (Arena(a.used[p := false], if p == 0 then a.free else [p] + a.free), true)
  }

  lemma InRange(a: Arena)
    requires Inv(a)
    ensures forall i :: 0 <= i < |a.free| ==> 1 <= a.free[i] < |a.used| && !a.used[a.free[i]]
  {
    forall i | 0 <= i < |a.free|
      ensures 1 <= a.free[i] < |a.used| && !a.used[a.free[i]]
    {
      assert a.free[i] in a.free;
    }
  }

  // Null exactly when every node is in use; otherwise a node that was not.
  lemma AllocKeepsInv(a: Arena)
    requires Inv(a)
    ensures forall i :: 0 <= i < |a.free| ==> a.free[i] < |a.used|
    ensures var (b, r) := Alloc(a);
      && Inv(b) && |b.used| == |a.used|
      && (r == None <==> forall n :: 0 <= n < |a.used| ==> a.used[n])
      && (r == None ==> b == a)
      && (r.Some? ==> r.value < |a.used| && !a.used[r.value] && b.used == a.used[r.value := true])
  {
    InRange(a);
    var (b, r) := Alloc(a);
    if a.used[0] && a.free != [] {
      assert !a.used[a.free[0]];
      forall n: nat
        ensures n in b.free <==> 1 <= n < |b.used| && !b.used[n]
      {
        assert a.free == [a.free[0]] + b.free;
        assert n in a.free <==> n == a.free[0] || n in b.free;
      }
    } else if a.used[0] {
      forall n | 0 <= n < |a.used|
        ensures a.used[n]
      {
        assert n !in a.free;
      }
    }
  }

  // Freeing succeeds exactly for a node in use, and only that node changes.
  lemma FreeKeepsInv(a: Arena, p: int)
    requires Inv(a)
    ensures var (b, ok) := Free(a, p);
      && Inv(b) && (ok <==> 0 <= p < |a.used| && a.used[p])
      && b.used == if ok then a.used[p := false] else a.used
  {
    var (b, ok) := Free(a, p);
    if ok && p != 0 {
      assert p !in a.free;
      forall n: nat
        ensures n in b.free <==> 1 <= n < |b.used| && !b.used[n]
      {
        assert n in b.free <==> n == p || n in a.free;
      }
      assert Distinct(b.free) by {
        forall i, j | 0 <= i < j < |b.free|
          ensures b.free[i] != b.free[j]
        {
          assert b.free[j] == a.free[j - 1];
          assert i > 0 ==> b.free[i] == a.free[i - 1];
        }
      }
    }
  }

  // -------------------------------------------------------------------------- all the runs

  datatype Op = OpAlloc | OpFree(p: int)

  // held: the pointers handed out and not freed, oldest first.
  datatype Run = Run(arena: Arena, held: seq<nat>)

  function Without(s: seq<nat>, n: int): seq<nat> {
    if s == [] then [] else if s[0] == n then s[1..] else [s[0]] + Without(s[1..], n)
  }

  ghost predicate RunInv(r: Run) {
    && Inv(r.arena) && Distinct(r.held)
    && forall n: nat :: n in r.held <==> n < |r.arena.used| && r.arena.used[n]
  }

  ghost function Next(r: Run, op: Op): Run
    requires RunInv(r)
  {
    InRange(r.arena);
    match op
    case OpAlloc =>
      var (b, p) := Alloc(r.arena);
      Run(b, if p.Some? then r.held + [p.value] else r.held)
    case OpFree(p) =>
      var (b, ok) := Free(r.arena, p);
      Run(b, if ok then Without(r.held, p) else r.held)
  }

  lemma {:induction false} WithoutRemoves(s: seq<nat>, n: int)
    requires Distinct(s)
    ensures Distinct(Without(s, n))
    ensures forall m: nat :: m in Without(s, n) <==> m in s && m != n
  {
    if s != [] {
      var rest := s[1..];
      assert Distinct(rest);
      WithoutRemoves(rest, n);
      assert forall m: nat :: m in s <==> m == s[0] || m in rest;
      assert s[0] !in rest;
      if s[0] != n {
        var w := Without(rest, n);
        assert s[0] !in w;
        forall i, j | 0 <= i < j < |[s[0]] + w|
          ensures ([s[0]] + w)[i] != ([s[0]] + w)[j]
        {
          assert ([s[0]] + w)[j] == w[j - 1];
          assert i > 0 ==> ([s[0]] + w)[i] == w[i - 1];
          assert w[j - 1] in w;
        }
      }
    }
  }

  lemma StepKeepsRunInv(r: Run, op: Op)
    requires RunInv(r)
    ensures RunInv(Next(r, op)) && |Next(r, op).arena.used| == |r.arena.used|
  {
    match op
    case OpAlloc =>
      AllocKeepsInv(r.arena);
    case OpFree(p) =>
      FreeKeepsInv(r.arena, p);
      WithoutRemoves(r.held, p);
  }

  ghost function After(r: Run, ops: seq<Op>): (t: Run)
    requires RunInv(r)
    ensures RunInv(t) && |t.arena.used| == |r.arena.used|
    decreases |ops|
  {
    if ops == [] then r else (StepKeepsRunInv(r, ops[0]); After(Next(r, ops[0]), ops[1..]))
  }

  // A set of numbers below n with n elements is all of them.
  lemma {:induction false} Pigeons(s: seq<nat>, n: nat)
    requires Distinct(s) && forall i :: 0 <= i < |s| ==> s[i] < n
    ensures |s| <= n
    ensures |s| == n <==> forall m: nat :: m < n ==> m in s
    decreases n
  {
    assert s == [] || s[0] < n;
    if n > 0 {
      var k := n - 1;
      WithoutRemoves(s, k);
      var w := Without(s, k);
      WithoutLength(s, k);
      forall i | 0 <= i < |w|
        ensures w[i] < k
      {
        assert w[i] in w;
      }
      Pigeons(w, k);
    }
  }

  lemma {:induction false} WithoutLength(s: seq<nat>, n: nat)
    ensures |Without(s, n)| == if n in s then |s| - 1 else |s|
  {
    if s != [] {
      assert n in s <==> n == s[0] || n in s[1..];
      if s[0] != n {
        WithoutLength(s[1..], n);
      }
    }
  }

  // After any calls the pointers held are distinct nodes of the pool, and allocation fails
  // exactly when all nodes are held.
  lemma HeldPointersAreDistinct(size: nat, ops: seq<Op>)
    requires size >= 1
    ensures RunInv(Run(Init(size), []))
    ensures var t := After(Run(Init(size), []), ops);
      && Distinct(t.held) && (forall i :: 0 <= i < |t.held| ==> t.held[i] < size) && |t.held| <= size
      && (forall i :: 0 <= i < |t.arena.free| ==> t.arena.free[i] < |t.arena.used|)
      && (Alloc(t.arena).1 == None <==> |t.held| == size)
  {
    InitInv(size);
    var t := After(Run(Init(size), []), ops);
    AllocKeepsInv(t.arena);
    forall i | 0 <= i < |t.held|
      ensures t.held[i] < size
    {
      assert t.held[i] in t.held;
    }
    Pigeons(t.held, size);
  }

  // ------------------------------------------------------------- the list is not ordered

  predicate Ascending(s: seq<nat>) {
    forall i, j :: 0 <= i < j < |s| ==> s[i] < s[j]
  }

  // Freeing puts a node in front, so order survives only if it is the lowest.
  lemma FreeKeepsOrderIff(a: Arena, p: nat)
    requires Inv(a) && Ascending(a.free) && 0 < p < |a.used| && a.used[p]
    ensures Ascending(Free(a, p).0.free) <==> a.free == [] || p < a.free[0]
  {
    var b := Free(a, p).0;
    assert b.free == [p] + a.free;
    if a.free != [] {
      assert b.free[0] == p && b.free[1] == a.free[0];
      if p < a.free[0] {
        forall i, j | 0 <= i < j < |b.free|
          ensures b.free[i] < b.free[j]
        {
          assert b.free[j] == a.free[j - 1];
          assert i > 0 ==> b.free[i] == a.free[i - 1];
          assert j > 1 ==> a.free[0] < a.free[j - 1];
        }
      }
    }
  }

  // A run of five calls that leaves the list out of order.
  lemma FreeListOutOfOrder()
    ensures RunInv(Run(Init(3), []))
    ensures After(Run(Init(3), []), [OpAlloc, OpAlloc, OpAlloc, OpFree(1), OpFree(2)]).arena.free == [2, 1]
    ensures !Ascending([2, 1])
  {
    InitInv(3);
    var r0 := Run(Init(3), []);
    var r3 := Run(Arena([true, true, true], []), [0, 1, 2]);
    var r5 := Run(Arena([true, false, false], [2, 1]), [0]);
    AllAllocated(r0, r3);
    TwoFreed(r3, r5);
    RunConcat(r0, [OpAlloc, OpAlloc, OpAlloc], [OpFree(1), OpFree(2)]);
    assert [OpAlloc, OpAlloc, OpAlloc] + [OpFree(1), OpFree(2)] == [OpAlloc, OpAlloc, OpAlloc, OpFree(1), OpFree(2)];
    assert [2, 1][0] > [2, 1][1];
  }

  lemma {:induction false} RunConcat(r: Run, a: seq<Op>, b: seq<Op>)
    requires RunInv(r)
    ensures After(r, a + b) == After(After(r, a), b)
    decreases |a|
  {
    if a == [] {
      assert a + b == b;
    } else {
      StepKeepsRunInv(r, a[0]);
      assert (a + b)[1..] == a[1..] + b;
      RunConcat(Next(r, a[0]), a[1..], b);
    }
  }

  lemma AfterOne(r: Run, op: Op, ops: seq<Op>)
    requires RunInv(r)
    ensures RunInv(Next(r, op)) && After(r, [op] + ops) == After(Next(r, op), ops)
  {
    StepKeepsRunInv(r, op);
    assert ([op] + ops)[1..] == ops;
  }

  lemma ThreeAllocs()
    ensures RunInv(Run(Init(3), []))
    ensures var r1 := Run(Arena([true, false, false], [1, 2]), [0]);
      var r2 := Run(Arena([true, true, false], [2]), [0, 1]);
      && Next(Run(Init(3), []), OpAlloc) == r1 && RunInv(r1)
      && Next(r1, OpAlloc) == r2 && RunInv(r2)
      && Next(r2, OpAlloc) == Run(Arena([true, true, true], []), [0, 1, 2])
  {
    InitInv(3);
    var r0 := Run(Init(3), []);
    var r1 := Run(Arena([true, false, false], [1, 2]), [0]);
    var r2 := Run(Arena([true, true, false], [2]), [0, 1]);
    StepKeepsRunInv(r0, OpAlloc);
    assert Next(r0, OpAlloc) == r1;
    StepKeepsRunInv(r1, OpAlloc);
    assert Next(r1, OpAlloc) == r2;
    assert [true, true, false][2 := true] == [true, true, true];
  }

  lemma AllAllocated(r0: Run, r3: Run)
    requires RunInv(r0) && r0 == Run(Init(3), []) && r3 == Run(Arena([true, true, true], []), [0, 1, 2])
    ensures After(r0, [OpAlloc, OpAlloc, OpAlloc]) == r3 && RunInv(r3)
  {
    ThreeAllocs();
    var r1, r2 := Next(r0, OpAlloc), Next(Next(r0, OpAlloc), OpAlloc);
    AfterOne(r0, OpAlloc, [OpAlloc, OpAlloc]);
    AfterOne(r1, OpAlloc, [OpAlloc]);
    AfterOne(r2, OpAlloc, []);
    assert [OpAlloc] + [OpAlloc, OpAlloc] == [OpAlloc, OpAlloc, OpAlloc];
    assert [OpAlloc] + [OpAlloc] == [OpAlloc, OpAlloc] && [OpAlloc] + [] == [OpAlloc];
  }

  lemma TwoFreed(r3: Run, r5: Run)
    requires RunInv(r3) && r3 == Run(Arena([true, true, true], []), [0, 1, 2])
    requires r5 == Run(Arena([true, false, false], [2, 1]), [0])
    ensures After(r3, [OpFree(1), OpFree(2)]) == r5
  {
    var r4 := Run(Arena([true, false, true], [1]), [0, 2]);
    AfterOne(r3, OpFree(1), [OpFree(2)]);
    assert [0, 1, 2][1..] == [1, 2] && [1, 2][1..] == [2];
    assert Next(r3, OpFree(1)) == r4;
    AfterOne(r4, OpFree(2), []);
    assert [0, 2][1..] == [2] && [2][1..] == [];
    assert Next(r4, OpFree(2)) == r5;
    assert [OpFree(1)] + [OpFree(2)] == [OpFree(1), OpFree(2)] && [OpFree(2)] + [] == [OpFree(2)];
  }
}
