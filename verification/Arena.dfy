/**
 The arena allocator in its own form: an array of nodes with a used flag and a link, the list of
 free nodes hanging off node 0. A pointer is the index of its node, null is -1.
 */
module Arena {
  import opened Wrappers
  import opened ArenaModel

  datatype ArenaNode = ArenaNode(used: bool, nextFree: int)

  const NIL := -1

  // The flags of the nodes.
  ghost predicate Flags(pool: seq<ArenaNode>, used: seq<bool>) {
    |pool| == |used| && forall n {:trigger used[n]} :: 0 <= n < |used| ==> pool[n].used == used[n]
  }

  ghost predicate LinkAt(pool: seq<ArenaNode>, free: seq<nat>, i: nat)
    requires i < |free| && free[i] < |pool|
  {
    pool[free[i]].nextFree == if i + 1 < |free| then free[i + 1] else NIL
  }

  // The links from node 0 on spell the list, and end.
  ghost predicate Linked(pool: seq<ArenaNode>, free: seq<nat>) {
    && |pool| >= 1 && pool[0].nextFree == (if free == [] then NIL else free[0])
    && forall i :: 0 <= i < |free| ==> free[i] < |pool| && LinkAt(pool, free, i)
  }

  ghost predicate Represents(pool: seq<ArenaNode>, a: ArenaModel.Arena) {
    Inv(a) && Flags(pool, a.used) && Linked(pool, a.free)
  }

  // Handing out the first node of the list.
  lemma UnlinkFirst(pool: seq<ArenaNode>, a: ArenaModel.Arena, pool': seq<ArenaNode>)
    requires Represents(pool, a) && a.used[0] && a.free != []
    requires a.free[0] < |pool| && a.free[0] != 0
    requires pool' == pool[0 := pool[0].(nextFree := pool[a.free[0]].nextFree)][a.free[0] := ArenaNode(true, NIL)]
    ensures (forall i :: 0 <= i < |a.free| ==> a.free[i] < |a.used|) && Represents(pool', Alloc(a).0)
  {
    AllocKeepsInv(a);
    InRange(a);
    var b := Alloc(a).0;
    assert LinkAt(pool, a.free, 0);
    forall i | 0 <= i < |b.free|
      ensures b.free[i] < |pool'| && LinkAt(pool', b.free, i)
    {
      assert b.free[i] == a.free[i + 1] && LinkAt(pool, a.free, i + 1);
      assert a.free[i + 1] != a.free[0];
    }
  }

  lemma FrontLinked(pool: seq<ArenaNode>, free: seq<nat>, p: nat, pool': seq<ArenaNode>)
    requires Linked(pool, free) && 0 < p < |pool|
    requires forall i :: 0 <= i < |free| ==> free[i] != p && free[i] != 0
    requires pool' == pool[p := ArenaNode(false, pool[0].nextFree)][0 := pool[0].(nextFree := p)]
    ensures Linked(pool', [p] + free)
  {
    var all := [p] + free;
    forall i | 0 <= i < |all|
      ensures all[i] < |pool'| && LinkAt(pool', all, i)
    {
      if i > 0 {
        assert all[i] == free[i - 1] && LinkAt(pool, free, i - 1);
      }
    }
  }

  // Putting a node in front of the list.
  lemma LinkFirst(pool: seq<ArenaNode>, a: ArenaModel.Arena, p: nat, pool': seq<ArenaNode>)
    requires Represents(pool, a) && 0 < p < |pool| && a.used[p]
    requires pool' == pool[p := ArenaNode(false, pool[0].nextFree)][0 := pool[0].(nextFree := p)]
    ensures Represents(pool', Free(a, p).0)
  {
    FreeKeepsInv(a, p);
    InRange(a);
    FrontLinked(pool, a.free, p, pool');
  }

  class FixedArenaAllocator {
    const pool: array<ArenaNode>
    ghost var arena: ArenaModel.Arena

    ghost predicate Valid()
      reads this, pool
    {
      Represents(pool[..], arena)
    }

    constructor (poolSize: nat)
      requires poolSize >= 1
      ensures Valid() && arena == ArenaModel.Init(poolSize) && fresh(pool)
    {
      pool := new ArenaNode[poolSize](_ => ArenaNode(false, NIL));
      arena := ArenaModel.Init(poolSize);
      new;
      for i := 0 to poolSize - 1
        invariant forall n :: 0 <= n < poolSize ==> pool[n] == ArenaNode(false, if n < i then n + 1 else NIL)
        modifies pool
      {
        pool[i] := pool[i].(nextFree := i + 1);
      }
      InitInv(poolSize);
      forall i | 0 <= i < |arena.free|
        ensures LinkAt(pool[..], arena.free, i)
      {
      }
    }

    method Alloc() returns (p: int)
      requires Valid()
      modifies this`arena, pool
      ensures Valid() && (forall i :: 0 <= i < |old(arena).free| ==> old(arena).free[i] < |old(arena).used|)
      ensures arena == ArenaModel.Alloc(old(arena)).0
      ensures p == match ArenaModel.Alloc(old(arena)).1 case None => NIL case Some(n) => n
    {
      AllocKeepsInv(arena);
      InRange(arena);
      ghost var was, a := pool[..], arena;
      assert pool[0].used == a.used[0];
      arena := ArenaModel.Alloc(arena).0;
      if !pool[0].used {
        pool[0] := pool[0].(used := true);
        KeepsLinks(was, pool[..], a.free);
        return 0;
      }
      if pool[0].nextFree == NIL {
        return NIL;
      }
      var oldFree := pool[0].nextFree;
      var newFree := pool[oldFree].nextFree;
      pool[0] := pool[0].(nextFree := newFree);
      pool[oldFree] := ArenaNode(true, NIL);
      UnlinkFirst(was, a, pool[..]);
      return oldFree;
    }

    method Free(p: int) returns (ok: bool)
      requires Valid()
      modifies this`arena, pool
      ensures Valid() && arena == ArenaModel.Free(old(arena), p).0 && ok == ArenaModel.Free(old(arena), p).1
    {
      if p < 0 || p >= pool.Length {
        return false;
      }
      ghost var was, a := pool[..], arena;
      assert pool[p].used == a.used[p];
      if !pool[p].used {
        return false;
      }
      FreeKeepsInv(a, p);
      if p != 0 {
        pool[p] := pool[p].(nextFree := pool[0].nextFree);
        pool[0] := pool[0].(nextFree := p);
      }
      pool[p] := pool[p].(used := false);
      arena := ArenaModel.Free(a, p).0;
      if p != 0 {
        LinkFirst(was, a, p, pool[..]);
      } else {
        KeepsLinks(was, pool[..], a.free);
      }
      return true;
    }
  }

  // Only the flag of node 0 differs.
  lemma KeepsLinks(pool: seq<ArenaNode>, pool': seq<ArenaNode>, free: seq<nat>)
    requires Linked(pool, free) && |pool'| == |pool|
    requires forall n :: 0 <= n < |pool| ==> pool'[n].nextFree == pool[n].nextFree
    ensures Linked(pool', free)
  {
    forall i | 0 <= i < |free|
      ensures free[i] < |pool'| && LinkAt(pool', free, i)
    {
      assert LinkAt(pool, free, i);
    }
  }
}
