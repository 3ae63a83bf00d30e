/**
 The rectangle packer itself, in place on its node pool. A node is a struct in one array,
 a node pointer is an index into it (NIL is the null pointer): the caller's num_nodes nodes
 first, then the two nodes embedded in the context. An active list (the skyline) and a free
 list share the pool, both linked through `next`. Ghost sequences say which nodes each list
 holds, in order; `Snapshot` is the value the theorems of module Packing speak about.
 */
module RectPacker {
  import opened Wrappers
  import opened Skyline
  import opened Packing

  datatype Node = Node(x: int, y: int, next: int)

  const NIL := -1

  // The place a node pointer is stored in: the head of the active list or a node's `next`.
  datatype Link = Head | NextOf(node: int)

  // prev is None when no position was found.
  datatype FindResult = FindResult(x: int, y: int, prev: Option<Link>)

  ghost function After(ns: seq<int>, i: int): int
    requires 0 <= i < |ns|
  {
    if i + 1 < |ns| then ns[i + 1] else NIL
  }

  // The i-th node of list ns is in pool m and points to the next one.
  ghost predicate NodeAt(m: seq<Node>, ns: seq<int>, i: int)
    requires 0 <= i < |ns|
  {
    0 <= ns[i] < |m| && m[ns[i]].next == After(ns, i)
  }

  // In pool m, the list starting at head holds exactly the nodes ns, in order.
  ghost predicate Linked(m: seq<Node>, head: int, ns: seq<int>) {
    && head == (if ns == [] then NIL else ns[0])
    && forall i :: 0 <= i < |ns| ==> NodeAt(m, ns, i)
  }

  // Differ is the trigger of NoRepeats and Apart: they are used only where a proof names
  // the two places it compares.
  ghost predicate Differ(a: seq<int>, i: nat, b: seq<int>, j: nat)
    requires i < |a| && j < |b|
  {
    a[i] != b[j]
  }

  ghost predicate NoRepeats(ns: seq<int>) {
    forall i, j :: 0 <= i < j < |ns| ==> Differ(ns, i, ns, j)
  }

  ghost predicate Apart(a: seq<int>, b: seq<int>) {
    forall i, j :: 0 <= i < |a| && 0 <= j < |b| ==> Differ(a, i, b, j)
  }

  lemma AllDiffer(ns: seq<int>, k: nat)
    requires NoRepeats(ns) && k < |ns|
    ensures forall m {:trigger ns[m]} :: 0 <= m < |ns| && m != k ==> ns[m] != ns[k]
  {
    forall m | 0 <= m < |ns| && m != k
      ensures ns[m] != ns[k]
    {
      assert if m < k then Differ(ns, m, ns, k) else Differ(ns, k, ns, m);
    }
  }

  lemma ApartFrom(a: seq<int>, b: seq<int>, k: nat)
    requires Apart(a, b) && k < |b|
    ensures forall m {:trigger a[m]} :: 0 <= m < |a| ==> a[m] != b[k]
  {
    forall m | 0 <= m < |a|
      ensures a[m] != b[k]
    {
      assert Differ(a, m, b, k);
    }
  }

  ghost function PointOf(m: seq<Node>, k: int): Point {
    if 0 <= k < |m| then Point(m[k].x, m[k].y) else Point(0, 0)
  }

  ghost function Points(m: seq<Node>, ns: seq<int>): (s: seq<Point>)
    ensures |s| == |ns|
  {
    seq(|ns|, i requires 0 <= i < |ns| => PointOf(m, ns[i]))
  }

  class Packer {
    var width: int
    var height: int
    var align: int
    var heuristic: Heuristic
    var numNodes: int
    var activeHead: int
    var freeHead: int
    var pool: seq<Node>

    ghost var active: seq<int>
    ghost var free: seq<int>
    ghost var placed: seq<Rect>

    ghost function Conf(): Config
      reads this
    {
      Config(width, height, align, numNodes, heuristic)
    }

    ghost predicate Lists()
      reads this
    {
      && Linked(pool, activeHead, active) && Linked(pool, freeHead, free)
      && NoRepeats(active) && NoRepeats(free) && Apart(active, free)
    }

    ghost function Sky(): seq<Point>
      reads this
    {
      Points(pool, active)
    }

    ghost function Snapshot(): State
      requires Lists()
      reads this
    {
      State(Sky(), |free|, placed)
    }

    ghost predicate Valid()
      reads this
    {
      Lists() && Inv(Conf(), Snapshot())
    }

    lemma Visit(i: nat)
      requires Walkable() && i < |active|
      ensures 0 <= active[i] < |pool|
      ensures Point(pool[active[i]].x, pool[active[i]].y) == Sky()[i]
      ensures pool[active[i]].next == After(active, i)
      ensures 0 <= Sky()[i].x <= width
      ensures Sky()[i].x < width ==> i < |active| - 1
    {
      assert NodeAt(pool, active, i);
      Rises(Sky(), 0, i);
      Rises(Sky(), i, |active| - 1);
    }

    // What the position search relies on: the active list is a skyline.
    ghost predicate Walkable()
      reads this
    {
      Linked(pool, activeHead, active) && IsSkyline(Sky(), width)
    }

    ghost function LinkAt(i: nat): Link
      requires i < |active|
      reads this
    {
      if i == 0 then Head else NextOf(active[i - 1])
    }

    ghost predicate BestHere(link: Link, i: nat, x: int)
      reads this
    {
      i < |active| - 1 && link == LinkAt(i) && Sky()[i].x <= x < Sky()[i + 1].x
    }

    // stbrp_init_target
    constructor InitTarget(w: int, h: int, n: int)
      requires 1 <= w <= SENTINEL_Y && 0 <= h <= SENTINEL_Y && n >= 1
      ensures Valid()
      ensures Conf() == Config(w, h, align, n, BottomLeftSort)
      ensures align * n >= w && (align == 1 || (align - 1) * n < w)
      ensures Snapshot() == Init(Conf())
    {
      DefaultAlignIsLeast(w, n);
      width, height, numNodes := w, h, n;
      heuristic := BottomLeftSort;
      align := DefaultAlign(w, n);
      freeHead, activeHead := 0, n;
      pool := seq(n + 2, _ => Node(0, 0, NIL));
      active, free, placed := [n, n + 1], seq(n, i => i), [];
      new;
      var i := 0;
      while i < n - 1
        invariant 0 <= i <= n - 1 && |pool| == n + 2
        invariant forall k :: 0 <= k < i ==> pool[k].next == k + 1
        modifies this`pool
      {
        pool := pool[i := pool[i].(next := i + 1)];
        i := i + 1;
      }
      pool := pool[i := pool[i].(next := NIL)];
      pool := pool[n := Node(0, 0, n + 1)];
      pool := pool[n + 1 := Node(w, SENTINEL_Y, NIL)];
      assert Sky() == [Point(0, 0), Point(w, SENTINEL_Y)];
      InitInv(Conf());
    }

    // stbrp_setup_allow_out_of_mem
    method SetupAllowOutOfMem(allow: bool)
      requires Valid()
      modifies this`align
      ensures Valid()
      ensures Conf() == old(Conf()).(align := align)
      ensures allow ==> align == 1
      ensures !allow ==> align * numNodes >= width && (align == 1 || (align - 1) * numNodes < width)
      ensures Snapshot() == old(Snapshot())
    {
      DefaultAlignIsLeast(width, numNodes);
      align := if allow then 1 else DefaultAlign(width, numNodes);
    }

    // stbrp_setup_heuristic
    method SetupHeuristic(heur: Heuristic)
      requires Valid()
      modifies this`heuristic
      ensures Valid()
      ensures Conf() == old(Conf()).(heuristic := heur)
      ensures Snapshot() == old(Snapshot())
    {
      heuristic := heur;
    }

    // stbrp__skyline_find_min_y. i is the place of `first` in the active list.
    method FindMinY(first: int, x0: int, w: int, ghost i: nat) returns (minY: int, waste: int)
      requires Walkable()
      requires i < |active| - 1 && first == active[i]
      requires w >= 1 && 0 <= x0 && x0 + w <= width
      requires Sky()[i].x <= x0 < Sky()[i + 1].x
      ensures minY == Top(Sky(), x0, w)
    {
      ghost var s := Sky();
      var node := first;
      var x1 := x0 + w;
      minY, waste := 0, 0;
      var visited := 0;
      ghost var j := i;
      Visit(j);
      while pool[node].x < x1
        invariant i <= j < |active| && node == active[j]
        invariant 0 <= node < |pool| && pool[node].x == s[j].x
        invariant j == i ==> minY == 0
        invariant j > i ==> SegmentMax(s, i, j, minY) && s[j - 1].x < x1
        decreases |active| - j
      {
        Visit(j);
        Visit(j + 1);
        var nd := pool[node];
        var after := pool[nd.next].x;
        if nd.y > minY {
          waste := waste + visited * (nd.y - minY);
          minY := nd.y;
          visited := visited + (after - (if nd.x < x0 then x0 else nd.x));
        } else {
          var under := after - nd.x;
          if under + visited > w {
            under := w - visited;
          }
          waste := waste + under * (minY - nd.y);
          visited := visited + under;
        }
        assert s[j].y <= minY;
        node := nd.next;
        j := j + 1;
      }
      TopFromSegments(s, width, i, j, x0, w, minY);
    }

    // The first loop of stbrp__skyline_find_best_pos: left edges at node positions.
    method SearchNodes(aw: int, h: int)
      returns (best: Option<Link>, bestX: int, bestY: int, bestWaste: int, ghost bi: nat)
      requires Walkable()
      requires 1 <= aw <= width && 1 <= h <= height
      ensures best.Some? ==> bi < |active| - 1 && best.value == LinkAt(bi) && bestX == Sky()[bi].x
      ensures BestOverall(Conf(), Sky(), aw, h, best.Some?, bestX, bestY)
    {
      ghost var c, s := Conf(), Sky();
      best, bestX, bestY, bestWaste, bi := None, 0, SENTINEL_Y, SENTINEL_Y, 0;
      var node, prev := activeHead, Head;
      ghost var k: nat := 0;
      Visit(0);
      while pool[node].x + aw <= width
        invariant k < |active| && node == active[k] && prev == LinkAt(k)
        invariant 0 <= node < |pool| && pool[node].x == s[k].x
        invariant best.Some? ==> bi < k && best.value == LinkAt(bi) && bestX == s[bi].x
        invariant BestOfFirst(c, s, aw, h, k, best.Some?, bi, bestY)
        decreases |active| - k
      {
        Visit(k);
        Visit(k + 1);
        var nd := pool[node];
        Rises(s, k, k + 1);
        var y, waste := FindMinY(node, nd.x, aw, k);
        if heuristic == BottomLeftSort {
          if y < bestY {
            best, bestX, bestY, bi := Some(prev), nd.x, y, k;
          }
        } else {
          if y + h <= height {
            if y < bestY || (y == bestY && waste < bestWaste) {
              best, bestX, bestY, bestWaste, bi := Some(prev), nd.x, y, waste, k;
            }
          }
        }
        prev := NextOf(node);
        node := nd.next;
        k := k + 1;
      }
      NodesCoverColumns(c, s, aw, h, k, best.Some?, bi, bestY, bestX);
    }

    method FirstAdmissible(aw: int) returns (tail: int, ghost t: nat)
      requires Walkable() && aw <= width
      ensures t < |active| && tail == active[t] && aw <= Sky()[t].x
    {
      tail, t := activeHead, 0;
      Visit(0);
      while pool[tail].x < aw
        invariant t < |active| && tail == active[t]
        invariant 0 <= tail < |pool| && pool[tail].x == Sky()[t].x
        decreases |active| - t
      {
        Visit(t);
        Visit(t + 1);
        tail := pool[tail].next;
        t := t + 1;
      }
    }

    // Walks node (the k-th of the active list) up to the segment that holds xpos.
    method Advance(node0: int, prev0: Link, xpos: int, ghost k0: nat)
      returns (node: int, prev: Link, ghost k: nat)
      requires Walkable() && xpos < width
      requires k0 < |active| - 1 && node0 == active[k0] && prev0 == LinkAt(k0) && Sky()[k0].x <= xpos
      ensures k < |active| - 1 && node == active[k] && prev == LinkAt(k)
      ensures Sky()[k].x <= xpos < Sky()[k + 1].x
    {
      ghost var s := Sky();
      node, prev, k := node0, prev0, k0;
      Visit(k);
      Visit(k + 1);
      while pool[pool[node].next].x <= xpos
        invariant k < |active| - 1 && node == active[k] && prev == LinkAt(k)
        invariant 0 <= node < |pool| && pool[node].next == active[k + 1] && s[k].x <= xpos
        invariant 0 <= active[k + 1] < |pool| && pool[active[k + 1]].x == s[k + 1].x
        decreases |active| - k
      {
        Visit(k + 1);
        Visit(k + 2);
        prev := NextOf(node);
        node := pool[node].next;
        k := k + 1;
      }
      assert xpos < s[k + 1].x;
    }

    // The second loop: right edges at node positions, for best fit only.
    method SearchRightEdges(aw: int, h: int, best0: Option<Link>, x0: int, y0: int, waste0: int, ghost bi0: nat)
      returns (best: Option<Link>, bestX: int, bestY: int, ghost bi: nat)
      requires Walkable() && heuristic == BestFitSort
      requires 1 <= aw <= width && 1 <= h <= height
      requires best0.Some? ==> BestHere(best0.value, bi0, x0)
      requires BestOverall(Conf(), Sky(), aw, h, best0.Some?, x0, y0)
      ensures best.Some? ==> BestHere(best.value, bi, bestX)
      ensures BestOverall(Conf(), Sky(), aw, h, best.Some?, bestX, bestY)
    {
      ghost var c, s := Conf(), Sky();
      var bestWaste := waste0;
      best, bestX, bestY, bi := best0, x0, y0, bi0;
      var tail, node, prev := activeHead, activeHead, Head;
      ghost var t: nat, k: nat := 0, 0;
      tail, t := FirstAdmissible(aw);
      while tail != NIL
        invariant t <= |active| && tail == (if t < |active| then active[t] else NIL)
        invariant k < |active| - 1 && node == active[k] && prev == LinkAt(k)
        invariant t < |active| ==> aw <= s[t].x && s[k].x <= s[t].x - aw
        invariant best.Some? ==> BestHere(best.value, bi, bestX)
        invariant BestOverall(c, s, aw, h, best.Some?, bestX, bestY)
        decreases |active| - t
      {
        Visit(t);
        var tl := pool[tail];
        var xpos := tl.x - aw;
        node, prev, k := Advance(node, prev, xpos, k);
        var y, waste := FindMinY(node, xpos, aw, k);
        if y + h <= height {
          if y <= bestY {
            if y < bestY || waste < bestWaste || (waste == bestWaste && xpos < bestX) {
              BetterRecord(c, s, aw, h, best.Some?, bestX, bestY, xpos, t);
              best, bestX, bestY, bestWaste, bi := Some(prev), xpos, y, waste, k;
            }
          }
        }
        if t + 1 < |active| { Rises(s, t, t + 1); }
        tail := tl.next;
        t := t + 1;
      }
    }

    // stbrp__skyline_find_best_pos
    method FindBestPos(w: int, h: int) returns (res: FindResult, ghost i: nat)
      requires Valid()
      requires w >= 1 && h >= 1
      ensures res.prev.Some? ==> BestHere(res.prev.value, i, res.x)
      ensures res.prev.Some? ==> Chosen(Conf(), Sky(), AlignedWidth(align, w), res.x, res.y)
      ensures res.prev.None? ==> NoRoom(Conf(), Sky(), AlignedWidth(align, w), h)
    {
      var aw := AlignedWidth(align, w);
      ghost var c, s := Conf(), Sky();
      if aw > width || h > height {
        forall x | Feasible(width, aw, x)
          ensures height < Top(s, x, aw) + h
        {
          TopIsNotNegative(s, width, aw, x);
        }
        return FindResult(0, 0, None), 0;
      }
      var best, bestX, bestY, bestWaste;
      best, bestX, bestY, bestWaste, i := SearchNodes(aw, h);
      if best.Some? { Rises(s, i, i + 1); }
      if heuristic == BestFitSort {
        best, bestX, bestY, i := SearchRightEdges(aw, h, best, bestX, bestY, bestWaste, i);
      }
      BestIsLowest(c, s, aw, h, best.Some?, bestX, bestY);
      res := FindResult(bestX, bestY, best);
    }

    // The inner loop of stbrp__skyline_pack_rectangle: nodes whose successor starts at or
    // before e go to the free list. ns is the active list before, fs the free list; the
    // nodes ns[..p] and `other` are not touched.
    method ReleaseCovered(first: int, e: int, ghost ns: seq<int>, ghost p: nat, ghost fs: seq<int>, ghost other: int)
      returns (cur: int, ghost j: nat, ghost released: seq<int>)
      requires p < |ns| && first == ns[p]
      requires forall i :: p <= i < |ns| ==> NodeAt(pool, ns, i)
      requires Linked(pool, freeHead, fs)
      requires NoRepeats(ns) && Apart(ns, fs) && other !in ns
      modifies this`freeHead, this`pool
      ensures p <= j < |ns| && j == LastWithin(Points(old(pool), ns), e, p) && cur == ns[j]
      ensures forall i :: j <= i < |ns| ==> NodeAt(pool, ns, i)
      ensures Linked(pool, freeHead, released) && Released(released, ns, p, j, fs)
      ensures SamePlaces(old(pool), pool)
      ensures forall i :: 0 <= i < p ==> SameNext(old(pool), pool, ns[i])
      ensures SameNext(old(pool), pool, other)
    {
      ghost var s, m := Points(pool, ns), pool;
      cur, j, released := first, p, fs;
      assert NodeAt(pool, ns, j) && (j + 1 < |ns| ==> NodeAt(pool, ns, j + 1));
      while pool[cur].next != NIL && pool[pool[cur].next].x <= e
        invariant p <= j < |ns| && cur == ns[j]
        invariant 0 <= cur < |pool| && pool[cur].next == After(ns, j)
        invariant j + 1 < |ns| ==> 0 <= ns[j + 1] < |pool|
        invariant LastWithin(s, e, p) == LastWithin(s, e, j)
        invariant forall i :: j <= i < |ns| ==> NodeAt(pool, ns, i)
        invariant Linked(pool, freeHead, released) && Released(released, ns, p, j, fs)
        invariant SamePlaces(m, pool)
        invariant forall i :: 0 <= i < p ==> SameNext(m, pool, ns[i])
        invariant SameNext(m, pool, other)
        decreases |ns| - j
      {
        assert SamePlace(m, pool, ns[j + 1]) && s[j + 1].x <= e;
        ghost var before := pool;
        var next := pool[cur].next;
        pool := pool[cur := pool[cur].(next := freeHead)];
        freeHead := cur;
        ReleaseStep(m, before, pool, ns, p, j, fs, released, other);
        released := [cur] + released;
        cur := next;
        j := j + 1;
        assert NodeAt(pool, ns, j) && (j + 1 < |ns| ==> NodeAt(pool, ns, j + 1));
      }
      assert j + 1 < |ns| ==> SamePlace(m, pool, ns[j + 1]);
    }

    // Takes the first free node and hooks it in front of active[p].
    method HookFirstFree(link: Link, x: int, y: int, ghost i: nat)
      returns (node: int, cur: int, ghost p: nat)
      requires Lists() && |free| >= 1
      requires i + 1 < |active| && link == LinkAt(i)
      modifies this`freeHead, this`activeHead, this`pool
      ensures node == free[0] && 0 <= node < |pool| && PointOf(pool, node) == Point(x, y)
      ensures p == (if PointOf(old(pool), active[i]).x < x then i + 1 else i) && cur == active[p]
      ensures Linked(pool, freeHead, free[1..])
      ensures activeHead == (if p == 0 then node else active[0])
      ensures forall k :: p <= k < |active| ==> NodeAt(pool, active, k)
      ensures forall k :: 0 <= k < p ==> HookedAt(pool, active, p, node, k)
      ensures |pool| == |old(pool)| && forall k :: 0 <= k < |pool| && k != node ==> SamePlace(old(pool), pool, k)
    {
      ghost var m := pool;
      assert NodeAt(pool, free, 0) && NodeAt(pool, active, i) && (i > 0 ==> NodeAt(pool, active, i - 1));
      Separate(active, free, i);
      node := freeHead;
      freeHead := pool[node].next;
      pool := pool[node := Node(x, y, pool[node].next)];
      cur := match link case Head => activeHead case NextOf(n) => pool[n].next;
      p := i;
      if pool[cur].x < x {
        var next := pool[cur].next;
        pool := pool[cur := pool[cur].(next := node)];
        cur := next;
        p := i + 1;
      } else {
        match link
        case Head => activeHead := node;
        case NextOf(n) => pool := pool[n := pool[n].(next := node)];
      }
      HookedLists(m, pool, active, free, node, Point(x, y), p);
    }

    // The last writes of an insertion: the new node is linked to the node kept, whose left end
    // moves to e. The lists before the insertion were ns and fs, the places those of m1.
    method Stitch(node: int, cur: int, ghost m1: seq<Node>, ghost ns: seq<int>, ghost fs: seq<int>,
                  ghost p: nat, ghost j: nat, ghost released: seq<int>, x: int, e: int, ghost top: int)
      requires p <= j < |ns| && cur == ns[j] && |fs| >= 1 && node == fs[0] && 0 <= node < |pool| && node !in ns
      requires NoRepeats(ns) && NoRepeats(fs) && Apart(ns, fs) && Released(released, ns, p, j, fs[1..])
      requires activeHead == (if p == 0 then node else ns[0]) && Linked(pool, freeHead, released)
      requires forall k :: 0 <= k < p ==> HookedAt(m1, ns, p, node, k) && SameNext(m1, pool, ns[k])
      requires forall k :: j <= k < |ns| ==> NodeAt(pool, ns, k)
      requires SamePlaces(m1, pool) && PointOf(m1, node) == Point(x, top)
      requires forall k :: 0 <= k < |ns| ==> 0 <= ns[k] < |m1|
      requires IsSkyline(Points(m1, ns), width) && 0 <= x < e <= width
      requires p == FirstFrom(Points(m1, ns), x, 0) && j == LastWithin(Points(m1, ns), e, p)
      modifies this`active, this`free, this`pool
      ensures Lists() && Sky() == Splice(Points(m1, ns), x, e, top)
      ensures |free| + |active| == |fs| + |ns| && |pool| == old(|pool|)
    {
      ghost var m2 := pool;
      assert NodeAt(m2, ns, j) && SamePlace(m1, m2, node);
      pool := pool[node := pool[node].(next := cur)];
      if pool[cur].x < e {
        pool := pool[cur := pool[cur].(x := e)];
      }
      RelinkedIsApart(ns, fs, p, j, released);
      StitchedLists(m1, m2, pool, ns, fs, p, j, node, activeHead, freeHead, released, e);
      StitchedPoints(m1, m2, pool, ns, p, j, node, Points(m1, ns), width, x, e, top);
      active, free := Relinked(ns, p, node, j), released;
    }

    // The second half of stbrp__skyline_pack_rectangle: the active list becomes the splice
    // and nodes are conserved.
    method InsertAt(link: Link, x: int, w: int, top: int, ghost i: nat)
      requires Lists() && |free| >= 1 && IsSkyline(Sky(), width)
      requires BestHere(link, i, x) && 0 <= x && 1 <= w && x + w <= width
      modifies this`activeHead, this`freeHead, this`active, this`free, this`pool
      ensures Lists()
      ensures Sky() == Splice(old(Sky()), x, x + w, top)
      ensures |free| + |active| == old(|free| + |active|) && |pool| == old(|pool|)
    {
      ghost var m, ns, fs, s := pool, active, free, Sky();
      FirstFromSegment(s, width, i, x);
      forall k | 0 <= k < |ns|
        ensures 0 <= ns[k] < |m|
      {
        assert NodeAt(m, ns, k);
      }
      var node, cur;
      ghost var p, j, released;
      node, cur, p := HookFirstFree(link, x, top, i);
      ghost var m1 := pool;
      HookedPoints(m, m1, ns, fs);
      cur, j, released := ReleaseCovered(cur, x + w, ns, p, fs[1..], node);
      Stitch(node, cur, m1, ns, fs, p, j, released, x, x + w, top);
    }

    // A place found for strip width aw that has room, and a node to spare, is taken.
    method Place(res: FindResult, w: int, h: int, ghost aw: int, ghost i: nat)
      requires Valid() && 1 <= w <= aw && h >= 1 && |free| >= 1
      requires res.prev.Some? && BestHere(res.prev.value, i, res.x) && res.y + h <= height
      requires Chosen(Conf(), Sky(), aw, res.x, res.y)
      modifies this`activeHead, this`freeHead, this`active, this`free, this`pool, this`placed
      ensures Lists() && |pool| == old(|pool|)
      ensures Conf() == old(Conf()) && Step1(old(Conf()), old(Snapshot()), aw, w, h, Outcome(res), Snapshot())
    {
      ghost var c, st := Conf(), Snapshot();
      InsertAt(res.prev.value, res.x, w, res.y + h, i);
      placed := placed + [Rect(res.x, res.y, w, h)];
      PlacedIsStep(c, st, aw, w, h, Point(res.x, res.y), Snapshot());
    }

    // stbrp__skyline_pack_rectangle
    method PackRectangle(w: int, h: int) returns (res: FindResult)
      requires Valid()
      requires w >= 1 && h >= 1
      modifies this`activeHead, this`freeHead, this`active, this`free, this`pool, this`placed
      ensures Valid() && |pool| == old(|pool|)
      ensures Step(Conf(), old(Snapshot()), w, h, Outcome(res), Snapshot())
      ensures res.prev.None? <==> old(|free|) == 0 || NoRoom(Conf(), old(Sky()), AlignedWidth(align, w), h)
    {
      ghost var c, st := Conf(), Snapshot();
      ghost var i;
      res, i := FindBestPos(w, h);
      if |free| > 0 { assert NodeAt(pool, free, 0); }
      if res.prev.None? || res.y + h > height || freeHead == NIL {
        if res.prev.Some? {
          TooHighMeansNoRoom(c, st.sky, AlignedWidth(align, w), res.x, res.y, h);
        }
        res := res.(prev := None);
      } else {
        Place(res, w, h, AlignedWidth(align, w), i);
      }
      StepKeepsInv(c, st, w, h, Outcome(res), Snapshot());
      RejectedIffNoRoom(c, st, w, h, Outcome(res), Snapshot());
    }
  }

  // ---------------------------------------------------------------- the surgery on lists

  ghost predicate SamePlace(m: seq<Node>, m': seq<Node>, k: int) {
    PointOf(m, k) == PointOf(m', k)
  }

  ghost predicate SamePlaces(m: seq<Node>, m': seq<Node>) {
    |m| == |m'| && forall k :: 0 <= k < |m| ==> SamePlace(m, m', k)
  }

  ghost predicate SameNext(m: seq<Node>, m': seq<Node>, k: int) {
    |m| == |m'| && (0 <= k < |m| ==> m[k].next == m'[k].next)
  }

  // Node k < p of the list, whose last link before p goes to `node`.
  ghost predicate HookedAt(m: seq<Node>, ns: seq<int>, p: nat, node: int, k: int)
    requires 0 <= k < |ns|
  {
    0 <= ns[k] < |m| && m[ns[k]].next == (if k + 1 == p then node else After(ns, k))
  }

  lemma LinkedKept(m: seq<Node>, m': seq<Node>, head: int, ns: seq<int>)
    requires Linked(m, head, ns) && |m| == |m'|
    requires forall i :: 0 <= i < |ns| ==> SameNext(m, m', ns[i])
    ensures Linked(m', head, ns)
  {
    forall i | 0 <= i < |ns|
      ensures NodeAt(m', ns, i)
    {
      assert NodeAt(m, ns, i) && SameNext(m, m', ns[i]);
    }
  }

  lemma ReleaseStep(m: seq<Node>, before: seq<Node>, after: seq<Node>,
                    ns: seq<int>, p: nat, j: nat, fs: seq<int>, released: seq<int>, other: int)
    requires p <= j < |ns| && 0 <= ns[j] < |before|
    requires after == before[ns[j] := before[ns[j]].(next := (if released == [] then NIL else released[0]))]
    requires NoRepeats(ns) && Apart(ns, fs) && other !in ns
    requires forall i :: j <= i < |ns| ==> NodeAt(before, ns, i)
    requires Linked(before, if released == [] then NIL else released[0], released)
    requires Released(released, ns, p, j, fs)
    requires SamePlaces(m, before)
    requires forall i :: 0 <= i < p ==> SameNext(m, before, ns[i])
    requires SameNext(m, before, other)
    ensures forall i :: j < i < |ns| ==> NodeAt(after, ns, i)
    ensures Linked(after, ns[j], [ns[j]] + released)
    ensures Released([ns[j]] + released, ns, p, j + 1, fs)
    ensures SamePlaces(m, after)
    ensures forall i :: 0 <= i < p ==> SameNext(m, after, ns[i])
    ensures SameNext(m, after, other)
  {
    AllDiffer(ns, j);
    forall i | j < i < |ns|
      ensures NodeAt(after, ns, i)
    {
      assert NodeAt(before, ns, i);
    }
    forall i | 0 <= i < p
      ensures SameNext(m, after, ns[i])
    {
      assert SameNext(m, before, ns[i]);
    }
    forall k | 0 <= k < |m|
      ensures SamePlace(m, after, k)
    {
      assert SamePlace(m, before, k);
    }
    var pushed := [ns[j]] + released;
    forall i | 0 <= i < |pushed|
      ensures NodeAt(after, pushed, i)
    {
      if i > 0 {
        assert pushed[i] == released[i - 1] && NodeAt(before, released, i - 1);
        if j - p <= i - 1 { assert Differ(ns, j, fs, i - 1 - (j - p)); }
      }
    }
  }

  // What the writes of HookFirstFree can and cannot hit.
  lemma Separate(ns: seq<int>, fs: seq<int>, i: nat)
    requires NoRepeats(ns) && NoRepeats(fs) && Apart(ns, fs)
    requires i < |ns| && |fs| >= 1
    ensures ns[i] != fs[0]
    ensures i > 0 ==> ns[i - 1] != fs[0] && ns[i - 1] != ns[i]
  {
    assert Differ(ns, i, fs, 0);
    assert i > 0 ==> Differ(ns, i - 1, fs, 0) && Differ(ns, i - 1, ns, i);
  }

  lemma HookedLists(m: seq<Node>, m': seq<Node>, ns: seq<int>, fs: seq<int>, node: int, at: Point, p: nat)
    requires forall i :: 0 <= i < |ns| ==> NodeAt(m, ns, i)
    requires forall i :: 0 <= i < |fs| ==> NodeAt(m, fs, i)
    requires NoRepeats(ns) && NoRepeats(fs) && Apart(ns, fs)
    requires |fs| >= 1 && node == fs[0] && p < |ns|
    requires 0 <= node < |m| && (p > 0 ==> 0 <= ns[p - 1] < |m|)
    requires var m1 := m[node := Node(at.x, at.y, m[node].next)];
      m' == if p > 0 then m1[ns[p - 1] := m1[ns[p - 1]].(next := node)] else m1
    ensures PointOf(m', node) == at
    ensures Linked(m', m[node].next, fs[1..])
    ensures forall k :: p <= k < |ns| ==> NodeAt(m', ns, k)
    ensures forall k :: 0 <= k < p ==> HookedAt(m', ns, p, node, k)
    ensures forall k :: 0 <= k < |m| && k != node ==> SamePlace(m, m', k)
  {
    assert NodeAt(m, fs, 0);
    AllDiffer(fs, 0);
    ApartFrom(ns, fs, 0);
    if p > 0 { AllDiffer(ns, p - 1); }
    forall k | 0 <= k < |ns|
      ensures if k < p then HookedAt(m', ns, p, node, k) else NodeAt(m', ns, k)
    {
      assert NodeAt(m, ns, k);
    }
    var rest := fs[1..];
    forall k | 0 <= k < |rest|
      ensures NodeAt(m', rest, k)
    {
      assert NodeAt(m, fs, k + 1);
      assert p > 0 ==> Differ(ns, p - 1, fs, k + 1);
    }
  }

  lemma HookedPoints(m: seq<Node>, m': seq<Node>, ns: seq<int>, fs: seq<int>)
    requires Apart(ns, fs) && |fs| >= 1 && |m| == |m'|
    requires forall i :: 0 <= i < |ns| ==> NodeAt(m, ns, i)
    requires forall k :: 0 <= k < |m| && k != fs[0] ==> SamePlace(m, m', k)
    ensures Points(m', ns) == Points(m, ns)
    ensures fs[0] !in ns && Apart(ns, fs[1..])
  {
    ApartFrom(ns, fs, 0);
    forall i | 0 <= i < |ns|
      ensures PointOf(m', ns[i]) == PointOf(m, ns[i])
    {
      assert NodeAt(m, ns, i) && SamePlace(m, m', ns[i]);
    }
    forall i, j | 0 <= i < |ns| && 0 <= j < |fs[1..]|
      ensures Differ(ns, i, fs[1..], j)
    {
      assert Differ(ns, i, fs, j + 1);
    }
  }

  // The last writes of an insertion: node's link, and the kept node's x.
  ghost predicate Stitched(m2: seq<Node>, m3: seq<Node>, node: int, cur: int, e: int) {
    && 0 <= node < |m2| && 0 <= cur < |m2| && node != cur
    && m3 == m2[node := m2[node].(next := cur)][cur := m2[cur].(x := Max(e, m2[cur].x))]
  }

  lemma StitchedActive(m1: seq<Node>, m2: seq<Node>, m3: seq<Node>, ns: seq<int>, p: nat, j: nat,
                       node: int, head: int, e: int)
    requires p <= j < |ns| && Stitched(m2, m3, node, ns[j], e) && node !in ns
    requires NoRepeats(Relinked(ns, p, node, j))
    requires head == (if p == 0 then node else ns[0])
    requires |m1| == |m2|
    requires forall k :: 0 <= k < p ==> HookedAt(m1, ns, p, node, k) && SameNext(m1, m2, ns[k])
    requires forall k :: j <= k < |ns| ==> NodeAt(m2, ns, k)
    ensures Linked(m3, head, Relinked(ns, p, node, j))
  {
    var act := Relinked(ns, p, node, j);
    forall i | 0 <= i < |act|
      ensures NodeAt(m3, act, i)
    {
      if i < p {
        assert HookedAt(m1, ns, p, node, i) && SameNext(m1, m2, ns[i]);
      } else if i > p {
        assert NodeAt(m2, ns, j + i - p - 1);
      }
    }
  }

  lemma StitchedFree(m2: seq<Node>, m3: seq<Node>, ns: seq<int>, fs: seq<int>, p: nat, j: nat,
                     node: int, head: int, released: seq<int>, e: int)
    requires p <= j < |ns| && Stitched(m2, m3, node, ns[j], e)
    requires Apart(Relinked(ns, p, node, j), released)
    requires Linked(m2, head, released)
    ensures Linked(m3, head, released)
  {
    var act := Relinked(ns, p, node, j);
    forall i | 0 <= i < |released|
      ensures SameNext(m2, m3, released[i])
    {
      assert Differ(act, p, released, i);
    }
    LinkedKept(m2, m3, head, released);
  }

  lemma StitchedLists(m1: seq<Node>, m2: seq<Node>, m3: seq<Node>, ns: seq<int>, fs: seq<int>, p: nat, j: nat,
                      node: int, head: int, freeHead: int, released: seq<int>, e: int)
    requires p <= j < |ns| && Stitched(m2, m3, node, ns[j], e) && node !in ns
    requires NoRepeats(Relinked(ns, p, node, j)) && Apart(Relinked(ns, p, node, j), released)
    requires head == (if p == 0 then node else ns[0])
    requires |m1| == |m2|
    requires forall k :: 0 <= k < p ==> HookedAt(m1, ns, p, node, k) && SameNext(m1, m2, ns[k])
    requires forall k :: j <= k < |ns| ==> NodeAt(m2, ns, k)
    requires Linked(m2, freeHead, released)
    ensures Linked(m3, head, Relinked(ns, p, node, j)) && Linked(m3, freeHead, released)
  {
    StitchedActive(m1, m2, m3, ns, p, j, node, head, e);
    StitchedFree(m2, m3, ns, fs, p, j, node, freeHead, released, e);
  }

  lemma StitchedPoints(m1: seq<Node>, m2: seq<Node>, m3: seq<Node>, ns: seq<int>, p: nat, j: nat,
                       node: int, s: seq<Point>, width: int, x: int, e: int, top: int)
    requires p <= j < |ns| && Stitched(m2, m3, node, ns[j], e) && node !in ns
    requires NoRepeats(ns)
    requires s == Points(m1, ns) && IsSkyline(s, width) && 0 <= x < e <= width
    requires SamePlaces(m1, m2) && PointOf(m1, node) == Point(x, top)
    requires forall i :: 0 <= i < |ns| ==> 0 <= ns[i] < |m1|
    requires p == FirstFrom(s, x, 0) && j == LastWithin(s, e, p)
    ensures Points(m3, Relinked(ns, p, node, j)) == Splice(s, x, e, top)
  {
    var act := Relinked(ns, p, node, j);
    var t := Points(m3, act);
    AllDiffer(ns, j);
    assert SamePlace(m1, m2, node);
    forall i | 0 <= i < |ns|
      ensures PointOf(m3, ns[i]) == if i == j then Point(Max(e, s[i].x), s[i].y) else s[i]
    {
      assert SamePlace(m1, m2, ns[i]);
    }
    assert forall i {:trigger act[i]} :: 0 <= i < |act| ==>
      act[i] == (if i < p then ns[i] else if i == p then node else ns[i - p - 1 + j]);
    PointsOfSplice(s, t, width, x, e, top, p, j);
  }

  ghost function Outcome(res: FindResult): Option<Point> {
    if res.prev.Some? then Some(Point(res.x, res.y)) else None
  }

  // The active list after an insertion: node n in place of ns[p..j].
  ghost function Relinked(ns: seq<int>, p: nat, n: int, j: nat): seq<int>
    requires p <= j < |ns|
  {
    ns[..p] + [n] + ns[j..]
  }

  lemma RelinkedIsApart(ns: seq<int>, fs: seq<int>, p: nat, j: nat, rs: seq<int>)
    requires p <= j < |ns| && |fs| >= 1
    requires NoRepeats(ns) && NoRepeats(fs) && Apart(ns, fs)
    requires Released(rs, ns, p, j, fs[1..])
    ensures NoRepeats(Relinked(ns, p, fs[0], j)) && NoRepeats(rs)
    ensures Apart(Relinked(ns, p, fs[0], j), rs)
  {
    var act := Relinked(ns, p, fs[0], j);
    forall a, b | 0 <= a < b < |act|
      ensures Differ(act, a, act, b)
    {
      var a' := if a < p then a else j + a - p - 1;
      var b' := if b < p then b else j + b - p - 1;
      if a == p { assert Differ(ns, b', fs, 0); }
      else if b == p { assert Differ(ns, a', fs, 0); }
      else { assert Differ(ns, a', ns, b'); }
    }
    forall a, b | 0 <= a < b < |rs|
      ensures Differ(rs, a, rs, b)
    {
      if b < j - p { assert Differ(ns, j - 1 - b, ns, j - 1 - a); }
      else if a < j - p { assert Differ(ns, j - 1 - a, fs, b - (j - p) + 1); }
      else { assert Differ(fs, a - (j - p) + 1, fs, b - (j - p) + 1); }
    }
    forall a, b | 0 <= a < |act| && 0 <= b < |rs|
      ensures Differ(act, a, rs, b)
    {
      var a' := if a < p then a else j + a - p - 1;
      if a == p {
        if b < j - p { assert Differ(ns, j - 1 - b, fs, 0); } else { assert Differ(fs, 0, fs, b - (j - p) + 1); }
      } else if b >= j - p {
        assert Differ(ns, a', fs, b - (j - p) + 1);
      } else {
        assert if a < p then Differ(ns, a', ns, j - 1 - b) else Differ(ns, j - 1 - b, ns, a');
      }
    }
  }

  lemma PointsOfSplice(s: seq<Point>, t: seq<Point>, width: int, x: int, e: int, top: int, p: nat, j: nat)
    requires IsSkyline(s, width) && 0 <= x < e <= width
    requires p == FirstFrom(s, x, 0) && j == LastWithin(s, e, p)
    requires |t| == |s| - j + p + 1
    requires forall m {:trigger t[m]} :: 0 <= m < p ==> t[m] == s[m]
    requires t[p] == Point(x, top)
    requires t[p + 1] == Point(Max(e, s[j].x), s[j].y)
    requires forall m {:trigger t[m]} :: p + 2 <= m < |t| ==> t[m] == s[m - p - 1 + j]
    ensures t == Splice(s, x, e, top)
  {
    var _, _, r := SpliceShape(s, width, x, e, top);
    assert t == r;
  }

  lemma FirstFromSegment(s: seq<Point>, width: int, i: nat, x: int)
    requires IsSkyline(s, width)
    requires i + 1 < |s| && s[i].x <= x < s[i + 1].x
    ensures x < width && FirstFrom(s, x, 0) == if s[i].x < x then i + 1 else i
  {
    Rises(s, i + 1, |s| - 1);
    var p := FirstFrom(s, x, 0);
    if s[i].x < x {
      Before(s, i, p);
    } else if p < i {
      Rises(s, p, i);
    }
  }

  // fs with ns[p..j] pushed in front, last pushed first.
  ghost predicate Released(rs: seq<int>, ns: seq<int>, p: nat, j: nat, fs: seq<int>)
    requires p <= j <= |ns|
  {
    && |rs| == |fs| + (j - p)
    && (forall m {:trigger rs[m]} :: 0 <= m < j - p ==> rs[m] == ns[j - 1 - m])
    && forall m {:trigger rs[m]} :: j - p <= m < |rs| ==> rs[m] == fs[m - (j - p)]
  }

  lemma PlacedIsStep(c: Config, st: State, aw: int, w: int, h: int, pt: Point, st': State)
    requires Inv(c, st) && 1 <= w <= aw && h >= 1 && st.free > 0 && pt.y + h <= c.height
    requires Chosen(c, st.sky, aw, pt.x, pt.y)
    requires st'.sky == Splice(st.sky, pt.x, pt.x + w, pt.y + h) && st'.free + |st'.sky| == st.free + |st.sky|
    requires st'.placed == st.placed + [Rect(pt.x, pt.y, w, h)]
    ensures Step1(c, st, aw, w, h, Some(pt), st')
  {
  }

  lemma TooHighMeansNoRoom(c: Config, s: seq<Point>, aw: int, x: int, y: int, h: int)
    requires |s| >= 1 && aw >= 1
    requires Lowest(s, c.width, aw, x, y)
    ensures y + h > c.height ==> NoRoom(c, s, aw, h)
  {
  }

  // ------------------------------------------------------------ what the search maintains

  // A position the search may record: bottom-left takes any, best fit only one that fits.
  ghost predicate Admissible(c: Config, s: seq<Point>, aw: int, h: int, x: int)
    requires |s| >= 1 && aw >= 1
  {
    c.heuristic == BottomLeftSort || Top(s, x, aw) + h <= c.height
  }

  // The record after looking at the first k nodes.
  ghost predicate BestOfFirst(c: Config, s: seq<Point>, aw: int, h: int, k: nat, found: bool, bi: nat, y: int)
    requires |s| >= 1 && aw >= 1 && k <= |s|
  {
    if found then
      && bi < k && Feasible(c.width, aw, s[bi].x)
      && y == Top(s, s[bi].x, aw) && Admissible(c, s, aw, h, s[bi].x)
      && (forall m :: 0 <= m < k && Admissible(c, s, aw, h, s[m].x) ==> y <= Top(s, s[m].x, aw))
      && (c.heuristic == BottomLeftSort ==> forall m :: 0 <= m < bi ==> y < Top(s, s[m].x, aw))
    else
      && y == SENTINEL_Y
      && forall m :: 0 <= m < k && Admissible(c, s, aw, h, s[m].x) ==> SENTINEL_Y <= Top(s, s[m].x, aw)
  }

  // The record compared with every column position.
  ghost predicate BestOverall(c: Config, s: seq<Point>, aw: int, h: int, found: bool, x: int, y: int)
    requires |s| >= 1 && aw >= 1
  {
    if found then
      && Feasible(c.width, aw, x) && AtNode(s, aw, x)
      && y == Top(s, x, aw) && Admissible(c, s, aw, h, x)
      && (forall x2 :: Feasible(c.width, aw, x2) && Admissible(c, s, aw, h, x2) ==> y <= Top(s, x2, aw))
      && (c.heuristic == BottomLeftSort ==> BottomLeft(s, c.width, aw, x, y))
    else
      && y == SENTINEL_Y
      && forall x2 :: Feasible(c.width, aw, x2) && Admissible(c, s, aw, h, x2) ==> SENTINEL_Y <= Top(s, x2, aw)
  }

  lemma NodesCoverColumns(c: Config, s: seq<Point>, aw: int, h: int, k: nat, found: bool, bi: nat, y: int, x: int)
    requires IsSkyline(s, c.width) && aw >= 1
    requires k < |s| && s[k].x + aw > c.width
    requires BestOfFirst(c, s, aw, h, k, found, bi, y)
    requires found ==> x == s[bi].x
    ensures BestOverall(c, s, aw, h, found, x, y)
  {
    forall x2 | Feasible(c.width, aw, x2) && Admissible(c, s, aw, h, x2)
      ensures y <= Top(s, x2, aw)
    {
      var m := SlideLeft(s, c.width, aw, x2);
      Before(s, m, k);
    }
    if found && c.heuristic == BottomLeftSort {
      forall m | 0 <= m < k
        ensures y <= Top(s, s[m].x, aw)
      {
        assert Admissible(c, s, aw, h, s[m].x);
      }
      NodeSearchIsExhaustive(s, c.width, aw, k, bi);
    }
  }

  // Replacing the record by one that fits and is no higher.
  lemma BetterRecord(c: Config, s: seq<Point>, aw: int, h: int, found: bool, x0: int, y0: int, x: int, t: nat)
    requires |s| >= 1 && aw >= 1 && c.heuristic == BestFitSort
    requires BestOverall(c, s, aw, h, found, x0, y0)
    requires Feasible(c.width, aw, x) && t < |s| && s[t].x == x + aw
    requires Top(s, x, aw) + h <= c.height && Top(s, x, aw) <= y0
    ensures BestOverall(c, s, aw, h, true, x, Top(s, x, aw))
  {
  }

  // A record that covers every column is either the lowest place or proof there is no room.
  lemma BestIsLowest(c: Config, s: seq<Point>, aw: int, h: int, found: bool, x: int, y: int)
    requires |s| >= 1 && aw >= 1 && h >= 1 && c.height <= SENTINEL_Y
    requires BestOverall(c, s, aw, h, found, x, y)
    ensures found ==> Chosen(c, s, aw, x, y)
    ensures !found ==> NoRoom(c, s, aw, h)
  {
    if found && c.heuristic != BottomLeftSort {
      forall x2 | Feasible(c.width, aw, x2)
        ensures y <= Top(s, x2, aw)
      {
        if Admissible(c, s, aw, h, x2) {}
      }
    } else if !found {
      forall x2 | Feasible(c.width, aw, x2)
        ensures c.height < Top(s, x2, aw) + h
      {
        if Admissible(c, s, aw, h, x2) {}
      }
    }
  }
}
