/**
 stbrp_pack_rects: sort the rectangles tallest first, pack each in turn, and put the array
 back in the caller's order. `was_packed` carries the original index while the array is
 reordered.
 */
module PackRects {
  import opened Wrappers
  import opened Skyline
  import opened Packing
  import opened RectPacker

  const MAXVAL := 0x7fff_ffff

  datatype Item = Item(id: int, w: nat, h: nat, x: int, y: int, wasPacked: int)

  // rect_height_compare
  function HeightCompare(p: Item, q: Item): int {
    if p.h > q.h then -1
    else if p.h < q.h then 1
    else if p.w > q.w then -1 else if p.w < q.w then 1 else 0
  }

  // rect_original_order
  function OriginalOrder(p: Item, q: Item): int {
    if p.wasPacked < q.wasPacked then -1 else if p.wasPacked > q.wasPacked then 1 else 0
  }

  // What qsort asks of a comparison: a sign, consistent and transitive.
  ghost predicate Comparator(cmp: (Item, Item) -> int) {
    && (forall p, q :: Signs(cmp, p, q))
    && forall p, q, r :: Chain(cmp, p, q, r)
  }

  ghost predicate Signs(cmp: (Item, Item) -> int, p: Item, q: Item) {
    cmp(p, q) < 0 <==> cmp(q, p) > 0
  }

  ghost predicate Chain(cmp: (Item, Item) -> int, p: Item, q: Item, r: Item) {
    cmp(p, q) <= 0 && cmp(q, r) <= 0 ==> cmp(p, r) <= 0
  }

  lemma HeightCompareIsComparator()
    ensures Comparator(HeightCompare)
  {
  }

  lemma OriginalOrderIsComparator()
    ensures Comparator(OriginalOrder)
  {
  }

  ghost predicate IsPermutation(perm: seq<int>, n: nat) {
    && |perm| == n && NoRepeats(perm)
    && forall i :: 0 <= i < n ==> 0 <= perm[i] < n
  }

  // s is t rearranged: s[i] came from place perm[i].
  ghost predicate Rearranged(s: seq<Item>, t: seq<Item>, perm: seq<int>) {
    && |s| == |t| && IsPermutation(perm, |t|)
    && forall i :: 0 <= i < |s| ==> s[i] == t[perm[i]]
  }

  lemma SwapKeepsPermutation(perm: seq<int>, i: nat, j: nat)
    requires IsPermutation(perm, |perm|) && i < |perm| && j < |perm|
    ensures IsPermutation(perm[i := perm[j]][j := perm[i]], |perm|)
  {
    var swapped := perm[i := perm[j]][j := perm[i]];
    forall a, b | 0 <= a < b < |perm|
      ensures Differ(swapped, a, swapped, b)
    {
      var a' := if a == i then j else if a == j then i else a;
      var b' := if b == i then j else if b == j then i else b;
      assert if a' < b' then Differ(perm, a', perm, b') else Differ(perm, b', perm, a');
    }
  }

  // The first n places hold the least elements in order.
  ghost predicate SortedUpTo(cmp: (Item, Item) -> int, s: seq<Item>, n: nat) {
    forall i, j :: 0 <= i < n && i < j < |s| ==> Leq(cmp, s, i, j)
  }

  ghost predicate Leq(cmp: (Item, Item) -> int, s: seq<Item>, i: nat, j: nat)
    requires i < |s| && j < |s|
  {
    cmp(s[i], s[j]) <= 0
  }

  function Swapped<T>(s: seq<T>, i: nat, j: nat): seq<T>
    requires i < |s| && j < |s|
  {
    s[i := s[j]][j := s[i]]
  }

  lemma SelectLeast(cmp: (Item, Item) -> int, s: seq<Item>, n: nat, least: nat)
    requires n <= least < |s| && SortedUpTo(cmp, s, n)
    requires forall j :: n <= j < |s| ==> Leq(cmp, s, least, j)
    ensures SortedUpTo(cmp, Swapped(s, n, least), n + 1)
  {
    var t := Swapped(s, n, least);
    forall i, j | 0 <= i < n + 1 && i < j < |s|
      ensures Leq(cmp, t, i, j)
    {
      var j' := if j == least then n else if j == n then least else j;
      if i < n { assert Leq(cmp, s, i, j'); } else { assert Leq(cmp, s, least, j'); }
    }
  }

  lemma SwapRearranges(s: seq<Item>, t: seq<Item>, perm: seq<int>, i: nat, j: nat)
    requires Rearranged(s, t, perm) && i < |s| && j < |s|
    ensures Rearranged(Swapped(s, i, j), t, Swapped(perm, i, j))
  {
    SwapKeepsPermutation(perm, i, j);
  }

  // The library's qsort: some in-place sort. Only this contract is relied on.
  method QSort(a: array<Item>, cmp: (Item, Item) -> int) returns (ghost perm: seq<int>)
    requires Comparator(cmp)
    modifies a
    ensures SortedUpTo(cmp, a[..], a.Length)
    ensures Rearranged(a[..], old(a[..]), perm)
  {
    perm := seq(a.Length, i => i);
    for n := 0 to a.Length
      invariant SortedUpTo(cmp, a[..], n)
      invariant Rearranged(a[..], old(a[..]), perm)
    {
      var least := Least(a, n, cmp);
      ghost var s := a[..];
      a[n], a[least] := a[least], a[n];
      assert a[..] == Swapped(s, n, least);
      SelectLeast(cmp, s, n, least);
      SwapRearranges(s, old(a[..]), perm, n, least);
      perm := Swapped(perm, n, least);
    }
  }

  method Least(a: array<Item>, n: nat, cmp: (Item, Item) -> int) returns (least: nat)
    requires Comparator(cmp)
    requires n < a.Length
    ensures n <= least < a.Length
    ensures forall j :: n <= j < a.Length ==> Leq(cmp, a[..], least, j)
  {
    least := n;
    assert Signs(cmp, a[n], a[n]);
    ghost var s := a[..];
    for k := n + 1 to a.Length
      invariant n <= least < k
      invariant forall j :: n <= j < k ==> Leq(cmp, s, least, j)
    {
      if cmp(a[k], a[least]) < 0 {
        forall j | n <= j < k
          ensures Leq(cmp, s, k, j)
        {
          assert Leq(cmp, s, least, j);
          assert Chain(cmp, s[k], s[least], s[j]);
        }
        assert Signs(cmp, s[k], s[k]);
        least := k;
      } else {
        assert Signs(cmp, s[k], s[least]);
      }
    }
  }

  // ------------------------------------------------------------- restoring the order

  function Composed(p: seq<int>, q: seq<int>): seq<int>
    requires forall i :: 0 <= i < |q| ==> 0 <= q[i] < |p|
  {
    seq(|q|, i requires 0 <= i < |q| => p[q[i]])
  }

  lemma ComposedIsPermutation(p: seq<int>, q: seq<int>, n: nat)
    requires IsPermutation(p, n) && IsPermutation(q, n)
    ensures IsPermutation(Composed(p, q), n)
  {
    var r := Composed(p, q);
    forall a, b | 0 <= a < b < n
      ensures Differ(r, a, r, b)
    {
      assert Differ(q, a, q, b);
      assert if q[a] < q[b] then Differ(p, q[a], p, q[b]) else Differ(p, q[b], p, q[a]);
    }
  }

  ghost predicate NonDecreasing(q: seq<int>) {
    forall i, j :: 0 <= i < j < |q| ==> q[i] <= q[j]
  }

  lemma {:induction false} AtLeastIndex(q: seq<int>, i: nat)
    requires IsPermutation(q, |q|) && NonDecreasing(q) && i < |q|
    ensures i <= q[i]
  {
    if i > 0 {
      AtLeastIndex(q, i - 1);
      assert Differ(q, i - 1, q, i);
    }
  }

  lemma {:induction false} AtMostIndex(q: seq<int>, i: nat)
    requires IsPermutation(q, |q|) && NonDecreasing(q) && i < |q|
    ensures q[i] <= i
    decreases |q| - i
  {
    if i + 1 < |q| {
      AtMostIndex(q, i + 1);
      assert Differ(q, i, q, i + 1);
    }
  }

  // A permutation in ascending order is the identity: sorting by original index undoes any
  // earlier rearrangement.
  lemma AscendingPermutation(q: seq<int>)
    requires IsPermutation(q, |q|) && NonDecreasing(q)
    ensures forall i :: 0 <= i < |q| ==> q[i] == i
  {
    forall i | 0 <= i < |q|
      ensures q[i] == i
    {
      AtLeastIndex(q, i);
      AtMostIndex(q, i);
    }
  }

  // ------------------------------------------------------------------ the packing loop

  function RectOf(it: Item): Rect {
    Rect(it.x, it.y, it.w, it.h)
  }

  predicate IsEmpty(it: Item) {
    it.w == 0 || it.h == 0
  }

  predicate SameInput(a: Item, b: Item) {
    a.id == b.id && a.w == b.w && a.h == b.h
  }

  // The k-th request of the run asked for `it` and was answered with its position; -1 says
  // an empty rectangle, for which nothing is asked.
  ghost predicate Answered(it: Item, reqs: seq<Request>, k: int) {
    if it.w == 0 || it.h == 0 then k == -1 && it.x == 0 && it.y == 0
    else
      && 0 <= k < |reqs| && reqs[k].w == it.w && reqs[k].h == it.h
      && match reqs[k].out
         case None => it.x == MAXVAL && it.y == MAXVAL
         case Some(pt) => it.x == pt.x && it.y == pt.y
  }

  ghost predicate OwnRequests(asked: seq<int>, n: nat)
    requires n <= |asked|
  {
    forall i, j :: 0 <= i < j < n ==> OwnRequest(asked, i, j)
  }

  ghost predicate OwnRequest(asked: seq<int>, i: nat, j: nat)
    requires i < |asked| && j < |asked|
  {
    asked[i] == asked[j] ==> asked[i] == -1
  }

  // One non-empty rectangle.
  method PackOne(p: Packer, it: Item, ghost reqs: seq<Request>, ghost states: seq<State>)
    returns (out: Item, ghost r: Request)
    requires p.Valid() && !IsEmpty(it)
    requires Run(p.Conf(), reqs, states) && states[|reqs|] == p.Snapshot()
    modifies p
    ensures p.Valid() && p.Conf() == old(p.Conf())
    ensures Run(p.Conf(), reqs + [r], states + [p.Snapshot()])
    ensures Answered(out, reqs + [r], |reqs|) && r.w == it.w && r.h == it.h
    ensures SameInput(out, it) && out.wasPacked == it.wasPacked
  {
    var fr := p.PackRectangle(it.w, it.h);
    out := if fr.prev.Some? then it.(x := fr.x, y := fr.y) else it.(x := MAXVAL, y := MAXVAL);
    r := Request(it.w, it.h, Outcome(fr));
    RunGrows(p.Conf(), reqs, states, r, p.Snapshot());
  }

  ghost predicate EachAnswered(items: seq<Item>, n: nat, reqs: seq<Request>, asked: seq<int>)
    requires |asked| == n <= |items|
  {
    OwnRequests(asked, n) && forall i :: 0 <= i < n ==> Answered(items[i], reqs, asked[i])
  }

  ghost predicate InputsKept(items: seq<Item>, was: seq<Item>, n: nat)
    requires n <= |items| == |was|
  {
    && (forall i :: 0 <= i < n ==> SameInput(items[i], was[i]) && items[i].wasPacked == was[i].wasPacked)
    && items[n..] == was[n..]
  }

  // Request m is for item order[m], which is before item n.
  ghost predicate TakenAt(reqs: seq<Request>, items: seq<Item>, order: seq<nat>, n: nat, m: nat)
    requires m < |order| == |reqs|
  {
    order[m] < n <= |items| && reqs[m].w == items[order[m]].w && reqs[m].h == items[order[m]].h
  }

  ghost predicate Before(order: seq<nat>, m: nat, l: nat)
    requires m < |order| && l < |order|
  {
    order[m] < order[l]
  }

  // The requests are for items in the order of the items.
  ghost predicate TakenInOrder(reqs: seq<Request>, items: seq<Item>, order: seq<nat>, n: nat) {
    && |order| == |reqs| && (forall m :: 0 <= m < |order| ==> TakenAt(reqs, items, order, n, m))
    && forall m, l :: 0 <= m < l < |order| ==> Before(order, m, l)
  }

  lemma NextTaken(reqs: seq<Request>, items: seq<Item>, order: seq<nat>, n: nat, r: Request)
    requires TakenInOrder(reqs, items, order, n) && n < |items| && r.w == items[n].w && r.h == items[n].h
    ensures TakenInOrder(reqs + [r], items, order + [n], n + 1)
  {
    var rs, os, next := reqs + [r], order + [n], n + 1;
    forall m | 0 <= m < |os|
      ensures TakenAt(rs, items, os, next, m)
    {
      assert m < |order| ==> TakenAt(reqs, items, order, n, m);
    }
    forall m, l | 0 <= m < l < |os|
      ensures Before(os, m, l)
    {
      assert TakenAt(reqs, items, order, n, m);
      assert l < |order| ==> Before(order, m, l);
    }
  }

  lemma NoneTaken(reqs: seq<Request>, items: seq<Item>, order: seq<nat>, n: nat)
    requires TakenInOrder(reqs, items, order, n) && n < |items|
    ensures TakenInOrder(reqs, items, order, n + 1)
  {
    var next := n + 1;
    forall m | 0 <= m < |order|
      ensures TakenAt(reqs, items, order, next, m)
    {
      assert TakenAt(reqs, items, order, n, m);
    }
  }

  ghost predicate NoTaller(reqs: seq<Request>, m: nat, l: nat)
    requires m < |reqs| && l < |reqs|
  {
    reqs[m].h > reqs[l].h || (reqs[m].h == reqs[l].h && reqs[m].w >= reqs[l].w)
  }

  // No request is taller than an earlier one, or as tall and wider.
  ghost predicate TallestFirst(reqs: seq<Request>) {
    forall m, l :: 0 <= m < l < |reqs| ==> NoTaller(reqs, m, l)
  }

  lemma SortedIsTallestFirst(reqs: seq<Request>, items: seq<Item>, order: seq<nat>)
    requires TakenInOrder(reqs, items, order, |items|) && SortedUpTo(HeightCompare, items, |items|)
    ensures TallestFirst(reqs)
  {
    forall m, l | 0 <= m < l < |reqs|
      ensures NoTaller(reqs, m, l)
    {
      assert TakenAt(reqs, items, order, |items|, m) && TakenAt(reqs, items, order, |items|, l);
      assert Before(order, m, l) && Leq(HeightCompare, items, order[m], order[l]);
    }
  }

  // The loop of stbrp_pack_rects that packs each rectangle in turn.
  method PackEach(p: Packer, a: array<Item>)
    returns (ghost reqs: seq<Request>, ghost states: seq<State>, ghost asked: seq<int>, ghost order: seq<nat>)
    requires p.Valid()
    modifies p, a
    ensures p.Valid() && p.Conf() == old(p.Conf())
    ensures Run(p.Conf(), reqs, states)
    ensures states[0] == old(p.Snapshot()) && states[|reqs|] == p.Snapshot()
    ensures |asked| == a.Length && EachAnswered(a[..], a.Length, reqs, asked)
    ensures InputsKept(a[..], old(a[..]), a.Length)
    ensures TakenInOrder(reqs, old(a[..]), order, a.Length)
  {
    reqs, states, asked, order := [], [p.Snapshot()], [], [];
    ghost var was := a[..];
    for n := 0 to a.Length
      invariant p.Valid() && p.Conf() == old(p.Conf())
      invariant Run(p.Conf(), reqs, states)
      invariant states[0] == old(p.Snapshot()) && states[|reqs|] == p.Snapshot()
      invariant |asked| == n && EachAnswered(a[..], n, reqs, asked)
      invariant InputsKept(a[..], was, n)
      invariant TakenInOrder(reqs, was, order, n)
    {
      ghost var items, before, k := a[..], reqs, -1;
      var it := a[n];
      assert it == was[n] by { assert items[n..][0] == was[n..][0]; }
      if IsEmpty(it) {
        it := it.(x := 0, y := 0);
        NoneTaken(reqs, was, order, n);
      } else {
        ghost var r;
        it, r := PackOne(p, it, reqs, states);
        k := |reqs|;
        NextTaken(reqs, was, order, n, r);
        reqs, states, order := reqs + [r], states + [p.Snapshot()], order + [n];
      }
      a[n] := it;
      assert a[..] == items[n := it];
      OneMore(items, was, n, before, reqs, asked, k, it);
      asked := asked + [k];
    }
  }

  lemma OneMore(items: seq<Item>, was: seq<Item>, n: nat, reqs: seq<Request>, reqs': seq<Request>,
                asked: seq<int>, k: int, it: Item)
    requires |asked| == n < |items| == |was|
    requires EachAnswered(items, n, reqs, asked) && InputsKept(items, was, n)
    requires reqs <= reqs' && Answered(it, reqs', k)
    requires k == -1 || k == |reqs|
    requires SameInput(it, was[n]) && it.wasPacked == was[n].wasPacked
    ensures EachAnswered(items[n := it], n + 1, reqs', asked + [k])
    ensures InputsKept(items[n := it], was, n + 1)
  {
    var asked' := asked + [k];
    forall i, j | 0 <= i < j < n + 1
      ensures OwnRequest(asked', i, j)
    {
      assert Answered(items[i], reqs, asked[i]);
      if j < n { assert OwnRequest(asked, i, j); }
    }
    assert items[n := it][n + 1..] == items[n..][1..];
    assert was[n + 1..] == was[n..][1..];
  }

  lemma RunGrows(c: Config, reqs: seq<Request>, states: seq<State>, r: Request, st: State)
    requires Run(c, reqs, states)
    requires r.w >= 1 && r.h >= 1
    requires Inv(c, states[|reqs|]) && Step(c, states[|reqs|], r.w, r.h, r.out, st)
    ensures Run(c, reqs + [r], states + [st])
  {
    var rs, ss := reqs + [r], states + [st];
    forall i | 0 <= i < |rs|
      ensures StepAt(c, rs, ss, i)
    {
      if i < |reqs| { assert StepAt(c, reqs, states, i); }
    }
  }

  // ------------------------------------------------------------------ stbrp_pack_rects

  // The final state of one rectangle: its answer, and the flag that says there was room.
  ghost predicate Settled(it: Item, reqs: seq<Request>, k: int) {
    Answered(it, reqs, k) && it.wasPacked == if k == -1 || reqs[k].out.Some? then 1 else 0
  }

  ghost predicate Packed(it: Item) {
    it.w >= 1 && it.h >= 1 && it.wasPacked == 1
  }

  lemma SettledIsInside(c: Config, reqs: seq<Request>, states: seq<State>, a: Item, k: int)
    requires Run(c, reqs, states) && Inv(c, states[0]) && Settled(a, reqs, k) && Packed(a)
    ensures Inside(c, RectOf(a))
  {
    AnswerIsPlaced(c, reqs, states, k);
  }

  lemma SettledAreApart(c: Config, reqs: seq<Request>, states: seq<State>, a: Item, k: int, b: Item, l: int)
    requires Run(c, reqs, states) && Inv(c, states[0])
    requires Settled(a, reqs, k) && Settled(b, reqs, l)
    requires Packed(a) && Packed(b) && k != l
    ensures Disjoint(RectOf(a), RectOf(b)) && Inside(c, RectOf(a))
  {
    AnswerIsPlaced(c, reqs, states, k);
    if k < l {
      AnswersAreApart(c, reqs, states, k, l);
    } else {
      AnswersAreApart(c, reqs, states, l, k);
    }
  }

  // The first loop of stbrp_pack_rects: was_packed holds the original index.
  method KeyByIndex(a: array<Item>)
    modifies a
    ensures forall k :: 0 <= k < a.Length ==> a[k] == old(a[k]).(wasPacked := k)
  {
    for i := 0 to a.Length
      invariant forall k :: 0 <= k < i ==> a[k] == old(a[k]).(wasPacked := k)
      invariant forall k :: i <= k < a.Length ==> a[k] == old(a[k])
    {
      a[i] := a[i].(wasPacked := i);
    }
  }

  function WithFlag(it: Item): Item {
    it.(wasPacked := if it.x == MAXVAL && it.y == MAXVAL then 0 else 1)
  }

  // The last loop of stbrp_pack_rects.
  method SetFlags(a: array<Item>) returns (allPacked: bool)
    modifies a
    ensures forall k :: 0 <= k < a.Length ==> a[k] == WithFlag(old(a[k]))
    ensures allPacked <==> forall k :: 0 <= k < a.Length ==> a[k].wasPacked == 1
  {
    allPacked := true;
    for i := 0 to a.Length
      invariant forall k :: 0 <= k < i ==> a[k] == WithFlag(old(a[k]))
      invariant forall k :: i <= k < a.Length ==> a[k] == old(a[k])
      invariant allPacked <==> forall k :: 0 <= k < i ==> a[k].wasPacked == 1
    {
      a[i] := WithFlag(a[i]);
      if a[i].wasPacked == 0 {
        allPacked := false;
      }
    }
  }

  // The first sort and the packing loop. sorted: the array between the two.
  method SortAndPack(p: Packer, a: array<Item>)
    returns (ghost reqs: seq<Request>, ghost states: seq<State>, ghost asked: seq<int>,
             ghost sorted: seq<Item>, ghost perm: seq<int>)
    requires p.Valid()
    modifies p, a
    ensures p.Valid() && p.Conf() == old(p.Conf())
    ensures Run(p.Conf(), reqs, states)
    ensures states[0] == old(p.Snapshot()) && states[|reqs|] == p.Snapshot()
    ensures Rearranged(sorted, old(a[..]), perm) && InputsKept(a[..], sorted, a.Length)
    ensures |asked| == a.Length && EachAnswered(a[..], a.Length, reqs, asked)
    ensures TallestFirst(reqs)
  {
    HeightCompareIsComparator();
    perm := QSort(a, HeightCompare);
    sorted := a[..];
    ghost var order;
    reqs, states, asked, order := PackEach(p, a);
    SortedIsTallestFirst(reqs, sorted, order);
  }

  // The second sort. keyed: the array before the first one.
  method RestoreOrder(a: array<Item>, ghost keyed: seq<Item>, ghost sorted: seq<Item>, ghost perm1: seq<int>,
                      ghost reqs: seq<Request>, ghost asked: seq<int>) returns (ghost asked': seq<int>)
    requires |keyed| == a.Length && forall i :: 0 <= i < |keyed| ==> keyed[i].wasPacked == i
    requires Rearranged(sorted, keyed, perm1) && InputsKept(a[..], sorted, |sorted|)
    requires |asked| == a.Length && EachAnswered(a[..], a.Length, reqs, asked)
    modifies a
    ensures forall i :: 0 <= i < a.Length ==> SameInput(a[i], keyed[i])
    ensures |asked'| == a.Length && OwnRequests(asked', a.Length)
    ensures forall i :: 0 <= i < a.Length ==> Answered(a[i], reqs, asked'[i])
  {
    ghost var packed := a[..];
    OriginalOrderIsComparator();
    ghost var perm2 := QSort(a, OriginalOrder);
    OrderIsRestored(keyed, sorted, packed, a[..], perm1, perm2, reqs, asked);
    asked' := Composed(asked, perm2);
  }

  method PackRects(p: Packer, a: array<Item>)
    returns (allPacked: bool, ghost reqs: seq<Request>, ghost states: seq<State>, ghost asked: seq<int>)
    requires p.Valid()
    modifies p, a
    ensures p.Valid() && p.Conf() == old(p.Conf())
    ensures Run(p.Conf(), reqs, states) && TallestFirst(reqs)
    ensures states[0] == old(p.Snapshot()) && states[|reqs|] == p.Snapshot()
    ensures |asked| == a.Length && OwnRequests(asked, a.Length)
    ensures forall i :: 0 <= i < a.Length ==> SameInput(a[i], old(a[i]))
    ensures forall i :: 0 <= i < a.Length ==> Settled(a[i], reqs, asked[i])
    ensures forall i :: 0 <= i < a.Length && Packed(a[i]) ==> Inside(p.Conf(), RectOf(a[i]))
    ensures forall i, j :: 0 <= i < j < a.Length && Packed(a[i]) && Packed(a[j]) ==>
      Disjoint(RectOf(a[i]), RectOf(a[j]))
    ensures allPacked <==> forall i :: 0 <= i < a.Length ==> a[i].wasPacked == 1
  {
    KeyByIndex(a);
    ghost var keyed := a[..];
    ghost var sorted, perm;
    reqs, states, asked, sorted, perm := SortAndPack(p, a);
    asked := RestoreOrder(a, keyed, sorted, perm, reqs, asked);
    ghost var restored := a[..];
    allPacked := SetFlags(a);
    FlagsTellRoom(p.Conf(), reqs, states, restored, asked, a[..]);
  }

  lemma FlagsTellRoom(c: Config, reqs: seq<Request>, states: seq<State>, was: seq<Item>, asked: seq<int>,
                      items: seq<Item>)
    requires Run(c, reqs, states) && Inv(c, states[0])
    requires |asked| == |was| == |items| && OwnRequests(asked, |asked|)
    requires forall i :: 0 <= i < |was| ==> Answered(was[i], reqs, asked[i])
    requires forall i :: 0 <= i < |was| ==> items[i] == WithFlag(was[i])
    ensures forall i :: 0 <= i < |items| ==> Settled(items[i], reqs, asked[i])
    ensures forall i :: 0 <= i < |items| && Packed(items[i]) ==> Inside(c, RectOf(items[i]))
    ensures forall i, j :: 0 <= i < j < |items| && Packed(items[i]) && Packed(items[j]) ==>
      Disjoint(RectOf(items[i]), RectOf(items[j]))
  {
    forall i | 0 <= i < |items|
      ensures Settled(items[i], reqs, asked[i])
    {
      if asked[i] >= 0 && reqs[asked[i]].out.Some? {
        AnswerIsPlaced(c, reqs, states, asked[i]);
      }
    }
    forall i | 0 <= i < |items| && Packed(items[i])
      ensures Inside(c, RectOf(items[i]))
    {
      SettledIsInside(c, reqs, states, items[i], asked[i]);
    }
    forall i, j | 0 <= i < j < |items| && Packed(items[i]) && Packed(items[j])
      ensures Disjoint(RectOf(items[i]), RectOf(items[j]))
    {
      assert OwnRequest(asked, i, j);
      SettledAreApart(c, reqs, states, items[i], asked[i], items[j], asked[j]);
    }
  }

  // After the second sort every rectangle is back at its own index, with its own answer.
  lemma OrderIsRestored(keyed: seq<Item>, sorted: seq<Item>, packed: seq<Item>, restored: seq<Item>,
                        perm1: seq<int>, perm2: seq<int>, reqs: seq<Request>, asked: seq<int>)
    requires forall i :: 0 <= i < |keyed| ==> keyed[i].wasPacked == i
    requires Rearranged(sorted, keyed, perm1)
    requires |packed| == |sorted| && InputsKept(packed, sorted, |sorted|)
    requires Rearranged(restored, packed, perm2) && SortedUpTo(OriginalOrder, restored, |restored|)
    requires |asked| == |packed| && EachAnswered(packed, |packed|, reqs, asked)
    ensures forall i :: 0 <= i < |keyed| ==> SameInput(restored[i], keyed[i])
    ensures OwnRequests(Composed(asked, perm2), |keyed|)
    ensures forall i :: 0 <= i < |keyed| ==> Answered(restored[i], reqs, Composed(asked, perm2)[i])
  {
    var n := |keyed|;
    var q := Composed(perm1, perm2);
    ComposedIsPermutation(perm1, perm2, n);
    forall i, j | 0 <= i < j < n
      ensures q[i] <= q[j]
    {
      assert Leq(OriginalOrder, restored, i, j);
    }
    AscendingPermutation(q);
    forall i | 0 <= i < n
      ensures SameInput(restored[i], keyed[i])
    {
      assert restored[i] == packed[perm2[i]] && keyed[q[i]] == sorted[perm2[i]];
    }
    var asked' := Composed(asked, perm2);
    forall i, j | 0 <= i < j < n
      ensures OwnRequest(asked', i, j)
    {
      assert Differ(perm2, i, perm2, j);
      assert if perm2[i] < perm2[j] then OwnRequest(asked, perm2[i], perm2[j])
        else OwnRequest(asked, perm2[j], perm2[i]);
    }
  }
}
