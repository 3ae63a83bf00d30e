/**
 The skyline of the rectangle packer as a value: the (x, y) pairs of the active list, the
 sentinel included. The packer's class (RectPacker) is proved against the functions here.
 A skyline is read through `HeightAt`, the height of one pixel column, and every geometric
 statement is about columns, never about nodes.
 */
module Skyline {
  import opened Wrappers

  datatype Point = Point(x: int, y: int)
  datatype Rect = Rect(x: int, y: int, w: int, h: int)

  // The y of the sentinel node, and the packer's initial "best y".
  const SENTINEL_Y := 0x4000_0000

  // The trigger of Ascending: it is used only where a proof names two places.
  ghost predicate Below(s: seq<Point>, i: nat, j: nat)
    requires i < |s| && j < |s|
  {
    s[i].x < s[j].x
  }

  ghost predicate Ascending(s: seq<Point>) {
    forall i, j :: 0 <= i < j < |s| ==> Below(s, i, j)
  }

  ghost predicate IsSkyline(s: seq<Point>, width: int) {
    && |s| >= 2
    && s[0].x == 0
    && s[|s| - 1].x == width
    && Ascending(s)
    && forall i :: 0 <= i < |s| - 1 ==> 0 <= s[i].y
  }

  // The skyline's height over column c: the y of the last node at or left of c.
  function HeightAt(s: seq<Point>, c: int): int
    requires |s| >= 1
  {
    HeightFrom(s, 0, c)
  }

  function HeightFrom(s: seq<Point>, i: nat, c: int): int
    requires i < |s|
    decreases |s| - i
  {
    if i + 1 == |s| || c < s[i + 1].x then s[i].y else HeightFrom(s, i + 1, c)
  }

  lemma HeightOnSegment(s: seq<Point>, i: nat, c: int)
    requires Ascending(s)
    requires i < |s|
    requires i == 0 || s[i].x <= c
    requires i + 1 < |s| ==> c < s[i + 1].x
    ensures HeightAt(s, c) == s[i].y
  {
    HeightSkips(s, 0, i, c);
  }

  lemma {:induction false} HeightSkips(s: seq<Point>, k: nat, i: nat, c: int)
    requires Ascending(s)
    requires k <= i < |s|
    requires i == k || s[i].x <= c
    requires i + 1 < |s| ==> c < s[i + 1].x
    ensures HeightFrom(s, k, c) == s[i].y
    decreases i - k
  {
    if k < i {
      Rises(s, k + 1, i);
      HeightSkips(s, k + 1, i, c);
    }
  }

  lemma Rises(s: seq<Point>, a: nat, b: nat)
    requires Ascending(s)
    requires a <= b < |s|
    ensures s[a].x <= s[b].x
    ensures a < b ==> s[a].x < s[b].x
  {
    assert a < b ==> Below(s, a, b);
  }

  // Node positions order node indices.
  lemma Before(s: seq<Point>, a: nat, b: nat)
    requires Ascending(s)
    requires a < |s| && b < |s| && s[a].x < s[b].x
    ensures a < b
  {
    assert b < a ==> Below(s, b, a);
  }

  lemma SegmentOf(s: seq<Point>, width: int, c: int) returns (i: nat)
    requires IsSkyline(s, width)
    requires 0 <= c < width
    ensures i < |s| - 1 && s[i].x <= c < s[i + 1].x
    ensures HeightAt(s, c) == s[i].y
  {
    i := 0;
    while s[i + 1].x <= c
      invariant i < |s| - 1 && s[i].x <= c
      decreases |s| - i
    {
      i := i + 1;
    }
    HeightOnSegment(s, i, c);
  }

  // The least y at which a w-wide strip starting at column x clears the skyline: the
  // greatest height among its columns (TopBounds, TopAttained).
  ghost function Top(s: seq<Point>, x: int, w: int): int
    requires |s| >= 1
    requires w >= 1
    decreases w
  {
    var last := HeightAt(s, x + w - 1);
    if w == 1 then last else Max(Top(s, x, w - 1), last)
  }

  lemma {:induction false} TopBounds(s: seq<Point>, x: int, w: int, c: int)
    requires |s| >= 1
    requires w >= 1 && x <= c < x + w
    ensures HeightAt(s, c) <= Top(s, x, w)
    decreases w
  {
    if c < x + w - 1 {
      TopBounds(s, x, w - 1, c);
    }
  }

  lemma {:induction false} TopAttained(s: seq<Point>, x: int, w: int) returns (c: int)
    requires |s| >= 1
    requires w >= 1
    ensures x <= c < x + w && HeightAt(s, c) == Top(s, x, w)
    decreases w
  {
    c := x + w - 1;
    if HeightAt(s, c) != Top(s, x, w) {
      c := TopAttained(s, x, w - 1);
    }
  }

  // Every segment touched by [x, x + w), from the one holding x up to j, is at most y and
  // one of them is y.
  ghost predicate SegmentMax(s: seq<Point>, i: nat, j: nat, y: int) {
    && i < j < |s|
    && (forall k :: i <= k < j ==> s[k].y <= y)
    && exists k :: i <= k < j && s[k].y == y
  }

  // The node walk computes Top: maximum over touched nodes is maximum over columns.
  lemma TopFromSegments(s: seq<Point>, width: int, i: nat, j: nat, x: int, w: int, y: int)
    requires IsSkyline(s, width)
    requires SegmentMax(s, i, j, y)
    requires w >= 1 && 0 <= x && x + w <= width
    requires s[i].x <= x < s[i + 1].x
    requires s[j - 1].x < x + w <= s[j].x
    ensures Top(s, x, w) == y
  {
    forall c | x <= c < x + w
      ensures HeightAt(s, c) <= y
    {
      var k := SegmentOf(s, width, c);
      Before(s, i, k + 1);
      Before(s, k, j);
    }
    var k :| i <= k < j && s[k].y == y;
    var c := Max(x, s[k].x);
    Rises(s, k, k + 1);
    if i < k { Rises(s, i + 1, k); }
    Rises(s, k, j - 1);
    HeightOnSegment(s, k, c);
    TopBounds(s, x, w, c);
    var top := TopAttained(s, x, w);
  }

  ghost predicate Feasible(width: int, w: int, x: int) {
    0 <= x && x + w <= width
  }

  // (x, y) rests on the skyline and no feasible column range rests lower.
  ghost predicate Lowest(s: seq<Point>, width: int, w: int, x: int, y: int)
    requires |s| >= 1 && w >= 1
  {
    && Feasible(width, w, x)
    && y == Top(s, x, w)
    && forall x2 :: Feasible(width, w, x2) ==> y <= Top(s, x2, w)
  }

  // Lowest, and leftmost among the lowest.
  ghost predicate BottomLeft(s: seq<Point>, width: int, w: int, x: int, y: int)
    requires |s| >= 1 && w >= 1
  {
    && Lowest(s, width, w, x, y)
    && forall x2 :: Feasible(width, w, x2) && x2 < x ==> y < Top(s, x2, w)
  }

  // Sliding a strip left to the start of the segment its left edge is on never raises it.
  lemma SlideLeft(s: seq<Point>, width: int, w: int, x: int) returns (i: nat)
    requires IsSkyline(s, width)
    requires w >= 1 && Feasible(width, w, x)
    ensures i < |s| - 1 && s[i].x <= x < s[i + 1].x
    ensures Feasible(width, w, s[i].x)
    ensures Top(s, s[i].x, w) <= Top(s, x, w)
  {
    i := SegmentOf(s, width, x);
    Rises(s, 0, i);
    var a := s[i].x;
    var c := TopAttained(s, a, w);
    if c < x {
      HeightOnSegment(s, i, c);
      TopBounds(s, x, w, x);
    } else {
      TopBounds(s, x, w, c);
    }
  }

  // The node search looks at node positions only; its answer is best over all columns.
  lemma NodeSearchIsExhaustive(s: seq<Point>, width: int, w: int, k: nat, i: nat)
    requires IsSkyline(s, width)
    requires w >= 1
    requires i < k < |s| && s[k].x + w > width
    requires Feasible(width, w, s[i].x)
    requires forall m :: 0 <= m < k && m < i ==> Top(s, s[i].x, w) < Top(s, s[m].x, w)
    requires forall m :: 0 <= m < k ==> Top(s, s[i].x, w) <= Top(s, s[m].x, w)
    ensures BottomLeft(s, width, w, s[i].x, Top(s, s[i].x, w))
  {
    forall x2 | Feasible(width, w, x2)
      ensures Top(s, s[i].x, w) <= Top(s, x2, w)
      ensures x2 < s[i].x ==> Top(s, s[i].x, w) < Top(s, x2, w)
    {
      var m := SlideLeft(s, width, w, x2);
      Before(s, m, k);
      if x2 < s[i].x {
        Before(s, m, i);
      }
    }
  }

  // ---------------------------------------------------------------- inserting a rectangle

  // The first node at or after column x.
  function FirstFrom(s: seq<Point>, x: int, k: nat): (p: nat)
    requires k < |s| && x <= s[|s| - 1].x
    ensures k <= p < |s| && x <= s[p].x
    ensures forall m :: k <= m < p ==> s[m].x < x
    decreases |s| - k
  {
    if x <= s[k].x then k else FirstFrom(s, x, k + 1)
  }

  // Starting at node k, the last node whose successor starts after column e.
  function LastWithin(s: seq<Point>, e: int, k: nat): (j: nat)
    requires k < |s|
    ensures k <= j < |s|
    ensures j + 1 < |s| ==> e < s[j + 1].x
    ensures forall m :: k < m <= j ==> s[m].x <= e
    decreases |s| - k
  {
    if k + 1 < |s| && s[k + 1].x <= e then LastWithin(s, e, k + 1) else k
  }

  // The skyline after a rectangle with left edge x, right edge e and upper edge top.
  function Splice(s: seq<Point>, x: int, e: int, top: int): (r: seq<Point>)
    requires |s| >= 1 && x <= s[|s| - 1].x
  {
    var p := FirstFrom(s, x, 0);
    var j := LastWithin(s, e, p);
    seq(|s| - j + p + 1, i requires 0 <= i < |s| - j + p + 1 =>
      if i < p then s[i]
      else if i == p then Point(x, top)
      else if i == p + 1 then Point(Max(e, s[j].x), s[j].y)
      else s[i - p - 1 + j])
  }

  // Where the raised stretch ends: at e, except when the rectangle starts inside a segment
  // that reaches past e.
  function SpliceEnd(s: seq<Point>, x: int, e: int): int
    requires |s| >= 1 && x <= s[|s| - 1].x
  {
    Max(e, s[LastWithin(s, e, FirstFrom(s, x, 0))].x)
  }

  // The node list of a splice, index by index: p nodes kept, two new, the tail shifted.
  lemma SpliceShape(s: seq<Point>, width: int, x: int, e: int, top: int) returns (p: nat, j: nat, r: seq<Point>)
    requires IsSkyline(s, width)
    requires 0 <= x < e <= width
    ensures r == Splice(s, x, e, top)
    ensures p == FirstFrom(s, x, 0) && j == LastWithin(s, e, p)
    ensures p <= j < |s| && |r| == |s| - j + p + 1
    ensures forall i {:trigger r[i]} :: 0 <= i < p ==> r[i] == s[i] && s[i].x < x
    ensures r[p] == Point(x, top)
    ensures r[p + 1] == Point(SpliceEnd(s, x, e), s[j].y)
    ensures forall i {:trigger r[i]} :: p + 2 <= i < |r| ==> r[i] == s[i - p - 1 + j]
    ensures e <= SpliceEnd(s, x, e) <= width
    ensures j + 1 < |s| ==> SpliceEnd(s, x, e) < s[j + 1].x
  {
    p := FirstFrom(s, x, 0);
    j := LastWithin(s, e, p);
    r := Splice(s, x, e, top);
    Rises(s, j, |s| - 1);
    if j + 1 < |s| { Rises(s, j, j + 1); }
  }

  lemma SpliceAscends(s: seq<Point>, width: int, x: int, e: int, top: int)
    requires IsSkyline(s, width)
    requires 0 <= x < e <= width
    ensures Ascending(Splice(s, x, e, top))
  {
    var p, j, r := SpliceShape(s, width, x, e, top);
    forall a, b | 0 <= a < b < |r|
      ensures Below(r, a, b)
    {
      if p + 2 <= b {
        Rises(s, j + 1, b - p - 1 + j);
        if p + 2 <= a {
          Rises(s, a - p - 1 + j, b - p - 1 + j);
        }
      } else if b < p {
        Rises(s, a, b);
      }
    }
  }

  lemma SpliceIsSkyline(s: seq<Point>, width: int, x: int, e: int, top: int)
    requires IsSkyline(s, width)
    requires 0 <= x < e <= width
    requires 0 <= top
    ensures IsSkyline(Splice(s, x, e, top), width)
    ensures var r := Splice(s, x, e, top); r[|r| - 1].y == s[|s| - 1].y
  {
    SpliceAscends(s, width, x, e, top);
    var p, j, r := SpliceShape(s, width, x, e, top);
    forall i | 0 <= i < |r| - 1
      ensures 0 <= r[i].y
    {
    }
  }

  // A node position at or past both x and e bounds the raised stretch.
  lemma SpliceEndBound(s: seq<Point>, width: int, x: int, e: int, i: nat)
    requires IsSkyline(s, width)
    requires 0 <= x < e <= width
    requires i < |s| && e <= s[i].x
    ensures SpliceEnd(s, x, e) <= s[i].x
  {
    var p, j, _ := SpliceShape(s, width, x, e, 0);
    if s[i].x < s[j].x {
      Before(s, i, j);
    }
  }

  // What the node surgery means: the columns from x to SpliceEnd rise to top, no other
  // column changes.
  lemma SpliceHeights(s: seq<Point>, width: int, x: int, e: int, top: int, c: int)
    requires IsSkyline(s, width)
    requires 0 <= x < e <= width
    requires 0 <= c < width
    ensures |Splice(s, x, e, top)| >= 1
    ensures HeightAt(Splice(s, x, e, top), c)
      == if x <= c < SpliceEnd(s, x, e) then top else HeightAt(s, c)
  {
    var p, j, r := SpliceShape(s, width, x, e, top);
    SpliceAscends(s, width, x, e, top);
    if x <= c < SpliceEnd(s, x, e) {
      HeightOnSegment(r, p, c);
    } else {
      var m := SegmentOf(s, width, c);
      if c < x {
        Before(s, m, p);
        HeightOnSegment(r, m, c);
      } else {
        Before(s, j, m + 1);
        HeightOnSegment(r, m - j + p + 1, c);
      }
    }
  }
}
