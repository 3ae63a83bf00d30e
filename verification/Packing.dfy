/**
 Runs of the rectangle packer: one request is a step relation between states, and the
 packer's guarantees are theorems about every run. The class RectPacker.Packer is proved
 to make exactly these steps.
 */
module Packing {
  import opened Wrappers
  import opened Skyline

  datatype Heuristic = BottomLeftSort | BestFitSort
  datatype Config = Config(width: int, height: int, align: int, nodes: int, heuristic: Heuristic)
  datatype State = State(sky: seq<Point>, free: nat, placed: seq<Rect>)

  ghost predicate ValidConfig(c: Config) {
    && 1 <= c.width <= SENTINEL_Y
    && 0 <= c.height <= SENTINEL_Y
    && 1 <= c.nodes
    && 1 <= c.align
  }

  // The width the position search uses: w rounded up to a multiple of the alignment.
  function AlignedWidth(align: int, w: int): (aw: int)
    requires align >= 1
    ensures w <= aw < w + align
    ensures aw % align == 0
    ensures align == 1 ==> aw == w
  {
    var t := w + (align - 1);
    var aw := t - t % align;
    assert aw == align * (t / align);
    MultipleHasNoRest(align, t / align);
    aw
  }

  lemma MultipleHasNoRest(a: int, q: int)
    requires a >= 1
    ensures (a * q) % a == 0
  {
    assert a * q == q * a + 0;
    DivisionIsUnique(a, q, 0, (a * q) / a, (a * q) % a);
  }

  lemma DivisionIsUnique(a: int, q: int, r: int, q2: int, r2: int)
    requires a >= 1 && 0 <= r < a && 0 <= r2 < a
    requires a * q + r == a * q2 + r2
    ensures q == q2 && r == r2
  {
    assert a * (q - q2) == r2 - r;
    assert q - q2 >= 1 ==> a * (q - q2) >= a;
    assert q - q2 <= -1 ==> a * (q - q2) <= -a;
  }

  ghost predicate Disjoint(a: Rect, b: Rect) {
    a.x + a.w <= b.x || b.x + b.w <= a.x || a.y + a.h <= b.y || b.y + b.h <= a.y
  }

  ghost predicate Inside(c: Config, r: Rect) {
    && 1 <= r.w && 0 <= r.x && r.x + r.w <= c.width
    && 1 <= r.h && 0 <= r.y && r.y + r.h <= c.height
  }

  // No column of r reaches above the skyline.
  ghost predicate Under(r: Rect, s: seq<Point>)
    requires |s| >= 1
  {
    forall c :: r.x <= c < r.x + r.w ==> r.y + r.h <= HeightAt(s, c)
  }

  ghost predicate SkylineFits(c: Config, s: seq<Point>) {
    && IsSkyline(s, c.width)
    && s[|s| - 1].y == SENTINEL_Y
    && forall i :: 0 <= i < |s| - 1 ==> s[i].y <= c.height
  }

  ghost predicate AllUnder(placed: seq<Rect>, s: seq<Point>)
    requires |s| >= 1
  {
    forall i :: 0 <= i < |placed| ==> Under(placed[i], s)
  }

  ghost predicate Laid(c: Config, placed: seq<Rect>) {
    && (forall i :: 0 <= i < |placed| ==> Inside(c, placed[i]))
    && forall i, j :: 0 <= i < j < |placed| ==> Disjoint(placed[i], placed[j])
  }

  ghost predicate Inv(c: Config, st: State) {
    && ValidConfig(c)
    && SkylineFits(c, st.sky)
    && |st.sky| + st.free == c.nodes + 2
    && Laid(c, st.placed)
    && AllUnder(st.placed, st.sky)
  }

  ghost function Init(c: Config): State
    requires ValidConfig(c)
  {
    State([Point(0, 0), Point(c.width, SENTINEL_Y)], c.nodes, [])
  }

  // One edge of the strip is at a node.
  ghost predicate AtNode(s: seq<Point>, aw: int, x: int) {
    exists i :: 0 <= i < |s| && (s[i].x == x || s[i].x == x + aw)
  }

  ghost predicate Chosen(c: Config, s: seq<Point>, aw: int, x: int, y: int)
    requires |s| >= 1 && aw >= 1
  {
    && Lowest(s, c.width, aw, x, y)
    && AtNode(s, aw, x)
    && (c.heuristic == BottomLeftSort ==> BottomLeft(s, c.width, aw, x, y))
  }

  // Wherever the strip is put, a rectangle of height h sticks out of the target.
  ghost predicate NoRoom(c: Config, s: seq<Point>, aw: int, h: int)
    requires |s| >= 1 && aw >= 1
  {
    forall x :: Feasible(c.width, aw, x) ==> c.height < Top(s, x, aw) + h
  }

  ghost predicate Step(c: Config, st: State, w: int, h: int, out: Option<Point>, st': State)
    requires Inv(c, st) && w >= 1 && h >= 1
  {
    Step1(c, st, AlignedWidth(c.align, w), w, h, out, st')
  }

  // One request whose position search uses strip width aw.
  ghost predicate Step1(c: Config, st: State, aw: int, w: int, h: int, out: Option<Point>, st': State)
    requires Inv(c, st) && 1 <= w <= aw && h >= 1
  {
    match out
    case None =>
      st' == st && (st.free == 0 || NoRoom(c, st.sky, aw, h))
    case Some(pt) =>
      && st.free > 0
      && Chosen(c, st.sky, aw, pt.x, pt.y)
      && pt.y + h <= c.height
      && st'.sky == Splice(st.sky, pt.x, pt.x + w, pt.y + h)
      && st'.free + |st'.sky| == st.free + |st.sky|
      && st'.placed == st.placed + [Rect(pt.x, pt.y, w, h)]
  }

  // ------------------------------------------------------------- every step keeps safety

  lemma InitInv(c: Config)
    requires ValidConfig(c)
    ensures Inv(c, Init(c))
  {
  }

  // The strip rests above every column it covers, so the new rectangle clears all others.
  lemma NewRectIsClear(s: seq<Point>, width: int, aw: int, r: Rect, added: Rect)
    requires |s| >= 1 && Under(r, s) && r.w >= 1
    requires 1 <= added.w <= aw && added.h >= 1
    requires Lowest(s, width, aw, added.x, added.y)
    ensures Disjoint(r, added)
  {
    var col := Max(added.x, r.x);
    if col < added.x + added.w && col < r.x + r.w {
      TopBounds(s, added.x, aw, col);
    }
  }

  lemma RaiseStaysInStrip(s: seq<Point>, width: int, aw: int, w: int, x: int)
    requires IsSkyline(s, width)
    requires 1 <= w <= aw && Feasible(width, aw, x)
    requires AtNode(s, aw, x)
    ensures x + w <= SpliceEnd(s, x, x + w) <= x + aw
  {
    var p, j, _ := SpliceShape(s, width, x, x + w, 0);
    var i :| 0 <= i < |s| && (s[i].x == x || s[i].x == x + aw);
    if s[i].x == x + aw {
      SpliceEndBound(s, width, x, x + w, i);
    } else {
      NodeStartIsExact(s, width, x, x + w, i);
    }
  }

  // A placement raises columns of its strip only, and lowers none.
  lemma RaisedOnly(s: seq<Point>, width: int, aw: int, w: int, h: int, x: int, y: int, col: int)
    requires IsSkyline(s, width)
    requires 1 <= w <= aw && h >= 1
    requires Lowest(s, width, aw, x, y) && AtNode(s, aw, x)
    requires 0 <= col < width
    ensures |Splice(s, x, x + w, y + h)| >= 1
    ensures x <= col < x + w ==> HeightAt(Splice(s, x, x + w, y + h), col) == y + h
    ensures HeightAt(s, col) <= HeightAt(Splice(s, x, x + w, y + h), col)
  {
    RaiseStaysInStrip(s, width, aw, w, x);
    SpliceHeights(s, width, x, x + w, y + h, col);
    if x <= col < x + aw {
      TopBounds(s, x, aw, col);
    }
  }

  // A rectangle whose left edge is at a node raises exactly its own columns.
  lemma NodeStartIsExact(s: seq<Point>, width: int, x: int, e: int, i: nat)
    requires IsSkyline(s, width)
    requires 0 <= x < e <= width
    requires i < |s| && s[i].x == x
    ensures SpliceEnd(s, x, e) == e
  {
    var p, j, _ := SpliceShape(s, width, x, e, 0);
    if p < i { Rises(s, p, i); }
  }

  lemma SpliceFits(c: Config, s: seq<Point>, x: int, e: int, top: int)
    requires SkylineFits(c, s)
    requires 0 <= x < e <= c.width
    requires 0 <= top <= c.height
    ensures SkylineFits(c, Splice(s, x, e, top))
  {
    SpliceIsSkyline(s, c.width, x, e, top);
    var p, j, r := SpliceShape(s, c.width, x, e, top);
  }

  lemma StillUnder(s: seq<Point>, width: int, aw: int, added: Rect, r: Rect)
    requires IsSkyline(s, width)
    requires 1 <= added.w <= aw && added.h >= 1
    requires Lowest(s, width, aw, added.x, added.y) && AtNode(s, aw, added.x)
    requires r == added || (Under(r, s) && 0 <= r.x && r.x + r.w <= width)
    ensures |Splice(s, added.x, added.x + added.w, added.y + added.h)| >= 1
    ensures Under(r, Splice(s, added.x, added.x + added.w, added.y + added.h))
  {
    RaisedOnly(s, width, aw, added.w, added.h, added.x, added.y, added.x);
    var t := Splice(s, added.x, added.x + added.w, added.y + added.h);
    forall col | r.x <= col < r.x + r.w
      ensures r.y + r.h <= HeightAt(t, col)
    {
      RaisedOnly(s, width, aw, added.w, added.h, added.x, added.y, col);
    }
  }

  lemma AllStillUnder(c: Config, s: seq<Point>, placed: seq<Rect>, aw: int, added: Rect)
    requires IsSkyline(s, c.width) && Laid(c, placed) && AllUnder(placed, s)
    requires 1 <= added.w <= aw && added.h >= 1
    requires Lowest(s, c.width, aw, added.x, added.y) && AtNode(s, aw, added.x)
    ensures |Splice(s, added.x, added.x + added.w, added.y + added.h)| >= 1
    ensures AllUnder(placed + [added], Splice(s, added.x, added.x + added.w, added.y + added.h))
  {
    StillUnder(s, c.width, aw, added, added);
    var all := placed + [added];
    forall i | 0 <= i < |all|
      ensures Under(all[i], Splice(s, added.x, added.x + added.w, added.y + added.h))
    {
      assert i < |placed| ==> Inside(c, placed[i]);
      StillUnder(s, c.width, aw, added, all[i]);
    }
  }

  lemma TopIsNotNegative(s: seq<Point>, width: int, aw: int, x: int)
    requires IsSkyline(s, width)
    requires 1 <= aw && Feasible(width, aw, x)
    ensures 0 <= Top(s, x, aw)
  {
    var i := SegmentOf(s, width, x);
    TopBounds(s, x, aw, x);
  }

  lemma StepKeepsLaid(c: Config, s: seq<Point>, placed: seq<Rect>, aw: int, added: Rect)
    requires IsSkyline(s, c.width) && Laid(c, placed) && AllUnder(placed, s)
    requires 1 <= added.w <= aw && added.h >= 1 && added.y + added.h <= c.height
    requires Lowest(s, c.width, aw, added.x, added.y)
    ensures Laid(c, placed + [added])
  {
    TopIsNotNegative(s, c.width, aw, added.x);
    forall i | 0 <= i < |placed|
      ensures Disjoint(placed[i], added)
    {
      assert Inside(c, placed[i]);
      NewRectIsClear(s, c.width, aw, placed[i], added);
    }
  }

  lemma StepKeepsInv(c: Config, st: State, w: int, h: int, out: Option<Point>, st': State)
    requires Inv(c, st) && w >= 1 && h >= 1
    requires Step(c, st, w, h, out, st')
    ensures Inv(c, st')
  {
    Step1KeepsInv(c, st, AlignedWidth(c.align, w), w, h, out, st');
  }

  lemma Step1KeepsInv(c: Config, st: State, aw: int, w: int, h: int, out: Option<Point>, st': State)
    requires Inv(c, st) && 1 <= w <= aw && h >= 1
    requires Step1(c, st, aw, w, h, out, st')
    ensures Inv(c, st')
  {
    if out.Some? {
      var added := Rect(out.value.x, out.value.y, w, h);
      PlacementIsSafe(c, st, aw, added);
      assert st'.placed == st.placed + [added];
    }
  }

  lemma PlacementIsSafe(c: Config, st: State, aw: int, added: Rect)
    requires SkylineFits(c, st.sky) && Laid(c, st.placed) && AllUnder(st.placed, st.sky)
    requires 1 <= added.w <= aw && added.h >= 1 && added.y + added.h <= c.height
    requires Lowest(st.sky, c.width, aw, added.x, added.y) && AtNode(st.sky, aw, added.x)
    ensures SkylineFits(c, Splice(st.sky, added.x, added.x + added.w, added.y + added.h))
    ensures Laid(c, st.placed + [added])
    ensures AllUnder(st.placed + [added], Splice(st.sky, added.x, added.x + added.w, added.y + added.h))
  {
    TopIsNotNegative(st.sky, c.width, aw, added.x);
    StepKeepsLaid(c, st.sky, st.placed, aw, added);
    SpliceFits(c, st.sky, added.x, added.x + added.w, added.y + added.h);
    AllStillUnder(c, st.sky, st.placed, aw, added);
  }

  // ------------------------------------------------------------------------------- runs

  datatype Request = Request(w: int, h: int, out: Option<Point>)

  ghost predicate Run(c: Config, reqs: seq<Request>, states: seq<State>) {
    && |states| == |reqs| + 1
    && forall i :: 0 <= i < |reqs| ==> StepAt(c, reqs, states, i)
  }

  ghost predicate StepAt(c: Config, reqs: seq<Request>, states: seq<State>, i: nat)
    requires i < |reqs| && |states| == |reqs| + 1
  {
    && reqs[i].w >= 1 && reqs[i].h >= 1
    && (Inv(c, states[i]) ==> Step(c, states[i], reqs[i].w, reqs[i].h, reqs[i].out, states[i + 1]))
  }

  // For any sequence of packs: pairwise disjoint, inside the target, nodes conserved, and
  // the active list a skyline from 0 to the width.
  lemma {:induction false} RunIsSafe(c: Config, reqs: seq<Request>, states: seq<State>, k: nat)
    requires Run(c, reqs, states)
    requires Inv(c, states[0])
    requires k < |states|
    ensures Inv(c, states[k])
  {
    if k > 0 {
      RunIsSafe(c, reqs, states, k - 1);
      var r := reqs[k - 1];
      assert StepAt(c, reqs, states, k - 1);
      StepKeepsInv(c, states[k - 1], r.w, r.h, r.out, states[k]);
    }
  }

  // A rectangle once placed stays where it is.
  lemma {:induction false} PlacedStays(c: Config, reqs: seq<Request>, states: seq<State>, k: nat, l: nat)
    requires Run(c, reqs, states) && Inv(c, states[0])
    requires k <= l < |states|
    ensures states[k].placed <= states[l].placed
    decreases l - k
  {
    if k < l {
      PlacedStays(c, reqs, states, k, l - 1);
      RunIsSafe(c, reqs, states, l - 1);
      assert StepAt(c, reqs, states, l - 1);
    }
  }

  // The rectangle request k was answered with.
  ghost function Answer(r: Request): Rect
    requires r.out.Some?
  {
    Rect(r.out.value.x, r.out.value.y, r.w, r.h)
  }

  lemma AnswerIsPlaced(c: Config, reqs: seq<Request>, states: seq<State>, k: nat)
    requires Run(c, reqs, states) && Inv(c, states[0])
    requires k < |reqs| && reqs[k].out.Some?
    ensures states[k + 1].placed == states[k].placed + [Answer(reqs[k])]
    ensures Inside(c, Answer(reqs[k]))
  {
    RunIsSafe(c, reqs, states, k);
    RunIsSafe(c, reqs, states, k + 1);
    assert StepAt(c, reqs, states, k);
    var all := states[k + 1].placed;
    assert Inside(c, all[|all| - 1]);
  }

  // Any two rectangles of one run, and any of them and one placed before, are disjoint.
  lemma AnswersAreApart(c: Config, reqs: seq<Request>, states: seq<State>, k: nat, l: nat)
    requires Run(c, reqs, states) && Inv(c, states[0])
    requires k < l < |reqs| && reqs[k].out.Some? && reqs[l].out.Some?
    ensures Disjoint(Answer(reqs[k]), Answer(reqs[l]))
  {
    AnswerIsPlaced(c, reqs, states, k);
    AnswerIsPlaced(c, reqs, states, l);
    PlacedStays(c, reqs, states, k + 1, l);
    RunIsSafe(c, reqs, states, l + 1);
    var all := states[l + 1].placed;
    assert all[|states[k].placed|] == Answer(reqs[k]);
    assert all[|states[l].placed|] == Answer(reqs[l]);
    assert |states[k].placed| < |states[l].placed|;
  }

  // -------------------------------------------------- the skyline is the upper envelope

  // The highest top among the rectangles covering column col; 0 when there is none.
  ghost function Envelope(placed: seq<Rect>, col: int): int {
    if placed == [] then 0
    else
      var r := placed[|placed| - 1];
      var rest := Envelope(placed[..|placed| - 1], col);
      if r.x <= col < r.x + r.w then Max(rest, r.y + r.h) else rest
  }

  ghost predicate Exact(c: Config, st: State)
    requires |st.sky| >= 1
  {
    forall col :: 0 <= col < c.width ==> ExactAt(st.sky, st.placed, col)
  }

  ghost predicate ExactAt(s: seq<Point>, placed: seq<Rect>, col: int)
    requires |s| >= 1
  {
    HeightAt(s, col) == Envelope(placed, col)
  }

  lemma RaiseIsExact(c: Config, s: seq<Point>, aw: int, w: int, x: int, y: int)
    requires IsSkyline(s, c.width)
    requires 1 <= w <= aw && (c.align == 1 ==> w == aw)
    requires Chosen(c, s, aw, x, y)
    requires c.align == 1 || c.heuristic == BottomLeftSort
    ensures SpliceEnd(s, x, x + w) == x + w
  {
    if c.heuristic == BottomLeftSort {
      var i := SlideLeft(s, c.width, aw, x);
      assert s[i].x == x;
      NodeStartIsExact(s, c.width, x, x + w, i);
    } else {
      RaiseStaysInStrip(s, c.width, aw, w, x);
    }
  }

  // With bottom-left placement (any alignment), and with best fit at alignment 1, the
  // skyline never over-estimates.
  lemma StepKeepsExact(c: Config, st: State, w: int, h: int, out: Option<Point>, st': State)
    requires Inv(c, st) && w >= 1 && h >= 1
    requires Step(c, st, w, h, out, st')
    requires c.align == 1 || c.heuristic == BottomLeftSort
    requires Exact(c, st)
    ensures |st'.sky| >= 1 && Exact(c, st')
  {
    Step1KeepsExact(c, st, AlignedWidth(c.align, w), w, h, out, st');
  }

  lemma RaiseColumn(s: seq<Point>, width: int, aw: int, r: Rect, placed: seq<Rect>, col: int)
    requires IsSkyline(s, width)
    requires 1 <= r.w <= aw && r.h >= 1
    requires Lowest(s, width, aw, r.x, r.y)
    requires SpliceEnd(s, r.x, r.x + r.w) == r.x + r.w
    requires 0 <= col < width && ExactAt(s, placed, col)
    ensures |Splice(s, r.x, r.x + r.w, r.y + r.h)| >= 1
    ensures ExactAt(Splice(s, r.x, r.x + r.w, r.y + r.h), placed + [r], col)
  {
    SpliceHeights(s, width, r.x, r.x + r.w, r.y + r.h, col);
    assert (placed + [r])[..|placed|] == placed;
    if r.x <= col < r.x + r.w {
      TopBounds(s, r.x, aw, col);
    }
  }

  lemma Step1KeepsExact(c: Config, st: State, aw: int, w: int, h: int, out: Option<Point>, st': State)
    requires Inv(c, st) && 1 <= w <= aw && h >= 1
    requires Step1(c, st, aw, w, h, out, st')
    requires c.align == 1 || c.heuristic == BottomLeftSort
    requires c.align == 1 ==> w == aw
    requires Exact(c, st)
    ensures |st'.sky| >= 1 && Exact(c, st')
  {
    if out.Some? {
      var x, y := out.value.x, out.value.y;
      RaiseIsExact(c, st.sky, aw, w, x, y);
      assert |st'.sky| >= 1;
      forall col | 0 <= col < c.width
        ensures ExactAt(st'.sky, st'.placed, col)
      {
        assert ExactAt(st.sky, st.placed, col);
        RaiseColumn(st.sky, c.width, aw, Rect(x, y, w, h), st.placed, col);
      }
    }
  }

  lemma {:induction false} SkylineIsEnvelope(c: Config, reqs: seq<Request>, states: seq<State>, k: nat)
    requires ValidConfig(c)
    requires c.align == 1 || c.heuristic == BottomLeftSort
    requires Run(c, reqs, states) && states[0] == Init(c)
    requires k < |states|
    ensures |states[k].sky| >= 1 && Exact(c, states[k])
  {
    if k > 0 {
      InitInv(c);
      RunIsSafe(c, reqs, states, k - 1);
      SkylineIsEnvelope(c, reqs, states, k - 1);
      var r := reqs[k - 1];
      assert StepAt(c, reqs, states, k - 1);
      StepKeepsExact(c, states[k - 1], r.w, r.h, r.out, states[k]);
    }
  }

  // ---------------------------------------------------------------- rejection and nodes

  // A rectangle is refused exactly when no node is free or no column position has room.
  lemma RejectedIffNoRoom(c: Config, st: State, w: int, h: int, out: Option<Point>, st': State)
    requires Inv(c, st) && w >= 1 && h >= 1
    requires Step(c, st, w, h, out, st')
    ensures out.None? <==> st.free == 0 || NoRoom(c, st.sky, AlignedWidth(c.align, w), h)
  {
    if out.Some? {
      assert Feasible(c.width, AlignedWidth(c.align, w), out.value.x);
    }
  }

  // Bottom-left placement leaves no choice: the outcome is a function of state and request.
  lemma BottomLeftIsDeterministic(c: Config, st: State, w: int, h: int,
                                  o1: Option<Point>, s1: State, o2: Option<Point>, s2: State)
    requires Inv(c, st) && w >= 1 && h >= 1
    requires c.heuristic == BottomLeftSort
    requires Step(c, st, w, h, o1, s1) && Step(c, st, w, h, o2, s2)
    ensures o1 == o2 && s1 == s2
  {
    var aw := AlignedWidth(c.align, w);
    assert o1.Some? ==> Feasible(c.width, aw, o1.value.x);
    assert o2.Some? ==> Feasible(c.width, aw, o2.value.x);
  }

  lemma {:induction false} PositionsSpread(s: seq<Point>, width: int, i: nat)
    requires IsSkyline(s, width)
    requires i < |s|
    ensures i <= s[i].x
  {
    if i > 0 {
      PositionsSpread(s, width, i - 1);
      Rises(s, i - 1, i);
    }
  }

  // num_nodes >= width: the free list is never empty.
  lemma EnoughNodes(c: Config, st: State)
    requires Inv(c, st)
    requires c.nodes >= c.width
    ensures st.free >= 1
  {
    PositionsSpread(st.sky, c.width, |st.sky| - 1);
  }

  // The alignment stbrp_init_target chooses.
  function DefaultAlign(width: int, nodes: int): int
    requires nodes >= 1
  {
    (width + nodes - 1) / nodes
  }

  // It is the least that lets the nodes cover the width.
  lemma DefaultAlignIsLeast(width: int, nodes: int)
    requires width >= 1 && nodes >= 1
    ensures var a := DefaultAlign(width, nodes);
      a >= 1 && a * nodes >= width && (a == 1 || (a - 1) * nodes < width)
  {
    var a := DefaultAlign(width, nodes);
    QuotientBounds(width + nodes - 1, nodes);
    assert (a - 1) * nodes == nodes * a - nodes;
    if a <= 0 {
      ProductGrows(nodes, a, 0);
    }
  }

  // Some run ends in a state with no free node although a rectangle still has room.
  ghost predicate CanStarve(c: Config) {
    exists reqs, states :: Run(c, reqs, states) && ValidConfig(c) && states[0] == Init(c)
      && Starved(c, states[|reqs|])
  }

  ghost predicate Starved(c: Config, st: State) {
    Inv(c, st) && st.free == 0
    && exists w, h :: w >= 1 && h >= 1 && !NoRoom(c, st.sky, AlignedWidth(c.align, w), h)
  }

  lemma QuotientBounds(n: int, d: int)
    requires d >= 1
    ensures d * (n / d) <= n < d * (n / d) + d
  {
  }

  lemma LeastAlignFits(width: int, nodes: int, a: int)
    requires 1 <= nodes < width && a >= 1
    requires a * nodes >= width && (a == 1 || (a - 1) * nodes < width)
    ensures a >= 2 && nodes - 1 + a <= width
  {
    ProductGrows(nodes - 1, 0, a - 2);
    ProductExpands(nodes, a);
    assert (a - 1) * nodes == nodes * a - nodes;
  }

  lemma ProductGrows(n: int, a: int, b: int)
    requires n >= 0 && a <= b
    ensures n * a <= n * b
  {
  }

  lemma ProductExpands(n: int, a: int)
    ensures (n - 1) * (a - 2) == n * a - 2 * n - a + 2
  {
  }

  // The state after k one-by-one requests: k unit columns, then the floor.
  ghost function Comb(c: Config, k: nat): State
    requires ValidConfig(c) && k <= c.nodes
  {
    State(seq(k, i => Point(i, 1)) + [Point(k, 0), Point(c.width, SENTINEL_Y)],
          c.nodes - k, seq(k, i => Rect(i, 0, 1, 1)))
  }

  // Unit squares use up the nodes while there is still room: above them, or, in a target one
  // high, beside them.
  ghost predicate Starving(c: Config) {
    && ValidConfig(c)
    && c.heuristic == BottomLeftSort
    && c.align >= 2 && c.nodes - 1 + c.align <= c.width
    && c.nodes < c.width && c.height >= 1
    && (c.height == 1 ==> c.nodes + c.align <= c.width)
  }

  lemma CombHeight(c: Config, k: nat, col: int)
    requires Starving(c) && k <= c.nodes
    requires 0 <= col < c.width
    ensures HeightAt(Comb(c, k).sky, col) == if col < k then 1 else 0
  {
    HeightOnSegment(Comb(c, k).sky, if col < k then col else k, col);
  }

  lemma CombChosen(c: Config, k: nat)
    requires Starving(c) && k < c.nodes
    ensures var aw := AlignedWidth(c.align, 1);
      aw == c.align && Chosen(c, Comb(c, k).sky, aw, k, 0)
  {
    var aw := AlignedWidth(c.align, 1);
    DivisionIsUnique(c.align, 1, 0, aw / c.align, 0);
    var sky := Comb(c, k).sky;
    forall x | Feasible(c.width, aw, x)
      ensures 0 <= Top(sky, x, aw)
      ensures x < k ==> 0 < Top(sky, x, aw)
      ensures x >= k ==> Top(sky, x, aw) == 0
    {
      CombHeight(c, k, x);
      TopBounds(sky, x, aw, x);
      var col := TopAttained(sky, x, aw);
      CombHeight(c, k, col);
    }
    assert sky[k].x == k;
    assert Feasible(c.width, aw, k);
  }

  lemma CombPoints(c: Config, k: nat) returns (sky: seq<Point>)
    requires Starving(c) && k <= c.nodes
    ensures sky == Comb(c, k).sky && |sky| == k + 2
    ensures forall i :: 0 <= i < k ==> sky[i] == Point(i, 1)
    ensures sky[k] == Point(k, 0) && sky[k + 1] == Point(c.width, SENTINEL_Y)
    ensures IsSkyline(sky, c.width)
  {
    sky := Comb(c, k).sky;
  }

  lemma CombSplice(c: Config, k: nat)
    requires Starving(c) && k < c.nodes
    ensures Splice(Comb(c, k).sky, k, k + 1, 1) == Comb(c, k + 1).sky
  {
    var sky := CombPoints(c, k);
    var next := CombPoints(c, k + 1);
    CombCursor(c, k, sky);
    CombIndices(c, k, sky, Splice(sky, k, k + 1, 1));
    assert Splice(sky, k, k + 1, 1) == next;
  }

  lemma CombIndices(c: Config, k: nat, sky: seq<Point>, r: seq<Point>)
    requires k + 1 < c.width && |sky| == k + 2 && IsSkyline(sky, c.width)
    requires forall i :: 0 <= i < k ==> sky[i] == Point(i, 1)
    requires sky[k] == Point(k, 0) && sky[k + 1] == Point(c.width, SENTINEL_Y)
    requires FirstFrom(sky, k, 0) == k && LastWithin(sky, k + 1, k) == k
    requires r == Splice(sky, k, k + 1, 1)
    ensures |r| == k + 3 && r[k] == Point(k, 1) && r[k + 1] == Point(k + 1, 0) && r[k + 2] == sky[k + 1]
    ensures forall i :: 0 <= i < k ==> r[i] == Point(i, 1)
  {
    var p, j, _ := SpliceShape(sky, c.width, k, k + 1, 1);
  }

  lemma CombCursor(c: Config, k: nat, sky: seq<Point>)
    requires k + 1 < c.width && |sky| == k + 2
    requires forall i :: 0 <= i < k ==> sky[i].x == i
    requires sky[k].x == k && sky[k + 1].x == c.width
    ensures FirstFrom(sky, k, 0) == k && LastWithin(sky, k + 1, k) == k
  {
    var p := FirstFrom(sky, k, 0);
    var j := LastWithin(sky, k + 1, k);
  }

  lemma CombStep(c: Config, k: nat)
    requires Starving(c) && k < c.nodes
    requires Inv(c, Comb(c, k))
    ensures Step(c, Comb(c, k), 1, 1, Some(Point(k, 0)), Comb(c, k + 1))
  {
    CombChosen(c, k);
    CombSplice(c, k);
    assert Comb(c, k + 1).placed == Comb(c, k).placed + [Rect(k, 0, 1, 1)];
  }

  lemma {:induction false} CombInv(c: Config, k: nat)
    requires Starving(c) && k <= c.nodes
    ensures Inv(c, Comb(c, k))
  {
    if k == 0 {
      assert Comb(c, 0).placed == [];
      assert Comb(c, 0) == Init(c);
      InitInv(c);
    } else {
      CombInv(c, k - 1);
      CombStep(c, k - 1);
      StepKeepsInv(c, Comb(c, k - 1), 1, 1, Some(Point(k - 1, 0)), Comb(c, k));
    }
  }

  // Room beside the squares if the target is one high, above them otherwise.
  lemma CombHasRoom(c: Config)
    requires Starving(c)
    ensures !NoRoom(c, Comb(c, c.nodes).sky, AlignedWidth(c.align, 1), 1)
  {
    var n: nat := c.nodes;
    var aw := AlignedWidth(c.align, 1);
    CombChosen(c, n - 1);
    var sky := Comb(c, n).sky;
    var x := if c.height == 1 then n else 0;
    assert Feasible(c.width, aw, x);
    var col := TopAttained(sky, x, aw);
    CombHeight(c, n, col);
  }

  lemma CombStarves(c: Config)
    requires Starving(c)
    ensures CanStarve(c)
  {
    var n: nat := c.nodes;
    var reqs := seq(n, i => Request(1, 1, Some(Point(i, 0))));
    var states := seq(n + 1, i requires 0 <= i <= n => Comb(c, i));
    forall i | 0 <= i < n
      ensures StepAt(c, reqs, states, i)
    {
      CombInv(c, i);
      CombStep(c, i);
    }
    CombInv(c, n);
    CombHasRoom(c);
    assert Starved(c, states[n]);
    assert states[0] == Init(c) by { assert Comb(c, 0).placed == []; }
    assert Run(c, reqs, states);
  }

  // ------------------------------------------------------------------- a target one high

  ghost predicate FlatAt(s: seq<Point>, m: int, col: int)
    requires |s| >= 1
  {
    HeightAt(s, col) == if col < m then 1 else 0
  }

  // In a target one high, bottom-left placement fills the columns from the left up to some m.
  ghost predicate FilledTo(c: Config, s: seq<Point>, m: int) {
    && 0 <= m <= c.width && |s| >= 1
    && (forall col :: 0 <= col < c.width ==> FlatAt(s, m, col))
    && forall i :: 0 <= i < |s| - 1 ==> s[i].x <= m
  }

  lemma InitFilled(c: Config)
    requires ValidConfig(c)
    ensures FilledTo(c, Init(c).sky, 0)
  {
    forall col | 0 <= col < c.width
      ensures FlatAt(Init(c).sky, 0, col)
    {
      HeightOnSegment(Init(c).sky, 0, col);
    }
  }

  // Whatever is answered stands on the floor, right of what is filled; the first place is m.
  lemma FloorStartsAt(c: Config, s: seq<Point>, m: int, aw: int, x: int, y: int)
    requires SkylineFits(c, s) && FilledTo(c, s, m) && c.height == 1 && aw >= 1
    requires Lowest(s, c.width, aw, x, y) && y < c.height
    ensures y == 0 && m <= x && BottomLeft(s, c.width, aw, x, y) ==> x == m
    ensures m + aw <= c.width
  {
    TopBounds(s, x, aw, x);
    assert FlatAt(s, m, x);
    assert Feasible(c.width, aw, m);
    var col := TopAttained(s, m, aw);
    assert FlatAt(s, m, col);
  }

  lemma SpliceFills(c: Config, s: seq<Point>, m: int, w: int)
    requires SkylineFits(c, s) && FilledTo(c, s, m) && w >= 1 && m + w <= c.width
    requires SpliceEnd(s, m, m + w) == m + w
    ensures FilledTo(c, Splice(s, m, m + w, 1), m + w)
  {
    var e := m + w;
    var p, j, r := SpliceShape(s, c.width, m, e, 1);
    forall col | 0 <= col < c.width
      ensures FlatAt(r, e, col)
    {
      SpliceHeights(s, c.width, m, e, 1, col);
      assert FlatAt(s, m, col);
    }
    forall i | 0 <= i < |r| - 1
      ensures r[i].x <= e
    {
    }
  }

  lemma StepFills(c: Config, st: State, m: int, w: int, h: int, out: Option<Point>, st': State) returns (m': int)
    requires Inv(c, st) && FilledTo(c, st.sky, m) && c.height == 1 && c.heuristic == BottomLeftSort
    requires w >= 1 && h >= 1 && Step(c, st, w, h, out, st')
    ensures FilledTo(c, st'.sky, m')
  {
    m' := m;
    if out.Some? {
      var aw := AlignedWidth(c.align, w);
      TopBounds(st.sky, out.value.x, aw, out.value.x);
      assert FlatAt(st.sky, m, out.value.x);
      FloorStartsAt(c, st.sky, m, aw, out.value.x, out.value.y);
      RaiseIsExact(c, st.sky, aw, w, m, 0);
      SpliceFills(c, st.sky, m, w);
      m' := m + w;
    }
  }

  lemma {:induction false} RunFills(c: Config, reqs: seq<Request>, states: seq<State>, k: nat) returns (m: int)
    requires ValidConfig(c) && c.height == 1 && c.heuristic == BottomLeftSort
    requires Run(c, reqs, states) && states[0] == Init(c) && k <= |reqs|
    ensures FilledTo(c, states[k].sky, m)
  {
    if k == 0 {
      InitFilled(c);
      m := 0;
    } else {
      var before := RunFills(c, reqs, states, k - 1);
      InitInv(c);
      RunIsSafe(c, reqs, states, k - 1);
      assert StepAt(c, reqs, states, k - 1);
      var r := reqs[k - 1];
      m := StepFills(c, states[k - 1], before, r.w, r.h, r.out, states[k]);
    }
  }

  // Each node but the last two stands on a filled column of its own.
  lemma FilledCountsNodes(c: Config, st: State, m: int)
    requires Inv(c, st) && FilledTo(c, st.sky, m) && st.free == 0
    ensures m < c.width ==> c.nodes <= m
  {
    var s := st.sky;
    PositionsSpread(s, c.width, |s| - 2);
  }

  lemma StarvedLeavesRoom(c: Config, st: State, m: int)
    requires Starved(c, st) && FilledTo(c, st.sky, m) && c.height == 1
    ensures c.nodes + c.align <= c.width
  {
    var w, h :| w >= 1 && h >= 1 && !NoRoom(c, st.sky, AlignedWidth(c.align, w), h);
    var aw := AlignedWidth(c.align, w);
    var x :| Feasible(c.width, aw, x) && c.height >= Top(st.sky, x, aw) + h;
    TopBounds(st.sky, x, aw, x);
    assert FlatAt(st.sky, m, x);
    FilledCountsNodes(c, st, m);
    MultipleAtLeast(c.align, aw);
  }

  lemma MultipleAtLeast(a: int, n: int)
    requires a >= 1 && n >= 1 && n % a == 0
    ensures n >= a
  {
  }

  lemma NothingFits(c: Config, st: State)
    requires Inv(c, st) && c.height == 0
    ensures !Starved(c, st)
  {
    if Starved(c, st) {
      var w, h :| w >= 1 && h >= 1 && !NoRoom(c, st.sky, AlignedWidth(c.align, w), h);
      var aw := AlignedWidth(c.align, w);
      var x :| Feasible(c.width, aw, x) && c.height >= Top(st.sky, x, aw) + h;
      var i := SegmentOf(st.sky, c.width, x);
      TopBounds(st.sky, x, aw, x);
      assert false;
    }
  }

  // The header promises that quantised widths never exhaust the node pool. They do: with
  // default alignment and bottom-left placement the promise is broken exactly when there are
  // fewer nodes than columns and, in a target one high, the nodes and one aligned rectangle fit
  // side by side; in a target of height 0 it is kept.
  lemma StarvesIffTooFewNodes(c: Config)
    requires ValidConfig(c) && c.heuristic == BottomLeftSort
    requires c.align * c.nodes >= c.width && (c.align == 1 || (c.align - 1) * c.nodes < c.width)
    ensures CanStarve(c) <==>
      (c.height >= 2 && c.nodes < c.width) || (c.height == 1 && c.nodes + c.align <= c.width)
  {
    if c.nodes < c.width {
      LeastAlignFits(c.width, c.nodes, c.align);
      if Starving(c) {
        CombStarves(c);
      }
    }
    if CanStarve(c) {
      var reqs, states :| Run(c, reqs, states) && states[0] == Init(c) && Starved(c, states[|reqs|]);
      var st := states[|reqs|];
      if c.nodes >= c.width {
        EnoughNodes(c, st);
      }
      if c.height == 0 {
        NothingFits(c, st);
      } else if c.height == 1 {
        var m := RunFills(c, reqs, states, |reqs|);
        StarvedLeavesRoom(c, st, m);
      }
    }
  }
}
