/**
 The deferred renderer as a state machine over abstract images, and the immediate renderer it
 has to be indistinguishable from. An image is the history of what was drawn into it; a draw
 remembers the texture image it sampled, so two images are equal only if every primitive was
 drawn with the same vertices, blend state and texture contents, in the same order.
 */
module RenderModel {
  const MAX_VERTEX_COUNT := 9000

  datatype PipelineType = FlatTriangle | GouraudTriangle | TexturedTriangle | MonoLine | ShadedLine

  datatype GenericVertex = GenericVertex(x: int, y: int, color: nat, clutPage: nat, flags: nat, uv: nat)

  datatype GenericPrimitive =
    GenericPrimitive(vertices: seq<GenericVertex>, kind: PipelineType, semi: bool, semiType: nat)

  datatype Vertex =
    | Flat(x: int, y: int, r: nat, g: nat, b: nat)
    | Gouraud(x: int, y: int, color: nat)
    | Textured(x: int, y: int, color: nat, clutPage: nat, flags: nat, uv: nat)

  datatype Equation = FuncAdd | ReverseSubtract

  datatype Factor = One | ConstantAlpha | ConstantColor | Src1Alpha | Src1Color

  // The equation and the factors of source and destination for the colors.
  datatype Blend = Disabled | Enabled(equation: Equation, src: Factor, dst: Factor)

  datatype Prim = Prim(kind: PipelineType, vertices: seq<Vertex>, blend: Blend)

  datatype Area = Area(x: int, y: int, w: int, h: int)

  // data: what the CPU wrote for the blit.
  datatype Image =
    | Blank
    | Drawn(prev: Image, texture: Image, prim: Prim)
    | Blitted(prev: Image, texture: Image, area: Area, maskEnable: bool, setMask: bool, data: int)
    | Moved(prev: Image, texture: Image, area: Area, srcX: int, srcY: int, maskEnable: bool)
    | Filled(prev: Image, area: Area, color: nat)

  function VertexCountOf(kind: PipelineType): (n: nat)
    ensures n == 2 || n == 3
  {
    if kind.MonoLine? || kind.ShadedLine? then 2 else 3
  }

  predicate WellFormed(g: GenericPrimitive) {
    |g.vertices| == VertexCountOf(g.kind) && g.semiType < 4
  }

  // ------------------------------------------------------------------------- submission

  function Abs(n: int): nat {
    if n < 0 then -n else n
  }

  predicate EdgeTooLong(v0: GenericVertex, v1: GenericVertex) {
    Abs(v0.x - v1.x) > 1023 || Abs(v0.y - v1.y) > 511
  }

  // Some pair of consecutive vertices is too far apart.
  predicate Culled(g: GenericPrimitive) {
    exists i :: 0 <= i < |g.vertices| - 1 && EdgeTooLong(g.vertices[i], g.vertices[i + 1])
  }

  function Encode(kind: PipelineType, v: GenericVertex, first: GenericVertex): Vertex {
    var r, g, b := first.color % 0x100, first.color / 0x100 % 0x100, first.color / 0x100 / 0x100 % 0x100;
    match kind
    case FlatTriangle => Flat(v.x, v.y, r, g, b)
    case MonoLine => Flat(v.x, v.y, r, g, b)
    case GouraudTriangle => Gouraud(v.x, v.y, v.color)
    case ShadedLine => Gouraud(v.x, v.y, v.color)
    case TexturedTriangle => Textured(v.x, v.y, v.color, v.clutPage, v.flags, v.uv)
  }

  // A flat primitive's vertices carry all 24 bits of its first color.
  lemma FlatKeepsColor(v: GenericVertex, first: GenericVertex, kind: PipelineType)
    requires kind.FlatTriangle? || kind.MonoLine?
    ensures var e := Encode(kind, v, first);
      e.r + 0x100 * e.g + 0x1_0000 * e.b == first.color % 0x100_0000 && e.r < 0x100 && e.g < 0x100 && e.b < 0x100
  {
    var c := first.color;
    var q := c / 0x100 / 0x100 / 0x100;
    LowThreeBytes(q, c % 0x100, c / 0x100 % 0x100, c / 0x100 / 0x100 % 0x100);
    assert c == 0x100_0000 * q + (c % 0x100 + 0x100 * (c / 0x100 % 0x100) + 0x1_0000 * (c / 0x100 / 0x100 % 0x100));
  }

  lemma LowThreeBytes(q: nat, r: nat, g: nat, b: nat)
    requires r < 0x100 && g < 0x100 && b < 0x100
    ensures (0x100_0000 * q + (r + 0x100 * g + 0x1_0000 * b)) % 0x100_0000 == r + 0x100 * g + 0x1_0000 * b
  {
  }

  // Encoding keeps the position, and forgets of a vertex only what its pipeline does not use:
  // two submissions are encoded alike exactly when all that is used agrees.
  lemma EncodeForgetsNothingUsed(kind: PipelineType, v: GenericVertex, first: GenericVertex,
                                 v': GenericVertex, first': GenericVertex)
    ensures Encode(kind, v, first).x == v.x && Encode(kind, v, first).y == v.y
    ensures kind.TexturedTriangle? ==> (Encode(kind, v, first) == Encode(kind, v', first') <==> v == v')
    ensures kind.GouraudTriangle? || kind.ShadedLine? ==>
      (Encode(kind, v, first) == Encode(kind, v', first') <==> v.x == v'.x && v.y == v'.y && v.color == v'.color)
    ensures kind.FlatTriangle? || kind.MonoLine? ==>
      (Encode(kind, v, first) == Encode(kind, v', first')
       <==> v.x == v'.x && v.y == v'.y && first.color % 0x100_0000 == first'.color % 0x100_0000)
  {
    if kind.FlatTriangle? || kind.MonoLine? {
      FlatKeepsColor(v, first, kind);
      FlatKeepsColor(v', first', kind);
    }
  }

  // Some edge of a triangle, the closing one included, is too long.
  predicate Overlong(g: GenericPrimitive)
    requires |g.vertices| == 3
  {
    var vs := g.vertices;
    EdgeTooLong(vs[0], vs[1]) || EdgeTooLong(vs[1], vs[2]) || EdgeTooLong(vs[2], vs[0])
  }

  // Culling misses an overlong triangle exactly when only the edge from the last vertex back to
  // the first is too long, and that edge is then at most twice the limit.
  lemma ClosingEdgeNotChecked(g: GenericPrimitive)
    requires WellFormed(g) && |g.vertices| == 3
    ensures var vs := g.vertices;
      Overlong(g) && !Culled(g) <==>
        EdgeTooLong(vs[2], vs[0]) && !EdgeTooLong(vs[0], vs[1]) && !EdgeTooLong(vs[1], vs[2])
    ensures !Culled(g) ==>
      Abs(g.vertices[2].x - g.vertices[0].x) <= 2046 && Abs(g.vertices[2].y - g.vertices[0].y) <= 1022
  {
    var vs := g.vertices;
    if EdgeTooLong(vs[0], vs[1]) {
      assert Culled(g) by { assert EdgeTooLong(vs[0], vs[0 + 1]); }
    } else if EdgeTooLong(vs[1], vs[2]) {
      assert Culled(g) by { assert EdgeTooLong(vs[1], vs[1 + 1]); }
    }
  }

  // The bounds are reached, by triangles of every kind.
  lemma MissedAtTwiceTheLimit(kind: PipelineType, color: nat) returns (g: GenericPrimitive)
    requires VertexCountOf(kind) == 3
    ensures WellFormed(g) && g.kind == kind && Overlong(g) && !Culled(g)
    ensures Abs(g.vertices[2].x - g.vertices[0].x) == 2046 && Abs(g.vertices[2].y - g.vertices[0].y) == 1022
  {
    var v0 := GenericVertex(0, 0, color, 0, 0, 0);
    var v1 := GenericVertex(1023, 511, color, 0, 0, 0);
    var v2 := GenericVertex(2046, 1022, color, 0, 0, 0);
    g := GenericPrimitive([v0, v1, v2], kind, false, 0);
    assert !EdgeTooLong(g.vertices[0], g.vertices[1]) && !EdgeTooLong(g.vertices[1], g.vertices[2]);
  }

  function BlendOf(kind: PipelineType, semi: bool, semiType: nat): Blend
    requires semiType < 4
  {
    if !semi then Disabled
    else
      var equation := if semiType == 2 then ReverseSubtract else FuncAdd;
      if kind.TexturedTriangle? then Enabled(equation, Src1Alpha, Src1Color)
      else if semiType == 0 then Enabled(equation, ConstantAlpha, ConstantAlpha)
      else if semiType == 3 then Enabled(equation, ConstantColor, One)
      else Enabled(equation, One, One)
  }

  function PrimOf(g: GenericPrimitive): Prim
    requires WellFormed(g)
  {
    var vs := g.vertices;
    Prim(g.kind,
         if |vs| == 2 then [Encode(g.kind, vs[0], vs[0]), Encode(g.kind, vs[1], vs[0])]
         else [Encode(g.kind, vs[0], vs[0]), Encode(g.kind, vs[1], vs[0]), Encode(g.kind, vs[2], vs[0])],
         BlendOf(g.kind, g.semi, g.semiType))
  }

  // Vertex e carries what its pipeline uses of v: a textured vertex every field under its own
  // name, a shaded one its color, a flat one the three bytes of the first vertex's color.
  ghost predicate Carries(kind: PipelineType, e: Vertex, v: GenericVertex, first: GenericVertex) {
    && e.x == v.x && e.y == v.y
    && match kind
       case TexturedTriangle =>
         e.Textured? && e.color == v.color && e.clutPage == v.clutPage && e.flags == v.flags && e.uv == v.uv
       case GouraudTriangle => e.Gouraud? && e.color == v.color
       case ShadedLine => e.Gouraud? && e.color == v.color
       case FlatTriangle => e.Flat? && HasColor(e.r, e.g, e.b, first.color)
       case MonoLine => e.Flat? && HasColor(e.r, e.g, e.b, first.color)
  }

  // The low three bytes of a color, red lowest.
  ghost predicate HasColor(r: nat, g: nat, b: nat, color: nat) {
    r < 0x100 && g < 0x100 && b < 0x100 && r + 0x100 * g + 0x1_0000 * b == color % 0x100_0000
  }

  ghost predicate CarriesAt(p: Prim, g: GenericPrimitive, i: nat)
    requires i < |p.vertices| && i < |g.vertices|
  {
    Carries(g.kind, p.vertices[i], g.vertices[i], g.vertices[0])
  }

  // A line has two vertices, a triangle three.
  ghost predicate CountFits(kind: PipelineType, count: nat) {
    match kind
    case MonoLine => count == 2
    case ShadedLine => count == 2
    case FlatTriangle => count == 3
    case GouraudTriangle => count == 3
    case TexturedTriangle => count == 3
  }

  // p is drawn for g.
  ghost predicate DrawnFor(p: Prim, g: GenericPrimitive) {
    && p.kind == g.kind && |p.vertices| == |g.vertices| && CountFits(g.kind, |g.vertices|)
    && forall i :: 0 <= i < |p.vertices| ==> CarriesAt(p, g, i)
  }

  lemma EncodeCarries(kind: PipelineType, v: GenericVertex, first: GenericVertex)
    ensures Carries(kind, Encode(kind, v, first), v, first)
  {
    if kind.FlatTriangle? || kind.MonoLine? {
      FlatKeepsColor(v, first, kind);
    }
  }

  lemma PrimIsDrawnFor(g: GenericPrimitive)
    requires WellFormed(g)
    ensures DrawnFor(PrimOf(g), g)
  {
    forall i | 0 <= i < |g.vertices|
      ensures CarriesAt(PrimOf(g), g, i)
    {
      EncodeCarries(g.kind, g.vertices[i], g.vertices[0]);
    }
  }

  // ---------------------------------------------------------------------------- blending

  function Clamp(c: real): real {
    if c < 0.0 then 0.0 else if c > 1.0 then 1.0 else c
  }

  // What the four types are named for: b is the color behind, f the one in front.
  function SemiTransparent(semiType: nat, b: real, f: real): real {
    match semiType
    case 0 => Clamp(b / 2.0 + f / 2.0)
    case 1 => Clamp(b + f)
    case 2 => Clamp(b - f)
    case _ => Clamp(b + f / 4.0)
  }

  // The blend color is a quarter with an alpha of a half. A textured fragment has its second
  // output: the coefficients of the type for a translucent texel, otherwise black with alpha 1.
  function Weight(factor: Factor, semiType: nat, translucent: bool): real {
    match factor
    case One => 1.0
    case ConstantAlpha => 0.5
    case ConstantColor => 0.25
    case Src1Alpha => if !translucent then 1.0 else if semiType == 0 then 0.5 else if semiType == 3 then 0.25 else 1.0
    case Src1Color => if !translucent then 0.0 else if semiType == 0 then 0.5 else 1.0
  }

  // What the blend state makes of a color in front and the one behind.
  function Mixed(blend: Blend, semiType: nat, translucent: bool, b: real, f: real): real {
    match blend
    case Disabled => f
    case Enabled(equation, src, dst) =>
      var s, d := f * Weight(src, semiType, translucent), b * Weight(dst, semiType, translucent);
      Clamp(if equation.FuncAdd? then s + d else d - s)
  }

  // A primitive that is not semi-transparent covers what is behind it. One that is gets the
  // formula of its type, a textured one in its translucent texels.
  lemma BlendIsFormula(kind: PipelineType, semi: bool, semiType: nat, b: real, f: real)
    requires semiType < 4
    ensures var blend := BlendOf(kind, semi, semiType);
      Mixed(blend, semiType, true, b, f) == if semi then SemiTransparent(semiType, b, f) else f
    ensures !kind.TexturedTriangle? ==> forall t ::
      Mixed(BlendOf(kind, semi, semiType), semiType, t, b, f) == if semi then SemiTransparent(semiType, b, f) else f
  {
  }

  // An opaque texel of a semi-transparent triangle covers what is behind it exactly when the
  // type is not the subtracting one, which makes it black.
  lemma OpaqueTexelCovers(semiType: nat, b: real, f: real)
    requires semiType < 4 && 0.0 <= f <= 1.0
    ensures var shown := Mixed(BlendOf(TexturedTriangle, true, semiType), semiType, false, b, f);
      shown == (if semiType == 2 then 0.0 else f) && (shown == f <==> semiType != 2 || f == 0.0)
  {
  }

  // ------------------------------------------------------------------------------ images

  // The primitives drawn in order, all sampling `texture`.
  function DrawAll(out: Image, texture: Image, ps: seq<Prim>): Image {
    if ps == [] then out else Drawn(DrawAll(out, texture, ps[..|ps| - 1]), texture, ps[|ps| - 1])
  }

  lemma {:induction false} DrawAllConcat(out: Image, texture: Image, a: seq<Prim>, b: seq<Prim>)
    ensures DrawAll(out, texture, a + b) == DrawAll(DrawAll(out, texture, a), texture, b)
    decreases |b|
  {
    if b == [] {
      assert a + b == a;
    } else {
      assert (a + b)[..|a + b| - 1] == a + b[..|b| - 1];
      DrawAllConcat(out, texture, a, b[..|b| - 1]);
    }
  }

  // How often an image was changed.
  function Changes(i: Image): nat {
    match i
    case Blank => 0
    case Drawn(p, _, _) => 1 + Changes(p)
    case Blitted(p, _, _, _, _, _) => 1 + Changes(p)
    case Moved(p, _, _, _, _, _) => 1 + Changes(p)
    case Filled(p, _, _) => 1 + Changes(p)
  }

  lemma {:induction false} DrawAllChanges(out: Image, texture: Image, ps: seq<Prim>)
    ensures Changes(DrawAll(out, texture, ps)) == Changes(out) + |ps|
    decreases |ps|
  {
    if ps != [] {
      DrawAllChanges(out, texture, ps[..|ps| - 1]);
    }
  }

  // The vertices of the primitives of one kind.
  function Verts(ps: seq<Prim>, kind: PipelineType): seq<Vertex> {
    if ps == [] then []
    else Verts(ps[..|ps| - 1], kind) + (if ps[|ps| - 1].kind == kind then ps[|ps| - 1].vertices else [])
  }

  lemma VertsSnoc(ps: seq<Prim>, p: Prim, kind: PipelineType)
    ensures Verts(ps + [p], kind) == Verts(ps, kind) + (if p.kind == kind then p.vertices else [])
  {
    assert (ps + [p])[..|ps|] == ps;
  }

  predicate Sized(ps: seq<Prim>) {
    forall i :: 0 <= i < |ps| ==> |ps[i].vertices| == VertexCountOf(ps[i].kind)
  }

  lemma {:induction false} VertsWhole(ps: seq<Prim>, kind: PipelineType)
    requires Sized(ps)
    ensures |Verts(ps, kind)| % VertexCountOf(kind) == 0
    decreases |ps|
  {
    if ps != [] {
      VertsWhole(ps[..|ps| - 1], kind);
    }
  }

  lemma {:induction false} VertsConcat(a: seq<Prim>, b: seq<Prim>, kind: PipelineType)
    ensures Verts(a + b, kind) == Verts(a, kind) + Verts(b, kind)
    decreases |b|
  {
    if b == [] {
      assert a + b == a;
    } else {
      assert (a + b)[..|a + b| - 1] == a + b[..|b| - 1];
      VertsConcat(a, b[..|b| - 1], kind);
    }
  }

  // ------------------------------------------------------------------ the deferred renderer

  // input: the texture primitives sample. output: the framebuffer. queue: submitted, not yet
  // handed to GL. processing: GL may still be drawing. needCopy: the input is out of date.
  datatype State = State(input: Image, output: Image, queue: seq<Prim>, processing: bool, needCopy: bool)

  function DrawBatch(s: State): State {
    if s.queue == [] then s
    else s.(output := DrawAll(s.output, s.input, s.queue), queue := [], processing := true)
  }

  function FenceSync(s: State): State {
    if s.processing then s.(processing := false, needCopy := true) else s
  }

  function Flush(s: State): State {
    FenceSync(DrawBatch(s))
  }

  function SyncTextures(s: State): State {
    if s.needCopy then s.(input := s.output, needCopy := false) else s
  }

  function DrawPrimitive(s: State, g: GenericPrimitive): State
    requires WellFormed(g)
  {
    if Culled(g) then s
    else
      var ready := if |Verts(s.queue, g.kind)| >= MAX_VERTEX_COUNT then Flush(s) else s;
      ready.(queue := ready.queue + [PrimOf(g)])
  }

  function CpuVramBlit(s: State, area: Area, maskEnable: bool, setMask: bool, data: int): State {
    FenceSync(s.(output := Blitted(s.output, s.input, area, maskEnable, setMask, data), processing := true))
  }

  function VramVramBlit(s: State, area: Area, srcX: int, srcY: int, maskEnable: bool): State {
    var ready := SyncTextures(Flush(s));
    var moved := Moved(ready.output, ready.input, area, srcX, srcY, maskEnable);
    SyncTextures(FenceSync(ready.(output := moved, processing := true)))
  }

  function Fill(s: State, area: Area, color: nat): State {
    s.(output := Filled(s.output, area, color), needCopy := true)
  }

  datatype Op =
    | Draw(g: GenericPrimitive)
    | Sync
    | VBlank
    | BeginBlit
    | PrepareBlit
    | Blit(area: Area, maskEnable: bool, setMask: bool, data: int)
    | EndBlit
    | Move(dst: Area, srcX: int, srcY: int, moveMask: bool)
    | Clear(filled: Area, color: nat)

  // Sync: FlushCommands, as a download or a state change calls it.
  function Next(s: State, op: Op): State
    requires op.Draw? ==> WellFormed(op.g)
  {
    match op
    case Draw(g) => DrawPrimitive(s, g)
    case Sync => Flush(s)
    case VBlank => SyncTextures(Flush(s))
    case BeginBlit => DrawBatch(s)
    case PrepareBlit => SyncTextures(FenceSync(s))
    case Blit(area, maskEnable, setMask, data) => CpuVramBlit(s, area, maskEnable, setMask, data)
    case EndBlit => SyncTextures(s)
    case Move(dst, srcX, srcY, moveMask) => VramVramBlit(s, dst, srcX, srcY, moveMask)
    case Clear(filled, color) => Fill(s, filled, color)
  }

  // The order in which the operations are meant to be called: between BeginBlit and EndBlit
  // nothing is submitted, and nothing is queued when an area is filled.
  predicate InOrder(s: State, op: Op) {
    match op
    case Draw(g) => WellFormed(g)
    case PrepareBlit => s.queue == []
    case Blit(_, _, _, _) => s.queue == []
    case EndBlit => s.queue == [] && !s.processing
    case Clear(_, _) => s.queue == []
    case _ => true
  }

  // ----------------------------------------------------------------- the immediate renderer

  datatype Screen = Screen(input: Image, output: Image)

  // Draws at once; copies the output to the input whenever it is told to.
  function Immediate(s: Screen, op: Op): Screen
    requires op.Draw? ==> WellFormed(op.g)
  {
    match op
    case Draw(g) => if Culled(g) then s else s.(output := Drawn(s.output, s.input, PrimOf(g)))
    case Sync => s
    case VBlank => s.(input := s.output)
    case BeginBlit => s
    case PrepareBlit => s.(input := s.output)
    case Blit(area, maskEnable, setMask, data) =>
      s.(output := Blitted(s.output, s.input, area, maskEnable, setMask, data))
    case EndBlit => s.(input := s.output)
    case Move(dst, srcX, srcY, moveMask) =>
      var out := Moved(s.output, s.output, dst, srcX, srcY, moveMask);
      Screen(out, out)
    case Clear(filled, color) => s.(output := Filled(s.output, filled, color))
  }

  // What the deferred renderer would show if it drew its queue now.
  function Shown(s: State): Screen {
    Screen(s.input, DrawAll(s.output, s.input, s.queue))
  }

  // Images differ only while a flag says so, and no vertex buffer overflows.
  ghost predicate Inv(s: State) {
    && (s.input != s.output ==> s.processing || s.needCopy)
    && Sized(s.queue)
    && forall kind {:trigger Verts(s.queue, kind)} :: |Verts(s.queue, kind)| <= MAX_VERTEX_COUNT
  }

  lemma NothingQueued()
    ensures Inv(State(Blank, Blank, [], false, false))
  {
  }

  // ------------------------------------------------------------------------- one operation

  lemma RoomForOne(n: nat, count: nat)
    requires n == 2 || n == 3
    requires count % n == 0 && count < MAX_VERTEX_COUNT
    ensures count + n <= MAX_VERTEX_COUNT
  {
  }

  lemma SubmitKeepsInv(s: State, p: Prim)
    requires Inv(s) && |p.vertices| == VertexCountOf(p.kind) && |Verts(s.queue, p.kind)| < MAX_VERTEX_COUNT
    ensures Inv(s.(queue := s.queue + [p]))
    ensures Shown(s.(queue := s.queue + [p])) == Shown(s).(output := Drawn(Shown(s).output, s.input, p))
  {
    var q := s.queue + [p];
    assert q[..|q| - 1] == s.queue;
    VertsWhole(s.queue, p.kind);
    RoomForOne(VertexCountOf(p.kind), |Verts(s.queue, p.kind)|);
    forall kind
      ensures |Verts(q, kind)| <= MAX_VERTEX_COUNT
    {
      assert |Verts(s.queue, kind)| <= MAX_VERTEX_COUNT;
    }
  }

  lemma FlushKeepsInv(s: State)
    requires Inv(s)
    ensures Inv(Flush(s)) && Inv(DrawBatch(s)) && Inv(FenceSync(s))
    ensures Shown(Flush(s)) == Shown(s) && Shown(DrawBatch(s)) == Shown(s) && Shown(FenceSync(s)) == Shown(s)
    ensures Flush(s).queue == [] && !Flush(s).processing && !FenceSync(s).processing
  {
  }

  lemma SyncKeepsInv(s: State)
    requires Inv(s) && s.queue == [] && !s.processing
    ensures Inv(SyncTextures(s))
    ensures Shown(SyncTextures(s)) == Screen(s.output, s.output)
    ensures SyncTextures(s).input == SyncTextures(s).output && SyncTextures(s).output == s.output
  {
  }

  lemma DrawRefines(s: State, g: GenericPrimitive)
    requires Inv(s) && WellFormed(g)
    ensures Inv(DrawPrimitive(s, g)) && Shown(DrawPrimitive(s, g)) == Immediate(Shown(s), Draw(g))
  {
    FlushKeepsInv(s);
    if !Culled(g) {
      var ready := if |Verts(s.queue, g.kind)| >= MAX_VERTEX_COUNT then Flush(s) else s;
      SubmitKeepsInv(ready, PrimOf(g));
    }
  }

  lemma BlitRefines(s: State, area: Area, maskEnable: bool, setMask: bool, data: int)
    requires Inv(s) && s.queue == []
    ensures var t := CpuVramBlit(s, area, maskEnable, setMask, data);
      Inv(t) && Shown(t) == Immediate(Shown(s), Blit(area, maskEnable, setMask, data))
  {
  }

  // Each operation called in order shows what the immediate renderer shows.
  lemma StepRefines(s: State, op: Op)
    requires Inv(s) && InOrder(s, op)
    ensures Inv(Next(s, op)) && Shown(Next(s, op)) == Immediate(Shown(s), op)
  {
    match op
    case Draw(g) => DrawRefines(s, g);
    case Sync => FlushKeepsInv(s);
    case VBlank =>
      FlushKeepsInv(s);
      SyncKeepsInv(Flush(s));
    case BeginBlit => FlushKeepsInv(s);
    case PrepareBlit =>
      FlushKeepsInv(s);
      SyncKeepsInv(FenceSync(s));
    case Blit(area, maskEnable, setMask, data) => BlitRefines(s, area, maskEnable, setMask, data);
    case EndBlit => SyncKeepsInv(s);
    case Move(dst, srcX, srcY, moveMask) => MoveRefines(s, dst, srcX, srcY, moveMask);
    case Clear(_, _) =>
  }

  lemma MoveRefines(s: State, dst: Area, srcX: int, srcY: int, mask: bool)
    requires Inv(s)
    ensures var t := VramVramBlit(s, dst, srcX, srcY, mask);
      Inv(t) && Shown(t) == Immediate(Shown(s), Move(dst, srcX, srcY, mask))
  {
    FlushKeepsInv(s);
    SyncKeepsInv(Flush(s));
  }

  // -------------------------------------------------------------------------- all the runs

  ghost predicate CanRun(s: State, ops: seq<Op>)
    requires Inv(s)
    decreases |ops|
  {
    ops != [] ==> InOrder(s, ops[0]) && (StepRefines(s, ops[0]); CanRun(Next(s, ops[0]), ops[1..]))
  }

  ghost function After(s: State, ops: seq<Op>): (t: State)
    requires Inv(s) && CanRun(s, ops)
    ensures Inv(t)
    decreases |ops|
  {
    if ops == [] then s else (StepRefines(s, ops[0]); After(Next(s, ops[0]), ops[1..]))
  }

  ghost function ImmediateAfter(s: Screen, ops: seq<Op>): Screen
    requires forall i :: 0 <= i < |ops| && ops[i].Draw? ==> WellFormed(ops[i].g)
    decreases |ops|
  {
    if ops == [] then s else ImmediateAfter(Immediate(s, ops[0]), ops[1..])
  }

  // The order of calls contains only well-formed primitives.
  lemma {:induction false} RunsAreWellFormed(s: State, ops: seq<Op>)
    requires Inv(s) && CanRun(s, ops)
    ensures forall i :: 0 <= i < |ops| && ops[i].Draw? ==> WellFormed(ops[i].g)
    decreases |ops|
  {
    if ops != [] {
      StepRefines(s, ops[0]);
      RunsAreWellFormed(Next(s, ops[0]), ops[1..]);
      forall i | 0 <= i < |ops| && ops[i].Draw?
        ensures WellFormed(ops[i].g)
      {
        assert i > 0 ==> ops[i] == ops[1..][i - 1];
      }
    }
  }

  // Batching, merging and flushing late cannot be told from drawing at once.
  lemma {:induction false} RunRefines(s: State, ops: seq<Op>)
    requires Inv(s) && CanRun(s, ops)
    requires forall i :: 0 <= i < |ops| && ops[i].Draw? ==> WellFormed(ops[i].g)
    ensures Shown(After(s, ops)) == ImmediateAfter(Shown(s), ops)
    decreases |ops|
  {
    if ops != [] {
      StepRefines(s, ops[0]);
      RunRefines(Next(s, ops[0]), ops[1..]);
    }
  }

  // VBlank leaves nothing queued or pending, and both images equal.
  lemma VBlankSettles(s: State)
    requires Inv(s)
    ensures var t := Next(s, VBlank);
      t.queue == [] && !t.processing && !t.needCopy && t.input == t.output == Shown(s).output
  {
    FlushKeepsInv(s);
  }

  // Fill does not flush: it keeps the order of drawing exactly when nothing is queued. Its only
  // caller flushes first.
  lemma FillNeedsAnEmptyQueue(s: State, area: Area, color: nat)
    ensures Shown(Fill(s, area, color)) == Immediate(Shown(s), Clear(area, color)) <==> s.queue == []
  {
  }

  // PrepareBlit does not flush either: the order of drawing is kept exactly when BeginBlit has
  // emptied the queue.
  lemma PrepareNeedsAnEmptyQueue(s: State)
    requires Inv(s)
    ensures Shown(Next(s, PrepareBlit)) == Immediate(Shown(s), PrepareBlit) <==> s.queue == []
  {
    DrawAllChanges(s.output, s.input, s.queue);
    if s.queue == [] {
      StepRefines(s, PrepareBlit);
    }
  }
}
