/**
 The deferred renderer in the form of the program: one bounded vertex buffer a pipeline, a list
 of merged draw commands, per-pipeline offsets, and flags. OpenGL is replaced by the abstract
 images of RenderModel.
 */
module Renderer {
  import opened RenderModel

  // ------------------------------------------------------------------ commands and groups

  datatype DrawCommand = DrawCommand(kind: PipelineType, vertexCount: nat, semi: bool, semiType: nat)

  // The vertices of n primitives.
  function VerticesFor(kind: PipelineType, n: nat): nat {
    if VertexCountOf(kind) == 2 then 2 * n else 3 * n
  }

  ghost predicate Alike(kind: PipelineType, blend: Blend, ps: seq<Prim>) {
    forall j {:trigger ps[j]} :: 0 <= j < |ps| ==>
      ps[j].kind == kind && ps[j].blend == blend && |ps[j].vertices| == VertexCountOf(kind)
  }

  // What one command stands for.
  ghost predicate GroupOk(cmd: DrawCommand, ps: seq<Prim>) {
    && cmd.semiType < 4 && ps != [] && cmd.vertexCount == VerticesFor(cmd.kind, |ps|)
    && Alike(cmd.kind, BlendOf(cmd.kind, cmd.semi, cmd.semiType), ps)
  }

  function Concat(groups: seq<seq<Prim>>): seq<Prim> {
    if groups == [] then [] else Concat(groups[..|groups| - 1]) + groups[|groups| - 1]
  }

  ghost predicate GroupAt(commands: seq<DrawCommand>, groups: seq<seq<Prim>>, i: nat)
    requires i < |commands| == |groups|
  {
    GroupOk(commands[i], groups[i])
  }

  // The commands stand for the queue.
  ghost predicate Grouped(commands: seq<DrawCommand>, groups: seq<seq<Prim>>, queue: seq<Prim>) {
    && |commands| == |groups| && queue == Concat(groups)
    && forall i :: 0 <= i < |commands| ==> GroupAt(commands, groups, i)
  }

  predicate Mergeable(back: DrawCommand, cmd: DrawCommand) {
    back.kind == cmd.kind
    && ((cmd.semi && back.semi && cmd.semiType == back.semiType) || (!cmd.semi && !back.semi))
  }

  lemma NonemptyQueue(commands: seq<DrawCommand>, groups: seq<seq<Prim>>, queue: seq<Prim>)
    requires Grouped(commands, groups, queue) && commands != []
    ensures queue != []
  {
    assert GroupAt(commands, groups, |groups| - 1);
  }

  lemma StartsGroup(commands: seq<DrawCommand>, groups: seq<seq<Prim>>, queue: seq<Prim>, cmd: DrawCommand, p: Prim)
    requires Grouped(commands, groups, queue) && GroupOk(cmd, [p])
    ensures Grouped(commands + [cmd], groups + [[p]], queue + [p])
  {
    var cs, gs := commands + [cmd], groups + [[p]];
    assert gs[..|gs| - 1] == groups;
    forall i | 0 <= i < |cs|
      ensures GroupAt(cs, gs, i)
    {
      if i < |commands| {
        assert GroupAt(commands, groups, i);
      }
    }
  }

  lemma JoinsGroup(commands: seq<DrawCommand>, groups: seq<seq<Prim>>, queue: seq<Prim>, cmd: DrawCommand, p: Prim)
    requires Grouped(commands, groups, queue) && GroupOk(cmd, [p])
    requires commands != [] && Mergeable(commands[|commands| - 1], cmd)
    ensures var k := |commands| - 1; var back := commands[k];
      Grouped(commands[k := back.(vertexCount := back.vertexCount + cmd.vertexCount)], groups[k := groups[k] + [p]],
              queue + [p])
  {
    var k := |commands| - 1;
    var cs := commands[k := commands[k].(vertexCount := commands[k].vertexCount + cmd.vertexCount)];
    var gs := groups[k := groups[k] + [p]];
    assert GroupAt(commands, groups, k);
    assert [p][0] == p;
    assert GroupOk(cs[k], gs[k]);
    forall i | 0 <= i < |cs|
      ensures GroupAt(cs, gs, i)
    {
      assert GroupAt(commands, groups, i);
    }
    assert gs[..k] == groups[..k];
    assert Concat(gs) == Concat(groups[..k]) + (groups[k] + [p]);
    assert Concat(groups) == Concat(groups[..k]) + groups[k];
  }

  // ------------------------------------------------------------------------- drawing a batch

  // glDrawArrays: the vertices taken two or three at a time.
  function Assemble(kind: PipelineType, vs: seq<Vertex>, blend: Blend): seq<Prim> {
    var n := VertexCountOf(kind);
    if |vs| < n then [] else Assemble(kind, vs[..|vs| - n], blend) + [Prim(kind, vs[|vs| - n..], blend)]
  }

  lemma AssembleSnoc(kind: PipelineType, vs: seq<Vertex>, last: seq<Vertex>, blend: Blend)
    requires |last| == VertexCountOf(kind)
    ensures Assemble(kind, vs + last, blend) == Assemble(kind, vs, blend) + [Prim(kind, last, blend)]
  {
    var all := vs + last;
    assert all[..|all| - |last|] == vs && all[|all| - |last|..] == last;
  }

  lemma {:induction false} AssembleGroup(kind: PipelineType, blend: Blend, ps: seq<Prim>)
    requires Alike(kind, blend, ps)
    ensures |Verts(ps, kind)| == VerticesFor(kind, |ps|) && Assemble(kind, Verts(ps, kind), blend) == ps
    decreases |ps|
  {
    if ps != [] {
      var front, last := ps[..|ps| - 1], ps[|ps| - 1];
      assert ps == front + [last];
      AssembleGroup(kind, blend, front);
      assert last == Prim(kind, last.vertices, blend);
      AssembleSnoc(kind, Verts(front, kind), last.vertices, blend);
    }
  }

  lemma {:induction false} OtherKindsStay(kind: PipelineType, blend: Blend, ps: seq<Prim>, other: PipelineType)
    requires Alike(kind, blend, ps) && other != kind
    ensures Verts(ps, other) == []
    decreases |ps|
  {
    if ps != [] {
      OtherKindsStay(kind, blend, ps[..|ps| - 1], other);
    }
  }

  lemma {:induction false} ConcatSplit(groups: seq<seq<Prim>>, k: nat)
    requires k <= |groups|
    ensures Concat(groups) == Concat(groups[..k]) + Concat(groups[k..])
    decreases |groups|
  {
    if k < |groups| {
      var init := groups[..|groups| - 1];
      ConcatSplit(init, k);
      assert init[..k] == groups[..k] && groups[k..][..|groups| - k - 1] == init[k..];
    } else {
      assert groups[..k] == groups && groups[k..] == [];
    }
  }

  // Where the vertices of group k lie in its pipeline's buffer.
  lemma GroupLiesAt(groups: seq<seq<Prim>>, k: nat, kind: PipelineType)
    requires k < |groups|
    ensures var all, from := Verts(Concat(groups), kind), |Verts(Concat(groups[..k]), kind)|;
      var n := |Verts(groups[k], kind)|;
      from + n <= |all| && all[from..from + n] == Verts(groups[k], kind)
    ensures Concat(groups[..k + 1]) == Concat(groups[..k]) + groups[k]
  {
    ConcatSplit(groups, k + 1);
    assert groups[..k + 1][..k] == groups[..k];
    VertsConcat(Concat(groups[..k + 1]), Concat(groups[k + 1..]), kind);
    VertsConcat(Concat(groups[..k]), groups[k], kind);
  }

  function Id(kind: PipelineType): (i: nat)
    ensures i < 5
  {
    match kind
    case FlatTriangle => 0
    case GouraudTriangle => 1
    case TexturedTriangle => 2
    case MonoLine => 3
    case ShadedLine => 4
  }

  // Each pipeline's offset is the number of its vertices drawn so far.
  ghost predicate OffsetsAt(offsets: seq<nat>, drawn: seq<Prim>) {
    |offsets| == 5 && forall kind {:trigger Id(kind)} :: offsets[Id(kind)] == |Verts(drawn, kind)|
  }

  lemma GroupAddsTo(cmd: DrawCommand, ps: seq<Prim>, kind: PipelineType)
    requires GroupOk(cmd, ps)
    ensures |Verts(ps, kind)| == if kind == cmd.kind then cmd.vertexCount else 0
  {
    var blend := BlendOf(cmd.kind, cmd.semi, cmd.semiType);
    AssembleGroup(cmd.kind, blend, ps);
    if kind != cmd.kind {
      OtherKindsStay(cmd.kind, blend, ps, kind);
    }
  }

  lemma IdsDiffer(a: PipelineType, b: PipelineType)
    ensures Id(a) == Id(b) <==> a == b
  {
  }

  lemma OffsetsAdvance(offsets: seq<nat>, drawn: seq<Prim>, cmd: DrawCommand, ps: seq<Prim>)
    requires OffsetsAt(offsets, drawn) && GroupOk(cmd, ps)
    ensures OffsetsAt(offsets[Id(cmd.kind) := offsets[Id(cmd.kind)] + cmd.vertexCount], drawn + ps)
  {
    var next := offsets[Id(cmd.kind) := offsets[Id(cmd.kind)] + cmd.vertexCount];
    forall kind
      ensures next[Id(kind)] == |Verts(drawn + ps, kind)|
    {
      VertsConcat(drawn, ps, kind);
      GroupAddsTo(cmd, ps, kind);
      IdsDiffer(kind, cmd.kind);
      assert offsets[Id(kind)] == |Verts(drawn, kind)|;
    }
  }

  // Drawing command k of the batch from its pipeline's offset draws group k.
  lemma FrontDrawn(offsets: seq<nat>, gs: seq<seq<Prim>>, k: nat, cmd: DrawCommand, start: Image, texture: Image)
    requires k < |gs| && GroupOk(cmd, gs[k]) && OffsetsAt(offsets, Concat(gs[..k]))
    ensures var at, all := offsets[Id(cmd.kind)], Verts(Concat(gs), cmd.kind);
      && at + cmd.vertexCount <= |all|
      && var drawn := Assemble(cmd.kind, all[at..at + cmd.vertexCount], BlendOf(cmd.kind, cmd.semi, cmd.semiType));
         DrawAll(DrawAll(start, texture, Concat(gs[..k])), texture, drawn)
         == DrawAll(start, texture, Concat(gs[..k + 1]))
    ensures OffsetsAt(offsets[Id(cmd.kind) := offsets[Id(cmd.kind)] + cmd.vertexCount], Concat(gs[..k + 1]))
  {
    GroupLiesAt(gs, k, cmd.kind);
    AssembleGroup(cmd.kind, BlendOf(cmd.kind, cmd.semi, cmd.semiType), gs[k]);
    DrawAllConcat(start, texture, Concat(gs[..k]), gs[k]);
    OffsetsAdvance(offsets, Concat(gs[..k]), cmd, gs[k]);
  }

  // ----------------------------------------------------------------------- the vertex buffer

  class VertexBuffer {
    const maxVerts: nat
    const data: array<Vertex>
    var currVerts: nat
    ghost var contents: seq<Vertex>

    ghost predicate Valid()
      reads this, data
    {
      data.Length == maxVerts && currVerts <= maxVerts && contents == data[..currVerts]
    }

    constructor (maxVertices: nat)
      ensures Valid() && contents == [] && maxVerts == maxVertices && fresh(data)
    {
      maxVerts := maxVertices;
      data := new Vertex[maxVertices](_ => Flat(0, 0, 0, 0, 0));
      currVerts, contents := 0, [];
    }

    method PushVertex(v: Vertex) returns (ok: bool)
      requires Valid()
      modifies this, data
      ensures Valid() && ok == (|old(contents)| < maxVerts)
      ensures contents == if ok then old(contents) + [v] else old(contents)
    {
      if currVerts >= maxVerts {
        return false;
      }
      data[currVerts] := v;
      assert data[..currVerts + 1] == contents + [v];
      currVerts, contents := currVerts + 1, contents + [v];
      return true;
    }

    // The vertices of one primitive.
    method PushPrimitive(vs: seq<Vertex>)
      requires Valid() && (|vs| == 2 || |vs| == 3) && |contents| + |vs| <= maxVerts
      modifies this, data
      ensures Valid() && contents == old(contents) + vs
    {
      var ok := PushVertex(vs[0]);
      ok := PushVertex(vs[1]);
      if |vs| == 3 {
        ok := PushVertex(vs[2]);
      }
    }

    // Pipeline::Draw
    method Draw(kind: PipelineType, blend: Blend, offset: nat, count: nat, texture: Image, output: Image)
      returns (out: Image)
      requires Valid() && offset + count <= |contents|
      ensures out == DrawAll(output, texture, Assemble(kind, contents[offset..offset + count], blend))
    {
      assert data[offset..offset + count] == contents[offset..offset + count];
      out := DrawAll(output, texture, Assemble(kind, data[offset..offset + count], blend));
    }

    method Clear()
      requires Valid()
      modifies this
      ensures Valid() && contents == []
    {
      currVerts, contents := 0, [];
    }
  }

  // --------------------------------------------------------------------------- the renderer

  class Renderer {
    const flat: VertexBuffer
    const gouraud: VertexBuffer
    const textured: VertexBuffer
    const monoLine: VertexBuffer
    const shadedLine: VertexBuffer
    var commands: seq<DrawCommand>
    var input: Image
    var output: Image
    var processingCmd: bool
    var needGpuToHostCopy: bool
    var needHostToGpuCopy: bool
    ghost var queue: seq<Prim>
    ghost var groups: seq<seq<Prim>>

    function Buffer(kind: PipelineType): VertexBuffer {
      match kind
      case FlatTriangle => flat
      case GouraudTriangle => gouraud
      case TexturedTriangle => textured
      case MonoLine => monoLine
      case ShadedLine => shadedLine
    }

    ghost predicate BufferOk(kind: PipelineType)
      reads this`queue, Buffer(kind), Buffer(kind).data
    {
      var b := Buffer(kind);
      b.Valid() && b.maxVerts == MAX_VERTEX_COUNT && b.contents == Verts(queue, kind)
    }

    // No two pipelines share a buffer.
    ghost predicate Apart() {
      && flat != gouraud && flat != textured && flat != monoLine && flat != shadedLine
      && gouraud != textured && gouraud != monoLine && gouraud != shadedLine
      && textured != monoLine && textured != shadedLine && monoLine != shadedLine
      && flat.data != gouraud.data && flat.data != textured.data
      && flat.data != monoLine.data && flat.data != shadedLine.data
      && gouraud.data != textured.data && gouraud.data != monoLine.data && gouraud.data != shadedLine.data
      && textured.data != monoLine.data && textured.data != shadedLine.data && monoLine.data != shadedLine.data
    }

    // The vertex buffers hold the vertices of the queue.
    ghost predicate Buffers()
      reads this`queue, flat, gouraud, textured, monoLine, shadedLine
      reads flat.data, gouraud.data, textured.data, monoLine.data, shadedLine.data
    {
      && Apart() && BufferOk(FlatTriangle) && BufferOk(GouraudTriangle) && BufferOk(TexturedTriangle)
      && BufferOk(MonoLine) && BufferOk(ShadedLine)
    }

    ghost predicate Valid()
      reads this, flat, gouraud, textured, monoLine, shadedLine
      reads flat.data, gouraud.data, textured.data, monoLine.data, shadedLine.data
    {
      Buffers() && !needHostToGpuCopy && Grouped(commands, groups, queue) && Inv(Model())
    }

    ghost function Model(): State
      reads this
    {
      State(input, output, queue, processingCmd, needGpuToHostCopy)
    }

    constructor ()
      ensures Valid() && Model() == State(Blank, Blank, [], false, false)
    {
      flat := new VertexBuffer(MAX_VERTEX_COUNT);
      gouraud := new VertexBuffer(MAX_VERTEX_COUNT);
      textured := new VertexBuffer(MAX_VERTEX_COUNT);
      monoLine := new VertexBuffer(MAX_VERTEX_COUNT);
      shadedLine := new VertexBuffer(MAX_VERTEX_COUNT);
      commands, queue, groups := [], [], [];
      input, output := Blank, Blank;
      processingCmd, needGpuToHostCopy, needHostToGpuCopy := false, false, false;
      new;
      assert Apart();
      EmptyBuffers();
      NothingQueued();
    }

    ghost predicate Empty(b: VertexBuffer)
      reads b, b.data
    {
      b.Valid() && b.contents == [] && b.maxVerts == MAX_VERTEX_COUNT
    }

    // Empty buffers stand for an empty queue.
    lemma EmptyBuffers()
      requires Apart() && queue == []
      requires Empty(flat) && Empty(gouraud) && Empty(textured) && Empty(monoLine) && Empty(shadedLine)
      ensures Buffers()
    {
    }

    // AppendCommand: the list, which stood for `before`, stands for the primitive p as well.
    method AppendCommand(cmd: DrawCommand, ghost before: seq<Prim>, ghost p: Prim)
      requires Grouped(commands, groups, before) && GroupOk(cmd, [p])
      modifies this`commands, this`groups
      ensures Grouped(commands, groups, before + [p])
    {
      if commands == [] {
        StartsGroup(commands, groups, before, cmd, p);
        commands, groups := commands + [cmd], groups + [[p]];
      } else {
        var k := |commands| - 1;
        var back := commands[k];
        if back.kind == cmd.kind {
          var semiCheck := cmd.semi && back.semi && cmd.semiType == back.semiType;
          var opaqueCheck := !cmd.semi && !back.semi;
          if semiCheck || opaqueCheck {
            JoinsGroup(commands, groups, before, cmd, p);
            commands := commands[k := back.(vertexCount := back.vertexCount + cmd.vertexCount)];
            groups := groups[k := groups[k] + [p]];
          } else {
            StartsGroup(commands, groups, before, cmd, p);
            commands, groups := commands + [cmd], groups + [[p]];
          }
        } else {
          StartsGroup(commands, groups, before, cmd, p);
          commands, groups := commands + [cmd], groups + [[p]];
        }
      }
    }

    // The blend state set up for a command.
    method SetBlend(cmd: DrawCommand) returns (blend: Blend)
      requires cmd.semiType < 4
      ensures blend == BlendOf(cmd.kind, cmd.semi, cmd.semiType)
    {
      if cmd.semi {
        var equation := if cmd.semiType == 2 then ReverseSubtract else FuncAdd;
        var src, dst;
        if cmd.kind == TexturedTriangle {
          src, dst := Src1Alpha, Src1Color;
        } else {
          match cmd.semiType {
            case 0 => src, dst := ConstantAlpha, ConstantAlpha;
            case 1 => src, dst := One, One;
            case 2 => src, dst := One, One;
            case 3 => src, dst := ConstantColor, One;
          }
        }
        blend := Enabled(equation, src, dst);
      } else {
        blend := Disabled;
      }
    }

    // One round of the loop of DrawBatch: the front command is drawn and removed.
    method DrawFront(buffer: VertexBuffer, offsets: seq<nat>, ghost gs: seq<seq<Prim>>, ghost k: nat,
                     ghost start: Image)
      returns (next: seq<nat>)
      requires commands != [] && k < |gs| && GroupOk(commands[0], gs[k])
      requires buffer.Valid() && buffer.contents == Verts(Concat(gs), commands[0].kind)
      requires OffsetsAt(offsets, Concat(gs[..k])) && output == DrawAll(start, input, Concat(gs[..k]))
      modifies this`commands, this`output
      ensures commands == old(commands)[1..]
      ensures OffsetsAt(next, Concat(gs[..k + 1])) && output == DrawAll(start, input, Concat(gs[..k + 1]))
    {
      var cmd := commands[0];
      var blend := SetBlend(cmd);
      FrontDrawn(offsets, gs, k, cmd, start, input);
      ghost var after := DrawAll(start, input, Concat(gs[..k + 1]));
      output := buffer.Draw(cmd.kind, blend, offsets[Id(cmd.kind)], cmd.vertexCount, input, output);
      assert output == after;
      next := offsets[Id(cmd.kind) := offsets[Id(cmd.kind)] + cmd.vertexCount];
      commands := commands[1..];
    }

    // Every pipeline's ClearVertices.
    method ClearBuffers()
      requires Buffers()
      modifies flat, gouraud, textured, monoLine, shadedLine
      ensures Empty(flat) && Empty(gouraud) && Empty(textured) && Empty(monoLine) && Empty(shadedLine)
    {
      gouraud.Clear();
      flat.Clear();
      textured.Clear();
      monoLine.Clear();
      shadedLine.Clear();
    }

    lemma AnyBuffer(kind: PipelineType)
      requires Buffers()
      ensures BufferOk(kind)
    {
    }

    // The loop of DrawBatch.
    method DrawCommands()
      requires Valid()
      modifies this`commands, this`output
      ensures commands == [] && output == DrawAll(old(output), input, queue)
    {
      ghost var cs, gs, start, k := commands, groups, output, 0;
      var offsets: seq<nat> := [0, 0, 0, 0, 0];
      while commands != []
        invariant k <= |gs| && commands == cs[k..]
        invariant OffsetsAt(offsets, Concat(gs[..k])) && output == DrawAll(start, input, Concat(gs[..k]))
        modifies this`commands, this`output
        decreases |commands|
      {
        assert GroupAt(cs, gs, k);
        AnyBuffer(commands[0].kind);
        offsets := DrawFront(Buffer(commands[0].kind), offsets, gs, k, start);
        k := k + 1;
      }
      assert gs[..k] == gs;
    }

    method DrawBatch()
      requires Valid()
      modifies this, flat, gouraud, textured, monoLine, shadedLine
      ensures Valid() && Model() == RenderModel.DrawBatch(old(Model()))
    {
      if commands == [] {
        assert groups == [];
        return;
      }
      NonemptyQueue(commands, groups, queue);
      DrawCommands();
      ClearBuffers();
      groups, queue := [], [];
      processingCmd := true;
      EmptyBuffers();
    }

    method CommandFenceSync()
      modifies this`processingCmd, this`needGpuToHostCopy
      ensures Model() == FenceSync(old(Model())) && (old(Valid()) ==> Valid())
    {
      if !processingCmd {
        return;
      }
      processingCmd := false;
      needGpuToHostCopy := true;
    }

    method FlushCommands()
      requires Valid()
      modifies this, flat, gouraud, textured, monoLine, shadedLine
      ensures Valid() && Model() == Flush(old(Model()))
    {
      DrawBatch();
      CommandFenceSync();
    }

    method SyncTextures()
      requires !needHostToGpuCopy
      modifies this`input, this`output, this`needGpuToHostCopy, this`needHostToGpuCopy
      ensures !needHostToGpuCopy && Model() == RenderModel.SyncTextures(old(Model()))
      ensures old(Valid()) ==> Valid()
    {
      if needGpuToHostCopy {
        input := output;
        needGpuToHostCopy := false;
      }
      output, needHostToGpuCopy := if needHostToGpuCopy then input else output, false;
    }

    method VBlank()
      requires Valid()
      modifies this, flat, gouraud, textured, monoLine, shadedLine
      ensures Valid() && Model() == Next(old(Model()), Op.VBlank)
    {
      FlushCommands();
      SyncTextures();
    }

    // The culling loop of DrawPrimitive.
    method IsCulled(g: GenericPrimitive) returns (culled: bool)
      ensures culled == Culled(g)
    {
      culled := false;
      var i := 0;
      while i < |g.vertices| - 1
        invariant 0 <= i && (i <= |g.vertices| - 1 || i == 0)
        invariant forall j :: 0 <= j < i ==> !EdgeTooLong(g.vertices[j], g.vertices[j + 1])
      {
        var v0, v1 := g.vertices[i], g.vertices[i + 1];
        if Abs(v0.x - v1.x) > 1023 || Abs(v0.y - v1.y) > 511 {
          assert EdgeTooLong(g.vertices[i], g.vertices[i + 1]);
          return true;
        }
        i := i + 1;
      }
    }

    // The vertices of a primitive go to its pipeline's buffer, which has room.
    method PushVertices(p: Prim)
      requires Buffers() && |p.vertices| == VertexCountOf(p.kind)
      requires |Verts(queue, p.kind)| + |p.vertices| <= MAX_VERTEX_COUNT
      modifies this`queue, Buffer(p.kind), Buffer(p.kind).data
      ensures Buffers() && queue == old(queue) + [p]
    {
      AnyBuffer(p.kind);
      var buffer := Buffer(p.kind);
      buffer.PushPrimitive(p.vertices);
      VertsSnoc(queue, p, FlatTriangle);
      VertsSnoc(queue, p, GouraudTriangle);
      VertsSnoc(queue, p, TexturedTriangle);
      VertsSnoc(queue, p, MonoLine);
      VertsSnoc(queue, p, ShadedLine);
      queue := queue + [p];
    }

    // A primitive's vertices are stored and its command goes to the list. There is room: the
    // limit is a multiple of both vertex counts.
    method Submit(g: GenericPrimitive)
      requires Valid() && WellFormed(g) && |Verts(queue, g.kind)| < MAX_VERTEX_COUNT
      modifies this`commands, this`groups, this`queue
      modifies Buffer(g.kind), Buffer(g.kind).data
      ensures Valid() && Model() == old(Model()).(queue := old(queue) + [PrimOf(g)])
      ensures DrawnFor(queue[|queue| - 1], g)
    {
      var p := PrimOf(g);
      PrimIsDrawnFor(g);
      SubmitKeepsInv(Model(), p);
      VertsWhole(queue, g.kind);
      RoomForOne(VertexCountOf(g.kind), |Verts(queue, g.kind)|);
      ghost var before := queue;
      PushVertices(p);
      AppendCommand(DrawCommand(g.kind, VertexCountOf(g.kind), g.semi, g.semiType), before, p);
    }

    method DrawPrimitive(g: GenericPrimitive)
      requires Valid() && WellFormed(g)
      modifies this, flat, gouraud, textured, monoLine, shadedLine
      modifies flat.data, gouraud.data, textured.data, monoLine.data, shadedLine.data
      ensures Valid() && Model() == RenderModel.DrawPrimitive(old(Model()), g)
      ensures Culled(g) ==> queue == old(queue)
      ensures !Culled(g) ==> queue != [] && DrawnFor(queue[|queue| - 1], g)
      ensures !Culled(g) ==>
        queue[..|queue| - 1] == if |Verts(old(queue), g.kind)| >= 9000 then [] else old(queue)
    {
      var culled := IsCulled(g);
      if culled {
        return;
      }
      AnyBuffer(g.kind);
      if Buffer(g.kind).currVerts >= MAX_VERTEX_COUNT {
        FlushCommands();
      }
      Submit(g);
    }

    // VramCpuBlit, up to the download, which reads `pixels`.
    method VramCpuBlit() returns (pixels: Image)
      requires Valid()
      modifies this, flat, gouraud, textured, monoLine, shadedLine
      ensures Valid() && Model() == Flush(old(Model())) && pixels == Shown(old(Model())).output
    {
      FlushKeepsInv(Model());
      FlushCommands();
      pixels := output;
    }

    method BeginCpuVramBlit()
      requires Valid()
      modifies this, flat, gouraud, textured, monoLine, shadedLine
      ensures Valid() && Model() == Next(old(Model()), BeginBlit)
    {
      DrawBatch();
    }

    method PrepareBlit()
      requires Valid()
      modifies this`input, this`output, this`processingCmd, this`needGpuToHostCopy, this`needHostToGpuCopy
      ensures Valid() && Model() == Next(old(Model()), Op.PrepareBlit)
    {
      CommandFenceSync();
      SyncTextures();
    }

    method CpuVramBlit(area: Area, maskEnable: bool, setMask: bool, data: int)
      requires Valid()
      modifies this`output, this`processingCmd, this`needGpuToHostCopy
      ensures Valid() && Model() == Next(old(Model()), Blit(area, maskEnable, setMask, data))
      ensures output == Blitted(old(output), input, area, maskEnable, setMask, data) && input == old(input)
    {
      output := Blitted(output, input, area, maskEnable, setMask, data);
      processingCmd := true;
      assert Inv(Model());
      CommandFenceSync();
    }

    method EndBlit()
      requires Valid()
      modifies this`input, this`output, this`needGpuToHostCopy, this`needHostToGpuCopy
      ensures Valid() && Model() == Next(old(Model()), Op.EndBlit)
    {
      SyncTextures();
    }

    // VramVramBlit once everything queued has been drawn and copied to the input.
    method MoveSynced(area: Area, srcX: int, srcY: int, maskEnable: bool)
      requires Valid() && queue == []
      modifies this`input, this`output, this`processingCmd, this`needGpuToHostCopy, this`needHostToGpuCopy
      ensures Valid()
      ensures var moved := Moved(old(output), old(input), area, srcX, srcY, maskEnable);
        Model() == RenderModel.SyncTextures(FenceSync(old(Model()).(output := moved, processing := true)))
    {
      output := Moved(output, input, area, srcX, srcY, maskEnable);
      processingCmd := true;
      CommandFenceSync();
      SyncTextures();
    }

    method VramVramBlit(area: Area, srcX: int, srcY: int, maskEnable: bool)
      requires Valid()
      modifies this, flat, gouraud, textured, monoLine, shadedLine
      ensures Valid() && Model() == Next(old(Model()), Move(area, srcX, srcY, maskEnable))
      ensures var drawn := Shown(old(Model())).output;
        input == output == Moved(drawn, drawn, area, srcX, srcY, maskEnable)
    {
      MoveRefines(Model(), area, srcX, srcY, maskEnable);
      FlushCommands();
      SyncTextures();
      MoveSynced(area, srcX, srcY, maskEnable);
    }

    method Fill(area: Area, color: nat)
      requires Valid()
      modifies this`output, this`needGpuToHostCopy
      ensures Valid() && Model() == RenderModel.Fill(old(Model()), area, color)
      ensures output == Filled(old(output), area, color) && input == old(input)
    {
      needGpuToHostCopy := true;
      output := Filled(output, area, color);
    }
  }
}
