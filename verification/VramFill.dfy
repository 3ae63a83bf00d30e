/**
 The regions Renderer::Fill clears: a rectangle that may wrap around either edge of the 1024 by
 512 video memory, cut into one, two or four parts, for the color and for the mask texture.
 */
module VramFill {
  const X_SIZE := 1024
  const Y_SIZE := 512

  datatype Region = Region(x: int, y: int, w: int, h: int)

  // Whether the wrapped rectangle contains a pixel, by coordinates modulo the memory's size.
  ghost predicate InWrapped(xoff: int, yoff: int, w: int, h: int, px: int, py: int) {
    (px - xoff) % 1024 < w && (py - yoff) % 512 < h
  }

  predicate Contains(r: Region, px: int, py: int) {
    r.x <= px < r.x + r.w && r.y <= py < r.y + r.h
  }

  function Hits(rs: seq<Region>, px: int, py: int): nat {
    if rs == [] then 0 else (if Contains(rs[0], px, py) then 1 else 0) + Hits(rs[1..], px, py)
  }

  // What the program requires of a fill.
  predicate FillArgs(xoff: int, yoff: int, w: int, h: int) {
    0 <= xoff < X_SIZE && 0 <= yoff < Y_SIZE && 0 <= w <= X_SIZE && 0 <= h <= Y_SIZE
  }

  lemma ScaleParts(a: Region, b: Region, c: Region, d: Region, mult: nat)
    ensures Scale([a, b], mult) == [ScaleRegion(a, mult), ScaleRegion(b, mult)]
    ensures Scale([a, b, c, d], mult)
      == [ScaleRegion(a, mult), ScaleRegion(b, mult), ScaleRegion(c, mult), ScaleRegion(d, mult)]
  {
    assert [a, b, c, d][1..] == [b, c, d] && [b, c, d][1..] == [c, d] && [c, d][1..] == [d] && [a, b][1..] == [b];
    assert Scale([d], mult) == [ScaleRegion(d, mult)] && Scale([b], mult) == [ScaleRegion(b, mult)];
    assert Scale([c, d], mult) == [ScaleRegion(c, mult), ScaleRegion(d, mult)];
    assert Scale([b, c, d], mult) == [ScaleRegion(b, mult), ScaleRegion(c, mult), ScaleRegion(d, mult)];
  }

  // The parts of the wrapped rectangle at native resolution.
  function Parts(xoff: int, yoff: int, w: int, h: int): seq<Region> {
    var overX, overY := xoff + w > X_SIZE, yoff + h > Y_SIZE;
    if overX && overY then
      [Region(xoff, yoff, X_SIZE - xoff, Y_SIZE - yoff), Region(0, 0, xoff + w - X_SIZE, yoff + h - Y_SIZE),
       Region(0, yoff, xoff + w - X_SIZE, Y_SIZE - yoff), Region(xoff, 0, X_SIZE - xoff, yoff + h - Y_SIZE)]
    else if overX then [Region(xoff, yoff, X_SIZE - xoff, h), Region(0, yoff, xoff + w - X_SIZE, h)]
    else if overY then [Region(xoff, yoff, w, Y_SIZE - yoff), Region(xoff, 0, w, yoff + h - Y_SIZE)]
    else [Region(xoff, yoff, w, h)]
  }

  function ScaleRegion(r: Region, mult: nat): Region {
    Region(r.x * mult, r.y * mult, r.w * mult, r.h * mult)
  }

  function Scale(rs: seq<Region>, mult: nat): seq<Region> {
    if rs == [] then [] else [ScaleRegion(rs[0], mult)] + Scale(rs[1..], mult)
  }

  // ------------------------------------------------------------- one axis, two intervals

  // Where the wrapped interval lies on an axis.
  lemma WrappedAxis(off: int, len: int, size: int, p: int)
    requires size > 0 && 0 <= off < size && 0 <= len <= size && 0 <= p < size
    ensures (p - off) % size < len <==>
      if off + len > size then off <= p || p < off + len - size else off <= p < off + len
  {
    if p >= off {
      assert (p - off) % size == p - off;
    } else {
      assert (p - off) % size == p - off + size by {
        assert p - off == size * (-1) + (p - off + size);
      }
    }
  }

  // Each pixel of the wrapped rectangle is in exactly one part, every other pixel in none.
  lemma PartsTile(xoff: int, yoff: int, w: int, h: int, px: int, py: int)
    requires FillArgs(xoff, yoff, w, h) && 0 <= px < X_SIZE && 0 <= py < Y_SIZE
    ensures Hits(Parts(xoff, yoff, w, h), px, py) == if InWrapped(xoff, yoff, w, h, px, py) then 1 else 0
  {
    WrappedAxis(xoff, w, X_SIZE, px);
    WrappedAxis(yoff, h, Y_SIZE, py);
    var rs := Parts(xoff, yoff, w, h);
    if |rs| == 4 {
      HitsOfFour(rs, px, py);
    } else if |rs| == 2 {
      assert rs[1..][1..] == [];
      assert Hits(rs[1..], px, py) == (if Contains(rs[1], px, py) then 1 else 0) + Hits([], px, py);
    }
  }

  lemma HitsOfFour(rs: seq<Region>, px: int, py: int)
    requires |rs| == 4
    ensures Hits(rs, px, py) ==
      (if Contains(rs[0], px, py) then 1 else 0) + (if Contains(rs[1], px, py) then 1 else 0)
      + (if Contains(rs[2], px, py) then 1 else 0) + (if Contains(rs[3], px, py) then 1 else 0)
  {
    assert rs[1..][1..] == rs[2..] && rs[2..][1..] == rs[3..] && rs[3..][1..] == [];
    assert Hits(rs[2..], px, py) == (if Contains(rs[2], px, py) then 1 else 0) + Hits(rs[3..], px, py);
    assert Hits(rs[3..], px, py) == (if Contains(rs[3], px, py) then 1 else 0) + Hits([], px, py);
  }

  // ------------------------------------------------------------------------- upscaling

  // An upscaled interval holds the upscaled points of the native one.
  lemma UpscaledAxis(x: int, w: int, mult: nat, p: int)
    requires mult > 0 && 0 <= x && 0 <= p
    ensures x * mult <= p < x * mult + w * mult <==> x <= p / mult < x + w
  {
    var q, r := p / mult, p % mult;
    assert p == q * mult + r;
    MulLess(q, x, mult);
    MulLess(q, x + w, mult);
    assert (x + w) * mult == x * mult + w * mult;
  }

  lemma MulLess(a: int, b: int, m: int)
    requires m > 0
    ensures a < b ==> a * m + m <= b * m
    ensures a >= b ==> a * m >= b * m
  {
    if a < b {
      assert (b - (a + 1)) * m >= 0;
    } else {
      assert (a - b) * m >= 0;
    }
  }

  lemma {:induction false} ScaledHits(rs: seq<Region>, mult: nat, px: int, py: int)
    requires mult > 0 && 0 <= px && 0 <= py && forall i :: 0 <= i < |rs| ==> rs[i].x >= 0 && rs[i].y >= 0
    ensures Hits(Scale(rs, mult), px, py) == Hits(rs, px / mult, py / mult)
    decreases |rs|
  {
    if rs != [] {
      UpscaledAxis(rs[0].x, rs[0].w, mult, px);
      UpscaledAxis(rs[0].y, rs[0].h, mult, py);
      ScaledHits(rs[1..], mult, px, py);
      assert Scale(rs, mult)[1..] == Scale(rs[1..], mult);
    }
  }

  // At any multiplier an upscaled pixel is cleared, once, exactly when its native pixel lies in
  // the wrapped rectangle, that is, exactly when the mask regions hold it.
  lemma FillCoversWrapped(xoff: int, yoff: int, w: int, h: int, mult: nat, px: int, py: int)
    requires FillArgs(xoff, yoff, w, h) && mult > 0
    requires 0 <= px < X_SIZE * mult && 0 <= py < Y_SIZE * mult
    ensures 0 <= px / mult < X_SIZE && 0 <= py / mult < Y_SIZE
    ensures Hits(Scale(Parts(xoff, yoff, w, h), mult), px, py) ==
      if InWrapped(xoff, yoff, w, h, px / mult, py / mult) then 1 else 0
    ensures Hits(Scale(Parts(xoff, yoff, w, h), mult), px, py) == Hits(Parts(xoff, yoff, w, h), px / mult, py / mult)
  {
    UpscaledAxis(0, X_SIZE, mult, px);
    UpscaledAxis(0, Y_SIZE, mult, py);
    ScaledHits(Parts(xoff, yoff, w, h), mult, px, py);
    PartsTile(xoff, yoff, w, h, px / mult, py / mult);
  }

  // ----------------------------------------------------------------------------- Fill

  // color: the scissor boxes, as they are set and cleared; mask: the regions of the mask
  // texture, which is not upscaled. Both clear each pixel of the wrapped rectangle once and no
  // other pixel.
  method Fill(xoff: int, yoff: int, w: int, h: int, mult: nat) returns (color: seq<Region>, mask: seq<Region>)
    requires FillArgs(xoff, yoff, w, h) && mult > 0
    ensures color == Scale(mask, mult)
    ensures forall px, py :: 0 <= px < X_SIZE && 0 <= py < Y_SIZE ==>
      Hits(mask, px, py) == if InWrapped(xoff, yoff, w, h, px, py) then 1 else 0
    ensures forall px, py :: 0 <= px < X_SIZE * mult && 0 <= py < Y_SIZE * mult ==>
      Hits(color, px, py) == if InWrapped(xoff, yoff, w, h, px / mult, py / mult) then 1 else 0
  {
    if xoff + w > X_SIZE && yoff + h > Y_SIZE {
      color := [Region(xoff * mult, yoff * mult, (X_SIZE - xoff) * mult, (Y_SIZE - yoff) * mult)];
      color := color + [Region(0, 0, (xoff + w - X_SIZE) * mult, (yoff + h - Y_SIZE) * mult)];
      color := color + [Region(0, yoff * mult, (xoff + w - X_SIZE) * mult, (Y_SIZE - yoff) * mult)];
      color := color + [Region(xoff * mult, 0, (X_SIZE - xoff) * mult, (yoff + h - Y_SIZE) * mult)];
      mask := [Region(xoff, yoff, X_SIZE - xoff, Y_SIZE - yoff)];
      mask := mask + [Region(0, 0, xoff + w - X_SIZE, yoff + h - Y_SIZE)];
      mask := mask + [Region(0, yoff, xoff + w - X_SIZE, Y_SIZE - yoff)];
      mask := mask + [Region(xoff, 0, X_SIZE - xoff, yoff + h - Y_SIZE)];
    } else if xoff + w > X_SIZE {
      color := [Region(xoff * mult, yoff * mult, (X_SIZE - xoff) * mult, h * mult)];
      color := color + [Region(0, yoff * mult, (xoff + w - X_SIZE) * mult, h * mult)];
      mask := [Region(xoff, yoff, X_SIZE - xoff, h)];
      mask := mask + [Region(0, yoff, xoff + w - X_SIZE, h)];
    } else if yoff + h > Y_SIZE {
      color := [Region(xoff * mult, yoff * mult, w * mult, (Y_SIZE - yoff) * mult)];
      color := color + [Region(xoff * mult, 0, w * mult, (yoff + h - Y_SIZE) * mult)];
      mask := [Region(xoff, yoff, w, Y_SIZE - yoff)];
      mask := mask + [Region(xoff, 0, w, yoff + h - Y_SIZE)];
    } else {
      color := [Region(xoff * mult, yoff * mult, w * mult, h * mult)];
      mask := [Region(xoff, yoff, w, h)];
    }
    assert mask == Parts(xoff, yoff, w, h);
    BoxesAreScaled(xoff, yoff, w, h, mult);
    FillHits(xoff, yoff, w, h, mult);
  }

  // The parts with every coordinate upscaled on its own.
  ghost function Boxes(xoff: int, yoff: int, w: int, h: int, mult: nat): seq<Region> {
    var overX, overY := xoff + w > X_SIZE, yoff + h > Y_SIZE;
    if overX && overY then
      [Region(xoff * mult, yoff * mult, (X_SIZE - xoff) * mult, (Y_SIZE - yoff) * mult),
       Region(0, 0, (xoff + w - X_SIZE) * mult, (yoff + h - Y_SIZE) * mult),
       Region(0, yoff * mult, (xoff + w - X_SIZE) * mult, (Y_SIZE - yoff) * mult),
       Region(xoff * mult, 0, (X_SIZE - xoff) * mult, (yoff + h - Y_SIZE) * mult)]
    else if overX then
      [Region(xoff * mult, yoff * mult, (X_SIZE - xoff) * mult, h * mult),
       Region(0, yoff * mult, (xoff + w - X_SIZE) * mult, h * mult)]
    else if overY then
      [Region(xoff * mult, yoff * mult, w * mult, (Y_SIZE - yoff) * mult),
       Region(xoff * mult, 0, w * mult, (yoff + h - Y_SIZE) * mult)]
    else [Region(xoff * mult, yoff * mult, w * mult, h * mult)]
  }

  lemma BoxesAreScaled(xoff: int, yoff: int, w: int, h: int, mult: nat)
    ensures Boxes(xoff, yoff, w, h, mult) == Scale(Parts(xoff, yoff, w, h), mult)
  {
    var ps := Parts(xoff, yoff, w, h);
    if |ps| == 4 {
      ScaleParts(ps[0], ps[1], ps[2], ps[3], mult);
    } else if |ps| == 2 {
      ScaleParts(ps[0], ps[1], ps[0], ps[1], mult);
    }
  }

  lemma FillHits(xoff: int, yoff: int, w: int, h: int, mult: nat)
    requires FillArgs(xoff, yoff, w, h) && mult > 0
    ensures forall px, py :: 0 <= px < X_SIZE && 0 <= py < Y_SIZE ==>
      Hits(Parts(xoff, yoff, w, h), px, py) == if InWrapped(xoff, yoff, w, h, px, py) then 1 else 0
    ensures forall px, py :: 0 <= px < X_SIZE * mult && 0 <= py < Y_SIZE * mult ==>
      Hits(Scale(Parts(xoff, yoff, w, h), mult), px, py)
      == if InWrapped(xoff, yoff, w, h, px / mult, py / mult) then 1 else 0
  {
    var parts := Parts(xoff, yoff, w, h);
    forall px, py | 0 <= px < X_SIZE && 0 <= py < Y_SIZE
      ensures Hits(parts, px, py) == if InWrapped(xoff, yoff, w, h, px, py) then 1 else 0
    {
      PartsTile(xoff, yoff, w, h, px, py);
    }
    forall px, py | 0 <= px < X_SIZE * mult && 0 <= py < Y_SIZE * mult
      ensures Hits(Scale(parts, mult), px, py) == if InWrapped(xoff, yoff, w, h, px / mult, py / mult) then 1 else 0
    {
      FillCoversWrapped(xoff, yoff, w, h, mult, px, py);
    }
  }
}
