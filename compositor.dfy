/** The sprite compositor `draw_sprite`: an anchored, clipped, opaque copy of one pixel
    buffer onto the render target's buffer. */
module Compositor {
  import opened Components

  /** A sprite together with the position it is drawn at. */
  datatype Layer = Layer(pos: Position, sprite: Sprite)

  /** The sprite's top-left corner in target space: its position minus its anchor. */
  function OriginX(l: Layer): int { l.pos.x - l.sprite.anchorX }
  function OriginY(l: Layer): int { l.pos.y - l.sprite.anchorY }

  /** The sprite is well formed and the i32 arithmetic of draw_sprite cannot overflow:
      the corners of the translated rectangle fit in i32. */
  predicate Drawable(l: Layer) {
    l.sprite.Valid()
    && I32_MIN <= OriginX(l) && OriginX(l) + l.sprite.width <= I32_MAX
    && I32_MIN <= OriginY(l) && OriginY(l) + l.sprite.height <= I32_MAX
  }

  /** The whole-sprite cull test of draw_sprite against a target of size tw x th. */
  predicate Culled(tw: int, th: int, l: Layer) {
    OriginX(l) + l.sprite.width < 0 || OriginY(l) + l.sprite.height < 0
    || OriginX(l) > tw || OriginY(l) > th
  }

  /** Whether target coordinate (tx, ty) lies inside the translated sprite rectangle. */
  predicate Covers(l: Layer, tx: int, ty: int) {
    0 <= tx - OriginX(l) < l.sprite.width && 0 <= ty - OriginY(l) < l.sprite.height
  }

  /** Whether the sprite pixel landing on (tx, ty) is one that the row-by-row, column-by-column
      copy loop has visited before reaching sprite row `row`, column `col`. */
  predicate Reached(l: Layer, tx: int, ty: int, row: int, col: int) {
    Covers(l, tx, ty)
    && var sx, sy := tx - OriginX(l), ty - OriginY(l);
    sy < row || (sy == row && sx < col)
  }

  /** Multiplying by a non-negative factor keeps order. */
  lemma MulMonotone(a: int, b: int, c: int)
    requires a <= b && 0 <= c
    ensures a * c <= b * c
  {
    assert b * c - a * c == (b - a) * c;
  }

  /** Quotient and remainder are the only ones: i == q * w + r with 0 <= r < w fixes both. */
  lemma DivModUnique(i: int, w: int, q: int, r: int)
    requires 0 < w && 0 <= r < w && i == q * w + r
    ensures i / w == q && i % w == r
  {
    var q', r' := i / w, i % w;
    assert i == q' * w + r' && 0 <= r' < w;
    assert (q - q') * w == r' - r;
    if q - q' >= 1 {
      MulMonotone(1, q - q', w);
    } else if q - q' <= -1 {
      MulMonotone(1, q' - q, w);
    }
  }

  /** Row-major cells of a w x h grid: the cell (x, y) sits at index y * w + x. */
  lemma CellIndex(w: int, h: int, x: int, y: int)
    requires 0 <= x < w && 0 <= y < h
    ensures 0 <= y * w + x < w * h
    ensures (y * w + x) % w == x && (y * w + x) / w == y
  {
    MulMonotone(0, y, w);
    MulMonotone(y, h - 1, w);
    assert (h - 1) * w == h * w - w;
    assert w * h == h * w;
    DivModUnique(y * w + x, w, y, x);
  }

  /** Every index of a w x h grid is a cell. */
  lemma IndexCell(w: int, h: int, i: int)
    requires 0 <= w && 0 <= h && 0 <= i < w * h
    ensures w > 0 && 0 <= i % w < w && 0 <= i / w < h
    ensures i == (i / w) * w + i % w
  {
    assert w != 0;
    var q := i / w;
    assert i == q * w + i % w;
    if q >= h {
      MulMonotone(h, q, w);
    }
  }

  /** The pixel in column x, row y of a sprite's row-major buffer. */
  function PixelAt(s: Sprite, x: int, y: int): Pixel
    requires s.Valid() && 0 <= x < s.width && 0 <= y < s.height
  {
    CellIndex(s.width, s.height, x, y);
    s.data[y * s.width + x]
  }

  /** The target buffer `dst` (tw columns wide) after the copy loop has visited every sprite
      pixel before row `row`, column `col`. */
  function Painted(dst: seq<Pixel>, tw: nat, l: Layer, row: int, col: int): (r: seq<Pixel>)
    requires l.sprite.Valid()
    ensures |r| == |dst|
  {
    if tw == 0 then dst
    else
      seq(|dst|, i requires 0 <= i < |dst| =>
        if Reached(l, i % tw, i / tw, row, col)
        then PixelAt(l.sprite, i % tw - OriginX(l), i / tw - OriginY(l))
        else dst[i])
  }

  /** The target buffer after drawing sprite layer `l` onto it. */
  function Composite(dst: seq<Pixel>, tw: nat, l: Layer): (r: seq<Pixel>)
    requires l.sprite.Valid()
    ensures |r| == |dst|
  {
    Painted(dst, tw, l, l.sprite.height, 0)
  }

  /** Pixel by pixel: every target pixel inside the translated rectangle holds the source
      pixel at the same offset from the origin, and every other pixel keeps its value. */
  lemma CompositeAt(dst: seq<Pixel>, tw: nat, th: nat, l: Layer, tx: int, ty: int)
    requires Shape(|dst|, tw, th) && l.sprite.Valid()
    requires 0 <= tx < tw && 0 <= ty < th
    ensures 0 <= ty * tw + tx < |dst|
    ensures Composite(dst, tw, l)[ty * tw + tx] ==
      if Covers(l, tx, ty)
      then PixelAt(l.sprite, tx - OriginX(l), ty - OriginY(l))
      else dst[ty * tw + tx]
  {
    CellIndex(tw, th, tx, ty);
    var i := ty * tw + tx;
    assert i % tw == tx && i / tw == ty;
  }

  /** A sprite that fails the cull test covers no target pixel, so skipping it early
      changes nothing: the cull is only a shortcut. */
  lemma CulledLeavesTarget(dst: seq<Pixel>, tw: nat, th: nat, l: Layer)
    requires Shape(|dst|, tw, th) && l.sprite.Valid() && Culled(tw, th, l)
    ensures Composite(dst, tw, l) == dst
  {
    if tw > 0 {
      forall i | 0 <= i < |dst| ensures Composite(dst, tw, l)[i] == dst[i] {
        IndexCell(tw, th, i);
      }
    }
  }

  /** Drawing the same sprite at the same place twice gives the buffer of drawing it once:
      the copy overwrites and accumulates nothing. */
  lemma CompositeIdempotent(dst: seq<Pixel>, tw: nat, l: Layer)
    requires l.sprite.Valid()
    ensures Composite(Composite(dst, tw, l), tw, l) == Composite(dst, tw, l)
  {
  }

  /** One step of the inner copy loop, seen from target index i: the pixel at i is reached
      after visiting sprite pixel (x, y) exactly when it was reached before or it is the
      destination of (x, y). */
  lemma PaintStepAt(dst: seq<Pixel>, tw: nat, th: nat, l: Layer, x: int, y: int, i: int)
    requires Shape(|dst|, tw, th) && l.sprite.Valid()
    requires 0 <= x < l.sprite.width && 0 <= y < l.sprite.height
    requires 0 <= i < |dst|
    ensures var tx, ty := x + OriginX(l), y + OriginY(l);
      && (0 <= tx < tw && 0 <= ty < th ==> 0 <= ty * tw + tx < |dst|)
      && Painted(dst, tw, l, y, x + 1)[i] ==
        if 0 <= tx < tw && 0 <= ty < th && i == ty * tw + tx
        then PixelAt(l.sprite, x, y)
        else Painted(dst, tw, l, y, x)[i]
  {
    var tx, ty := x + OriginX(l), y + OriginY(l);
    IndexCell(tw, th, i);
    var a, b := i % tw, i / tw;
    var sx, sy := a - OriginX(l), b - OriginY(l);
    assert Painted(dst, tw, l, y, x + 1)[i] ==
      if Reached(l, a, b, y, x + 1) then PixelAt(l.sprite, sx, sy) else dst[i];
    assert Painted(dst, tw, l, y, x)[i] ==
      if Reached(l, a, b, y, x) then PixelAt(l.sprite, sx, sy) else dst[i];
    if 0 <= tx < tw && 0 <= ty < th {
      CellIndex(tw, th, tx, ty);
      if i == ty * tw + tx {
        assert a == tx && b == ty;
        assert sx == x && sy == y;
      } else {
        assert sx != x || sy != y;
      }
    } else {
      assert sx != x || sy != y;
    }
  }

  /** One step of the inner copy loop: visiting sprite pixel (x, y) writes it to its
      destination when that lies inside the target, and changes nothing otherwise. */
  lemma PaintStep(dst: seq<Pixel>, tw: nat, th: nat, l: Layer, x: int, y: int)
    requires Shape(|dst|, tw, th) && l.sprite.Valid()
    requires 0 <= x < l.sprite.width && 0 <= y < l.sprite.height
    ensures var tx, ty := x + OriginX(l), y + OriginY(l);
      && (0 <= tx < tw && 0 <= ty < th ==> 0 <= ty * tw + tx < |dst|)
      && Painted(dst, tw, l, y, x + 1) ==
        if 0 <= tx < tw && 0 <= ty < th
        then Painted(dst, tw, l, y, x)[ty * tw + tx := PixelAt(l.sprite, x, y)]
        else Painted(dst, tw, l, y, x)
  {
    var tx, ty := x + OriginX(l), y + OriginY(l);
    var before, after := Painted(dst, tw, l, y, x), Painted(dst, tw, l, y, x + 1);
    if 0 <= tx < tw && 0 <= ty < th {
      CellIndex(tw, th, tx, ty);
      var j := ty * tw + tx;
      forall i | 0 <= i < |dst| ensures after[i] == before[j := PixelAt(l.sprite, x, y)][i] {
        PaintStepAt(dst, tw, th, l, x, y, i);
      }
    } else {
      forall i | 0 <= i < |dst| ensures after[i] == before[i] {
        PaintStepAt(dst, tw, th, l, x, y, i);
      }
    }
  }

  /** Finishing a row of the copy loop is starting the next one. */
  lemma RowDone(dst: seq<Pixel>, tw: nat, l: Layer, y: int)
    requires l.sprite.Valid()
    ensures Painted(dst, tw, l, y, l.sprite.width) == Painted(dst, tw, l, y + 1, 0)
  {
  }

  /** Draw `sprite` at `pos` onto the buffer `target` of a tw x th render target: subtract
      the anchor, skip the sprite if it is wholly off the target, else copy each source pixel
      whose destination lies inside the target. Only the buffer's contents change. */
  method DrawSprite(target: array<Pixel>, tw: U32, th: U32, pos: Position, sprite: Sprite)
    requires Shape(target.Length, tw, th) && Drawable(Layer(pos, sprite))
    modifies target
    ensures target[..] == Composite(old(target[..]), tw, Layer(pos, sprite))
    ensures Culled(tw, th, Layer(pos, sprite)) ==> target[..] == old(target[..])
  {
    ghost var l, before := Layer(pos, sprite), target[..];
    var anchoredX := pos.x - sprite.anchorX;
    var anchoredY := pos.y - sprite.anchorY;
    assert anchoredX == OriginX(l) && anchoredY == OriginY(l);
    if anchoredX + sprite.width < 0 || anchoredY + sprite.height < 0
      || anchoredX > tw || anchoredY > th
    {
      CulledLeavesTarget(before, tw, th, l);
      return;
    }
    var y := 0;
    while y < sprite.height
      invariant 0 <= y <= sprite.height
      invariant target[..] == Painted(before, tw, l, y, 0)
    {
      var x := 0;
      while x < sprite.width
        invariant 0 <= x <= sprite.width
        invariant target[..] == Painted(before, tw, l, y, x)
      {
        var targetX := x + anchoredX;
        var targetY := y + anchoredY;
        PaintStep(before, tw, th, l, x, y);
        if targetX >= 0 && targetX < tw && targetY >= 0 && targetY < th {
          CellIndex(sprite.width, sprite.height, x, y);
          assert sprite.data[y * sprite.width + x] == PixelAt(sprite, x, y);
          target[targetY * tw + targetX] := sprite.data[y * sprite.width + x];
        }
        x := x + 1;
      }
      RowDone(before, tw, l, y);
      y := y + 1;
    }
  }

  /** Every layer can be drawn. */
  predicate AllDrawable(layers: seq<Layer>) {
    forall n :: 0 <= n < |layers| ==> Drawable(layers[n])
  }

  /** The buffer after drawing `layers` in order onto `dst`; later layers are drawn on top. */
  function ComposeAll(dst: seq<Pixel>, tw: nat, layers: seq<Layer>): (r: seq<Pixel>)
    requires AllDrawable(layers)
    ensures |r| == |dst|
    decreases |layers|
  {
    if layers == [] then dst
    else Composite(ComposeAll(dst, tw, layers[..|layers| - 1]), tw, layers[|layers| - 1])
  }

  /** Drawing one more layer on top is drawing it onto what the others made. */
  lemma ComposeAllSnoc(dst: seq<Pixel>, tw: nat, layers: seq<Layer>, l: Layer)
    requires AllDrawable(layers) && Drawable(l)
    ensures AllDrawable(layers + [l])
    ensures ComposeAll(dst, tw, layers + [l]) == Composite(ComposeAll(dst, tw, layers), tw, l)
  {
    assert (layers + [l])[..|layers|] == layers;
  }

  /** A target pixel that no layer covers keeps its value. */
  lemma {:induction false} UncoveredUnchanged(dst: seq<Pixel>, tw: nat, th: nat, layers: seq<Layer>, tx: int, ty: int)
    requires Shape(|dst|, tw, th) && AllDrawable(layers)
    requires 0 <= tx < tw && 0 <= ty < th
    requires forall n :: 0 <= n < |layers| ==> !Covers(layers[n], tx, ty)
    ensures 0 <= ty * tw + tx < |dst|
    ensures ComposeAll(dst, tw, layers)[ty * tw + tx] == dst[ty * tw + tx]
    decreases |layers|
  {
    CellIndex(tw, th, tx, ty);
    if layers != [] {
      var init := layers[..|layers| - 1];
      UncoveredUnchanged(dst, tw, th, init, tx, ty);
      CompositeAt(ComposeAll(dst, tw, init), tw, th, layers[|layers| - 1], tx, ty);
    }
  }

  /** Later layers overwrite earlier ones: a target pixel shows the source pixel of the last
      layer that covers it. */
  lemma {:induction false} TopmostWins(dst: seq<Pixel>, tw: nat, th: nat, layers: seq<Layer>, n: nat, tx: int, ty: int)
    requires Shape(|dst|, tw, th) && AllDrawable(layers)
    requires 0 <= tx < tw && 0 <= ty < th
    requires n < |layers| && Covers(layers[n], tx, ty)
    requires forall m :: n < m < |layers| ==> !Covers(layers[m], tx, ty)
    ensures 0 <= ty * tw + tx < |dst|
    ensures ComposeAll(dst, tw, layers)[ty * tw + tx] ==
      PixelAt(layers[n].sprite, tx - OriginX(layers[n]), ty - OriginY(layers[n]))
    decreases |layers|
  {
    CellIndex(tw, th, tx, ty);
    var init := layers[..|layers| - 1];
    CompositeAt(ComposeAll(dst, tw, init), tw, th, layers[|layers| - 1], tx, ty);
    if n < |layers| - 1 {
      TopmostWins(dst, tw, th, init, n, tx, ty);
    }
  }
}
