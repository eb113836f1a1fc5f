/** The variant of src/lib.rs: one ComponentDatabase holding the frame timing and a map per
    component kind from entity id to that entity's component. The per-frame systems update
    its fields in place. A HashMap's iteration order is unspecified, so which render target
    `.iter().next()` returns, and the order sprites are drawn in, are choices the model leaves
    open and reports back as ghost results. */
module Database {
  import opened Components
  import opened Compositor

  /** The u32 entity ids that key every map. */
  type EntityId = U32

  /** The layers of the entities listed in `order` that have both a sprite and a position,
      in that order. */
  function DbLayers(order: seq<EntityId>, sprites: map<EntityId, Sprite>, positions: map<EntityId, Position>): (r: seq<Layer>)
    ensures |r| <= |order|
    decreases |order|
  {
    if order == [] then []
    else
      var e := order[|order| - 1];
      DbLayers(order[..|order| - 1], sprites, positions)
        + (if e in sprites && e in positions then [Layer(positions[e], sprites[e])] else [])
  }

  /** When every placed sprite can be drawn, so can every layer. */
  lemma {:induction false} DbLayersDrawable(order: seq<EntityId>, sprites: map<EntityId, Sprite>, positions: map<EntityId, Position>)
    requires PlacedDrawable(sprites, positions)
    ensures AllDrawable(DbLayers(order, sprites, positions))
    decreases |order|
  {
    if order != [] {
      DbLayersDrawable(order[..|order| - 1], sprites, positions);
    }
  }

  /** Every sprite that has a position can be drawn there without i32 overflow. */
  predicate PlacedDrawable(sprites: map<EntityId, Sprite>, positions: map<EntityId, Position>) {
    forall e :: e in sprites && e in positions ==> Drawable(Layer(positions[e], sprites[e]))
  }

  /** `order` lists every element of `keys` exactly once. */
  predicate Enumerates(order: seq<EntityId>, keys: set<EntityId>) {
    && (forall i, j :: 0 <= i < j < |order| ==> order[i] != order[j])
    && (forall e :: e in order ==> e in keys)
    && (forall e :: e in keys ==> e in order)
  }

  /** The sprites after clearing the one of entity `rt`, if it has one, to 0. */
  function Cleared(sprites: map<EntityId, Sprite>, rt: EntityId): (r: map<EntityId, Sprite>)
    ensures r.Keys == sprites.Keys
    ensures forall e :: e in sprites && e != rt ==> r[e] == sprites[e]
    ensures rt in sprites ==>
      && r[rt].width == sprites[rt].width && r[rt].height == sprites[rt].height
      && r[rt].anchorX == sprites[rt].anchorX && r[rt].anchorY == sprites[rt].anchorY
      && |r[rt].data| == |sprites[rt].data|
      && (forall i :: 0 <= i < |r[rt].data| ==> r[rt].data[i] == 0)
  {
    if rt in sprites then sprites[rt := Filled(sprites[rt], 0)] else sprites
  }

  /** The position of an entity with WobbleMove `w` after the wobble step. */
  function Moved(p: Position, w: WobbleMove, half: int, total: nat, offset: (nat, real) -> WobbleOffset): Position
    requires 0 <= half < 0x4000_0000
  {
    p.(x := half + offset(total, w.amplitude))
  }

  /** The positions after moving those of the entities in `done` that have a WobbleMove. */
  function MovedOn(positions: map<EntityId, Position>, wobble: map<EntityId, WobbleMove>, done: set<EntityId>,
                   half: int, total: nat, offset: (nat, real) -> WobbleOffset): (r: map<EntityId, Position>)
    requires 0 <= half < 0x4000_0000
  {
    map e | e in positions ::
      if e in done && e in wobble then Moved(positions[e], wobble[e], half, total, offset) else positions[e]
  }

  /** Moving one more entity's position updates just that entry. */
  lemma MovedOnStep(positions: map<EntityId, Position>, wobble: map<EntityId, WobbleMove>, done: set<EntityId>,
                    half: int, total: nat, offset: (nat, real) -> WobbleOffset, e: EntityId)
    requires 0 <= half < 0x4000_0000 && e in wobble && e !in done
    ensures var before := MovedOn(positions, wobble, done, half, total, offset);
      MovedOn(positions, wobble, done + {e}, half, total, offset) ==
        if e in before then before[e := Moved(before[e], wobble[e], half, total, offset)] else before
  {
    var before := MovedOn(positions, wobble, done, half, total, offset);
    var after := MovedOn(positions, wobble, done + {e}, half, total, offset);
    if e in before {
      assert before[e] == positions[e];
      assert after == before[e := Moved(before[e], wobble[e], half, total, offset)];
    } else {
      assert after == before;
    }
  }

  /** The loop of sys_wobble_move over the WobbleMove map: each entity of it that has a
      position gets x = half + offset(total, amplitude), one entity at a time. */
  method MovePositions(positions: map<EntityId, Position>, wobble: map<EntityId, WobbleMove>,
                       half: int, total: nat, offset: (nat, real) -> WobbleOffset)
    returns (moved: map<EntityId, Position>)
    requires 0 <= half < 0x4000_0000
    ensures moved == MovedOn(positions, wobble, wobble.Keys, half, total, offset)
  {
    moved := positions;
    ghost var done: set<EntityId> := {};
    var todo := wobble.Keys;
    while todo != {}
      invariant todo + done == wobble.Keys && todo !! done
      invariant moved == MovedOn(positions, wobble, done, half, total, offset)
      decreases |todo|
    {
      var e :| e in todo;
      MovedOnStep(positions, wobble, done, half, total, offset, e);
      if e in moved {
        var p := moved[e];
        moved := moved[e := p.(x := half + offset(total, wobble[e].amplitude))];
      }
      todo := todo - {e};
      done := done + {e};
    }
  }

  /** The wobble step moves only horizontally and only entities with a WobbleMove: every
      entity keeps its position entry, every y stays, and each moved x is the same function
      of the entity's amplitude. */
  lemma WobbleMovesOnlyX(positions: map<EntityId, Position>, wobble: map<EntityId, WobbleMove>,
                         half: int, total: nat, offset: (nat, real) -> WobbleOffset)
    requires 0 <= half < 0x4000_0000
    ensures var r := MovedOn(positions, wobble, wobble.Keys, half, total, offset);
      && r.Keys == positions.Keys
      && (forall e :: e in positions ==> r[e].y == positions[e].y)
      && (forall e :: e in positions && e !in wobble ==> r[e] == positions[e])
      && (forall e :: e in positions && e in wobble ==> r[e].x == half + offset(total, wobble[e].amplitude))
  {
  }

  /** Whatever the draw order, a target pixel that exactly one placed sprite covers shows that
      sprite's pixel: the unspecified HashMap order matters only where sprites overlap. */
  lemma {:induction false} SoleCoverWins(dst: seq<Pixel>, tw: nat, th: nat, order: seq<EntityId>,
                                          sprites: map<EntityId, Sprite>, positions: map<EntityId, Position>,
                                          e: EntityId, tx: int, ty: int)
    requires Shape(|dst|, tw, th) && PlacedDrawable(sprites, positions)
    requires 0 <= tx < tw && 0 <= ty < th
    requires e in order && e in sprites && e in positions
    requires Covers(Layer(positions[e], sprites[e]), tx, ty)
    requires forall d :: d in sprites && d in positions && d != e ==> !Covers(Layer(positions[d], sprites[d]), tx, ty)
    ensures 0 <= ty * tw + tx < |dst|
    ensures AllDrawable(DbLayers(order, sprites, positions))
    ensures var l := Layer(positions[e], sprites[e]);
      ComposeAll(dst, tw, DbLayers(order, sprites, positions))[ty * tw + tx] ==
        PixelAt(l.sprite, tx - OriginX(l), ty - OriginY(l))
    decreases |order|
  {
    CellIndex(tw, th, tx, ty);
    DbLayersDrawable(order, sprites, positions);
    var init, last := order[..|order| - 1], order[|order| - 1];
    var below := DbLayers(init, sprites, positions);
    DbLayersDrawable(init, sprites, positions);
    if last in sprites && last in positions {
      var l := Layer(positions[last], sprites[last]);
      assert DbLayers(order, sprites, positions) == below + [l];
      ComposeAllSnoc(dst, tw, below, l);
      CompositeAt(ComposeAll(dst, tw, below), tw, th, l, tx, ty);
    } else {
      assert DbLayers(order, sprites, positions) == below;
    }
    if last != e {
      assert e in init;
      SoleCoverWins(dst, tw, th, init, sprites, positions, e, tx, ty);
    }
  }

  /** The component database of src/lib.rs. Instants and durations are whole clock ticks. */
  class ComponentDatabase {
    var startTime: nat
    var lastFrame: nat
    var thisFrame: nat
    var deltaTime: nat
    var totalTime: nat
    var positions: map<EntityId, Position>
    var sprites: map<EntityId, Sprite>
    /** RenderTarget is a marker without data, so its map is a set of entity ids. */
    var renderTargets: set<EntityId>
    var wobbleMove: map<EntityId, WobbleMove>

    /** Every sprite is well formed. */
    predicate Valid()
      reads this
    {
      forall e :: e in sprites ==> sprites[e].Valid()
    }

    /** The timing fields. */
    function Time(): TimeResources
      reads this
    {
      TimeResources(startTime, lastFrame, thisFrame, deltaTime, totalTime)
    }

    /** The database as start() creates it, with `now` the clock reading: all three instants
        are `now`, both durations zero, and every map empty. */
    constructor (now: nat)
      ensures Valid()
      ensures Time() == TimeResources(now, now, now, 0, 0)
      ensures positions == map[] && sprites == map[] && renderTargets == {} && wobbleMove == map[]
    {
      startTime, lastFrame, thisFrame := now, now, now;
      deltaTime, totalTime := 0, 0;
      positions, sprites, renderTargets, wobbleMove := map[], map[], {}, map[];
    }

    /** Every render target has a sprite, whichever of them the lookup returns. */
    predicate TargetsHaveSprites()
      reads this
    {
      forall e :: e in renderTargets ==> e in sprites
    }

    /** sys_time_resources: the timing step with clock reading `now`; the maps are untouched. */
    method SysTimeResources(now: nat)
      requires LaterReading(Time(), now)
      modifies this
      ensures Time() == Tick(old(Time()), now)
      ensures positions == old(positions) && sprites == old(sprites)
      ensures renderTargets == old(renderTargets) && wobbleMove == old(wobbleMove)
    {
      lastFrame := thisFrame;
      thisFrame := now;
      deltaTime := thisFrame - lastFrame;
      totalTime := thisFrame - startTime;
    }

    /** sys_clear_render_target: fill the sprite of a render target with 0. Without a render
        target, or when it has no sprite, nothing happens. `chosen` is the render target the
        lookup returned. */
    method SysClearRenderTarget() returns (ghost chosen: Option<EntityId>)
      requires Valid()
      modifies this
      ensures Valid()
      ensures chosen.None? <==> renderTargets == {}
      ensures chosen.Some? ==> chosen.value in renderTargets
      ensures sprites == if chosen.Some? then Cleared(old(sprites), chosen.value) else old(sprites)
      ensures positions == old(positions) && renderTargets == old(renderTargets)
      ensures wobbleMove == old(wobbleMove) && Time() == old(Time())
    {
      chosen := None;
      if renderTargets == {} {
        return;
      }
      var rt :| rt in renderTargets;
      chosen := Some(rt);
      if rt in sprites {
        sprites := sprites[rt := Filled(sprites[rt], 0)];
      }
    }

    /** sys_wobble_move: when there is a render target, every entity with a WobbleMove and a
        Position gets x = width / 2 + offset(total_time, amplitude), where width is that render
        target's sprite width; indexing the sprite map panics when it has no sprite. */
    method SysWobbleMove(offset: (nat, real) -> WobbleOffset) returns (ghost chosen: Option<EntityId>)
      requires Valid() && TargetsHaveSprites()
      modifies this
      ensures sprites == old(sprites) && renderTargets == old(renderTargets)
      ensures wobbleMove == old(wobbleMove) && Time() == old(Time())
      ensures Valid() && TargetsHaveSprites()
      ensures chosen.None? <==> renderTargets == {}
      ensures chosen.None? ==> positions == old(positions)
      ensures chosen.Some? ==> && chosen.value in renderTargets
                               && positions == MovedOn(old(positions), wobbleMove, wobbleMove.Keys,
                                                       sprites[chosen.value].width / 2, totalTime, offset)
    {
      chosen := None;
      if renderTargets == {} {
        return;
      }
      var rt :| rt in renderTargets;
      chosen := Some(rt);
      positions := MovePositions(positions, wobbleMove, sprites[rt].width / 2, totalTime, offset);
    }

    /** The loop of sys_draw_sprites: draw every sprite that has a position onto the pixels
        of `target`, in the map's iteration order `order`. */
    method DrawOnto(target: Sprite) returns (drawn: seq<Pixel>, ghost order: seq<EntityId>)
      requires target.Valid() && PlacedDrawable(sprites, positions)
      ensures Enumerates(order, sprites.Keys)
      ensures AllDrawable(DbLayers(order, sprites, positions))
      ensures drawn == ComposeAll(target.data, target.width, DbLayers(order, sprites, positions))
    {
      var buffer := new Pixel[|target.data|](i requires 0 <= i < |target.data| => target.data[i]);
      assert buffer[..] == target.data;
      var todo := sprites.Keys;
      order := [];
      while todo != {}
        invariant todo <= sprites.Keys
        invariant forall i, j :: 0 <= i < j < |order| ==> order[i] != order[j]
        invariant forall e :: e in order ==> e in sprites && e !in todo
        invariant forall e :: e in sprites ==> e in order || e in todo
        invariant AllDrawable(DbLayers(order, sprites, positions))
        invariant buffer[..] == ComposeAll(target.data, target.width, DbLayers(order, sprites, positions))
        decreases |todo|
      {
        var e :| e in todo;
        ghost var next := order + [e];
        ghost var below := DbLayers(order, sprites, positions);
        assert next[..|order|] == order;
        if e in positions {
          ghost var l := Layer(positions[e], sprites[e]);
          assert DbLayers(next, sprites, positions) == below + [l];
          ComposeAllSnoc(target.data, target.width, below, l);
          DrawSprite(buffer, target.width, target.height, positions[e], sprites[e]);
        } else {
          assert DbLayers(next, sprites, positions) == below;
        }
        order := next;
        todo := todo - {e};
      }
      drawn := buffer[..];
    }

    /** sys_draw_sprites: take a render target's sprite out of the sprite map, draw every other
        sprite that has a position onto it, and insert it back under the same id. Without a
        render target, or when it has no sprite, it returns having changed nothing. */
    method SysDrawSprites() returns (ghost chosen: Option<EntityId>, ghost order: seq<EntityId>)
      requires Valid() && PlacedDrawable(sprites, positions)
      modifies this
      ensures positions == old(positions) && renderTargets == old(renderTargets)
      ensures wobbleMove == old(wobbleMove) && Time() == old(Time())
      ensures Valid()
      ensures chosen.None? <==> renderTargets == {}
      ensures chosen.Some? ==> chosen.value in renderTargets
      ensures sprites.Keys == old(sprites).Keys
      ensures chosen.None? || chosen.value !in sprites ==> sprites == old(sprites)
      ensures chosen.Some? && chosen.value in sprites ==>
        var rt := chosen.value;
        var target := old(sprites)[rt];
        var others := old(sprites) - {rt};
        && Enumerates(order, others.Keys)
        && AllDrawable(DbLayers(order, others, positions))
        && sprites == old(sprites)[rt := target.(data := ComposeAll(target.data, target.width,
                                                                     DbLayers(order, others, positions)))]
    {
      chosen, order := None, [];
      var rtEntity;
      if renderTargets == {} {
        return;
      }
      rtEntity :| rtEntity in renderTargets;
      chosen := Some(rtEntity);
      if rtEntity !in sprites {
        return;
      }
      var target := sprites[rtEntity];
      sprites := sprites - {rtEntity};
      var drawn;
      drawn, order := DrawOnto(target);
      sprites := sprites[rtEntity := target.(data := drawn)];
    }
  }
}
