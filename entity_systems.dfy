/** The per-frame systems of src/main.rs. They run over a resources entity holding the
    TimeResources and a Vec of entities, each entity a type-keyed component store. */
module EntitySystems {
  import opened Components
  import opened Compositor
  import opened EntityStore

  /** The component store of one entity. */
  type Store = map<Kind, Component>

  /** The stores of a list of entities, in order. */
  function States(es: seq<Entity>): (r: seq<Store>)
    reads es
    ensures |r| == |es|
    ensures forall i :: 0 <= i < |es| ==> r[i] == es[i].components
  {
    seq(|es|, i requires 0 <= i < |es| reads es => es[i].components)
  }

  /** The Vec owns its entities: no entity appears twice. */
  predicate Distinct(es: seq<Entity>) {
    forall i, j :: 0 <= i < j < |es| ==> es[i] != es[j]
  }

  /** Every entity is a valid store. */
  predicate AllValid(es: seq<Entity>)
    reads es
  {
    forall i :: 0 <= i < |es| ==> es[i].Valid()
  }

  /** When every entity other than the t-th still has the store it had in `before`, the
      stores are `before` with the t-th replaced: distinct entities cannot share a store. */
  lemma OnlyStoreChanged(es: seq<Entity>, before: seq<Store>, t: nat)
    requires Distinct(es) && t < |es| == |before|
    requires forall j :: 0 <= j < |es| && es[j] != es[t] ==> es[j].components == before[j]
    ensures States(es) == before[t := es[t].components]
  {
    forall j | 0 <= j < |es| && j != t ensures es[j].components == before[j] {
      assert es[j] != es[t];
    }
  }

  /** Entities are valid exactly when their stores are well typed. */
  lemma ValidStores(es: seq<Entity>)
    requires forall j :: 0 <= j < |es| ==> WellTyped(States(es)[j])
    ensures AllValid(es)
  {
    forall j | 0 <= j < |es| ensures es[j].Valid() {
      assert WellTyped(States(es)[j]);
    }
  }

  /** Every store is well typed, every sprite is well formed, and every sprite that has a
      position can be drawn at it without i32 overflow. */
  predicate WellFormed(ms: seq<Store>) {
    forall j :: 0 <= j < |ms| ==>
      && WellTyped(ms[j])
      && (SpriteKind in ms[j] ==> ms[j][SpriteKind].sprite.Valid())
      && (SpriteKind in ms[j] && PositionKind in ms[j] ==>
            Drawable(Layer(ms[j][PositionKind].pos, ms[j][SpriteKind].sprite)))
  }

  /** The index of the first store holding kind k, as the finder over the Vec returns it. */
  function FirstWith(ms: seq<Store>, k: Kind): (r: Option<nat>)
    ensures r.Some? ==> r.value < |ms| && k in ms[r.value]
    ensures r.Some? ==> forall j :: 0 <= j < r.value ==> k !in ms[j]
    ensures r.None? ==> forall j :: 0 <= j < |ms| ==> k !in ms[j]
    decreases |ms|
  {
    if ms == [] then None
    else if k in ms[0] then Some(0)
    else match FirstWith(ms[1..], k)
      case None => None
      case Some(i) => Some(i + 1)
  }

  /** The finder depends only on which stores hold the kind. */
  lemma FirstWithSameKeys(a: seq<Store>, b: seq<Store>, k: Kind)
    requires |a| == |b| && forall j :: 0 <= j < |a| ==> (k in a[j] <==> k in b[j])
    ensures FirstWith(a, k) == FirstWith(b, k)
  {
  }

  /** `entities.iter().find(|e| e.has_component::<K>())`: the first entity having kind k. */
  method FindEntityWithComponent(entities: seq<Entity>, k: Kind) returns (r: Option<nat>)
    ensures r == FirstWith(States(entities), k)
  {
    var i := 0;
    while i < |entities|
      invariant 0 <= i <= |entities|
      invariant forall j :: 0 <= j < i ==> k !in entities[j].components
    {
      if entities[i].HasComponent(k) {
        return Some(i);
      }
      i := i + 1;
    }
    return None;
  }

  /** When there is a render target, the first one has a Sprite. */
  predicate RenderTargetHasSprite(ms: seq<Store>) {
    match FirstWith(ms, RenderTargetKind)
    case Some(t) => SpriteKind in ms[t]
    case None => true
  }

  /** The stores after clearing the render target's buffer to opaque black. */
  function ClearedStores(ms: seq<Store>): (r: seq<Store>)
    requires WellFormed(ms) && RenderTargetHasSprite(ms)
    requires FirstWith(ms, RenderTargetKind).Some?
  {
    var t := FirstWith(ms, RenderTargetKind).value;
    ms[t := ms[t][SpriteKind := Spr(Filled(ms[t][SpriteKind].sprite, 0xff00_0000))]]
  }

  /** Clearing paints every pixel of the render target's buffer opaque black and keeps its
      size; no other component of any entity changes. */
  lemma ClearBlacksTarget(ms: seq<Store>)
    requires WellFormed(ms) && RenderTargetHasSprite(ms)
    requires FirstWith(ms, RenderTargetKind).Some?
    ensures var r, t := ClearedStores(ms), FirstWith(ms, RenderTargetKind).value;
      && WellFormed(r) && |r| == |ms|
      && r[t].Keys == ms[t].Keys
      && (forall k :: k in ms[t] && k != SpriteKind ==> r[t][k] == ms[t][k])
      && (forall j :: 0 <= j < |ms| && j != t ==> r[j] == ms[j])
      && var before, after := ms[t][SpriteKind].sprite, r[t][SpriteKind].sprite;
      && after.width == before.width && after.height == before.height
      && |after.data| == |before.data|
      && (forall i :: 0 <= i < |after.data| ==> after.data[i] == 0xff00_0000)
  {
    var r, t := ClearedStores(ms), FirstWith(ms, RenderTargetKind).value;
    forall j | 0 <= j < |r| ensures WellTyped(r[j]) && (SpriteKind in r[j] ==> r[j][SpriteKind].sprite.Valid()) {
      if j == t {
        assert r[j][SpriteKind].sprite == Filled(ms[t][SpriteKind].sprite, 0xff00_0000);
      }
    }
  }

  /** sys_clear_render_target: fill the first render target's sprite buffer with opaque black.
      It panics when there is no render target or the render target has no Sprite. */
  method SysClearRenderTarget(entities: seq<Entity>)
    requires Distinct(entities) && AllValid(entities) && WellFormed(States(entities))
    requires FirstWith(States(entities), RenderTargetKind).Some?
    requires RenderTargetHasSprite(States(entities))
    modifies entities
    ensures AllValid(entities)
    ensures States(entities) == ClearedStores(old(States(entities)))
  {
    var found := FindEntityWithComponent(entities, RenderTargetKind);
    var e := entities[found.value];
    var sprite := e.TryGetComponent(SpriteKind);
    e.UpdateComponent(Spr(Filled(sprite.value.sprite, 0xff00_0000)));
  }

  /** sys_time_resources: the timing step on the resources entity's TimeResources, with `now`
      the clock reading. It panics when the resources entity has no TimeResources. */
  method SysTimeResources(resources: Entity, now: nat)
    requires resources.Valid() && resources.HasComponent(TimeResourcesKind)
    requires LaterReading(resources.components[TimeResourcesKind].time, now)
    modifies resources
    ensures resources.Valid()
    ensures resources.components ==
      old(resources.components)[TimeResourcesKind :=
        Time(Tick(old(resources.components[TimeResourcesKind].time), now))]
  {
    var t := resources.GetComponent(TimeResourcesKind).time;
    t := t.(lastFrame := t.thisFrame);
    t := t.(thisFrame := now);
    t := t.(deltaTime := t.thisFrame - t.lastFrame);
    t := t.(totalTime := t.thisFrame - t.startTime);
    resources.UpdateComponent(Time(t));
  }

  /** The store after the wobble step: an entity with both WobbleMove and Position moves to
      x = half + offset(total, amplitude); anything else is left as it is. */
  function Wobbled(m: Store, half: int, total: nat, offset: (nat, real) -> WobbleOffset): (r: Store)
    requires WellTyped(m) && 0 <= half < 0x4000_0000
  {
    if WobbleMoveKind in m && PositionKind in m then
      var p := m[PositionKind].pos;
      m[PositionKind := Pos(p.(x := half + offset(total, m[WobbleMoveKind].wobble.amplitude)))]
    else m
  }

  /** The stores after the wobble step: without a render target nothing moves; otherwise
      `half` is half the render target's width and `total` the total time of `res`. */
  function WobbledStores(ms: seq<Store>, res: Store, offset: (nat, real) -> WobbleOffset): (r: seq<Store>)
    requires WellFormed(ms) && RenderTargetHasSprite(ms) && WellTyped(res)
    requires FirstWith(ms, RenderTargetKind).Some? ==> TimeResourcesKind in res
    ensures |r| == |ms|
  {
    match FirstWith(ms, RenderTargetKind)
    case None => ms
    case Some(t) =>
      var half := ms[t][SpriteKind].sprite.width / 2;
      var total := res[TimeResourcesKind].time.totalTime;
      seq(|ms|, j requires 0 <= j < |ms| => Wobbled(ms[j], half, total, offset))
  }

  /** The stores part way through the wobble loop: the first i are moved, the rest not yet. */
  function WobbledUpTo(ms: seq<Store>, i: nat, half: int, total: nat, offset: (nat, real) -> WobbleOffset): (r: seq<Store>)
    requires forall j :: 0 <= j < |ms| ==> WellTyped(ms[j])
    requires 0 <= half < 0x4000_0000
    ensures |r| == |ms|
  {
    seq(|ms|, j requires 0 <= j < |ms| => if j < i then Wobbled(ms[j], half, total, offset) else ms[j])
  }

  /** The wobble step moves only horizontally: every entity keeps its kinds, every y stays,
      every component other than Position stays, and only entities with a WobbleMove move. */
  lemma WobbleMovesOnlyX(ms: seq<Store>, res: Store, offset: (nat, real) -> WobbleOffset)
    requires WellFormed(ms) && RenderTargetHasSprite(ms) && WellTyped(res)
    requires FirstWith(ms, RenderTargetKind).Some? ==> TimeResourcesKind in res
    ensures var r := WobbledStores(ms, res, offset);
      forall j :: 0 <= j < |ms| ==>
        && r[j].Keys == ms[j].Keys && WellTyped(r[j])
        && (forall k :: k in ms[j] && k != PositionKind ==> r[j][k] == ms[j][k])
        && (PositionKind in ms[j] ==> r[j][PositionKind].pos.y == ms[j][PositionKind].pos.y)
        && (WobbleMoveKind !in ms[j] ==> r[j] == ms[j])
  {
  }

  /** The loop body of sys_wobble_move for one entity: with both a WobbleMove and a
      Position its x becomes half + offset(total, amplitude); otherwise it is left alone. */
  method WobbleEntity(e: Entity, half: int, total: nat, offset: (nat, real) -> WobbleOffset)
    requires e.Valid() && 0 <= half < 0x4000_0000
    modifies e
    ensures e.Valid()
    ensures e.components == Wobbled(old(e.components), half, total, offset)
  {
    var wobble := e.TryGetComponent(WobbleMoveKind);
    var pos := e.TryGetComponent(PositionKind);
    if wobble.Some? && pos.Some? {
      var p := pos.value.pos;
      e.UpdateComponent(Pos(p.(x := half + offset(total, wobble.value.wobble.amplitude))));
    }
  }

  /** The loop of sys_wobble_move: apply the wobble step to every entity, in Vec order. */
  method WobbleAll(entities: seq<Entity>, half: int, total: nat, offset: (nat, real) -> WobbleOffset)
    requires Distinct(entities) && AllValid(entities) && 0 <= half < 0x4000_0000
    modifies entities
    ensures AllValid(entities)
    ensures States(entities) == WobbledUpTo(old(States(entities)), |entities|, half, total, offset)
  {
    ghost var ms := States(entities);
    var i := 0;
    while i < |entities|
      invariant 0 <= i <= |entities| && AllValid(entities)
      invariant States(entities) == WobbledUpTo(ms, i, half, total, offset)
    {
      ghost var before := States(entities);
      ghost var next := Wobbled(ms[i], half, total, offset);
      assert before[i] == ms[i];
      WobbleEntity(entities[i], half, total, offset);
      OnlyStoreChanged(entities, before, i);
      ValidStores(entities);
      assert WobbledUpTo(ms, i + 1, half, total, offset)
        == WobbledUpTo(ms, i, half, total, offset)[i := next];
      i := i + 1;
    }
  }

  /** sys_wobble_move: when a render target exists, every entity with a WobbleMove and a
      Position gets x = width / 2 + offset(total_time, amplitude). It panics when the render
      target has no Sprite or the resources entity has no TimeResources. */
  method SysWobbleMove(resources: Entity, entities: seq<Entity>, offset: (nat, real) -> WobbleOffset)
    requires resources !in entities && resources.Valid()
    requires Distinct(entities) && AllValid(entities) && WellFormed(States(entities)) && RenderTargetHasSprite(States(entities))
    requires FirstWith(States(entities), RenderTargetKind).Some? ==> resources.HasComponent(TimeResourcesKind)
    modifies entities
    ensures AllValid(entities)
    ensures States(entities) == WobbledStores(old(States(entities)), resources.components, offset)
  {
    ghost var ms := States(entities);
    var found := FindEntityWithComponent(entities, RenderTargetKind);
    if found.None? {
      return;
    }
    var width := entities[found.value].GetComponent(SpriteKind).sprite.width;
    var total := resources.GetComponent(TimeResourcesKind).time.totalTime;
    WobbleAll(entities, width / 2, total, offset);
    assert WobbledStores(ms, resources.components, offset) == WobbledUpTo(ms, |ms|, width / 2, total, offset);
  }

  /** The layer an entity contributes to drawing: its sprite at its position, when it has both. */
  function LayerOf(m: Store): seq<Layer> {
    if SpriteKind in m && PositionKind in m && m[SpriteKind].Spr? && m[PositionKind].Pos?
    then [Layer(m[PositionKind].pos, m[SpriteKind].sprite)]
    else []
  }

  /** The layers of a list of stores, in list order. */
  function Layers(ms: seq<Store>): seq<Layer>
    decreases |ms|
  {
    if ms == [] then [] else Layers(ms[..|ms| - 1]) + LayerOf(ms[|ms| - 1])
  }

  /** One more store adds its layer, if any, on top. */
  lemma LayersStep(ms: seq<Store>, i: nat)
    requires i < |ms|
    ensures Layers(ms[..i + 1]) == Layers(ms[..i]) + LayerOf(ms[i])
  {
    assert ms[..i + 1][..i] == ms[..i];
  }

  /** Every store's layer, if it has one, can be drawn. */
  predicate LayersOk(ms: seq<Store>) {
    forall j :: 0 <= j < |ms| ==> AllDrawable(LayerOf(ms[j]))
  }

  /** Well-formed stores have drawable layers. */
  lemma WellFormedLayersOk(ms: seq<Store>)
    requires WellFormed(ms)
    ensures LayersOk(ms)
  {
    forall j | 0 <= j < |ms| ensures AllDrawable(LayerOf(ms[j])) {
      assert WellTyped(ms[j]);
    }
  }

  /** Stores whose layers can each be drawn give layers that can all be drawn. */
  lemma {:induction false} LayersDrawable(ms: seq<Store>)
    requires LayersOk(ms)
    ensures AllDrawable(Layers(ms))
    decreases |ms|
  {
    if ms != [] {
      var init := ms[..|ms| - 1];
      assert LayersOk(init) by {
        forall j | 0 <= j < |init| ensures AllDrawable(LayerOf(init[j])) {
          assert init[j] == ms[j];
        }
      }
      LayersDrawable(init);
      assert AllDrawable(LayerOf(ms[|ms| - 1]));
    }
  }

  /** The layers of two lists one after the other are those of the first, then of the second. */
  lemma {:induction false} LayersAppend(a: seq<Store>, b: seq<Store>)
    ensures Layers(a + b) == Layers(a) + Layers(b)
    decreases |b|
  {
    if b == [] {
      assert a + b == a;
    } else {
      var b' := b[..|b| - 1];
      assert (a + b)[..|a + b| - 1] == a + b';
      assert (a + b)[|a + b| - 1] == b[|b| - 1];
      LayersAppend(a, b');
    }
  }

  /** The stores after the draw step: the first render target's sprite is taken out, every
      other entity with a Sprite and a Position is drawn onto it in Vec order, and it is put
      back under the same entity. Without a render target nothing changes. */
  function DrawnStores(ms: seq<Store>): (r: seq<Store>)
    requires WellFormed(ms) && RenderTargetHasSprite(ms)
    ensures |r| == |ms|
  {
    match FirstWith(ms, RenderTargetKind)
    case None => ms
    case Some(t) =>
      var target := ms[t][SpriteKind].sprite;
      var rest := ms[t := Removed(ms[t], SpriteKind)];
      assert WellFormed(rest);
      WellFormedLayersOk(rest);
      LayersDrawable(rest);
      var drawn := ComposeAll(target.data, target.width, Layers(rest));
      rest[t := Added(rest[t], Spr(target.(data := drawn)))]
  }

  /** The render target gets its Sprite back: every entity keeps the same kinds, nothing but the
      target's pixel buffer changes, and the buffer keeps its size. */
  lemma DrawReinsertsTarget(ms: seq<Store>)
    requires WellFormed(ms) && RenderTargetHasSprite(ms)
    ensures var r := DrawnStores(ms);
      && (forall j :: 0 <= j < |ms| ==> r[j].Keys == ms[j].Keys)
      && match FirstWith(ms, RenderTargetKind)
         case None => r == ms
         case Some(t) =>
           && (forall j :: 0 <= j < |ms| && j != t ==> r[j] == ms[j])
           && (forall k :: k in ms[t] && k != SpriteKind ==> r[t][k] == ms[t][k])
           && r[t][SpriteKind].Spr?
           && r[t][SpriteKind].sprite == ms[t][SpriteKind].sprite.(data := r[t][SpriteKind].sprite.data)
           && |r[t][SpriteKind].sprite.data| == |ms[t][SpriteKind].sprite.data|
  {
  }

  /** Taking the render target's Sprite out leaves well-formed stores with the same render
      target, and the draw step puts it back with those stores' layers drawn on it. */
  lemma TakeTarget(ms: seq<Store>, t: nat)
    requires WellFormed(ms) && RenderTargetHasSprite(ms)
    requires FirstWith(ms, RenderTargetKind) == Some(t)
    ensures var rest := ms[t := Removed(ms[t], SpriteKind)];
      && WellFormed(rest) && FirstWith(rest, RenderTargetKind) == Some(t)
      && AllDrawable(Layers(rest))
      && var target := ms[t][SpriteKind].sprite;
      DrawnStores(ms) ==
        rest[t := Added(rest[t], Spr(target.(data := ComposeAll(target.data, target.width, Layers(rest)))))]
  {
    var rest := ms[t := Removed(ms[t], SpriteKind)];
    FirstWithSameKeys(ms, rest, RenderTargetKind);
    assert WellFormed(rest);
    WellFormedLayersOk(rest);
    LayersDrawable(rest);
  }

  /** Replacing a store by one that contributes no layer leaves the layers of the stores
      before it followed by those after it. */
  lemma LayersWithout(ms: seq<Store>, t: nat, m: Store)
    requires t < |ms| && LayerOf(m) == []
    ensures Layers(ms[t := m]) == Layers(ms[..t]) + Layers(ms[t + 1..])
  {
    assert ms[t := m] == ms[..t] + [m] + ms[t + 1..];
    assert Layers([m]) == [] by {
      assert [m][..0] == [];
    }
    LayersAppend(ms[..t] + [m], ms[t + 1..]);
    LayersAppend(ms[..t], [m]);
  }

  /** The render target's own sprite is not drawn onto itself: the layers drawn are those of the
      entities before it and after it in the Vec, in that order. */
  lemma DrawSkipsOwnSprite(ms: seq<Store>, t: nat)
    requires WellFormed(ms) && RenderTargetHasSprite(ms)
    requires FirstWith(ms, RenderTargetKind) == Some(t)
    ensures AllDrawable(Layers(ms[..t]) + Layers(ms[t + 1..]))
    ensures var target := ms[t][SpriteKind].sprite;
      DrawnStores(ms)[t][SpriteKind].sprite.data ==
        ComposeAll(target.data, target.width, Layers(ms[..t]) + Layers(ms[t + 1..]))
  {
    var target := ms[t][SpriteKind].sprite;
    var rest := ms[t := Removed(ms[t], SpriteKind)];
    TakeTarget(ms, t);
    LayersWithout(ms, t, Removed(ms[t], SpriteKind));
    assert DrawnStores(ms)[t][SpriteKind].sprite.data ==
      ComposeAll(target.data, target.width, Layers(rest));
  }

  /** Drawing the stores up to and including the i-th is drawing the i-th store's layer,
      if it has one, onto what the stores before it made. */
  lemma LayersStepComposed(dst: seq<Pixel>, tw: nat, ms: seq<Store>, i: nat)
    requires i < |ms| && LayersOk(ms) && AllDrawable(Layers(ms[..i]))
    ensures AllDrawable(Layers(ms[..i + 1]))
    ensures LayerOf(ms[i]) == [] ==>
      ComposeAll(dst, tw, Layers(ms[..i + 1])) == ComposeAll(dst, tw, Layers(ms[..i]))
    ensures LayerOf(ms[i]) != [] ==> Drawable(LayerOf(ms[i])[0])
    ensures LayerOf(ms[i]) != [] ==>
      ComposeAll(dst, tw, Layers(ms[..i + 1])) == Composite(ComposeAll(dst, tw, Layers(ms[..i])), tw, LayerOf(ms[i])[0])
  {
    var below := Layers(ms[..i]);
    LayersStep(ms, i);
    if LayerOf(ms[i]) != [] {
      var l := LayerOf(ms[i])[0];
      assert LayerOf(ms[i]) == [l];
      assert Drawable(l);
      ComposeAllSnoc(dst, tw, below, l);
    } else {
      assert below + LayerOf(ms[i]) == below;
    }
  }

  /** The loop body of sys_draw_sprites for the i-th entity: when it has both a Sprite and a
      Position, its sprite is drawn onto `buffer` at its position. */
  method DrawEntity(buffer: array<Pixel>, tw: U32, th: U32, e: Entity,
                    ghost dst: seq<Pixel>, ghost ms: seq<Store>, ghost i: nat)
    requires Shape(buffer.Length, tw, th) && e.Valid()
    requires i < |ms| && e.components == ms[i] && LayersOk(ms) && AllDrawable(Layers(ms[..i]))
    requires buffer[..] == ComposeAll(dst, tw, Layers(ms[..i]))
    modifies buffer
    ensures AllDrawable(Layers(ms[..i + 1]))
    ensures buffer[..] == ComposeAll(dst, tw, Layers(ms[..i + 1]))
  {
    var sprite := e.TryGetComponent(SpriteKind);
    var pos := e.TryGetComponent(PositionKind);
    LayersStepComposed(dst, tw, ms, i);
    if sprite.Some? && pos.Some? {
      assert LayerOf(ms[i]) == [Layer(pos.value.pos, sprite.value.sprite)];
      DrawSprite(buffer, tw, th, pos.value.pos, sprite.value.sprite);
    }
  }

  /** The loop of sys_draw_sprites: draw, in Vec order, every entity having both a Sprite and a
      Position onto the pixels of `target`, returning the pixels drawn. */
  method DrawEntities(target: Sprite, entities: seq<Entity>) returns (drawn: seq<Pixel>)
    requires target.Valid()
    requires AllValid(entities) && LayersOk(States(entities))
    ensures AllDrawable(Layers(States(entities)))
    ensures drawn == ComposeAll(target.data, target.width, Layers(States(entities)))
  {
    ghost var ms := States(entities);
    var buffer := new Pixel[|target.data|](i requires 0 <= i < |target.data| => target.data[i]);
    assert buffer[..] == target.data;
    var i := 0;
    while i < |entities|
      invariant 0 <= i <= |entities| && States(entities) == ms
      invariant AllDrawable(Layers(ms[..i]))
      invariant buffer[..] == ComposeAll(target.data, target.width, Layers(ms[..i]))
    {
      DrawEntity(buffer, target.width, target.height, entities[i], target.data, ms, i);
      i := i + 1;
    }
    assert ms[..|entities|] == ms;
    drawn := buffer[..];
  }

  /** The first step of sys_draw_sprites: take the Sprite out of the first render target.
      Without a render target nothing happens; a render target without a Sprite panics. */
  method TakeTargetSprite(entities: seq<Entity>) returns (target: Option<Sprite>)
    requires Distinct(entities) && AllValid(entities)
    requires WellFormed(States(entities)) && RenderTargetHasSprite(States(entities))
    modifies entities
    ensures AllValid(entities)
    ensures var ms := old(States(entities));
      match FirstWith(ms, RenderTargetKind)
      case None => target.None? && States(entities) == ms
      case Some(t) =>
        && target == Some(ms[t][SpriteKind].sprite)
        && States(entities) == ms[t := Removed(ms[t], SpriteKind)]
  {
    ghost var ms := States(entities);
    var found := FindEntityWithComponent(entities, RenderTargetKind);
    if found.None? {
      return None;
    }
    var t := found.value;
    var taken := entities[t].RemoveComponent(SpriteKind);
    target := Some(taken.sprite);
    OnlyStoreChanged(entities, ms, t);
    TakeTarget(ms, t);
    ValidStores(entities);
  }

  /** The last step of sys_draw_sprites: add `target` back as the Sprite of the first render
      target, if there is one. */
  method PutBackTargetSprite(entities: seq<Entity>, target: Sprite)
    requires Distinct(entities) && AllValid(entities)
    modifies entities
    ensures AllValid(entities)
    ensures var ms := old(States(entities));
      match FirstWith(ms, RenderTargetKind)
      case None => States(entities) == ms
      case Some(t) => States(entities) == ms[t := Added(ms[t], Spr(target))]
  {
    ghost var ms := States(entities);
    var found := FindEntityWithComponent(entities, RenderTargetKind);
    if found.Some? {
      var t := found.value;
      entities[t].AddComponent(Spr(target));
      OnlyStoreChanged(entities, ms, t);
      forall j | 0 <= j < |entities| ensures WellTyped(States(entities)[j]) {
        if j != t {
          assert entities[j].Valid();
        }
      }
      ValidStores(entities);
    }
  }

  /** sys_draw_sprites: take the first render target's Sprite out of its entity, draw onto it
      every entity that has both a Sprite and a Position, in Vec order, and put it back.
      With no render target it returns at once; a render target without a Sprite panics. */
  method SysDrawSprites(entities: seq<Entity>)
    requires Distinct(entities) && AllValid(entities)
    requires WellFormed(States(entities)) && RenderTargetHasSprite(States(entities))
    modifies entities
    ensures AllValid(entities)
    ensures States(entities) == DrawnStores(old(States(entities)))
  {
    ghost var ms0 := States(entities);
    var target := TakeTargetSprite(entities);
    if target.None? {
      return;
    }
    ghost var t := FirstWith(ms0, RenderTargetKind).value;
    TakeTarget(ms0, t);
    ghost var ms := States(entities);
    WellFormedLayersOk(ms);
    var drawn := DrawEntities(target.value, entities);
    PutBackTargetSprite(entities, target.value.(data := drawn));
  }
}
