# A verified model of a small entity-component engine

The engine keeps game state as entities made of components (Position, Sprite,
RenderTarget, WobbleMove and the frame timing). Each frame it runs four systems in turn:
clear the render target, advance the clock, move the wobbling entities, and draw every
placed sprite onto the render target. At the centre is `draw_sprite`, an anchored and
clipped opaque copy of one pixel buffer onto another.

The repository has two variants of the engine, and both are modelled:

- **src/entity.rs with src/main.rs.** A `Vec` of entities, each a type-keyed store with at
  most one value per component kind. A separate resources entity holds the timing.
- **src/lib.rs.** One `ComponentDatabase` with the timing fields and a `HashMap` per
  component kind, keyed by `u32` entity ids.

Modules:

- `Components` (components.dfy): the component values shared by both variants, the clock
  step and its accumulation over many frames, and the RGB to ARGB pixel packing.
- `Compositor` (compositor.dfy): `draw_sprite` as a nested-loop method over an
  `array<bv32>`. It is proved against `Composite`, a pixel-by-pixel specification. On top
  of that are lemmas about one layer and about a stack of layers drawn in order
  (`ComposeAll`). The method is the same for both variants: src/main.rs:241-270 and
  src/lib.rs:172-201 are the same code.
- `EntityStore` (entity.dfy): the entity of src/entity.rs. It is a class over
  `map<Kind, Component>`, and its invariant says every value has its key's kind. That
  invariant is why the downcasts never fail.
- `EntitySystems` (entity_systems.dfy): the systems of src/main.rs over a `seq<Entity>`.
  Each is specified by a function over the entities' stores (`ClearedStores`,
  `WobbledStores`, `DrawnStores`).
- `Database` (database_systems.dfy): the `ComponentDatabase` class of src/lib.rs and its
  systems. A `HashMap`'s iteration order is unspecified, so the model does not fix two
  things: which render target `.iter().next()` returns, and the order sprites are drawn
  in. Each is a choice, returned as a ghost result, and the contracts hold whatever it is.
  `SoleCoverWins` shows that the draw order matters only where sprites overlap.

Two consequences of the code worth stating:

- A 4×4 sprite whose origin is (318, 178) on a 320×180 target has all four in-bounds
  pixels (318..319, 178..179) written by the copy loop (src/main.rs:255-266); `CompositeAt`
  states this for every pixel.
- The wobble offset is truncated by `as i32` (src/main.rs:236, src/lib.rs:165), not rounded;
  the model takes the truncated value as an input.

## Model

| member | source | states |
|---|---|---|
| Components.Filled | src/main.rs:175 | `Vec::fill`: every pixel of the result is the fill colour; size, anchors and validity are kept |
| Components.Tick | src/main.rs:157-167 | the timing step: start is kept, last becomes the old current instant, current becomes `now`, and last + delta = current and start + total = current |
| Components.TicksAccumulate | src/main.rs:157-167 | over any run of frames with monotone clock readings: start never moves, frame instants never go back, the last total is the time since start, and the deltas add up to the time elapsed |
| Components.PackRgb | src/main.rs:100-105 | the packed pixel is fully opaque (alpha 0xff) and unpacks to the same red, green and blue |
| Compositor.CompositeAt | src/main.rs:255-266 | after drawing, a target pixel inside the translated sprite rectangle holds the sprite pixel at the same offset from the origin; every other target pixel keeps its value |
| Compositor.CulledLeavesTarget | src/main.rs:245-251 | a sprite that fails the cull test covers no target pixel, so culling it early changes nothing |
| Compositor.CompositeIdempotent | src/main.rs:265-266 | drawing the same sprite at the same place twice gives the buffer of drawing it once |
| Compositor.DrawSprite | src/main.rs:241-270 | the buffer after the clipped copy is `Composite` of the old buffer; a culled sprite leaves it unchanged; only the buffer's contents are written (src/lib.rs:172-201 is the same code) |
| Compositor.UncoveredUnchanged | src/main.rs:196-203 | drawing a stack of sprites leaves a target pixel that none of them covers unchanged |
| Compositor.TopmostWins | src/main.rs:196-203 | in a stack of sprites drawn in order, a target pixel shows the pixel of the last sprite that covers it |
| EntityStore.Added | src/entity.rs:19-21 | after adding c, c is stored under its kind; the keys gain that kind; every other kind keeps its value |
| EntityStore.Removed | src/entity.rs:44-49 | after removing kind k, k is absent, the keys lose k, and every other kind keeps its value |
| EntityStore.AddedWellTyped | src/entity.rs:20 | adding keeps every stored value of its key's kind |
| EntityStore.RemoveAfterAdd | src/entity.rs:19-49 | removing a kind right after adding it gives the store without that kind, and exactly the old store when the kind was new |
| EntityStore.AddAfterRemove | src/entity.rs:44-49 | adding back the value just removed restores the store |
| EntityStore.Entity.constructor | src/entity.rs:13-17 | a new entity has no components |
| EntityStore.Entity.AddComponent | src/entity.rs:19-21 | the store becomes `Added(old store, c)`: the value is stored under its kind, a previous one silently replaced, and the invariant is kept |
| EntityStore.Entity.HasComponent | src/entity.rs:40-42 | read-only; true exactly when a value of kind k is stored, and then, in a valid store, that value is of kind k |
| EntityStore.Entity.GetComponent | src/entity.rs:24-30 | panics (is required away) when absent; otherwise returns the stored value, which is of the requested kind, so the downcast succeeds |
| EntityStore.Entity.TryGetComponent | src/main.rs:197-199 | the Option-returning lookup is Some exactly when the kind is present, and then holds the stored value, of that kind |
| EntityStore.Entity.UpdateComponent | src/entity.rs:32-38 | writing through `get_component_mut` replaces the stored value of c's kind, which must be present; every other kind is kept |
| EntityStore.Entity.RemoveComponent | src/entity.rs:44-49 | panics (is required away) when absent; otherwise returns the stored value, of the requested kind, and leaves `Removed(old store, k)` |
| EntitySystems.FirstWith | src/main.rs:143-144 | the index found holds the kind and no earlier entity does; None means no entity holds it |
| EntitySystems.FirstWithSameKeys | src/main.rs:143-144 | the lookup depends only on which entities hold the kind |
| EntitySystems.FindEntityWithComponent | src/main.rs:143-144 | the linear search returns the index of the first entity holding the kind, or None |
| EntitySystems.ClearBlacksTarget | src/main.rs:169-181 | clearing sets every pixel of the first render target's Sprite to 0xff000000 and keeps its size; no other component of any entity changes |
| EntitySystems.SysClearRenderTarget | src/main.rs:169-181 | the stores become `ClearedStores` of the old stores; the render target and its Sprite must exist, otherwise the program panics |
| EntitySystems.SysTimeResources | src/main.rs:157-167 | the resources entity's TimeResources becomes `Tick(old, now)`; its other components are kept |
| EntitySystems.WobbleMovesOnlyX | src/main.rs:228-238 | the wobble step keeps every entity's kinds and every y, changes no component but Position, and leaves entities without a WobbleMove alone |
| EntitySystems.WobbleEntity | src/main.rs:229-237 | an entity with both WobbleMove and Position gets x = half + offset; any other entity is unchanged |
| EntitySystems.WobbleAll | src/main.rs:228-238 | the loop applies the wobble step to every entity of the Vec and to nothing else |
| EntitySystems.SysWobbleMove | src/main.rs:213-239 | the stores become `WobbledStores` of the old stores: nothing moves without a render target; otherwise half is half the render target's Sprite width and the offset is taken at the resources' total time |
| EntitySystems.DrawReinsertsTarget | src/main.rs:187-210 | after drawing, every entity has the same kinds, so the render target carries its Sprite again; only the render target's pixel buffer changes, and it keeps its size |
| EntitySystems.TakeTarget | src/main.rs:187-194 | removing the render target's Sprite keeps the stores well formed and the render target the same, and the draw step is that removal followed by drawing the remaining layers onto the Sprite |
| EntitySystems.DrawSkipsOwnSprite | src/main.rs:187-203 | the render target's own Sprite is not drawn onto itself: the layers drawn are those of the entities before it and after it, in Vec order |
| EntitySystems.DrawEntity | src/main.rs:197-202 | one loop step: an entity with a Sprite and a Position has its sprite drawn on top of what the earlier entities made; other entities are skipped |
| EntitySystems.DrawEntities | src/main.rs:196-203 | the target's pixels become the layers of all entities with a Sprite and a Position, drawn in Vec order |
| EntitySystems.TakeTargetSprite | src/main.rs:187-194 | with no render target nothing changes; otherwise it returns the first render target's Sprite and removes just that component |
| EntitySystems.PutBackTargetSprite | src/main.rs:205-210 | the Sprite is added back to the first render target, if there is one; nothing else changes |
| EntitySystems.SysDrawSprites | src/main.rs:184-211 | the stores become `DrawnStores` of the old stores and every entity stays valid |
| Database.Cleared | src/lib.rs:134-140 | clearing keeps the sprite keys, leaves other sprites alone, and gives the render target's sprite all-zero pixels and its old size |
| Database.MovePositions | src/lib.rs:163-167 | the loop over the WobbleMove map gives `MovedOn` with every WobbleMove entity done |
| Database.WobbleMovesOnlyX | src/lib.rs:163-167 | the wobble step keeps the position keys and every y, moves only entities with a WobbleMove, and sets their x to half + offset |
| Database.SoleCoverWins | src/lib.rs:148-151 | in any draw order, a target pixel covered by exactly one placed sprite shows that sprite's pixel |
| Database.ComponentDatabase.constructor | src/lib.rs:8-18 | the new database has all three instants equal to the clock reading, both durations zero, and every map empty |
| Database.ComponentDatabase.SysTimeResources | src/lib.rs:95-101 | the timing fields become `Tick(old, now)`; every map is unchanged |
| Database.ComponentDatabase.SysClearRenderTarget | src/lib.rs:134-140 | the chosen render target's sprite is cleared to 0; with no render target, or one without a sprite, nothing changes; nothing but `sprites` changes |
| Database.ComponentDatabase.SysWobbleMove | src/lib.rs:157-168 | with no render target the positions are unchanged; otherwise they become `MovedOn` for all WobbleMove entities, with half of the chosen render target's sprite width; no other field changes |
| Database.ComponentDatabase.DrawOnto | src/lib.rs:148-151 | the order enumerates the sprite keys exactly once, and the result draws, in that order, every sprite that has a position onto the target |
| Database.ComponentDatabase.SysDrawSprites | src/lib.rs:142-155 | the sprite keys are kept; nothing changes without a render target or its sprite; otherwise the render target's sprite gets the other placed sprites drawn on it in the map's order; positions, render targets, wobble moves and timing are untouched |

## Left out

- The window, the image decoding and the `start()` frame loops (src/main.rs:45-155, src/lib.rs:6-93) are I/O and calls into foreign libraries. They are not part of this model. The pixel packing inside the loader is modelled as `PackRgb`.
- The clock: instants and durations are whole numbers of ticks, and each `Instant::now()` reading is a parameter `now`, required to be no earlier than the current and start instants. Database.ComponentDatabase.constructor takes one reading for all three instants, where src/lib.rs:9-11 reads the clock three times.
- `sin`, `f32` and `as_secs_f32`: the truncated value `(sin(total_time) * amplitude) as i32` is an oracle `offset(total, amplitude)`, bounded by 2^30 so that adding half the width cannot overflow i32.
- i32 overflow: the `u32 as i32` casts and the anchored-position arithmetic of `draw_sprite` are required not to overflow (`Sprite.Valid`, `Drawable`); wrap-around is not modelled.
- Type erasure: `TypeId`, `Box<dyn Any>` and the downcasts are replaced by the closed datatype `Component`. The invariant `Valid()` is what guarantees that a downcast would succeed.
- src/main.rs calls `find_entity_with_component(_mut)` finders and Option-returning accessors that src/entity.rs does not define. The finders are modelled as the first entity in Vec order holding the kind (src/main.rs:143-144), and the accessors as `TryGetComponent`. The panicking accessors of src/entity.rs are `GetComponent` and `UpdateComponent`.
- Database.ComponentDatabase.SysWobbleMove requires every render target to have a sprite, where src/lib.rs:159 panics only when the one it picks has none, because the model does not fix which one is picked.
- `HashMap` iteration order: which render target `.iter().next()` picks, and the draw order, are unspecified choices reported as ghost results. No contract depends on them beyond what holds for every choice.
- Database.MovePositions and Compositor.DrawSprite work on a local copy (a map value, and an array copied from and back to the sprite's `Vec`) rather than updating the `HashMap` entry or the `Vec` in place. The contents written are the same.
- EntitySystems.SysDrawSprites is split into `TakeTargetSprite`, `DrawEntities` and `PutBackTargetSprite`, following the three phases of src/main.rs:184-211.
- The systems' panics (a missing render target in `sys_clear_render_target`, a render target without a Sprite, resources without TimeResources) are preconditions of the methods that model them.
