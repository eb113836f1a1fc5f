/** Component value types of the engine, shared by its two variants: src/main.rs and
    src/lib.rs declare the same structs (Position, Sprite, RenderTarget, WobbleMove and
    the frame-timing fields), so they are modelled once here. */
module Components {

  const I32_MIN: int := -0x8000_0000
  const I32_MAX: int := 0x7fff_ffff

  /** Rust's i32 and u32 as ranges of unbounded integers. */
  type I32 = x: int | -0x8000_0000 <= x <= 0x7fff_ffff
  type U32 = x: int | 0 <= x < 0x1_0000_0000

  /** A packed pixel: alpha << 24 | red << 16 | green << 8 | blue. */
  type Pixel = bv32

  datatype Option<T> = None | Some(value: T)

  /** Placement of a sprite's anchor in render-target space. */
  datatype Position = Position(x: I32, y: I32)

  /** A row-major pixel buffer with its size and the anchor subtracted from a position. */
  datatype Sprite = Sprite(data: seq<Pixel>, width: U32, height: U32, anchorX: U32, anchorY: U32)
  {
    /** What indexing and the `as i32` casts of the compositor rely on: the buffer holds
        exactly width * height pixels, every index y * width + x fits in u32, and width,
        height and anchors are below 2^31 so that casting them to i32 keeps their value. */
    predicate Valid() {
      Shape(|data|, width, height)
      && anchorX <= I32_MAX && anchorY <= I32_MAX
    }
  }

  /** A buffer of `len` pixels laid out as `width` columns by `height` rows. */
  predicate Shape(len: int, width: int, height: int) {
    0 <= width <= I32_MAX && 0 <= height <= I32_MAX
    && len == width * height && len <= 0x1_0000_0000
  }

  /** The sprite with every pixel of its buffer set to `colour` (Vec::fill). */
  function Filled(s: Sprite, colour: Pixel): (r: Sprite)
    ensures r.width == s.width && r.height == s.height
    ensures r.anchorX == s.anchorX && r.anchorY == s.anchorY
    ensures |r.data| == |s.data| && (s.Valid() ==> r.Valid())
    ensures forall i :: 0 <= i < |r.data| ==> r.data[i] == colour
  {
    s.(data := seq(|s.data|, _ => colour))
  }

  /** Amplitude of the horizontal oscillation; the program stores it as f32. */
  datatype WobbleMove = WobbleMove(amplitude: real)

  /** The value of `(sin(total_time) * amplitude) as i32`, which the movement systems add to
      half the render target's width. It is bounded by 2^30 so that the i32 sum cannot
      overflow for any target width. */
  type WobbleOffset = x: int | -0x4000_0000 <= x <= 0x4000_0000

  /** The timing state. Instants are clock readings and durations differences of them,
      both as whole numbers of clock ticks. */
  datatype TimeResources = TimeResources(
    startTime: nat, lastFrame: nat, thisFrame: nat, deltaTime: nat, totalTime: nat)

  /** The closed set of component kinds; it stands for the TypeId keys of the store. */
  datatype Kind = TimeResourcesKind | PositionKind | SpriteKind | RenderTargetKind | WobbleMoveKind

  /** A stored component: one variant per kind; RenderTarget is the zero-size marker. */
  datatype Component =
    | Time(time: TimeResources)
    | Pos(pos: Position)
    | Spr(sprite: Sprite)
    | RenderTarget
    | Wobble(wobble: WobbleMove)

  function KindOf(c: Component): Kind {
    match c
    case Time(_) => TimeResourcesKind
    case Pos(_) => PositionKind
    case Spr(_) => SpriteKind
    case RenderTarget => RenderTargetKind
    case Wobble(_) => WobbleMoveKind
  }

  /** The store's type-safety invariant: the value kept under a kind is of that kind. */
  predicate WellTyped(m: map<Kind, Component>) {
    forall k :: k in m ==> KindOf(m[k]) == k
  }

  /** A reading of the monotonic clock that may follow the state `t`. */
  predicate LaterReading(t: TimeResources, now: nat) {
    t.thisFrame <= now && t.startTime <= now
  }

  /** One step of the timing system with clock reading `now`: the current instant becomes
      the previous one, `now` the current one, and both durations are measured anew. */
  function Tick(t: TimeResources, now: nat): (r: TimeResources)
    requires LaterReading(t, now)
    ensures r.startTime == t.startTime
    ensures r.lastFrame == t.thisFrame && r.thisFrame == now
    ensures r.lastFrame + r.deltaTime == r.thisFrame
    ensures r.startTime + r.totalTime == r.thisFrame
    ensures t.thisFrame <= r.thisFrame
  {
    TimeResources(t.startTime, t.thisFrame, now, now - t.thisFrame, now - t.startTime)
  }

  /** Clock readings of successive frames: never earlier than each other or than `t`. */
  predicate Readings(t: TimeResources, nows: seq<nat>) {
    (forall i :: 0 <= i < |nows| ==> LaterReading(t, nows[i]))
    && (forall i, j :: 0 <= i < j < |nows| ==> nows[i] <= nows[j])
  }

  /** The timing states after each of the frames read at `nows`. */
  function Ticks(t: TimeResources, nows: seq<nat>): (r: seq<TimeResources>)
    requires Readings(t, nows)
    ensures |r| == |nows|
    decreases |nows|
  {
    if nows == [] then []
    else var t' := Tick(t, nows[0]); [t'] + Ticks(t', nows[1..])
  }

  function SumDeltas(ts: seq<TimeResources>): nat {
    if ts == [] then 0 else ts[0].deltaTime + SumDeltas(ts[1..])
  }

  /** Over any run of frames the start instant stays put, frame instants never go back,
      the last frame's instant is the last reading, its total time is the time since start,
      and the deltas of all frames add up to the time elapsed since the first state. */
  lemma {:induction false} TicksAccumulate(t: TimeResources, nows: seq<nat>)
    requires Readings(t, nows) && nows != []
    ensures var ts := Ticks(t, nows); var last := ts[|ts| - 1];
      && (forall i :: 0 <= i < |ts| ==> ts[i].startTime == t.startTime)
      && (forall i :: 0 < i < |ts| ==> ts[i - 1].thisFrame <= ts[i].thisFrame)
      && last.thisFrame == nows[|nows| - 1]
      && last.totalTime == last.thisFrame - t.startTime
      && SumDeltas(ts) == last.thisFrame - t.thisFrame
    decreases |nows|
  {
    var t' := Tick(t, nows[0]);
    if |nows| > 1 {
      assert Readings(t', nows[1..]);
      TicksAccumulate(t', nows[1..]);
      var ts := Ticks(t, nows);
      var rest := Ticks(t', nows[1..]);
      assert ts == [t'] + rest;
      assert ts[1..] == rest;
      assert ts[|ts| - 1] == rest[|rest| - 1];
    }
  }

  /** The colour of a decoded image pixel. */
  datatype Rgb = Rgb(red: bv8, green: bv8, blue: bv8)

  /** Packing of a decoded RGB pixel into the frame-buffer format, forcing full opacity. */
  function PackRgb(c: Rgb): (p: Pixel)
    ensures p >> 24 == 0xff
    ensures UnpackRgb(p) == c
  {
    ((0xff as bv32) << 24) | ((c.red as bv32) << 16) | ((c.green as bv32) << 8) | (c.blue as bv32)
  }

  /** The colour channels of a packed pixel. */
  function UnpackRgb(p: Pixel): Rgb {
    Rgb(((p >> 16) & 0xff) as bv8, ((p >> 8) & 0xff) as bv8, (p & 0xff) as bv8)
  }
}
