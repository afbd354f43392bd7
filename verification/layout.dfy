/** The viewport, the per-node simulation state and the part of the force
    simulation the chart itself drives: the clamping pass of every tick, the
    centring targets, and the energy (alpha) controls used by resize, drag
    and the level toggle. The forces themselves belong to d3 and are not
    modelled. */
module Layout {
  import opened Optional

  /** Margin kept between a node centre and the viewport edge. */
  const Padding: real := 20.0
  /** Height reserved for the page chrome above the chart. */
  const ChromeHeight: real := 60.0
  /** Energy injected by `alpha(0.3).restart()` after a resize or a toggle. */
  const ReheatAlpha: real := 0.3

  /** The drawing area: `width` and `height` as the script records them. */
  datatype Viewport = Viewport(width: real, height: real)

  /** The position state d3 keeps on each node: the simulated position and
      the optional fixed position that overrides it while the node is held. */
  datatype Body = Body(x: real, y: real, fx: Option<real>, fy: Option<real>)

  /** The simulation controls the chart touches: current energy, target
      energy, the targets of the x and y centring forces, and whether the
      simulation timer is running. */
  datatype Engine = Engine(alpha: real, alphaTarget: real, centreX: real, centreY: real, running: bool)

  function Max(a: real, b: real): real { if a >= b then a else b }
  function Min(a: real, b: real): real { if a <= b then a else b }

  /** `Math.max(padding, Math.min(extent - padding, v))`. */
  function ClampCoord(v: real, extent: real): (r: real)
    ensures r >= Padding
    ensures extent >= 2.0 * Padding ==> r <= extent - Padding
    ensures Padding <= v <= extent - Padding ==> r == v
    ensures extent < 2.0 * Padding ==> r == Padding
    ensures extent >= 2.0 * Padding ==>
              r == v || (v < Padding && r == Padding) || (v > extent - Padding && r == extent - Padding)
  {
    Max(Padding, Min(extent - Padding, v))
  }

  /** The viewport leaves room for the padding on both axes. */
  predicate Fits(vp: Viewport) {
    vp.width >= 2.0 * Padding && vp.height >= 2.0 * Padding
  }

  predicate InView(vp: Viewport, b: Body) {
    Padding <= b.x <= vp.width - Padding && Padding <= b.y <= vp.height - Padding
  }

  /** The clamp of one node, written back into its position; the fixed
      position is left alone. */
  function ClampBody(vp: Viewport, b: Body): (r: Body)
    ensures r.fx == b.fx && r.fy == b.fy
    ensures r.x >= Padding && r.y >= Padding
    ensures Fits(vp) ==> InView(vp, r)
    ensures InView(vp, b) ==> r == b
  {
    b.(x := ClampCoord(b.x, vp.width), y := ClampCoord(b.y, vp.height))
  }

  /** The clamping pass of one tick over all nodes. */
  function Tick(vp: Viewport, bodies: seq<Body>): (r: seq<Body>)
    ensures |r| == |bodies|
    ensures forall i :: 0 <= i < |r| ==> r[i].fx == bodies[i].fx && r[i].fy == bodies[i].fy
    ensures forall i :: 0 <= i < |r| ==> r[i].x >= Padding && r[i].y >= Padding
    ensures Fits(vp) ==> forall i :: 0 <= i < |r| ==> InView(vp, r[i])
    ensures forall i :: 0 <= i < |r| && InView(vp, bodies[i]) ==> r[i] == bodies[i]
  {
    seq(|bodies|, i requires 0 <= i < |bodies| => ClampBody(vp, bodies[i]))
  }

  /** A second clamping pass changes nothing. */
  lemma TickIdempotent(vp: Viewport, bodies: seq<Body>)
    ensures Tick(vp, Tick(vp, bodies)) == Tick(vp, bodies)
  {
  }

  /** In a viewport that fits, the clamp leaves the nodes as they are exactly
      when all of them are already in view. */
  lemma TickFixpoint(vp: Viewport, bodies: seq<Body>)
    requires Fits(vp)
    ensures Tick(vp, bodies) == bodies <==> forall i :: 0 <= i < |bodies| ==> InView(vp, bodies[i])
  {
  }

  /** The viewport for a window: its full width, its height less the chrome. */
  function WindowViewport(innerWidth: real, innerHeight: real): (vp: Viewport)
    ensures vp.width == innerWidth
    ensures vp.height + ChromeHeight == innerHeight
  {
    Viewport(innerWidth, innerHeight - ChromeHeight)
  }

  /** The engine as the chart creates it: centring forces aimed at the middle
      of the viewport, with d3's initial energy 1 and target energy 0. */
  function Startup(innerWidth: real, innerHeight: real): (s: (Viewport, Engine))
    ensures s.0 == WindowViewport(innerWidth, innerHeight)
    ensures 2.0 * s.1.centreX == s.0.width && 2.0 * s.1.centreY == s.0.height
    ensures s.1.alphaTarget == 0.0 && s.1.running
  {
    var vp := WindowViewport(innerWidth, innerHeight);
    (vp, Engine(1.0, 0.0, vp.width / 2.0, vp.height / 2.0, true))
  }

  /** `alpha(0.3).restart()`: a moderate energy boost; the target energy and
      the centring targets are kept. */
  function Reheat(e: Engine): (r: Engine)
    ensures r.alpha == ReheatAlpha && r.running
    ensures r.alphaTarget == e.alphaTarget && r.centreX == e.centreX && r.centreY == e.centreY
  {
    e.(alpha := ReheatAlpha, running := true)
  }

  /** The resize listener: record the new viewport, re-aim the centring
      forces at its middle, and reheat. */
  function Resize(e: Engine, innerWidth: real, innerHeight: real): (s: (Viewport, Engine))
    ensures s.0 == WindowViewport(innerWidth, innerHeight)
    ensures 2.0 * s.1.centreX == s.0.width && 2.0 * s.1.centreY == s.0.height
    ensures s.1.alpha == ReheatAlpha && s.1.running && s.1.alphaTarget == e.alphaTarget
  {
    var vp := WindowViewport(innerWidth, innerHeight);
    (vp, Reheat(e.(centreX := vp.width / 2.0, centreY := vp.height / 2.0)))
  }

  /** After a resize the next tick clamps every node into the new viewport,
      and the centring target itself lies in that region. */
  lemma ResizeThenTick(e: Engine, innerWidth: real, innerHeight: real, bodies: seq<Body>)
    requires innerWidth >= 2.0 * Padding && innerHeight >= 2.0 * Padding + ChromeHeight
    ensures var (vp, e') := Resize(e, innerWidth, innerHeight);
            && (forall i :: 0 <= i < |bodies| ==> InView(vp, Tick(vp, bodies)[i]))
            && InView(vp, Body(e'.centreX, e'.centreY, None, None))
  {
  }

  /** Resizing to the window the chart started in restores the startup
      viewport and centring targets. */
  lemma ResizeMatchesStartup(e: Engine, innerWidth: real, innerHeight: real)
    ensures Resize(e, innerWidth, innerHeight).0 == Startup(innerWidth, innerHeight).0
    ensures Resize(e, innerWidth, innerHeight).1.centreX == Startup(innerWidth, innerHeight).1.centreX
    ensures Resize(e, innerWidth, innerHeight).1.centreY == Startup(innerWidth, innerHeight).1.centreY
  {
  }
}
