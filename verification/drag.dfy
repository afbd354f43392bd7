/** The drag handlers of a node: `started`, `dragged` and `ended` pin the
    node to a fixed position while it is held, and raise the simulation's
    target energy for as long as some node is being dragged. */
module Drag {
  import opened Optional
  import opened Layout

  /** Target energy kept while a node is held. */
  const HeldAlphaTarget: real := 0.2

  /** One drag event on a node. `othersActive` is d3's `event.active`: the
      number of OTHER drag gestures in progress when this one starts or ends. */
  datatype DragEvent = Start(othersActive: nat) | Move(px: real, py: real) | End(othersActive: nat)

  /** The position every consumer of a node uses: the fixed position where
      one is set, the simulated one otherwise. */
  function Effective(b: Body): (p: (real, real))
    ensures b.fx.Some? ==> p.0 == b.fx.value
    ensures b.fx.None? ==> p.0 == b.x
    ensures b.fy.Some? ==> p.1 == b.fy.value
    ensures b.fy.None? ==> p.1 == b.y
  {
    (if b.fx.Some? then b.fx.value else b.x, if b.fy.Some? then b.fy.value else b.y)
  }

  /** `started`: if no other gesture is active, raise the target energy to 0.2
      and restart; then pin the node where it is. */
  function Started(b: Body, e: Engine, othersActive: nat): (r: (Body, Engine))
    ensures r.0.x == b.x && r.0.y == b.y
    ensures r.0.fx == Some(b.x) && r.0.fy == Some(b.y)
    ensures Effective(r.0) == (b.x, b.y)
    ensures othersActive == 0 ==> r.1 == e.(alphaTarget := HeldAlphaTarget, running := true)
    ensures othersActive > 0 ==> r.1 == e
  {
    var e' := if othersActive == 0 then e.(alphaTarget := HeldAlphaTarget, running := true) else e;
    (b.(fx := Some(b.x), fy := Some(b.y)), e')
  }

  /** `dragged`: move the pin to the pointer; the simulated position is not touched. */
  function Dragged(b: Body, px: real, py: real): (r: Body)
    ensures r.x == b.x && r.y == b.y
    ensures r.fx == Some(px) && r.fy == Some(py)
    ensures Effective(r) == (px, py)
  {
    b.(fx := Some(px), fy := Some(py))
  }

  /** `ended`: if no other gesture is active, let the simulation cool to
      target energy 0; then release the pin. */
  function Ended(b: Body, e: Engine, othersActive: nat): (r: (Body, Engine))
    ensures r.0.x == b.x && r.0.y == b.y
    ensures r.0.fx == None && r.0.fy == None
    ensures Effective(r.0) == (b.x, b.y)
    ensures othersActive == 0 ==> r.1 == e.(alphaTarget := 0.0)
    ensures othersActive > 0 ==> r.1 == e
  {
    var e' := if othersActive == 0 then e.(alphaTarget := 0.0) else e;
    (b.(fx := None, fy := None), e')
  }

  function Step(s: (Body, Engine), ev: DragEvent): (Body, Engine) {
    match ev
    case Start(k) => Started(s.0, s.1, k)
    case Move(px, py) => (Dragged(s.0, px, py), s.1)
    case End(k) => Ended(s.0, s.1, k)
  }

  /** The state after a sequence of drag events, applied in order. */
  function Run(s: (Body, Engine), events: seq<DragEvent>): (Body, Engine)
    decreases |events|
  {
    if |events| == 0 then s else Run(Step(s, events[0]), events[1..])
  }

  predicate AllMoves(events: seq<DragEvent>) {
    forall k :: 0 <= k < |events| ==> events[k].Move?
  }

  lemma {:induction false} RunConcat(s: (Body, Engine), a: seq<DragEvent>, b: seq<DragEvent>)
    ensures Run(s, a + b) == Run(Run(s, a), b)
    decreases |a|
  {
    if |a| == 0 {
      assert a + b == b;
    } else {
      assert (a + b)[0] == a[0];
      assert (a + b)[1..] == a[1..] + b;
      RunConcat(Step(s, a[0]), a[1..], b);
    }
  }

  /** Pointer moves never touch the simulated position or the engine; after
      at least one move the node is pinned under the last pointer position. */
  lemma {:induction false} MovesFollowPointer(s: (Body, Engine), moves: seq<DragEvent>)
    requires AllMoves(moves)
    ensures Run(s, moves).1 == s.1
    ensures Run(s, moves).0.x == s.0.x && Run(s, moves).0.y == s.0.y
    ensures |moves| == 0 ==> Run(s, moves).0 == s.0
    ensures |moves| > 0 ==> Effective(Run(s, moves).0) == (moves[|moves| - 1].px, moves[|moves| - 1].py)
    decreases |moves|
  {
    if |moves| > 0 {
      var s' := Step(s, moves[0]);
      assert AllMoves(moves[1..]) by {
        forall k | 0 <= k < |moves[1..]| ensures moves[1..][k].Move? {
          assert moves[1..][k] == moves[k + 1];
        }
      }
      MovesFollowPointer(s', moves[1..]);
      if |moves| > 1 {
        assert moves[1..][|moves[1..]| - 1] == moves[|moves| - 1];
      }
    }
  }

  /** A complete gesture with no other drag in progress: the node ends
      unpinned at the simulated position it had (the handlers never move it),
      the target energy returns to 0, and nothing else in the engine changes. */
  lemma SoloGesture(b: Body, e: Engine, moves: seq<DragEvent>)
    requires AllMoves(moves)
    ensures var (b', e') := Run((b, e), [Start(0)] + moves + [End(0)]);
            && b' == b.(fx := None, fy := None)
            && e' == e.(alphaTarget := 0.0, running := true)
  {
    var started := Started(b, e, 0);
    RunConcat((b, e), [Start(0)] + moves, [End(0)]);
    RunConcat((b, e), [Start(0)], moves);
    assert Run((b, e), [Start(0)]) == started;
    MovesFollowPointer(started, moves);
    var held := Run(started, moves);
    assert Run(held, [End(0)]) == Ended(held.0, held.1, 0);
  }

  /** While another gesture is active, starting and ending this one leave
      the engine exactly as it was. */
  lemma NestedGestureKeepsEngine(b: Body, e: Engine, moves: seq<DragEvent>, k: nat, m: nat)
    requires AllMoves(moves) && k > 0 && m > 0
    ensures Run((b, e), [Start(k)] + moves + [End(m)]).1 == e
    ensures Run((b, e), [Start(k)] + moves + [End(m)]).0 == b.(fx := None, fy := None)
  {
    RunConcat((b, e), [Start(k)] + moves, [End(m)]);
    RunConcat((b, e), [Start(k)], moves);
    assert Run((b, e), [Start(k)]) == Started(b, e, k);
    MovesFollowPointer(Started(b, e, k), moves);
    var held := Run(Started(b, e, k), moves);
    assert Run(held, [End(m)]) == Ended(held.0, held.1, m);
  }
}
