/** Hover highlighting: entering a node fades every node outside its
    neighbourhood and every line not attached to it, and thickens the
    node's own border; leaving restores full opacity. Only the final state
    of each 200 ms transition is modelled. */
module Hover {
  import opened Graph

  const FullOpacity: real := 1.0
  const FadedOpacity: real := 0.2
  /** Line colour as first drawn: light grey at half alpha. */
  const InitialEdgeStroke: string := "#c2c2c280"
  const FadedEdgeStroke: string := "#ccc"
  /** Line colour the mouse-out handler writes back. */
  const MouseOutEdgeStroke: string := "#c2c2c2"

  /** The border of a node circle. */
  datatype Ring = Ring(stroke: string, width: real)

  const PlainRing: Ring := Ring("#fff", 1.5)
  const HoverRing: Ring := Ring("#888", 3.0)

  /** What hover changes: the opacity of each node group, the opacity and
      colour of each line, and the border of each node circle. */
  datatype Style = Style(nodeOpacity: seq<real>, edgeOpacity: seq<real>, edgeStroke: seq<string>, rings: seq<Ring>)

  /** One entry per node and one per link, as the data joins create them. */
  predicate Shaped(s: Style, nodes: seq<Node>, edges: seq<Edge>) {
    && |s.nodeOpacity| == |nodes| && |s.rings| == |nodes|
    && |s.edgeOpacity| == |edges| && |s.edgeStroke| == |edges|
  }

  /** The style as the chart is first drawn. */
  function InitialStyle(nodes: seq<Node>, edges: seq<Edge>): (s: Style)
    ensures Shaped(s, nodes, edges)
    ensures forall k :: 0 <= k < |nodes| ==> s.nodeOpacity[k] == FullOpacity && s.rings[k] == PlainRing
    ensures forall k :: 0 <= k < |edges| ==> s.edgeOpacity[k] == FullOpacity && s.edgeStroke[k] == InitialEdgeStroke
  {
    Style(seq(|nodes|, _ => FullOpacity), seq(|edges|, _ => FullOpacity),
          seq(|edges|, _ => InitialEdgeStroke), seq(|nodes|, _ => PlainRing))
  }

  /** The link has `d` as one of its endpoints. */
  predicate Touches(e: Edge, d: string) {
    e.source == d || e.target == d
  }

  /** The link joins `d` and `n`, in either direction. */
  predicate Adjacent(e: Edge, d: string, n: string) {
    (e.source == d && e.target == n) || (e.target == d && e.source == n)
  }

  /** The node itself and every node one link away from it. */
  function Neighbourhood(d: string, edges: seq<Edge>): set<string> {
    {d}
    + (set k | 0 <= k < |edges| && edges[k].source == d :: edges[k].target)
    + (set k | 0 <= k < |edges| && edges[k].target == d :: edges[k].source)
  }

  /** Extending the link list by one link adds that link's far end when it
      touches `d`, and nothing else. */
  lemma NeighbourhoodSnoc(d: string, edges: seq<Edge>, e: Edge)
    ensures Neighbourhood(d, edges + [e])
         == Neighbourhood(d, edges) + (if e.source == d then {e.target} else if e.target == d then {e.source} else {})
  {
    var es := edges + [e];
    assert forall k :: 0 <= k < |edges| ==> es[k] == edges[k];
    assert es[|edges|] == e;
  }

  /** The neighbourhood is exactly the node itself and the nodes adjacent to
      it through some link. */
  lemma NeighbourhoodExact(d: string, edges: seq<Edge>)
    ensures forall n :: n in Neighbourhood(d, edges) <==>
              n == d || exists k :: 0 <= k < |edges| && Adjacent(edges[k], d, n)
  {
  }

  /** The `links.forEach` pass of the mouse-over handler collecting the ids
      of the hovered node and its direct neighbours. */
  method HighlightSet(d: string, edges: seq<Edge>) returns (connected: set<string>)
    ensures connected == Neighbourhood(d, edges)
    ensures forall n :: n in connected <==> n == d || exists k :: 0 <= k < |edges| && Adjacent(edges[k], d, n)
  {
    connected := {d};
    assert edges[..0] == [];
    for i := 0 to |edges|
      invariant connected == Neighbourhood(d, edges[..i])
    {
      var link := edges[i];
      NeighbourhoodSnoc(d, edges[..i], link);
      assert edges[..i + 1] == edges[..i] + [link];
      if link.source == d {
        connected := connected + {link.target};
      } else if link.target == d {
        connected := connected + {link.source};
      }
    }
    assert edges[..|edges|] == edges;
    NeighbourhoodExact(d, edges);
  }

  /** `handleMouseOver` on the node at index `i`: nodes outside the
      neighbourhood and lines not attached to the node fade (lines also turn
      `#ccc`); everything else keeps its current style, except the hovered
      node's border, which becomes thick and dark. */
  function MouseOver(nodes: seq<Node>, edges: seq<Edge>, s: Style, i: nat): (r: Style)
    requires Shaped(s, nodes, edges) && i < |nodes|
    ensures Shaped(r, nodes, edges)
    ensures forall k :: 0 <= k < |nodes| ==>
              r.nodeOpacity[k] == (if nodes[k].id in Neighbourhood(nodes[i].id, edges) then s.nodeOpacity[k] else FadedOpacity)
    ensures forall k :: 0 <= k < |edges| ==>
              && r.edgeOpacity[k] == (if Touches(edges[k], nodes[i].id) then s.edgeOpacity[k] else FadedOpacity)
              && r.edgeStroke[k] == (if Touches(edges[k], nodes[i].id) then s.edgeStroke[k] else FadedEdgeStroke)
    ensures r.rings[i] == HoverRing
    ensures forall k :: 0 <= k < |nodes| && k != i ==> r.rings[k] == s.rings[k]
  {
    var d := nodes[i].id;
    var lit := Neighbourhood(d, edges);
    Style(
      seq(|nodes|, k requires 0 <= k < |nodes| => if nodes[k].id in lit then s.nodeOpacity[k] else FadedOpacity),
      seq(|edges|, k requires 0 <= k < |edges| => if Touches(edges[k], d) then s.edgeOpacity[k] else FadedOpacity),
      seq(|edges|, k requires 0 <= k < |edges| => if Touches(edges[k], d) then s.edgeStroke[k] else FadedEdgeStroke),
      s.rings[i := HoverRing])
  }

  /** `handleMouseOut` for the node at index `i`, as written: every node and
      line back to full opacity whatever its prior state, lines recoloured
      `#c2c2c2`, and the node's border back to thin and white. */
  function MouseOut(nodes: seq<Node>, edges: seq<Edge>, s: Style, i: nat): (r: Style)
    requires Shaped(s, nodes, edges) && i < |nodes|
    ensures Shaped(r, nodes, edges)
    ensures forall k :: 0 <= k < |nodes| ==> r.nodeOpacity[k] == FullOpacity
    ensures forall k :: 0 <= k < |edges| ==> r.edgeOpacity[k] == FullOpacity && r.edgeStroke[k] == MouseOutEdgeStroke
    ensures r.rings == s.rings[i := PlainRing]
  {
    Style(seq(|nodes|, _ => FullOpacity), seq(|edges|, _ => FullOpacity),
          seq(|edges|, _ => MouseOutEdgeStroke), s.rings[i := PlainRing])
  }

  /** `handleMouseOut` with the line colour restored to the one the lines
      were drawn with. */
  function MouseOutRestoring(nodes: seq<Node>, edges: seq<Edge>, s: Style, i: nat): (r: Style)
    requires Shaped(s, nodes, edges) && i < |nodes|
    ensures Shaped(r, nodes, edges)
    ensures forall k :: 0 <= k < |nodes| ==> r.nodeOpacity[k] == FullOpacity
    ensures forall k :: 0 <= k < |edges| ==> r.edgeOpacity[k] == FullOpacity && r.edgeStroke[k] == InitialEdgeStroke
    ensures r.rings == s.rings[i := PlainRing]
  {
    Style(seq(|nodes|, _ => FullOpacity), seq(|edges|, _ => FullOpacity),
          seq(|edges|, _ => InitialEdgeStroke), s.rings[i := PlainRing])
  }

  /** Hovering the chart at rest: a node stays fully visible exactly when it
      is in the neighbourhood, a line exactly when it touches the hovered
      node, and every visible line has both endpoints visible. */
  lemma HoverFromRest(nodes: seq<Node>, edges: seq<Edge>, i: nat)
    requires i < |nodes|
    ensures var d := nodes[i].id;
            var r := MouseOver(nodes, edges, InitialStyle(nodes, edges), i);
            && (forall k :: 0 <= k < |nodes| ==>
                  (r.nodeOpacity[k] == FullOpacity <==> nodes[k].id in Neighbourhood(d, edges)))
            && (forall k :: 0 <= k < |edges| ==> (r.edgeOpacity[k] == FullOpacity <==> Touches(edges[k], d)))
            && (forall k :: 0 <= k < |edges| && r.edgeOpacity[k] == FullOpacity ==>
                  edges[k].source in Neighbourhood(d, edges) && edges[k].target in Neighbourhood(d, edges))
  {
  }

  /** Entering the same node again (d3 also reports entering its circle or
      label) changes nothing further. */
  lemma MouseOverIdempotent(nodes: seq<Node>, edges: seq<Edge>, s: Style, i: nat)
    requires Shaped(s, nodes, edges) && i < |nodes|
    ensures var once := MouseOver(nodes, edges, s, i);
            MouseOver(nodes, edges, once, i) == once
  {
  }

  /** With the restoring handler, hovering a node and leaving it returns the
      chart to exactly the style it was drawn with. */
  lemma HoverRoundTrip(nodes: seq<Node>, edges: seq<Edge>, i: nat)
    requires i < |nodes|
    ensures var rest := InitialStyle(nodes, edges);
            MouseOutRestoring(nodes, edges, MouseOver(nodes, edges, rest, i), i) == rest
  {
  }

  /** As written, leaving a node of a chart with at least one line does not
      return it to the style it was drawn with: every line ends up opaque
      `#c2c2c2` instead of half-transparent `#c2c2c280`. */
  lemma MouseOutLosesEdgeAlpha(nodes: seq<Node>, edges: seq<Edge>, i: nat)
    requires i < |nodes| && |edges| > 0
    ensures var rest := InitialStyle(nodes, edges);
            var back := MouseOut(nodes, edges, MouseOver(nodes, edges, rest, i), i);
            && back.edgeStroke[0] == "#c2c2c2" && rest.edgeStroke[0] == "#c2c2c280"
            && back != rest
  {
  }
}
