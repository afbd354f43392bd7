# Situation chart: graph model

A Dafny model of the logic behind the situation chart page, a force-directed
node-link drawing of groups and their members. The page builds a node list
and a link list from two objects, `groups` and `members`. It then hands both
to d3's force simulation and wires up five behaviours:

- **Graph builder.** One red `group_<id>` node per group, then one blue
  `member_<id>` node per member. There is one link from a member to each group
  it lists. Radii follow fixed formulas.
- **Tick clamp.** After every simulation step, each node's position is clamped
  into the viewport less a 20-unit padding, and written back into the node.
- **Drag.** `started`, `dragged` and `ended` pin a held node to a fixed
  position. They also raise the simulation's target energy while no other drag
  is in progress.
- **Hover.** Entering a node fades everything outside its one-link
  neighbourhood. Leaving the node restores full opacity.
- **Level toggle.** The `#level-sized` checkbox redraws member circles, either
  at a fixed radius 5 or at the radius their level gives.

The modules follow these pieces:

- `Optional` (`optional.dfy`): absent values and JavaScript's `a || b` default.
- `Graph` (`graph.dfy`): the builder.
- `Layout` (`layout.dfy`): the viewport, node positions, the clamp, the engine
  controls and resize.
- `Drag` (`drag.dfy`): the drag handlers.
- `Hover` (`hover.dfy`): the hover handlers.
- `LevelToggle` (`toggle.dfy`): the checkbox handler.

Modelling choices:

- A JavaScript object iterated with `for…in` is a sequence of (key, record)
  entries in iteration order.
- Sizes and positions are exact `real`s.
- A link holds the ids of its two endpoints, not d3's resolved node objects.
- The node descriptor the builder produces (`Graph.Node`) is kept apart from the
  position state d3 adds to it (`Layout.Body`: `x`, `y` and the optional fixed
  `fx`, `fy`).
- Things that live in the DOM or in d3 become explicit values:
  - the recorded width and height (`Layout.Viewport`);
  - the simulation controls the page touches (`Layout.Engine`);
  - the drawn circle radii (a `seq<real>`);
  - the hover styles (`Hover.Style`);
  - d3's count of other active drag gestures (`event.active`), passed in as a
    parameter.

## Model

| member | source | states |
|---|---|---|
| `Optional.Or` | static/situation-chart/js/main.js:24 | `a \|\| b` on an optional number: `a` when present and non-zero, otherwise `b` |
| `Graph.GroupSize` | static/situation-chart/js/main.js:15 | group radius is half the size override (when set and non-zero) or half the member count, plus 10; it is at least 10 exactly when the chosen value is non-negative |
| `Graph.MemberRadius` | static/situation-chart/js/main.js:24 | member radius is level/10 + 1, with an absent or zero level counting as 1 (radius 1.1); at least 1 for every non-negative level |
| `Graph.Nodes` | static/situation-chart/js/main.js:9-26 | node count is \|groups\| + \|members\|; groups come first, in order, with id `group_<key>`, colour `#FF3030`, the group's size and no level; members follow, in order, with id `member_<key>`, colour `#0080FF`, the level radius and their level |
| `Graph.MembershipEdges` | static/situation-chart/js/main.js:27-32 | one link per listed group id, in listing order, from `member_<id>` to `group_<gid>` |
| `Graph.EdgeKinds` | static/situation-chart/js/main.js:18-33 | every link goes from a `member_` id to a `group_` id |
| `Graph.PushMembershipEdges` | static/situation-chart/js/main.js:27-32 | the inner push loop appends exactly the member's links to the list |
| `Graph.BuildGraph` | static/situation-chart/js/main.js:7-33 | the builder's loops produce exactly the node list `Nodes` and the link list `Edges` |
| `Graph.EdgesConcat` | static/situation-chart/js/main.js:18-33 | the links of two runs of members are the links of the first followed by those of the second |
| `Graph.EdgeCount` | static/situation-chart/js/main.js:18-33 | the link count equals the total number of group memberships listed |
| `Graph.EdgeOrder` | static/situation-chart/js/main.js:18-33 | links of earlier members come first, then member k's links in listing order, then those of later members |
| `Graph.EdgeMembership` | static/situation-chart/js/main.js:27-32 | a link is produced exactly for each (member, listed group id) pair |
| `Graph.KnownGroupsResolve` | static/situation-chart/js/main.js:9-32 | if every listed group id is a key of `groups`, every link endpoint is the id of a produced node |
| `Graph.ResolvedEdgesKnowGroups` | static/situation-chart/js/main.js:9-32 | if every link endpoint is a produced node id, every listed group id is a key of `groups` |
| `Graph.ReferentialIntegrity` | static/situation-chart/js/main.js:9-32 | links resolve to produced nodes if and only if every listed group id is known; the builder itself never checks this |
| `Graph.UniqueNodeIds` | static/situation-chart/js/main.js:9-26 | node ids are pairwise distinct if and only if the keys of each input object are |
| `Graph.SingleMemberEdges` | static/situation-chart/js/main.js:27-32 | the links of a single member are exactly that member's membership links |
| `Graph.SmallChart` | static/situation-chart/js/main.js:9-33 | one group with 4 members and one level-5 member of it give nodes `group_1` (size 12) and `member_1` (size 1.5) and the link `member_1`→`group_1` |
| `Layout.ClampCoord` | static/situation-chart/js/main.js:196-206 | the clamped coordinate is at least 20; it is at most extent-20 when extent ≥ 40; an in-range value is unchanged; below 40 the result is exactly 20; otherwise the result is the value or the nearer bound |
| `Layout.ClampBody` | static/situation-chart/js/main.js:202-208 | the clamp keeps the fixed position; both coordinates are at least 20; the node is in view when the viewport fits; a node in view is unchanged |
| `Layout.Tick` | static/situation-chart/js/main.js:196-208 | after a tick no node count or fixed position has changed; every node has x, y ≥ 20; all nodes are in view when width and height are ≥ 40; nodes already in view are unchanged |
| `Layout.TickIdempotent` | static/situation-chart/js/main.js:196-208 | clamping twice gives the same positions as clamping once, for any viewport |
| `Layout.TickFixpoint` | static/situation-chart/js/main.js:196-208 | in a viewport that fits, a tick changes nothing if and only if every node is already in view |
| `Layout.WindowViewport` | static/situation-chart/js/main.js:229-233 | the recorded width is the window width and the recorded height is the window height less 60 |
| `Layout.Startup` | static/situation-chart/js/main.js:5-47 | the first viewport is the window less the chrome; the centring targets are at its middle; the target energy starts at 0 |
| `Layout.Reheat` | static/situation-chart/js/main.js:226 | `alpha(0.3).restart()` sets the energy to 0.3 and runs the simulation, keeping the target energy and the centring targets |
| `Layout.Resize` | static/situation-chart/js/main.js:212-233 | a resize records the new viewport (height less 60), re-aims the centring forces at its middle and reheats to 0.3 |
| `Layout.ResizeThenTick` | static/situation-chart/js/main.js:196-233 | after a resize to a window at least 40 wide and 100 tall, the next tick puts every node in the new viewport, and the centring target lies in that region too |
| `Layout.ResizeMatchesStartup` | static/situation-chart/js/main.js:5-47 | resizing to the startup window gives back the startup viewport and centring targets |
| `Drag.Started` | static/situation-chart/js/main.js:103-109 | drag start pins the node at its current position; the target energy becomes 0.2 and the simulation runs only when no other drag is active, otherwise the engine is unchanged |
| `Drag.Dragged` | static/situation-chart/js/main.js:111-114 | a drag move sets the fixed position to the pointer and leaves the simulated x, y untouched |
| `Drag.Ended` | static/situation-chart/js/main.js:116-122 | drag end clears the fixed position; the target energy becomes 0 only when no other drag is active, otherwise the engine is unchanged |
| `Drag.RunConcat` | static/situation-chart/js/main.js:103-122 | running two event sequences one after the other equals running their concatenation |
| `Drag.MovesFollowPointer` | static/situation-chart/js/main.js:111-114 | pointer moves never change x, y or the engine; after at least one move, the node's effective position is the last pointer position |
| `Drag.SoloGesture` | static/situation-chart/js/main.js:103-122 | a whole gesture with no other drag active leaves the node unpinned at its simulated position, with the target energy back at 0 and nothing else in the engine changed except that it runs |
| `Drag.NestedGestureKeepsEngine` | static/situation-chart/js/main.js:103-122 | a gesture that starts and ends while another is active leaves the engine exactly as it was, and unpins the node |
| `Hover.InitialStyle` | static/situation-chart/js/main.js:61-92 | as first drawn, every node and line is fully opaque, lines are `#c2c2c280`, and every circle has a thin white border |
| `Hover.NeighbourhoodSnoc` | static/situation-chart/js/main.js:132-138 | one more link adds its far end to the neighbourhood when it touches the hovered node, and adds nothing otherwise |
| `Hover.NeighbourhoodExact` | static/situation-chart/js/main.js:128-138 | an id is in the neighbourhood if and only if it is the hovered node or shares a link with it |
| `Hover.HighlightSet` | static/situation-chart/js/main.js:128-138 | the collected id set is exactly the hovered node plus every node that shares a link with it, in either direction |
| `Hover.MouseOver` | static/situation-chart/js/main.js:125-161 | nodes outside the neighbourhood fade to 0.2; lines not touching the hovered node fade to 0.2 and turn `#ccc`; everything else keeps its style; only the hovered circle gets the thick dark border |
| `Hover.MouseOut` | static/situation-chart/js/main.js:164-182 | whatever the prior state, every node and line goes back to opacity 1, lines become `#c2c2c2`, and only the left node's border goes back to thin white |
| `Hover.MouseOutRestoring` | static/situation-chart/js/main.js:164-182 | corrected mouse-out: the same as `MouseOut`, except that lines go back to the colour they were drawn with, `#c2c2c280` |
| `Hover.HoverFromRest` | static/situation-chart/js/main.js:128-153 | hovering the chart at rest: a node stays opaque if and only if it is in the neighbourhood; a line stays opaque if and only if it touches the hovered node; every opaque line has both endpoints in the neighbourhood |
| `Hover.MouseOverIdempotent` | static/situation-chart/js/main.js:125-161 | entering the same node again changes nothing further |
| `Hover.HoverRoundTrip` | static/situation-chart/js/main.js:164-182 | with the corrected mouse-out, hovering a node and leaving it restores the style the chart was drawn with |
| `Hover.MouseOutLosesEdgeAlpha` | static/situation-chart/js/main.js:171-174 | with mouse-out as written, hovering and leaving a chart with at least one line does not restore its first style: the lines end up `#c2c2c2` instead of `#c2c2c280` |
| `LevelToggle.InitialRadii` | static/situation-chart/js/main.js:87-88 | each circle is first drawn at its node's size |
| `LevelToggle.Toggle` | static/situation-chart/js/main.js:235-245 | unchecked: every `member_` circle gets radius 5; checked: every `member_` circle gets (level \|\| 1)/10 + 1; all other circles keep their radius |
| `LevelToggle.LevelSizedChange` | static/situation-chart/js/main.js:235-248 | the change handler applies the toggle and reheats the simulation to 0.3, keeping the target energy and the centring targets |
| `LevelToggle.ToggleLastWins` | static/situation-chart/js/main.js:235-245 | only the last checkbox state matters: toggling to one state and then another equals toggling straight to the second |
| `LevelToggle.ToggleIdempotent` | static/situation-chart/js/main.js:235-245 | applying the same checkbox state twice gives the same radii as applying it once |
| `LevelToggle.MemberCirclesAreMembers` | static/situation-chart/js/main.js:239 | in a built chart, the `member_` filter selects exactly the member nodes and never a group node |
| `LevelToggle.ToggleOnBuiltChart` | static/situation-chart/js/main.js:235-245 | on a built chart, checking the box draws every circle at its node's size; unchecking draws group circles at their group size and every member circle at 5 |
| `LevelToggle.OffThenOnRestores` | static/situation-chart/js/main.js:235-245 | unchecking and then checking the box restores the circles exactly as first drawn |

## Left out

- The d3 force simulation is not modelled: the charge, link, x/y centring and collide forces (`static/situation-chart/js/main.js:43-58`), alpha decay, integration and the timer. `Layout.Engine` records only the fields the page sets: energy, target energy, the centring targets and whether the simulation runs.
- The collide force's radius `(d.size || 15) + 5` is part of the force setup and is not modelled. Note that it reads the node's stored `size`, which the level toggle never changes.
- Rendering is not modelled:
  - SVG creation and attributes;
  - label text and its vertical offset;
  - the `translate(x,y)` transform strings;
  - the first, unclamped transform assignment at line 194.
  Hover transitions are reduced to their final state after 200 ms.
- The line endpoints written at the start of each tick (lines 188-191) are rendering and are not modelled. They read node positions before that tick's clamp.
- DOM and window plumbing (the event wiring and the SVG `viewBox` update) is not modelled. A resize is reduced to the recorded viewport and the engine change.
- `script.js`, the navbar menu toggle and the hide-on-scroll handler, is page chrome unrelated to the chart.
- Floating point is not modelled: positions, sizes and opacities are exact reals. NaN, which JavaScript also treats as falsy in `||`, has no counterpart.
- Graph.GroupSize: a group record with no `memberCount` and no override (which gives NaN in the page) is not modelled; `memberCount` is always a number here.
- Drag.Started: d3's gesture counter behind `event.active` is not modelled. The number of other active gestures is a parameter supplied with each event.
- Hover.MouseOver: the hovered node is given by its index, as d3 version 5 passes it as the handler's second argument. Later d3 versions pass the event instead, and the handler's `nodes[index]` lookup would then fail; that is not modelled.

## Findings

| source | as written | input that shows it | evidently intended | confidence | as-written member | corrected member |
|---|---|---|---|---|---|---|
| static/situation-chart/js/main.js:174 | mouse-out sets every line's stroke to `#c2c2c2` (opaque), while the lines are drawn with `#c2c2c280` (half alpha) at line 67 | any chart with at least one link: hover any node, then leave it; every line is now drawn fully opaque instead of half transparent | restore the stroke the lines were drawn with, which the comment above that handler step describes as restoring the line style | medium; not executed | `Hover.MouseOutLosesEdgeAlpha` | `Hover.HoverRoundTrip` |
