/** The `#level-sized` checkbox: it redraws every member circle either at a
    fixed radius or at the radius its level gives, then reheats the layout.
    Only the drawn radii change; the nodes (and so the `size` that the
    collision force and the label offset read) are left as built. */
module LevelToggle {
  import opened Graph
  import opened Layout

  /** Radius of every member circle while the box is unchecked. */
  const FixedMemberRadius: real := 5.0

  /** The filter `d.id.startsWith("member_")`. */
  predicate IsMemberCircle(n: Node) {
    StartsWith(n.id, MemberPrefix)
  }

  /** The circles as first drawn: each at its node's size. */
  function InitialRadii(nodes: seq<Node>): (r: seq<real>)
    ensures |r| == |nodes|
    ensures forall k :: 0 <= k < |nodes| ==> r[k] == nodes[k].size
  {
    seq(|nodes|, k requires 0 <= k < |nodes| => nodes[k].size)
  }

  /** The radius logic of the change handler: member circles get the fixed
      radius when unchecked and `(level || 1) / 10 + 1` when checked; every
      other circle keeps its radius. */
  function Toggle(nodes: seq<Node>, radii: seq<real>, checked: bool): (r: seq<real>)
    requires |radii| == |nodes|
    ensures |r| == |nodes|
    ensures forall k :: 0 <= k < |nodes| && IsMemberCircle(nodes[k]) && !checked ==> r[k] == FixedMemberRadius
    ensures forall k :: 0 <= k < |nodes| && IsMemberCircle(nodes[k]) && checked ==>
              r[k] == MemberRadius(nodes[k].level)
    ensures forall k :: 0 <= k < |nodes| && !IsMemberCircle(nodes[k]) ==> r[k] == radii[k]
  {
    seq(|nodes|, k requires 0 <= k < |nodes| =>
      if !IsMemberCircle(nodes[k]) then radii[k]
      else if checked then MemberRadius(nodes[k].level)
      else FixedMemberRadius)
  }

  /** The whole change handler: new radii, and the simulation reheated. */
  function LevelSizedChange(nodes: seq<Node>, radii: seq<real>, checked: bool, e: Engine): (r: (seq<real>, Engine))
    requires |radii| == |nodes|
    ensures r.0 == Toggle(nodes, radii, checked)
    ensures r.1.alpha == ReheatAlpha && r.1.running
    ensures r.1.alphaTarget == e.alphaTarget && r.1.centreX == e.centreX && r.1.centreY == e.centreY
  {
    (Toggle(nodes, radii, checked), Reheat(e))
  }

  /** Only the last checkbox state matters: toggling forgets the earlier one. */
  lemma ToggleLastWins(nodes: seq<Node>, radii: seq<real>, first: bool, second: bool)
    requires |radii| == |nodes|
    ensures Toggle(nodes, Toggle(nodes, radii, first), second) == Toggle(nodes, radii, second)
  {
  }

  /** Applying the same checkbox state twice gives the radii of applying it once. */
  lemma ToggleIdempotent(nodes: seq<Node>, radii: seq<real>, checked: bool)
    requires |radii| == |nodes|
    ensures Toggle(nodes, Toggle(nodes, radii, checked), checked) == Toggle(nodes, radii, checked)
  {
    ToggleLastWins(nodes, radii, checked, checked);
  }

  /** In a built chart the filter picks out exactly the member nodes. */
  lemma MemberCirclesAreMembers(groups: seq<(string, Group)>, members: seq<(string, Member)>, k: nat)
    requires k < |groups| + |members|
    ensures IsMemberCircle(Nodes(groups, members)[k]) <==> k >= |groups|
  {
    var n := Nodes(groups, members)[k];
    if k < |groups| {
      assert n.id == GroupPrefix + groups[k].0;
      assert n.id[0] == 'g';
      assert MemberPrefix[0] == 'm';
      if |MemberPrefix| <= |n.id| {
        assert n.id[..|MemberPrefix|][0] == n.id[0];
      }
    } else {
      assert n.id == MemberPrefix + members[k - |groups|].0;
      assert n.id[..|MemberPrefix|] == MemberPrefix;
    }
  }

  /** Checking the box draws a built chart exactly as it was first drawn,
      whatever the member circles showed before; unchecking draws the group
      circles as first drawn and every member circle at the fixed radius. */
  lemma ToggleOnBuiltChart(groups: seq<(string, Group)>, members: seq<(string, Member)>, radii: seq<real>)
    requires |radii| == |groups| + |members|
    requires forall k :: 0 <= k < |groups| ==> radii[k] == Nodes(groups, members)[k].size
    ensures Toggle(Nodes(groups, members), radii, true) == InitialRadii(Nodes(groups, members))
    ensures forall k :: 0 <= k < |groups| + |members| ==>
              Toggle(Nodes(groups, members), radii, false)[k]
              == (if k < |groups| then GroupSize(groups[k].1) else FixedMemberRadius)
  {
    var nodes := Nodes(groups, members);
    forall k | 0 <= k < |nodes|
      ensures Toggle(nodes, radii, true)[k] == nodes[k].size
      ensures Toggle(nodes, radii, false)[k] == (if k < |groups| then GroupSize(groups[k].1) else FixedMemberRadius)
    {
      MemberCirclesAreMembers(groups, members, k);
    }
  }

  /** Unchecking and then checking the box restores the circles as first drawn. */
  lemma OffThenOnRestores(groups: seq<(string, Group)>, members: seq<(string, Member)>)
    ensures var nodes := Nodes(groups, members);
            Toggle(nodes, Toggle(nodes, InitialRadii(nodes), false), true) == InitialRadii(nodes)
  {
    var nodes := Nodes(groups, members);
    ToggleLastWins(nodes, InitialRadii(nodes), false, true);
    ToggleOnBuiltChart(groups, members, InitialRadii(nodes));
  }
}
