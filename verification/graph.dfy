/** The graph builder of the situation chart: it turns the page's `groups`
    and `members` objects into the node list and the link list that the
    force layout and the drawing consume.

    A JavaScript object iterated with `for…in` is modelled as the sequence of
    its (key, record) entries in iteration order; the keys of one object are
    distinct, which `DistinctKeys` states where a property needs it. */
module Graph {
  import opened Optional

  const GroupColor: string := "#FF3030"
  const MemberColor: string := "#0080FF"
  const GroupPrefix: string := "group_"
  const MemberPrefix: string := "member_"

  /** A group record: display name, optional explicit size, member count. */
  datatype Group = Group(name: string, sizeOverride: Option<real>, memberCount: real)

  /** A member record: display name, optional level, ids of its groups in listing order. */
  datatype Member = Member(name: string, level: Option<real>, groups: seq<string>)

  /** A node descriptor as pushed by the builder; `level` is only set on member nodes. */
  datatype Node = Node(id: string, title: string, color: string, size: real, level: Option<real>)

  /** A link, with its endpoints already resolved to node ids. */
  datatype Edge = Edge(source: string, target: string)

  predicate StartsWith(s: string, prefix: string) {
    |prefix| <= |s| && s[..|prefix|] == prefix
  }

  predicate HasKey<T>(entries: seq<(string, T)>, key: string) {
    exists i :: 0 <= i < |entries| && entries[i].0 == key
  }

  /** The keys of a JavaScript object are pairwise distinct. */
  predicate DistinctKeys<T>(entries: seq<(string, T)>) {
    forall i, j :: 0 <= i < j < |entries| ==> entries[i].0 != entries[j].0
  }

  predicate HasNodeId(nodes: seq<Node>, id: string) {
    exists i :: 0 <= i < |nodes| && nodes[i].id == id
  }

  // ---------------------------------------------------------------------------
  // Radius formulas
  // ---------------------------------------------------------------------------

  /** `(group.sizeOverride || group.memberCount) / 2 + 10`. */
  function GroupSize(g: Group): (r: real)
    ensures Truthy(g.sizeOverride) ==> r == g.sizeOverride.value / 2.0 + 10.0
    ensures !Truthy(g.sizeOverride) ==> r == g.memberCount / 2.0 + 10.0
    ensures r >= 10.0 <==> Or(g.sizeOverride, g.memberCount) >= 0.0
  {
    Or(g.sizeOverride, g.memberCount) / 2.0 + 10.0
  }

  /** `(member.level || 1) / 10 + 1`: an absent or zero level counts as level 1,
      so the radius is positive for every non-negative level. */
  function MemberRadius(level: Option<real>): (r: real)
    ensures Truthy(level) ==> r == level.value / 10.0 + 1.0
    ensures !Truthy(level) ==> r == 1.1
    ensures (level.None? || level.value >= 0.0) ==> r >= 1.0
  {
    Or(level, 1.0) / 10.0 + 1.0
  }

  // ---------------------------------------------------------------------------
  // Nodes
  // ---------------------------------------------------------------------------

  function GroupNode(id: string, g: Group): Node {
    Node(GroupPrefix + id, g.name, GroupColor, GroupSize(g), None)
  }

  function MemberNode(id: string, m: Member): Node {
    Node(MemberPrefix + id, m.name, MemberColor, MemberRadius(m.level), m.level)
  }

  /** The node list: one node per group, in iteration order, followed by one
      node per member, in iteration order. */
  function Nodes(groups: seq<(string, Group)>, members: seq<(string, Member)>): (r: seq<Node>)
    ensures |r| == |groups| + |members|
    ensures forall i :: 0 <= i < |groups| ==>
              && r[i].id == GroupPrefix + groups[i].0
              && r[i].title == groups[i].1.name && r[i].color == GroupColor
              && r[i].size == GroupSize(groups[i].1) && r[i].level == None
    ensures forall i :: |groups| <= i < |r| ==>
              && r[i].id == MemberPrefix + members[i - |groups|].0
              && r[i].title == members[i - |groups|].1.name && r[i].color == MemberColor
              && r[i].size == MemberRadius(members[i - |groups|].1.level)
              && r[i].level == members[i - |groups|].1.level
  {
    var r := seq(|groups| + |members|, i requires 0 <= i < |groups| + |members| =>
      if i < |groups| then GroupNode(groups[i].0, groups[i].1)
      else MemberNode(members[i - |groups|].0, members[i - |groups|].1));
    assert forall i :: |groups| <= i < |r| ==> r[i] == MemberNode(members[i - |groups|].0, members[i - |groups|].1);
    r
  }

  // ---------------------------------------------------------------------------
  // Edges
  // ---------------------------------------------------------------------------

  /** The links of one member: one per listed group id, in listing order. */
  function MembershipEdges(id: string, gids: seq<string>): (r: seq<Edge>)
    ensures |r| == |gids|
    ensures forall j :: 0 <= j < |gids| ==> r[j] == Edge(MemberPrefix + id, GroupPrefix + gids[j])
  {
    if |gids| == 0 then []
    else MembershipEdges(id, gids[..|gids| - 1]) + [Edge(MemberPrefix + id, GroupPrefix + gids[|gids| - 1])]
  }

  /** The link list: the members' links concatenated in member iteration order. */
  function Edges(members: seq<(string, Member)>): seq<Edge> {
    if |members| == 0 then []
    else
      var last := members[|members| - 1];
      Edges(members[..|members| - 1]) + MembershipEdges(last.0, last.1.groups)
  }

  /** Total number of group memberships listed across all members. */
  function MembershipTotal(members: seq<(string, Member)>): nat {
    if |members| == 0 then 0 else |members[0].1.groups| + MembershipTotal(members[1..])
  }

  /** The inner loop of the builder: push one link per listed group id. */
  method PushMembershipEdges(links: seq<Edge>, id: string, gids: seq<string>) returns (r: seq<Edge>)
    ensures r == links + MembershipEdges(id, gids)
  {
    r := links;
    for t := 0 to |gids|
      invariant r == links + MembershipEdges(id, gids[..t])
    {
      assert gids[..t + 1][..t] == gids[..t];
      r := r + [Edge(MemberPrefix + id, GroupPrefix + gids[t])];
    }
    assert gids[..|gids|] == gids;
  }

  /** The builder's loops over `groups` and then `members`, producing both lists. */
  method BuildGraph(groups: seq<(string, Group)>, members: seq<(string, Member)>)
    returns (nodes: seq<Node>, links: seq<Edge>)
    ensures nodes == Nodes(groups, members)
    ensures links == Edges(members)
  {
    nodes := [];
    links := [];
    for i := 0 to |groups|
      invariant |nodes| == i
      invariant forall k :: 0 <= k < i ==> nodes[k] == GroupNode(groups[k].0, groups[k].1)
    {
      nodes := nodes + [GroupNode(groups[i].0, groups[i].1)];
    }
    for j := 0 to |members|
      invariant |nodes| == |groups| + j
      invariant forall k :: 0 <= k < |groups| ==> nodes[k] == GroupNode(groups[k].0, groups[k].1)
      invariant forall k :: |groups| <= k < |nodes| ==>
                  nodes[k] == MemberNode(members[k - |groups|].0, members[k - |groups|].1)
      invariant links == Edges(members[..j])
    {
      var (id, member) := members[j];
      nodes := nodes + [MemberNode(id, member)];
      links := PushMembershipEdges(links, id, member.groups);
      assert members[..j + 1][..j] == members[..j];
    }
    assert members[..|members|] == members;
  }

  // ---------------------------------------------------------------------------
  // Properties
  // ---------------------------------------------------------------------------

  lemma {:induction false} EdgesConcat(a: seq<(string, Member)>, b: seq<(string, Member)>)
    ensures Edges(a + b) == Edges(a) + Edges(b)
    decreases |b|
  {
    if |b| == 0 {
      assert a + b == a;
    } else {
      var b' := b[..|b| - 1];
      assert (a + b)[..|a + b| - 1] == a + b';
      assert (a + b)[|a + b| - 1] == b[|b| - 1];
      EdgesConcat(a, b');
    }
  }

  /** One link per (member, listed group id): the link count is the total
      number of memberships. */
  lemma {:induction false} EdgeCount(members: seq<(string, Member)>)
    ensures |Edges(members)| == MembershipTotal(members)
    decreases |members|
  {
    if |members| > 0 {
      assert members == [members[0]] + members[1..];
      EdgesConcat([members[0]], members[1..]);
      assert [members[0]][..0] == [];
      EdgeCount(members[1..]);
    }
  }

  /** Links come out in member order: those of earlier members, then member k's
      own links in listing order, then those of later members. */
  lemma {:induction false} EdgeOrder(members: seq<(string, Member)>, k: nat)
    requires k < |members|
    ensures Edges(members)
         == Edges(members[..k]) + MembershipEdges(members[k].0, members[k].1.groups) + Edges(members[k + 1..])
  {
    var before, here, after := members[..k], [members[k]], members[k + 1..];
    SplitAround(members, k);
    EdgesConcat(before + here, after);
    EdgesConcat(before, here);
    SingleMemberEdges(members[k]);
  }

  lemma SplitAround<T>(s: seq<T>, k: nat)
    requires k < |s|
    ensures s == (s[..k] + [s[k]]) + s[k + 1..]
  {
  }

  lemma SingleMemberEdges(m: (string, Member))
    ensures Edges([m]) == MembershipEdges(m.0, m.1.groups)
  {
    assert [m][..0] == [];
  }

  /** A link exists exactly for each (member, listed group id) pair. */
  lemma {:induction false} EdgeMembership(members: seq<(string, Member)>, e: Edge)
    ensures e in Edges(members) <==>
            exists k, j :: 0 <= k < |members| && 0 <= j < |members[k].1.groups|
                           && e == Edge(MemberPrefix + members[k].0, GroupPrefix + members[k].1.groups[j])
    decreases |members|
  {
    if |members| > 0 {
      var init := members[..|members| - 1];
      var last := members[|members| - 1];
      EdgeMembership(init, e);
      var mine := MembershipEdges(last.0, last.1.groups);
      if e in Edges(members) {
        if e in Edges(init) {
          var k, j :| 0 <= k < |init| && 0 <= j < |init[k].1.groups|
                      && e == Edge(MemberPrefix + init[k].0, GroupPrefix + init[k].1.groups[j]);
          assert members[k] == init[k];
        } else {
          assert e in mine;
          var j :| 0 <= j < |mine| && mine[j] == e;
          assert e == Edge(MemberPrefix + members[|members| - 1].0, GroupPrefix + members[|members| - 1].1.groups[j]);
        }
      } else {
        forall k, j | 0 <= k < |members| && 0 <= j < |members[k].1.groups|
          ensures e != Edge(MemberPrefix + members[k].0, GroupPrefix + members[k].1.groups[j])
        {
          if k < |init| {
            assert members[k] == init[k];
          } else {
            assert mine[j] in Edges(members);
          }
        }
      }
    }
  }

  /** Links only go from a member node id to a group node id. */
  lemma EdgeKinds(members: seq<(string, Member)>)
    ensures forall k :: 0 <= k < |Edges(members)| ==>
              StartsWith(Edges(members)[k].source, MemberPrefix) && StartsWith(Edges(members)[k].target, GroupPrefix)
  {
  }

  lemma PrefixCancel(p: string, a: string, b: string)
    requires p + a == p + b
    ensures a == b
  {
    assert a == (p + a)[|p|..];
    assert b == (p + b)[|p|..];
  }

  lemma PrefixesDisjoint(a: string, b: string)
    ensures GroupPrefix + a != MemberPrefix + b
  {
    assert (GroupPrefix + a)[0] == 'g';
    assert (MemberPrefix + b)[0] == 'm';
  }

  /** Every link endpoint names a produced node. */
  predicate EdgesResolve(nodes: seq<Node>, edges: seq<Edge>) {
    forall k :: 0 <= k < |edges| ==> HasNodeId(nodes, edges[k].source) && HasNodeId(nodes, edges[k].target)
  }

  /** Every group id listed by a member is a key of `groups`. */
  predicate GroupRefsKnown(groups: seq<(string, Group)>, members: seq<(string, Member)>) {
    forall k, j :: 0 <= k < |members| && 0 <= j < |members[k].1.groups| ==>
      HasKey(groups, members[k].1.groups[j])
  }

  /** If every listed group id is a known group, every link resolves to
      produced nodes (the builder itself does not check this). */
  lemma KnownGroupsResolve(groups: seq<(string, Group)>, members: seq<(string, Member)>)
    requires GroupRefsKnown(groups, members)
    ensures EdgesResolve(Nodes(groups, members), Edges(members))
  {
    var nodes := Nodes(groups, members);
    var edges := Edges(members);
    forall k | 0 <= k < |edges|
      ensures HasNodeId(nodes, edges[k].source) && HasNodeId(nodes, edges[k].target)
    {
      var e := edges[k];
      EdgeMembership(members, e);
      var a, b :| 0 <= a < |members| && 0 <= b < |members[a].1.groups|
                  && e == Edge(MemberPrefix + members[a].0, GroupPrefix + members[a].1.groups[b]);
      assert nodes[|groups| + a].id == e.source;
      assert HasKey(groups, members[a].1.groups[b]);
      var i :| 0 <= i < |groups| && groups[i].0 == members[a].1.groups[b];
      assert nodes[i].id == e.target;
    }
  }

  /** Conversely, if every link resolves, every listed group id is a known
      group: a `group_` id can only come from a group node. */
  lemma ResolvedEdgesKnowGroups(groups: seq<(string, Group)>, members: seq<(string, Member)>)
    requires EdgesResolve(Nodes(groups, members), Edges(members))
    ensures GroupRefsKnown(groups, members)
  {
    var nodes := Nodes(groups, members);
    var edges := Edges(members);
    forall a, b | 0 <= a < |members| && 0 <= b < |members[a].1.groups|
      ensures HasKey(groups, members[a].1.groups[b])
    {
      var gid := members[a].1.groups[b];
      var e := Edge(MemberPrefix + members[a].0, GroupPrefix + gid);
      EdgeMembership(members, e);
      var k :| 0 <= k < |edges| && edges[k] == e;
      assert HasNodeId(nodes, edges[k].target);
      var i :| 0 <= i < |nodes| && nodes[i].id == GroupPrefix + gid;
      if i < |groups| {
        PrefixCancel(GroupPrefix, groups[i].0, gid);
      } else {
        PrefixesDisjoint(gid, members[i - |groups|].0);
        assert false;
      }
    }
  }

  /** Referential integrity: every link resolves to produced nodes exactly
      when every listed group id is a known group. */
  lemma ReferentialIntegrity(groups: seq<(string, Group)>, members: seq<(string, Member)>)
    ensures EdgesResolve(Nodes(groups, members), Edges(members)) <==> GroupRefsKnown(groups, members)
  {
    if GroupRefsKnown(groups, members) {
      KnownGroupsResolve(groups, members);
    }
    if EdgesResolve(Nodes(groups, members), Edges(members)) {
      ResolvedEdgesKnowGroups(groups, members);
    }
  }

  /** Node ids are unique exactly when the keys of each input object are. */
  lemma UniqueNodeIds(groups: seq<(string, Group)>, members: seq<(string, Member)>)
    ensures (forall i, j :: 0 <= i < j < |Nodes(groups, members)| ==>
               Nodes(groups, members)[i].id != Nodes(groups, members)[j].id)
            <==> DistinctKeys(groups) && DistinctKeys(members)
  {
    var nodes := Nodes(groups, members);
    if DistinctKeys(groups) && DistinctKeys(members) {
      forall i, j | 0 <= i < j < |nodes| ensures nodes[i].id != nodes[j].id {
        if i < |groups| && j < |groups| {
          if nodes[i].id == nodes[j].id { PrefixCancel(GroupPrefix, groups[i].0, groups[j].0); }
        } else if i < |groups| {
          PrefixesDisjoint(groups[i].0, members[j - |groups|].0);
        } else {
          if nodes[i].id == nodes[j].id {
            PrefixCancel(MemberPrefix, members[i - |groups|].0, members[j - |groups|].0);
          }
        }
      }
    }
    if forall i, j :: 0 <= i < j < |nodes| ==> nodes[i].id != nodes[j].id {
      forall i, j | 0 <= i < j < |groups| ensures groups[i].0 != groups[j].0 {
        assert nodes[i].id != nodes[j].id;
      }
      forall i, j | 0 <= i < j < |members| ensures members[i].0 != members[j].0 {
        assert nodes[|groups| + i].id != nodes[|groups| + j].id;
      }
    }
  }

  /** The worked example: one group of four members and one level-5 member of it. */
  lemma SmallChart()
    ensures var groups := [("1", Group("G1", None, 4.0))];
            var members := [("1", Member("M1", Some(5.0), ["1"]))];
            && Nodes(groups, members)
               == [Node("group_1", "G1", "#FF3030", 12.0, None), Node("member_1", "M1", "#0080FF", 1.5, Some(5.0))]
            && Edges(members) == [Edge("member_1", "group_1")]
  {
    var members := [("1", Member("M1", Some(5.0), ["1"]))];
    assert GroupPrefix + "1" == "group_1";
    assert MemberPrefix + "1" == "member_1";
    assert members[..0] == [];
    assert ["1"][..0] == [];
    assert MembershipEdges("1", ["1"]) == [Edge("member_1", "group_1")];
    assert Edges(members) == Edges([]) + MembershipEdges("1", ["1"]);
  }
}
