/** What survives loading an asset into a freshly opened editor and saving it back. The
    save writes links node by node, so the global link order can change; the first link
    (the entry convention), the links leaving each node and their order, the node records
    and the properties all come back. */
module RoundTrip {
  import opened Wrappers
  import opened Runtime
  import opened GraphView
  import opened GraphSaveUtility

  // ================================================================ regrouping links

  /** The links grouped by base node, following the order of `guids`. */
  function Regroup(links: seq<NodeLinkData>, guids: seq<string>): (r: seq<NodeLinkData>)
    ensures |guids| > 0 ==> r == OutgoingLinks(links, guids[0]) + Regroup(links, guids[1..])
  {
    if |guids| == 0 then [] else OutgoingLinks(links, guids[0]) + Regroup(links, guids[1..])
  }

  /** No GUID appears twice. */
  ghost predicate DistinctGuids(guids: seq<string>) {
    forall i, j :: 0 <= i < j < |guids| ==> guids[i] != guids[j]
  }

  /** A list of distinct GUIDs: its tail is distinct too, and its head does not occur again. */
  lemma DistinctGuidsTail(guids: seq<string>, h: string)
    requires |guids| > 0 && DistinctGuids(guids)
    ensures DistinctGuids(guids[1..])
    ensures h in guids <==> h == guids[0] || h in guids[1..]
    ensures h == guids[0] ==> h !in guids[1..]
  {
    var rest := guids[1..];
    assert guids == [guids[0]] + rest;
    forall i | 0 <= i < |rest|
      ensures rest[i] == guids[i + 1]
    {
    }
  }

  /** Grouping by distinct GUIDs keeps, for each listed GUID, exactly the links leaving it,
      in their original order, and nothing for any other GUID. */
  lemma {:induction false} OutgoingOfRegroup(links: seq<NodeLinkData>, guids: seq<string>, h: string)
    requires DistinctGuids(guids)
    ensures OutgoingLinks(Regroup(links, guids), h) == if h in guids then OutgoingLinks(links, h) else []
    decreases |guids|
  {
    if |guids| > 0 {
      var rest := guids[1..];
      DistinctGuidsTail(guids, h);
      OutgoingConcat(OutgoingLinks(links, guids[0]), Regroup(links, rest), h);
      OutgoingOfOutgoing(links, guids[0], h);
      OutgoingOfRegroup(links, rest, h);
    }
  }

  /** A GUID no link leaves has no outgoing links. */
  lemma OutgoingOfUnusedBase(links: seq<NodeLinkData>, h: string)
    requires forall k :: 0 <= k < |links| ==> links[k].baseNodeGuid != h
    ensures OutgoingLinks(links, h) == []
  {
    if |OutgoingLinks(links, h)| > 0 {
      assert OutgoingLinks(links, h)[0] in OutgoingLinks(links, h);
    }
  }

  /** When the GUIDs are distinct and cover every link's base, regrouping loses and reorders
      nothing as far as any one node can tell. */
  lemma RegroupKeepsEveryNodesLinks(links: seq<NodeLinkData>, guids: seq<string>, h: string)
    requires DistinctGuids(guids)
    requires forall k :: 0 <= k < |links| ==> links[k].baseNodeGuid in guids
    ensures OutgoingLinks(Regroup(links, guids), h) == OutgoingLinks(links, h)
  {
    OutgoingOfRegroup(links, guids, h);
    if h !in guids {
      OutgoingOfUnusedBase(links, h);
    }
  }

  // ================================================================ identities

  /** No two nodes share an identity. */
  ghost predicate DistinctIds(nodes: seq<DialogueNode>) {
    forall i, j :: 0 <= i < j < |nodes| ==> nodes[i].id != nodes[j].id
  }

  /** `after` is `before` with at most the positions changed: same length, and node by node
      the same identity, GUID, text, kind and ports. */
  ghost predicate SameNodesUpToPosition(after: seq<DialogueNode>, before: seq<DialogueNode>) {
    && |after| == |before|
    && forall i :: 0 <= i < |before| ==> after[i].(position := before[i].position) == before[i]
  }

  /** With distinct identities, looking up a node's identity finds that node. */
  lemma {:induction false} NodeByIdFindsNode(nodes: seq<DialogueNode>, i: nat)
    requires DistinctIds(nodes) && i < |nodes|
    ensures NodeById(nodes, nodes[i].id) == Some(nodes[i])
    decreases i
  {
    if i > 0 {
      var rest := nodes[1..];
      assert DistinctIds(rest) by {
        forall a, b | 0 <= a < b < |rest| ensures rest[a].id != rest[b].id {
          assert rest[a] == nodes[a + 1] && rest[b] == nodes[b + 1];
        }
      }
      assert nodes[0].id != nodes[i].id;
      assert rest[i - 1] == nodes[i];
      NodeByIdFindsNode(rest, i - 1);
    }
  }

  /** The GUIDs of a node sequence, in order. */
  function GuidsOf(nodes: seq<DialogueNode>): (r: seq<string>)
    ensures |r| == |nodes|
    ensures forall i :: 0 <= i < |nodes| ==> r[i] == nodes[i].guid
  {
    if |nodes| == 0 then [] else [nodes[0].guid] + GuidsOf(nodes[1..])
  }

  // ================================================================ wiring

  /** Every link leaving `n` can be drawn, and `n`'s ports carry the links' names. */
  ghost predicate Wired(all: seq<DialogueNode>, c: DialogueContainer, n: DialogueNode) {
    var conns := OutgoingLinks(c.nodeLinks, n.guid);
    forall k :: 0 <= k < |conns| ==>
      Wirable(all, c.dialogueNodeData, n, conns, 0, k) && n.outputPorts[k] == conns[k].portName
  }

  /** An edge the loader draws from `n` to the first node with GUID `t` saves back as the
      link `(n's GUID, port, t)`, even after positions have moved. */
  lemma DrawnEdgeSavesAsLink(after: seq<DialogueNode>, all: seq<DialogueNode>, i: nat, port: string, t: string)
    requires SameNodesUpToPosition(after, all) && DistinctIds(all) && i < |all|
    requires FirstNodeWithGuid(all, t).Some?
    ensures LinkFor(after, Edge(all[i].id, port, Some(FirstNodeWithGuid(all, t).value.id)))
         == Some(NodeLinkData(all[i].guid, port, t))
  {
    var m := FirstGuidIndex(all, t).value;
    assert DistinctIds(after) by {
      forall a, b | 0 <= a < b < |after| ensures after[a].id != after[b].id {
        assert after[a].id == all[a].id && after[b].id == all[b].id;
      }
    }
    assert after[i].id == all[i].id && after[m].id == all[m].id;
    NodeByIdFindsNode(after, i);
    NodeByIdFindsNode(after, m);
    assert after[i].guid == all[i].guid && after[m].guid == t;
  }

  /** Loading draws one edge per link leaving `all[i]`, and saving those edges gives back
      exactly those links, in order. */
  lemma ConnectLinksSavesBack(after: seq<DialogueNode>, all: seq<DialogueNode>, c: DialogueContainer, i: nat)
    requires SameNodesUpToPosition(after, all) && DistinctIds(all) && i < |all|
    requires Wired(all, c, all[i])
    ensures var conns := OutgoingLinks(c.nodeLinks, all[i].guid);
            var r := ConnectLinks(all, c.dialogueNodeData, all[i], conns, 0);
            r.Ok? && SaveLinks(after, r.value) == conns
  {
    var n := all[i];
    var conns := OutgoingLinks(c.nodeLinks, n.guid);
    var r := ConnectLinks(all, c.dialogueNodeData, n, conns, 0);
    var es := r.value;
    forall k | 0 <= k < |es|
      ensures LinkFor(after, es[k]) == Some(conns[k])
    {
      assert conns[k] in conns;
      DrawnEdgeSavesAsLink(after, all, i, n.outputPorts[k], conns[k].targetNodeGuid);
    }
    var saved := SaveLinks(after, es);
    assert |saved| == |conns|;
    assert forall k :: 0 <= k < |conns| ==> saved[k] == conns[k];
  }

  /** Wiring nodes one after another and saving gives the links regrouped in node order. */
  lemma {:induction false} ConnectNodesSavesBack(after: seq<DialogueNode>, all: seq<DialogueNode>,
                                                 c: DialogueContainer, m: nat)
    requires SameNodesUpToPosition(after, all) && DistinctIds(all) && m <= |all|
    requires forall i :: m <= i < |all| ==> Wired(all, c, all[i])
    ensures ConnectNodes(all, c, all[m..]).Ok?
    ensures SaveLinks(after, ConnectNodes(all, c, all[m..]).value) == Regroup(c.nodeLinks, GuidsOf(all[m..]))
    decreases |all| - m
  {
    var from := all[m..];
    if m < |all| {
      assert from[0] == all[m];
      assert from[1..] == all[m + 1..];
      ConnectLinksSavesBack(after, all, c, m);
      ConnectNodesSavesBack(after, all, c, m + 1);
      var es := ConnectLinks(all, c.dialogueNodeData, all[m], OutgoingLinks(c.nodeLinks, all[m].guid), 0).value;
      var rest := ConnectNodes(all, c, all[m + 1..]).value;
      SaveLinksConcat(after, es, rest);
      assert GuidsOf(from)[0] == all[m].guid;
      assert GuidsOf(from)[1..] == GuidsOf(all[m + 1..]);
    }
  }

  // ================================================================ loading into a fresh editor

  /** The GUIDs of the node records, in order. */
  function RecordGuids(data: seq<DialogueNodeData>): (r: seq<string>)
    ensures |r| == |data|
    ensures forall k :: 0 <= k < |data| ==> r[k] == data[k].nodeGuid
  {
    if |data| == 0 then [] else [data[0].nodeGuid] + RecordGuids(data[1..])
  }

  /** An asset of a shape the editor can save, though not every asset it saves has it:
      the first link leaves the START node by its "Next" port and is the only link leaving
      it; records have distinct GUIDs, none of them the START node's; every link leaves the
      START node or a record, enters a record, and has a non-empty port name; no two
      properties share a name. */
  ghost predicate LoadableContainer(c: DialogueContainer) {
    && |c.nodeLinks| > 0
    && var entry := c.nodeLinks[0].baseNodeGuid;
    && OutgoingLinks(c.nodeLinks, entry) == [c.nodeLinks[0]]
    && c.nodeLinks[0].portName == "Next"
    && DistinctGuids(RecordGuids(c.dialogueNodeData))
    && (forall k :: 0 <= k < |c.dialogueNodeData| ==> c.dialogueNodeData[k].nodeGuid != entry)
    && (forall k :: 0 <= k < |c.nodeLinks| ==>
          c.nodeLinks[k].baseNodeGuid == entry || HasNodeData(c.dialogueNodeData, c.nodeLinks[k].baseNodeGuid))
    && (forall k :: 0 <= k < |c.nodeLinks| ==> HasNodeData(c.dialogueNodeData, c.nodeLinks[k].targetNodeGuid))
    && (forall k :: 0 <= k < |c.nodeLinks| ==> c.nodeLinks[k].portName != "")
    && DistinctNames(c.exposedProperties)
  }

  /** The nodes of a fresh editor after `GenerateDialogueNodes`: the START node, now
      carrying the asset's entry GUID, followed by one node per record. */
  function LoadedNodes(entryId: NodeId, c: DialogueContainer): (r: seq<DialogueNode>)
    requires |c.nodeLinks| > 0
  {
    [EntryPointNode(entryId, c.nodeLinks[0].baseNodeGuid)]
      + GeneratedNodes(c.dialogueNodeData, c.nodeLinks, entryId + 1)
  }

  /** Clearing a fresh editor only renames its START node. */
  lemma ClearFreshEditor(entryId: NodeId, entryGuid: string, c: DialogueContainer)
    requires |c.nodeLinks| > 0
    ensures ClearGraph(NewStoryGraphView(entryId, entryGuid), c)
         == Ok(NewStoryGraphView(entryId, c.nodeLinks[0].baseNodeGuid))
  {
    var g := NewStoryGraphView(entryId, entryGuid);
    var renamed := g.nodes[0 := g.nodes[0].(guid := c.nodeLinks[0].baseNodeGuid)];
    assert renamed == [EntryPointNode(entryId, c.nodeLinks[0].baseNodeGuid)];
    assert EntryNodes(renamed) == renamed;
  }

  /** The loaded nodes, position by position. */
  lemma LoadedNodeAt(entryId: NodeId, c: DialogueContainer, i: nat)
    requires |c.nodeLinks| > 0 && i < |c.dialogueNodeData| + 1
    ensures |LoadedNodes(entryId, c)| == |c.dialogueNodeData| + 1
    ensures var n := LoadedNodes(entryId, c)[i];
            && n.id == entryId + i
            && (i == 0 ==> n == EntryPointNode(entryId, c.nodeLinks[0].baseNodeGuid))
            && (i > 0 ==> BuiltFrom(n, c.dialogueNodeData[i - 1], c.nodeLinks))
  {
    var made := GeneratedNodes(c.dialogueNodeData, c.nodeLinks, entryId + 1);
    var all := [EntryPointNode(entryId, c.nodeLinks[0].baseNodeGuid)] + made;
    assert LoadedNodes(entryId, c) == all;
    if i > 0 {
      assert all[i] == made[i - 1];
    }
  }

  /** The loaded nodes' GUIDs are the entry's followed by the records'. */
  lemma LoadedGuids(entryId: NodeId, c: DialogueContainer)
    requires |c.nodeLinks| > 0
    ensures GuidsOf(LoadedNodes(entryId, c)) == [c.nodeLinks[0].baseNodeGuid] + RecordGuids(c.dialogueNodeData)
  {
    var all := LoadedNodes(entryId, c);
    var guids := GuidsOf(all);
    var expected := [c.nodeLinks[0].baseNodeGuid] + RecordGuids(c.dialogueNodeData);
    LoadedNodeAt(entryId, c, 0);
    forall i | 0 <= i < |guids| ensures guids[i] == expected[i] {
      LoadedNodeAt(entryId, c, i);
    }
  }

  /** The loaded nodes have distinct identities. */
  lemma LoadedIdsDistinct(entryId: NodeId, c: DialogueContainer)
    requires |c.nodeLinks| > 0
    ensures DistinctIds(LoadedNodes(entryId, c))
  {
    var all := LoadedNodes(entryId, c);
    LoadedNodeAt(entryId, c, 0);
    forall i, j | 0 <= i < j < |all| ensures all[i].id != all[j].id {
      LoadedNodeAt(entryId, c, i);
      LoadedNodeAt(entryId, c, j);
    }
  }

  /** Only the first of the loaded nodes is a START node. */
  lemma LoadedEntryOnlyFirst(entryId: NodeId, c: DialogueContainer)
    requires |c.nodeLinks| > 0
    ensures forall i :: 1 <= i < |LoadedNodes(entryId, c)| ==> !LoadedNodes(entryId, c)[i].entryPoint
  {
    LoadedNodeAt(entryId, c, 0);
    forall i | 1 <= i < |LoadedNodes(entryId, c)| ensures !LoadedNodes(entryId, c)[i].entryPoint {
      LoadedNodeAt(entryId, c, i);
    }
  }

  /** The first node with a GUID the leading START node does not carry is not a START node. */
  lemma FirstWithGuidPastEntry(all: seq<DialogueNode>, t: string, m: nat)
    requires 0 < m < |all| && all[m].guid == t && all[0].guid != t
    requires forall i :: 1 <= i < |all| ==> !all[i].entryPoint
    ensures FirstNodeWithGuid(all, t).Some? && !FirstNodeWithGuid(all, t).value.entryPoint
  {
    var i := FirstGuidIndex(all, t).value;
    assert i <= m;
  }

  /** Every link of a loadable asset targets a record, which resolves among the loaded
      nodes to a node with an input port. */
  ghost predicate TargetsResolve(all: seq<DialogueNode>, c: DialogueContainer) {
    forall k :: 0 <= k < |c.nodeLinks| ==>
      && FirstNodeWithGuid(all, c.nodeLinks[k].targetNodeGuid).Some?
      && !FirstNodeWithGuid(all, c.nodeLinks[k].targetNodeGuid).value.entryPoint
      && HasNodeData(c.dialogueNodeData, c.nodeLinks[k].targetNodeGuid)
  }

  /** A record whose GUID is not the entry's resolves among the loaded nodes to the node
      built from it, or an earlier one, and that node is not a START node. */
  lemma LoadedRecordResolves(entryId: NodeId, c: DialogueContainer, d: nat)
    requires |c.nodeLinks| > 0 && d < |c.dialogueNodeData|
    requires c.dialogueNodeData[d].nodeGuid != c.nodeLinks[0].baseNodeGuid
    ensures FirstNodeWithGuid(LoadedNodes(entryId, c), c.dialogueNodeData[d].nodeGuid).Some?
    ensures !FirstNodeWithGuid(LoadedNodes(entryId, c), c.dialogueNodeData[d].nodeGuid).value.entryPoint
  {
    var all := LoadedNodes(entryId, c);
    LoadedEntryOnlyFirst(entryId, c);
    LoadedNodeAt(entryId, c, 0);
    LoadedNodeAt(entryId, c, d + 1);
    FirstWithGuidPastEntry(all, c.dialogueNodeData[d].nodeGuid, d + 1);
  }

  /** In the loaded nodes of a loadable asset, every link's target resolves. */
  lemma LoadedTargetsResolve(entryId: NodeId, c: DialogueContainer)
    requires LoadableContainer(c)
    ensures TargetsResolve(LoadedNodes(entryId, c), c)
  {
    var all := LoadedNodes(entryId, c);
    forall k | 0 <= k < |c.nodeLinks|
      ensures FirstNodeWithGuid(all, c.nodeLinks[k].targetNodeGuid).Some?
      ensures !FirstNodeWithGuid(all, c.nodeLinks[k].targetNodeGuid).value.entryPoint
    {
      var t := c.nodeLinks[k].targetNodeGuid;
      assert HasNodeData(c.dialogueNodeData, t);
      var d :| 0 <= d < |c.dialogueNodeData| && c.dialogueNodeData[d].nodeGuid == t;
      LoadedRecordResolves(entryId, c, d);
    }
  }

  /** A node with one port per link leaving it, named after the links, can draw them all
      once the targets resolve. */
  lemma WiredWhenPortsMatch(all: seq<DialogueNode>, c: DialogueContainer, n: DialogueNode)
    requires TargetsResolve(all, c)
    requires var conns := OutgoingLinks(c.nodeLinks, n.guid);
             |n.outputPorts| == |conns| && forall k :: 0 <= k < |conns| ==> n.outputPorts[k] == conns[k].portName
    ensures Wired(all, c, n)
  {
    var conns := OutgoingLinks(c.nodeLinks, n.guid);
    forall k | 0 <= k < |conns| ensures Wirable(all, c.dialogueNodeData, n, conns, 0, k) {
      assert conns[k] in conns;
    }
  }

  /** Every loaded node can draw all of its links. */
  lemma LoadedNodesWired(entryId: NodeId, c: DialogueContainer, i: nat)
    requires LoadableContainer(c)
    requires i < |c.dialogueNodeData| + 1
    ensures Wired(LoadedNodes(entryId, c), c, LoadedNodes(entryId, c)[i])
  {
    var all := LoadedNodes(entryId, c);
    LoadedTargetsResolve(entryId, c);
    LoadedNodeAt(entryId, c, i);
    var n := all[i];
    var conns := OutgoingLinks(c.nodeLinks, n.guid);
    if i > 0 {
      forall k | 0 <= k < |conns| ensures n.outputPorts[k] == conns[k].portName {
        assert conns[k] in conns;
      }
    }
    WiredWhenPortsMatch(all, c, n);
  }

  /** Generating the records' nodes in a cleared fresh editor gives the loaded nodes. */
  lemma GenerateInFreshEditor(entryId: NodeId, c: DialogueContainer)
    requires |c.nodeLinks| > 0
    ensures var g := GenerateDialogueNodes(NewStoryGraphView(entryId, c.nodeLinks[0].baseNodeGuid), c);
            g.nodes == LoadedNodes(entryId, c) && g.edges == [] && g.groups == [] && g.exposedProperties == []
  {
    var entry := EntryPointNode(entryId, c.nodeLinks[0].baseNodeGuid);
    var g := NewStoryGraphView(entryId, c.nodeLinks[0].baseNodeGuid);
    assert g.nodes == [entry];
    assert NextNodeId(g.nodes) == entryId + 1 by {
      assert g.nodes[1..] == [];
    }
    var made := GeneratedNodes(c.dialogueNodeData, c.nodeLinks, entryId + 1);
    assert GenerateDialogueNodes(g, c) == g.(nodes := [entry] + made);
  }

  /** Wiring the loaded nodes succeeds. */
  lemma LoadedNodesConnect(entryId: NodeId, c: DialogueContainer)
    requires LoadableContainer(c)
    ensures DistinctIds(LoadedNodes(entryId, c))
    ensures forall i :: 0 <= i < |LoadedNodes(entryId, c)| ==> Wired(LoadedNodes(entryId, c), c, LoadedNodes(entryId, c)[i])
    ensures ConnectNodes(LoadedNodes(entryId, c), c, LoadedNodes(entryId, c)).Ok?
  {
    var all := LoadedNodes(entryId, c);
    LoadedIdsDistinct(entryId, c);
    LoadedNodeAt(entryId, c, 0);
    forall i | 0 <= i < |all| ensures Wired(all, c, all[i]) {
      LoadedNodesWired(entryId, c, i);
    }
    assert all[0..] == all;
    ConnectNodesSavesBack(all, all, c, 0);
  }

  /** Wiring a view that has nodes only: every link drawn and the targets moved to their
      stored positions. */
  lemma ConnectBareView(all: seq<DialogueNode>, c: DialogueContainer) returns (after: seq<DialogueNode>)
    requires ConnectNodes(all, c, all).Ok?
    ensures SameNodesUpToPosition(after, all)
    ensures forall i :: 0 <= i < |after| ==> after[i] == RestoredNode(all, c.dialogueNodeData, c.nodeLinks, i)
    ensures ConnectDialogueNodes(StoryGraphView(all, [], [], []), c)
         == Ok(StoryGraphView(after, ConnectNodes(all, c, all).value, [], []))
  {
    var g3 := ConnectDialogueNodes(StoryGraphView(all, [], [], []), c).value;
    after := g3.nodes;
    var es := ConnectNodes(all, c, all).value;
    assert [] + es == es;
    assert g3.edges == es;
    assert g3.groups == [] && g3.exposedProperties == [];
  }

  /** `LoadNarrative` on a fresh editor, step by step: the START node renamed, one node per
      record, every link drawn, positions restored, the properties copied and the comment
      blocks rebuilt. */
  lemma FreshLoad(entryId: NodeId, entryGuid: string, c: DialogueContainer) returns (after: seq<DialogueNode>)
    requires LoadableContainer(c)
    ensures ConnectNodes(LoadedNodes(entryId, c), c, LoadedNodes(entryId, c)).Ok?
    ensures SameNodesUpToPosition(after, LoadedNodes(entryId, c))
    ensures forall i :: 0 <= i < |after| ==>
              after[i] == RestoredNode(LoadedNodes(entryId, c), c.dialogueNodeData, c.nodeLinks, i)
    ensures LoadContainer(NewStoryGraphView(entryId, entryGuid), c).Ok?
    ensures var v := LoadContainer(NewStoryGraphView(entryId, entryGuid), c).value;
            && v.nodes == after
            && v.edges == ConnectNodes(LoadedNodes(entryId, c), c, LoadedNodes(entryId, c)).value
            && v.exposedProperties == c.exposedProperties
            && |v.groups| == |c.commentBlockData|
            && forall k :: 0 <= k < |c.commentBlockData| ==>
                 v.groups[k] == Group(c.commentBlockData[k].title, c.commentBlockData[k].position,
                                      ContainedNodes(after, c.commentBlockData[k].childNodes))
  {
    ClearFreshEditor(entryId, entryGuid, c);
    GenerateInFreshEditor(entryId, c);
    LoadedNodesConnect(entryId, c);
    after := ConnectBareView(LoadedNodes(entryId, c), c);
    var g3 := StoryGraphView(after, ConnectNodes(LoadedNodes(entryId, c), c, LoadedNodes(entryId, c)).value, [], []);
    var g5 := GenerateCommentBlocks(AddExposedProperties(g3, c), c);
    assert LoadContainer(NewStoryGraphView(entryId, entryGuid), c) == Ok(g5);
  }

  // ================================================================ saving back

  /** The entry GUID and the record GUIDs of a loadable asset are all distinct. */
  lemma LoadableGuidsDistinct(c: DialogueContainer)
    requires LoadableContainer(c)
    ensures DistinctGuids([c.nodeLinks[0].baseNodeGuid] + RecordGuids(c.dialogueNodeData))
  {
    var guids := [c.nodeLinks[0].baseNodeGuid] + RecordGuids(c.dialogueNodeData);
    var records := RecordGuids(c.dialogueNodeData);
    forall i, j | 0 <= i < j < |guids| ensures guids[i] != guids[j] {
      assert guids[j] == records[j - 1];
      if i > 0 {
        assert guids[i] == records[i - 1];
      }
    }
  }

  /** Every link of a loadable asset leaves the entry or a record. */
  lemma LoadableBasesListed(c: DialogueContainer)
    requires LoadableContainer(c)
    ensures forall k :: 0 <= k < |c.nodeLinks| ==>
              c.nodeLinks[k].baseNodeGuid in [c.nodeLinks[0].baseNodeGuid] + RecordGuids(c.dialogueNodeData)
  {
    var guids := [c.nodeLinks[0].baseNodeGuid] + RecordGuids(c.dialogueNodeData);
    forall k | 0 <= k < |c.nodeLinks| ensures c.nodeLinks[k].baseNodeGuid in guids {
      var b := c.nodeLinks[k].baseNodeGuid;
      if b != c.nodeLinks[0].baseNodeGuid {
        var d :| 0 <= d < |c.dialogueNodeData| && c.dialogueNodeData[d].nodeGuid == b;
        assert guids[d + 1] == b;
      }
    }
  }

  /** The edges drawn between the loaded nodes save back, positions moved or not, as the
      asset's links regrouped node by node. */
  lemma SavedLinksOfLoadedNodes(entryId: NodeId, c: DialogueContainer, after: seq<DialogueNode>)
    requires LoadableContainer(c)
    requires SameNodesUpToPosition(after, LoadedNodes(entryId, c))
    ensures ConnectNodes(LoadedNodes(entryId, c), c, LoadedNodes(entryId, c)).Ok?
    ensures SaveLinks(after, ConnectNodes(LoadedNodes(entryId, c), c, LoadedNodes(entryId, c)).value)
         == Regroup(c.nodeLinks, [c.nodeLinks[0].baseNodeGuid] + RecordGuids(c.dialogueNodeData))
  {
    var all := LoadedNodes(entryId, c);
    LoadedNodesConnect(entryId, c);
    assert all[0..] == all;
    ConnectNodesSavesBack(after, all, c, 0);
    LoadedGuids(entryId, c);
  }

  /** The edges of a fresh load save back as the asset's links regrouped node by node,
      START node first, then the records in order. */
  lemma SavedLinksOfFreshLoad(entryId: NodeId, entryGuid: string, c: DialogueContainer)
    requires LoadableContainer(c)
    ensures LoadContainer(NewStoryGraphView(entryId, entryGuid), c).Ok?
    ensures var v := LoadContainer(NewStoryGraphView(entryId, entryGuid), c).value;
            && SaveLinks(v.nodes, v.edges)
               == Regroup(c.nodeLinks, [c.nodeLinks[0].baseNodeGuid] + RecordGuids(c.dialogueNodeData))
            && v.exposedProperties == c.exposedProperties
  {
    var after := FreshLoad(entryId, entryGuid, c);
    SavedLinksOfLoadedNodes(entryId, c, after);
  }

  /** Loading a loadable asset into a fresh editor and saving it again writes links that
      start with the same entry link, and give every node exactly the links, in the same
      order, that it had; the properties come back verbatim. */
  lemma LoadThenSaveKeepsLinks(entryId: NodeId, entryGuid: string, c: DialogueContainer)
    requires LoadableContainer(c)
    ensures LoadContainer(NewStoryGraphView(entryId, entryGuid), c).Ok?
    ensures var saved := SaveContainer(LoadContainer(NewStoryGraphView(entryId, entryGuid), c).value);
            && saved.Ok?
            && |saved.value.nodeLinks| > 0 && saved.value.nodeLinks[0] == c.nodeLinks[0]
            && (forall h :: OutgoingLinks(saved.value.nodeLinks, h) == OutgoingLinks(c.nodeLinks, h))
            && saved.value.exposedProperties == c.exposedProperties
  {
    SavedLinksOfFreshLoad(entryId, entryGuid, c);
    var guids := [c.nodeLinks[0].baseNodeGuid] + RecordGuids(c.dialogueNodeData);
    var v := LoadContainer(NewStoryGraphView(entryId, entryGuid), c).value;
    var links := SaveLinks(v.nodes, v.edges);
    assert guids[0] == c.nodeLinks[0].baseNodeGuid;
    assert links == [c.nodeLinks[0]] + Regroup(c.nodeLinks, guids[1..]);
    assert |v.edges| > 0;
    LoadableGuidsDistinct(c);
    LoadableBasesListed(c);
    forall h ensures OutgoingLinks(links, h) == OutgoingLinks(c.nodeLinks, h) {
      RegroupKeepsEveryNodesLinks(c.nodeLinks, guids, h);
    }
  }

  /** Some link enters the node with this GUID. */
  predicate Targeted(links: seq<NodeLinkData>, guid: string) {
    exists k :: 0 <= k < |links| && links[k].targetNodeGuid == guid
  }

  /** In a loadable asset, the first record with a GUID is the record itself. */
  lemma FirstRecordIsItself(c: DialogueContainer, k: nat)
    requires LoadableContainer(c) && k < |c.dialogueNodeData|
    ensures FirstNodeData(c.dialogueNodeData, c.dialogueNodeData[k].nodeGuid) == Some(k)
  {
    var records := RecordGuids(c.dialogueNodeData);
    forall j | 0 <= j < k ensures c.dialogueNodeData[j].nodeGuid != c.dialogueNodeData[k].nodeGuid {
      assert records[j] != records[k];
    }
  }

  /** Among the loaded nodes, a link's target counts as targeted exactly when some link of
      the asset enters it. */
  lemma LoadedLinkTarget(entryId: NodeId, c: DialogueContainer, guid: string)
    requires LoadableContainer(c)
    ensures IsLinkTarget(LoadedNodes(entryId, c), c.nodeLinks, guid) <==> Targeted(c.nodeLinks, guid)
  {
    var all := LoadedNodes(entryId, c);
    if Targeted(c.nodeLinks, guid) {
      var k :| 0 <= k < |c.nodeLinks| && c.nodeLinks[k].targetNodeGuid == guid;
      LoadableBasesListed(c);
      LoadedGuids(entryId, c);
      var guids := GuidsOf(all);
      var i :| 0 <= i < |guids| && guids[i] == c.nodeLinks[k].baseNodeGuid;
      assert all[i].guid == c.nodeLinks[k].baseNodeGuid;
    }
  }

  /** The position a loaded record's node ends up at: the stored one when some link enters
      it, the origin otherwise. */
  lemma LoadedRecordPosition(entryId: NodeId, c: DialogueContainer, k: nat)
    requires LoadableContainer(c) && k < |c.dialogueNodeData|
    ensures var all := LoadedNodes(entryId, c);
            RestoredNode(all, c.dialogueNodeData, c.nodeLinks, k + 1).position
            == if Targeted(c.nodeLinks, c.dialogueNodeData[k].nodeGuid) then c.dialogueNodeData[k].position
               else ZeroPosition
  {
    var all := LoadedNodes(entryId, c);
    var guid := c.dialogueNodeData[k].nodeGuid;
    LoadedNodeAt(entryId, c, k + 1);
    LoadedGuids(entryId, c);
    LoadableGuidsDistinct(c);
    var guids := GuidsOf(all);
    forall j | 0 <= j < k + 1 ensures all[j].guid != guid {
      assert guids[j] != guids[k + 1];
    }
    FirstRecordIsItself(c, k);
    LoadedLinkTarget(entryId, c, guid);
  }

  /** Saving a START node followed by ordinary nodes writes one record per ordinary node. */
  lemma SaveNodeDataAfterEntry(ns: seq<DialogueNode>)
    requires |ns| > 0 && ns[0].entryPoint
    requires forall i :: 1 <= i < |ns| ==> !ns[i].entryPoint
    ensures |SaveNodeData(ns)| == |ns| - 1
    ensures forall k :: 0 <= k < |ns| - 1 ==> SaveNodeData(ns)[k] == NodeRecord(ns[k + 1])
  {
    assert SaveNodeData(ns) == SaveNodeData(ns[1..]);
  }

  /** Where a record's node stands after a load: its stored position when some link
      enters it, the origin otherwise. */
  function RestoredPosition(c: DialogueContainer, k: nat): Vector2
    requires k < |c.dialogueNodeData|
  {
    if Targeted(c.nodeLinks, c.dialogueNodeData[k].nodeGuid) then c.dialogueNodeData[k].position else ZeroPosition
  }

  /** The record a loaded record's node saves as. */
  function ReloadedRecord(c: DialogueContainer, k: nat): DialogueNodeData
    requires k < |c.dialogueNodeData|
  {
    DialogueNodeData(c.dialogueNodeData[k].nodeGuid, c.dialogueNodeData[k].dialogueText, RestoredPosition(c, k))
  }

  /** `after` is a START node followed by one ordinary node per record, each saving as that
      record with its restored position. */
  ghost predicate RecordsRestored(after: seq<DialogueNode>, c: DialogueContainer) {
    && |after| == |c.dialogueNodeData| + 1
    && after[0].entryPoint
    && forall k :: 0 <= k < |c.dialogueNodeData| ==>
         !after[k + 1].entryPoint && NodeRecord(after[k + 1]) == ReloadedRecord(c, k)
  }

  /** A loaded record's node, after positions are restored, saves as the record with its
      restored position. */
  lemma SavedRecordAt(entryId: NodeId, c: DialogueContainer, after: seq<DialogueNode>, k: nat)
    requires LoadableContainer(c) && k < |c.dialogueNodeData|
    requires SameNodesUpToPosition(after, LoadedNodes(entryId, c))
    requires after[k + 1] == RestoredNode(LoadedNodes(entryId, c), c.dialogueNodeData, c.nodeLinks, k + 1)
    ensures !after[k + 1].entryPoint && NodeRecord(after[k + 1]) == ReloadedRecord(c, k)
  {
    LoadedNodeAt(entryId, c, k + 1);
    LoadedRecordPosition(entryId, c, k);
  }

  /** The nodes of a fresh load, positions restored, are the START node and the records. */
  lemma LoadedNodesRestored(entryId: NodeId, c: DialogueContainer, after: seq<DialogueNode>)
    requires LoadableContainer(c)
    requires SameNodesUpToPosition(after, LoadedNodes(entryId, c))
    requires forall i :: 0 <= i < |after| ==>
               after[i] == RestoredNode(LoadedNodes(entryId, c), c.dialogueNodeData, c.nodeLinks, i)
    ensures RecordsRestored(after, c)
  {
    LoadedNodeAt(entryId, c, 0);
    forall k | 0 <= k < |c.dialogueNodeData|
      ensures !after[k + 1].entryPoint && NodeRecord(after[k + 1]) == ReloadedRecord(c, k)
    {
      SavedRecordAt(entryId, c, after, k);
    }
  }

  /** Saving such nodes writes exactly the reloaded records, in order. */
  lemma SaveRestoredRecords(after: seq<DialogueNode>, c: DialogueContainer)
    requires RecordsRestored(after, c)
    ensures |SaveNodeData(after)| == |c.dialogueNodeData|
    ensures forall k :: 0 <= k < |c.dialogueNodeData| ==> SaveNodeData(after)[k] == ReloadedRecord(c, k)
  {
    forall i | 1 <= i < |after| ensures !after[i].entryPoint {
      var k := i - 1;
      assert NodeRecord(after[k + 1]) == ReloadedRecord(c, k);
    }
    SaveNodeDataAfterEntry(after);
  }

  /** Loading a loadable asset into a fresh editor and saving it again writes the records
      back in order with the same GUIDs and text; a record's position comes back only when
      some link enters it, and is the origin otherwise. */
  lemma LoadThenSaveKeepsRecords(entryId: NodeId, entryGuid: string, c: DialogueContainer)
    requires LoadableContainer(c)
    ensures LoadContainer(NewStoryGraphView(entryId, entryGuid), c).Ok?
    ensures var saved := SaveNodeData(LoadContainer(NewStoryGraphView(entryId, entryGuid), c).value.nodes);
            && |saved| == |c.dialogueNodeData|
            && forall k :: 0 <= k < |c.dialogueNodeData| ==>
                 saved[k] == DialogueNodeData(c.dialogueNodeData[k].nodeGuid, c.dialogueNodeData[k].dialogueText,
                                              if Targeted(c.nodeLinks, c.dialogueNodeData[k].nodeGuid)
                                              then c.dialogueNodeData[k].position else ZeroPosition)
  {
    var after := FreshLoad(entryId, entryGuid, c);
    LoadedNodesRestored(entryId, c, after);
    SaveRestoredRecords(after, c);
  }

  /** With distinct identities, a group rebuilt from a GUID list and saved again lists
      exactly the listed GUIDs that some node carries. */
  lemma GroupChildrenRoundTrip(nodes: seq<DialogueNode>, childNodes: seq<string>, x: string)
    requires DistinctIds(nodes)
    ensures x in ChildGuids(nodes, ContainedNodes(nodes, childNodes)) <==> x in childNodes && x in GuidsOf(nodes)
  {
    var ids := ContainedNodes(nodes, childNodes);
    var guids := GuidsOf(nodes);
    ChildGuidsMembership(nodes, ids, x);
    if x in ChildGuids(nodes, ids) {
      var k :| 0 <= k < |ids| && CarriesGuid(nodes, ids[k], x);
      assert ids[k] in ids;
      var i :| 0 <= i < |nodes| && nodes[i].id == ids[k] && nodes[i].guid in childNodes;
      NodeByIdFindsNode(nodes, i);
      assert guids[i] == x;
    }
    if x in childNodes && x in guids {
      var i :| 0 <= i < |guids| && guids[i] == x;
      assert nodes[i].id in ids;
      var k :| 0 <= k < |ids| && ids[k] == nodes[i].id;
      NodeByIdFindsNode(nodes, i);
      assert CarriesGuid(nodes, ids[k], x);
    }
  }

  /** Positions moved or not, the GUIDs and identities of the nodes stay the same. */
  lemma SameGuidsUpToPosition(after: seq<DialogueNode>, all: seq<DialogueNode>)
    requires SameNodesUpToPosition(after, all)
    ensures GuidsOf(after) == GuidsOf(all)
    ensures DistinctIds(all) ==> DistinctIds(after)
  {
    var a := GuidsOf(after);
    var b := GuidsOf(all);
    forall i | 0 <= i < |a| ensures a[i] == b[i] {
      assert after[i].guid == all[i].guid;
    }
    if DistinctIds(all) {
      forall i, j | 0 <= i < j < |after| ensures after[i].id != after[j].id {
        assert after[i].id == all[i].id && after[j].id == all[j].id;
      }
    }
  }

  /** Loading a loadable asset into a fresh editor and saving it again writes one comment
      block per stored block with the same title and position, listing exactly the stored
      child GUIDs that name the START node or a record (in node order). */
  lemma LoadThenSaveKeepsCommentBlocks(entryId: NodeId, entryGuid: string, c: DialogueContainer, k: nat, x: string)
    requires LoadableContainer(c)
    requires k < |c.commentBlockData|
    ensures LoadContainer(NewStoryGraphView(entryId, entryGuid), c).Ok?
    ensures var v := LoadContainer(NewStoryGraphView(entryId, entryGuid), c).value;
            var saved := SaveCommentBlocks(v.nodes, v.groups);
            && |saved| == |c.commentBlockData|
            && saved[k].title == c.commentBlockData[k].title
            && saved[k].position == c.commentBlockData[k].position
            && (x in saved[k].childNodes <==>
                  x in c.commentBlockData[k].childNodes
                  && (x == c.nodeLinks[0].baseNodeGuid || x in RecordGuids(c.dialogueNodeData)))
  {
    var after := FreshLoad(entryId, entryGuid, c);
    LoadedIdsDistinct(entryId, c);
    LoadedGuids(entryId, c);
    SameGuidsUpToPosition(after, LoadedNodes(entryId, c));
    GroupChildrenRoundTrip(after, c.commentBlockData[k].childNodes, x);
    var guids := [c.nodeLinks[0].baseNodeGuid] + RecordGuids(c.dialogueNodeData);
    assert x in guids <==> x == c.nodeLinks[0].baseNodeGuid || x in RecordGuids(c.dialogueNodeData);
  }
}
