/** `GraphSaveUtility`: flattening the editor graph into a `DialogueContainer` and
    rebuilding the editor graph from one. Asset storage is a map from asset path to
    container; file panels and the asset database's own bookkeeping are not modelled. */
module GraphSaveUtility {
  import opened Wrappers
  import opened Strings
  import opened Runtime
  import opened GraphView

  // ================================================================ lookups

  /** The node object an edge end refers to; `None` when no dialogue node of the view has
      that identity (the source's `as DialogueNode` giving null). */
  function NodeById(nodes: seq<DialogueNode>, id: NodeId): (r: Option<DialogueNode>)
    ensures r.None? <==> forall i :: 0 <= i < |nodes| ==> nodes[i].id != id
    ensures r.Some? ==> r.value in nodes && r.value.id == id
  {
    if |nodes| == 0 then None
    else if nodes[0].id == id then Some(nodes[0])
    else NodeById(nodes[1..], id)
  }

  /** The position of the first node carrying the GUID, if any. */
  function FirstGuidIndex(nodes: seq<DialogueNode>, guid: string): (r: Option<nat>)
    ensures r.None? <==> forall i :: 0 <= i < |nodes| ==> nodes[i].guid != guid
    ensures r.Some? ==> r.value < |nodes| && nodes[r.value].guid == guid
                        && forall j :: 0 <= j < r.value ==> nodes[j].guid != guid
  {
    if |nodes| == 0 then None
    else if nodes[0].guid == guid then Some(0)
    else match FirstGuidIndex(nodes[1..], guid)
      case None => None
      case Some(i) => Some(i + 1)
  }

  /** `Nodes.First(x => x.GUID == guid)`, as an option: the first node carrying the GUID. */
  function FirstNodeWithGuid(nodes: seq<DialogueNode>, guid: string): (r: Option<DialogueNode>)
    ensures r.None? <==> forall i :: 0 <= i < |nodes| ==> nodes[i].guid != guid
    ensures r.Some? ==> && r.value.guid == guid
                        && FirstGuidIndex(nodes, guid).Some?
                        && r.value == nodes[FirstGuidIndex(nodes, guid).value]
  {
    match FirstGuidIndex(nodes, guid)
    case None => None
    case Some(i) => Some(nodes[i])
  }

  // ================================================================ save

  /** The link record one edge is saved as, if any: the edge needs an input end, and both
      ends must be dialogue nodes of the view. */
  function LinkFor(nodes: seq<DialogueNode>, e: Edge): (r: Option<NodeLinkData>)
    ensures r.Some? <==> && e.inputNode.Some?
                         && (exists n :: n in nodes && n.id == e.outputNode)
                         && (exists n :: n in nodes && n.id == e.inputNode.value)
    ensures r.Some? ==> && r.value.portName == e.outputPortName
                        && (exists n :: n in nodes && n.id == e.outputNode && n.guid == r.value.baseNodeGuid)
                        && (exists n :: n in nodes && n.id == e.inputNode.value && n.guid == r.value.targetNodeGuid)
  {
    if e.inputNode.None? then None
    else match NodeById(nodes, e.outputNode)
      case None => None
      case Some(output) =>
        match NodeById(nodes, e.inputNode.value)
        case None => None
        case Some(input) => Some(NodeLinkData(output.guid, e.outputPortName, input.guid))
  }

  /** The link records of `SaveNodes`, one per edge that has one, in edge order. */
  function SaveLinks(nodes: seq<DialogueNode>, edges: seq<Edge>): (r: seq<NodeLinkData>)
    ensures |r| <= |edges|
    ensures (forall k :: 0 <= k < |edges| ==> LinkFor(nodes, edges[k]).Some?) ==>
              |r| == |edges| && forall k :: 0 <= k < |edges| ==> r[k] == LinkFor(nodes, edges[k]).value
  {
    if |edges| == 0 then []
    else
      var rest := SaveLinks(nodes, edges[1..]);
      match LinkFor(nodes, edges[0])
      case None => rest
      case Some(l) => [l] + rest
  }

  /** Saving a sequence of edges is saving each part in turn. */
  lemma {:induction false} SaveLinksConcat(nodes: seq<DialogueNode>, a: seq<Edge>, b: seq<Edge>)
    ensures SaveLinks(nodes, a + b) == SaveLinks(nodes, a) + SaveLinks(nodes, b)
    decreases |a|
  {
    if |a| == 0 {
      assert a + b == b;
    } else {
      assert (a + b)[0] == a[0];
      assert (a + b)[1..] == a[1..] + b;
      SaveLinksConcat(nodes, a[1..], b);
    }
  }

  /** The record one editor node is saved as. */
  function NodeRecord(n: DialogueNode): DialogueNodeData {
    DialogueNodeData(n.guid, n.dialogueText, n.position)
  }

  /** The node records of `SaveNodes`: one per non-entry node, in view order. */
  function SaveNodeData(nodes: seq<DialogueNode>): (r: seq<DialogueNodeData>)
    ensures |r| <= |nodes|
    ensures (forall i :: 0 <= i < |nodes| ==> !nodes[i].entryPoint) ==>
              |r| == |nodes| && forall k :: 0 <= k < |nodes| ==> r[k] == NodeRecord(nodes[k])
  {
    if |nodes| == 0 then []
    else
      var rest := SaveNodeData(nodes[1..]);
      if nodes[0].entryPoint then rest else [NodeRecord(nodes[0])] + rest
  }

  /** A record is saved exactly when it is the record of some non-entry node. */
  lemma {:induction false} SaveNodeDataMembership(nodes: seq<DialogueNode>, d: DialogueNodeData)
    ensures d in SaveNodeData(nodes)
            <==> exists i :: 0 <= i < |nodes| && !nodes[i].entryPoint && d == NodeRecord(nodes[i])
    decreases |nodes|
  {
    if |nodes| > 0 {
      var tail := nodes[1..];
      SaveNodeDataMembership(tail, d);
      if exists i :: 1 <= i < |nodes| && !nodes[i].entryPoint && d == NodeRecord(nodes[i]) {
        var i :| 1 <= i < |nodes| && !nodes[i].entryPoint && d == NodeRecord(nodes[i]);
        assert tail[i - 1] == nodes[i];
      }
      if exists i :: 0 <= i < |tail| && !tail[i].entryPoint && d == NodeRecord(tail[i]) {
        var i :| 0 <= i < |tail| && !tail[i].entryPoint && d == NodeRecord(tail[i]);
        assert tail[i] == nodes[i + 1];
      }
    }
  }

  /** Saving node records keeps view order: it distributes over concatenation. */
  lemma {:induction false} SaveNodeDataConcat(a: seq<DialogueNode>, b: seq<DialogueNode>)
    ensures SaveNodeData(a + b) == SaveNodeData(a) + SaveNodeData(b)
    decreases |a|
  {
    if |a| == 0 {
      assert a + b == b;
    } else {
      assert (a + b)[0] == a[0];
      assert (a + b)[1..] == a[1..] + b;
      SaveNodeDataConcat(a[1..], b);
    }
  }

  /** The GUIDs of the contained elements that are dialogue nodes, in containment order. */
  function ChildGuids(nodes: seq<DialogueNode>, contained: seq<NodeId>): (r: seq<string>)
    ensures |r| <= |contained|
    ensures (forall k :: 0 <= k < |contained| ==> NodeById(nodes, contained[k]).Some?) ==>
              |r| == |contained| && forall k :: 0 <= k < |contained| ==> r[k] == NodeById(nodes, contained[k]).value.guid
  {
    if |contained| == 0 then []
    else
      var rest := ChildGuids(nodes, contained[1..]);
      match NodeById(nodes, contained[0])
      case None => rest
      case Some(n) => [n.guid] + rest
  }

  /** Element `id` of the view is a dialogue node carrying GUID `g`. */
  predicate CarriesGuid(nodes: seq<DialogueNode>, id: NodeId, g: string) {
    NodeById(nodes, id).Some? && NodeById(nodes, id).value.guid == g
  }

  /** A GUID is listed exactly when some contained element is a dialogue node carrying it. */
  lemma {:induction false} ChildGuidsMembership(nodes: seq<DialogueNode>, contained: seq<NodeId>, g: string)
    ensures g in ChildGuids(nodes, contained)
            <==> exists k :: 0 <= k < |contained| && CarriesGuid(nodes, contained[k], g)
    decreases |contained|
  {
    if |contained| > 0 {
      var tail := contained[1..];
      var rest := ChildGuids(nodes, tail);
      ChildGuidsMembership(nodes, tail, g);
      assert ChildGuids(nodes, contained) == if NodeById(nodes, contained[0]).Some?
                                              then [NodeById(nodes, contained[0]).value.guid] + rest else rest;
      if exists k :: 1 <= k < |contained| && CarriesGuid(nodes, contained[k], g) {
        var k :| 1 <= k < |contained| && CarriesGuid(nodes, contained[k], g);
        assert tail[k - 1] == contained[k];
      }
      if exists k :: 0 <= k < |tail| && CarriesGuid(nodes, tail[k], g) {
        var k :| 0 <= k < |tail| && CarriesGuid(nodes, tail[k], g);
        assert tail[k] == contained[k + 1];
      }
    }
  }

  /** `SaveCommentBlocks`: one record per group, in view order, with its title and position. */
  function SaveCommentBlocks(nodes: seq<DialogueNode>, groups: seq<Group>): (r: seq<CommentBlockData>)
    ensures |r| == |groups|
    ensures forall k :: 0 <= k < |groups| ==>
              r[k] == CommentBlockData(ChildGuids(nodes, groups[k].containedElements), groups[k].position, groups[k].title)
  {
    if |groups| == 0 then []
    else [CommentBlockData(ChildGuids(nodes, groups[0].containedElements), groups[0].position, groups[0].title)]
         + SaveCommentBlocks(nodes, groups[1..])
  }

  /** Why a save writes nothing: the view has no edges. */
  datatype SaveError = EmptyGraph

  /** The container `SaveGraph` builds: links and nodes (`SaveNodes`), the properties
      verbatim (`SaveExposedProperties`) and the comment blocks. */
  function SaveContainer(g: StoryGraphView): (r: Result<DialogueContainer, SaveError>)
    ensures r.Err? <==> |g.edges| == 0
    ensures r.Ok? ==> (&& r.value.nodeLinks == SaveLinks(g.nodes, g.edges)
                       && r.value.dialogueNodeData == SaveNodeData(g.nodes)
                       && r.value.exposedProperties == g.exposedProperties
                       && r.value.commentBlockData == SaveCommentBlocks(g.nodes, g.groups))
  {
    if |g.edges| == 0 then Err(EmptyGraph)
    else Ok(DialogueContainer(SaveLinks(g.nodes, g.edges), SaveNodeData(g.nodes),
                              g.exposedProperties, SaveCommentBlocks(g.nodes, g.groups)))
  }

  /** `SaveGraph(filePath)`: without edges nothing is written; otherwise the asset at the
      path, new or existing, ends up holding exactly the four saved lists, and no other
      asset changes. */
  function SaveGraph(assets: map<string, DialogueContainer>, filePath: string, g: StoryGraphView)
    : (r: map<string, DialogueContainer>)
    ensures |g.edges| == 0 ==> r == assets
    ensures |g.edges| > 0 ==> filePath in r && r[filePath] == SaveContainer(g).value
    ensures forall p :: p != filePath ==> (p in r <==> p in assets)
    ensures forall p :: p != filePath && p in assets ==> r[p] == assets[p]
  {
    match SaveContainer(g)
    case Err(_) => assets
    case Ok(c) => assets[filePath := c]
  }

  /** Playback starts where the entry convention expects only when the first edge saved is
      the one leaving the START node: the saved first link is that edge's record. */
  lemma EntryConventionHolds(g: StoryGraphView, entry: DialogueNode, target: DialogueNode)
    requires |g.edges| > 0 && LinkFor(g.nodes, g.edges[0]).Some?
    requires NodeById(g.nodes, g.edges[0].outputNode) == Some(entry) && entry.entryPoint
    requires g.edges[0].inputNode.Some? && NodeById(g.nodes, g.edges[0].inputNode.value) == Some(target)
    ensures SaveContainer(g).value.nodeLinks[0] == NodeLinkData(entry.guid, g.edges[0].outputPortName, target.guid)
  {
  }

  /** A view where the designer connected A to B before connecting START to A. */
  const FragileNodes := [EntryPointNode(0, "S"),
                         CreateNode(1, "A", ["a"], ZeroPosition).(outputPorts := ["Option 1"]),
                         CreateNode(2, "B", ["b"], ZeroPosition)]
  const FragileView := StoryGraphView(FragileNodes, [Edge(1, "Option 1", Some(2)), Edge(0, "Next", Some(1))], [], [])

  /** Each edge of that view saves as its own link. */
  lemma FragileEdgeLinks()
    ensures LinkFor(FragileNodes, FragileView.edges[0]) == Some(NodeLinkData("A", "Option 1", "B"))
    ensures LinkFor(FragileNodes, FragileView.edges[1]) == Some(NodeLinkData("S", "Next", "A"))
  {
    assert NodeById(FragileNodes, 0) == Some(FragileNodes[0]);
    assert NodeById(FragileNodes, 1) == Some(FragileNodes[1]);
    assert NodeById(FragileNodes, 2) == Some(FragileNodes[2]);
  }

  /** The convention is fragile: in that view the first link saved leaves A, so playback
      would begin at B and a reload would give the START node A's GUID. */
  lemma EntryConventionFragile()
    ensures SaveLinks(FragileNodes, FragileView.edges)
         == [NodeLinkData("A", "Option 1", "B"), NodeLinkData("S", "Next", "A")]
  {
    FragileEdgeLinks();
    var links := SaveLinks(FragileNodes, FragileView.edges);
    assert |links| == 2;
  }

  // ================================================================ load

  /** What stops a load: a file name the extraction cannot cut out, no asset at the path,
      an asset without links, a view without a START node, a link or record naming a node
      that is not there, a link with no port to leave from, or a link into the START node,
      which has no input port. */
  datatype LoadError =
    | InvalidFileName
    | MissingAsset
    | NoLinks
    | NoEntryNode
    | DanglingReference
    | PortIndexOutOfRange
    | NoInputPort

  /** The file-name cut of `LoadNarrative`: from just after the last "/" up to the last
      ".asset". `Substring` throws when that range is reversed. */
  function ExtractFileName(filePath: string): (r: Result<string, LoadError>)
    ensures r.Err? <==> LastIndexOf(filePath, ".asset") < LastIndexOf(filePath, "/") + 1
    ensures r.Ok? ==> '/' !in r.value
  {
    var startIndex := LastIndexOf(filePath, "/") + 1;
    var endIndex := LastIndexOf(filePath, ".asset");
    if endIndex < startIndex then Err(InvalidFileName)
    else
      var name := filePath[startIndex..endIndex];
      assert forall i :: 0 <= i < |name| ==> name[i] == filePath[startIndex + i]
                                              && !OccursAt(filePath, "/", startIndex + i);
      Ok(name)
  }

  /** A path `dir/name.asset`, where `name` has no "/", yields `name`. */
  lemma ExtractFileNameOfAssetPath(dir: string, name: string)
    requires '/' !in name
    ensures ExtractFileName(dir + "/" + name + ".asset") == Ok(name)
  {
    var path := dir + "/" + name + ".asset";
    var slash := |dir|;
    var dot := |dir| + 1 + |name|;
    assert |path| == dot + 6;
    assert path[slash..slash + 1] == "/";
    forall i: nat | slash < i
      ensures !OccursAt(path, "/", i)
    {
      if i < dot {
        assert path[i] == name[i - slash - 1];
      } else if i < |path| {
        assert path[i] == ".asset"[i - dot];
      }
    }
    LastIndexOfIs(path, "/", slash);
    assert path[dot..dot + 6] == ".asset";
    LastIndexOfIs(path, ".asset", dot);
    assert path[slash + 1..dot] == name;
  }

  /** The position of the first START node of the view, if any. */
  function FirstEntryIndex(nodes: seq<DialogueNode>): (r: Option<nat>)
    ensures r.None? <==> forall i :: 0 <= i < |nodes| ==> !nodes[i].entryPoint
    ensures r.Some? ==> r.value < |nodes| && nodes[r.value].entryPoint
                        && forall j :: 0 <= j < r.value ==> !nodes[j].entryPoint
  {
    if |nodes| == 0 then None
    else if nodes[0].entryPoint then Some(0)
    else match FirstEntryIndex(nodes[1..])
      case None => None
      case Some(i) => Some(i + 1)
  }

  /** The nodes `ClearGraph` keeps: the START nodes, in view order. */
  function EntryNodes(nodes: seq<DialogueNode>): (r: seq<DialogueNode>)
    ensures |r| <= |nodes|
    ensures forall n :: n in r <==> n in nodes && n.entryPoint
  {
    if |nodes| == 0 then []
    else if nodes[0].entryPoint then [nodes[0]] + EntryNodes(nodes[1..])
    else EntryNodes(nodes[1..])
  }

  /** Renaming the first START node before keeping the START nodes is renaming the first
      node kept. */
  lemma {:induction false} EntryNodesRenameFirst(nodes: seq<DialogueNode>, k: nat, guid: string)
    requires FirstEntryIndex(nodes) == Some(k)
    ensures |EntryNodes(nodes)| > 0
    ensures EntryNodes(nodes[k := nodes[k].(guid := guid)])
         == EntryNodes(nodes)[0 := EntryNodes(nodes)[0].(guid := guid)]
    decreases k
  {
    var renamed := nodes[k := nodes[k].(guid := guid)];
    if k == 0 {
      assert renamed[1..] == nodes[1..];
      assert EntryNodes(renamed) == [renamed[0]] + EntryNodes(nodes[1..]);
      assert EntryNodes(nodes) == [nodes[0]] + EntryNodes(nodes[1..]);
    } else {
      assert FirstEntryIndex(nodes[1..]) == Some(k - 1);
      assert renamed[1..] == nodes[1..][k - 1 := nodes[1..][k - 1].(guid := guid)];
      EntryNodesRenameFirst(nodes[1..], k - 1, guid);
      assert EntryNodes(renamed) == EntryNodes(renamed[1..]);
      assert EntryNodes(nodes) == EntryNodes(nodes[1..]);
    }
  }

  /** Some non-entry node of the view has this identity. */
  predicate IsRemovedNode(nodes: seq<DialogueNode>, id: NodeId) {
    exists i :: 0 <= i < |nodes| && !nodes[i].entryPoint && nodes[i].id == id
  }

  /** The edges `ClearGraph` keeps: those whose input end is not a removed node. */
  function KeptEdges(nodes: seq<DialogueNode>, edges: seq<Edge>): (r: seq<Edge>)
    ensures |r| <= |edges|
    ensures forall e :: e in r <==> e in edges && !(e.inputNode.Some? && IsRemovedNode(nodes, e.inputNode.value))
  {
    if |edges| == 0 then []
    else if edges[0].inputNode.Some? && IsRemovedNode(nodes, edges[0].inputNode.value) then KeptEdges(nodes, edges[1..])
    else [edges[0]] + KeptEdges(nodes, edges[1..])
  }

  /** Which edges are kept depends only on the nodes' identities and entry flags, not on
      their GUIDs. */
  lemma {:induction false} KeptEdgesIgnoresGuids(a: seq<DialogueNode>, b: seq<DialogueNode>, edges: seq<Edge>)
    requires |a| == |b|
    requires forall i :: 0 <= i < |a| ==> a[i].id == b[i].id && a[i].entryPoint == b[i].entryPoint
    ensures KeptEdges(a, edges) == KeptEdges(b, edges)
    decreases |edges|
  {
    if |edges| > 0 {
      if edges[0].inputNode.Some? {
        var id := edges[0].inputNode.value;
        if IsRemovedNode(a, id) {
          var i :| 0 <= i < |a| && !a[i].entryPoint && a[i].id == id;
          assert !b[i].entryPoint && b[i].id == id;
        }
        if IsRemovedNode(b, id) {
          var i :| 0 <= i < |b| && !b[i].entryPoint && b[i].id == id;
          assert !a[i].entryPoint && a[i].id == id;
        }
      }
      KeptEdgesIgnoresGuids(a, b, edges[1..]);
    }
  }

  /** `ClearGraph`: the first START node takes the GUID of the first link's base; every other
      node, and every edge entering one, is removed. Groups and properties are left for
      later steps. */
  function ClearGraph(g: StoryGraphView, c: DialogueContainer): (r: Result<StoryGraphView, LoadError>)
    ensures |c.nodeLinks| == 0 ==> r == Err(NoLinks)
    ensures |c.nodeLinks| > 0 ==> (r.Err? <==> forall i :: 0 <= i < |g.nodes| ==> !g.nodes[i].entryPoint)
    ensures r.Ok? ==> forall n :: n in r.value.nodes ==> n.entryPoint
    ensures r.Ok? ==> exists n :: n in r.value.nodes && n.guid == c.nodeLinks[0].baseNodeGuid
    ensures r.Ok? ==> forall e :: e in r.value.edges ==> e in g.edges
    ensures r.Ok? ==> var entries := EntryNodes(g.nodes);
                      |entries| > 0 && r.value.nodes == entries[0 := entries[0].(guid := c.nodeLinks[0].baseNodeGuid)]
    ensures r.Ok? ==> r.value.edges == KeptEdges(g.nodes, g.edges)
    ensures r.Ok? ==> r.value.groups == g.groups && r.value.exposedProperties == g.exposedProperties
  {
    if |c.nodeLinks| == 0 then Err(NoLinks)
    else match FirstEntryIndex(g.nodes)
      case None => Err(NoEntryNode)
      case Some(k) =>
        var renamed := g.nodes[k := g.nodes[k].(guid := c.nodeLinks[0].baseNodeGuid)];
        assert renamed[k] in renamed;
        EntryNodesRenameFirst(g.nodes, k, c.nodeLinks[0].baseNodeGuid);
        KeptEdgesIgnoresGuids(renamed, g.nodes, g.edges);
        Ok(g.(nodes := EntryNodes(renamed), edges := KeptEdges(renamed, g.edges)))
  }

  /** A node identity larger than every identity in the view. */
  function NextNodeId(nodes: seq<DialogueNode>): (r: NodeId)
    ensures forall i :: 0 <= i < |nodes| ==> nodes[i].id < r
  {
    if |nodes| == 0 then 0
    else
      var rest := NextNodeId(nodes[1..]);
      if nodes[0].id + 1 > rest then nodes[0].id + 1 else rest
  }

  /** One `AddChoicePort(node, link.portName)` per link, in link order. */
  function AddChoicePorts(node: DialogueNode, links: seq<NodeLinkData>): (r: DialogueNode)
    ensures |r.outputPorts| == |node.outputPorts| + |links|
    ensures r.outputPorts[..|node.outputPorts|] == node.outputPorts
    ensures forall j :: 0 <= j < |links| ==>
              r.outputPorts[|node.outputPorts| + j] == ChoicePortName(|node.outputPorts| + j, links[j].portName)
    ensures r.(outputPorts := node.outputPorts) == node
    decreases |links|
  {
    if |links| == 0 then node
    else
      var init := links[..|links| - 1];
      var prev := AddChoicePorts(node, init);
      var r := AddChoicePort(prev, links[|links| - 1].portName);
      ChoicePortsExtend(node.outputPorts, init, links, prev.outputPorts, r.outputPorts);
      r
  }

  /** Appending the port of the last link to the ports of the earlier links names every
      link's port. */
  lemma ChoicePortsExtend(base: seq<string>, init: seq<NodeLinkData>, links: seq<NodeLinkData>,
                          prev: seq<string>, ports: seq<string>)
    requires |links| > 0 && init == links[..|links| - 1] && |prev| == |base| + |init|
    requires prev[..|base|] == base
    requires forall j :: 0 <= j < |init| ==> prev[|base| + j] == ChoicePortName(|base| + j, init[j].portName)
    requires ports == prev + [ChoicePortName(|prev|, links[|links| - 1].portName)]
    ensures ports[..|base|] == base
    ensures forall j :: 0 <= j < |links| ==> ports[|base| + j] == ChoicePortName(|base| + j, links[j].portName)
  {
    assert ports[..|prev|] == prev;
    forall j | 0 <= j < |links|
      ensures ports[|base| + j] == ChoicePortName(|base| + j, links[j].portName)
    {
      if j < |links| - 1 {
        assert init[j] == links[j];
        assert ports[|base| + j] == prev[|base| + j];
      }
    }
  }

  /** `n` is the node built from record `d`: same GUID and text, not the START node, at
      the origin, and one port per link leaving the GUID, in link order, named after the link (an empty
      name falling back to "Option n"). */
  predicate BuiltFrom(n: DialogueNode, d: DialogueNodeData, links: seq<NodeLinkData>) {
    var out := OutgoingLinks(links, d.nodeGuid);
    && n.guid == d.nodeGuid
    && n.dialogueText == d.dialogueText
    && !n.entryPoint
    && n.position == ZeroPosition
    && |n.outputPorts| == |out|
    && (forall j :: 0 <= j < |out| ==> n.outputPorts[j] == ChoicePortName(j, out[j].portName))
  }

  /** The node `GenerateDialogueNodes` builds from one record: `CreateNode` at the origin,
      then one `AddChoicePort` per link leaving the record's GUID. */
  function GeneratedNode(id: NodeId, d: DialogueNodeData, links: seq<NodeLinkData>): (r: DialogueNode)
    ensures r.id == id && BuiltFrom(r, d, links)
  {
    AddChoicePorts(CreateNode(id, d.nodeGuid, d.dialogueText, ZeroPosition), OutgoingLinks(links, d.nodeGuid))
  }

  /** A stored link with an empty name does not come back empty: its port is renamed
      "Option n", n counting the node's ports from one. */
  lemma EmptyLabelComesBackNumbered(id: NodeId, d: DialogueNodeData, links: seq<NodeLinkData>, j: nat)
    requires j < |OutgoingLinks(links, d.nodeGuid)| && OutgoingLinks(links, d.nodeGuid)[j].portName == ""
    ensures GeneratedNode(id, d, links).outputPorts[j] == "Option " + NatToString(j + 1)
    ensures GeneratedNode(id, d, links).outputPorts[j] != OutgoingLinks(links, d.nodeGuid)[j].portName
  {
    ChoicePortNameNeverEmpty(j, "");
  }

  /** The nodes built from the records, in record order, with consecutive fresh identities. */
  function GeneratedNodes(data: seq<DialogueNodeData>, links: seq<NodeLinkData>, firstId: NodeId)
    : (r: seq<DialogueNode>)
    ensures |r| == |data|
    ensures forall k :: 0 <= k < |data| ==> r[k].id == firstId + k && BuiltFrom(r[k], data[k], links)
  {
    if |data| == 0 then []
    else [GeneratedNode(firstId, data[0], links)] + GeneratedNodes(data[1..], links, firstId + 1)
  }

  /** `GenerateDialogueNodes`: every record becomes a node appended to the view, built
      from that record, with an identity no earlier node has. */
  function GenerateDialogueNodes(g: StoryGraphView, c: DialogueContainer): (r: StoryGraphView)
    ensures |r.nodes| == |g.nodes| + |c.dialogueNodeData|
    ensures r.nodes[..|g.nodes|] == g.nodes
    ensures forall k :: 0 <= k < |c.dialogueNodeData| ==>
              BuiltFrom(r.nodes[|g.nodes| + k], c.dialogueNodeData[k], c.nodeLinks)
    ensures forall n, m :: n in g.nodes && m in r.nodes[|g.nodes|..] ==> n.id < m.id
    ensures r.edges == g.edges && r.groups == g.groups && r.exposedProperties == g.exposedProperties
  {
    var made := GeneratedNodes(c.dialogueNodeData, c.nodeLinks, NextNodeId(g.nodes));
    var r := g.(nodes := g.nodes + made);
    assert r.nodes[|g.nodes|..] == made;
    r
  }

  /** The `k`-th of the links `conns` can be drawn: its target is a node of the view with an
      input port and a stored record, and the node has a `j + k`-th port to draw it from. */
  predicate Wirable(all: seq<DialogueNode>, data: seq<DialogueNodeData>, n: DialogueNode,
                    conns: seq<NodeLinkData>, j: nat, k: nat)
    requires k < |conns|
  {
    && FirstNodeWithGuid(all, conns[k].targetNodeGuid).Some?
    && !FirstNodeWithGuid(all, conns[k].targetNodeGuid).value.entryPoint
    && j + k < |n.outputPorts|
    && HasNodeData(data, conns[k].targetNodeGuid)
  }

  /** The edges wiring one node's links: the `j`-th link leaving it is drawn from its `j`-th
      output port to the first node carrying the link's target GUID. */
  function ConnectLinks(all: seq<DialogueNode>, data: seq<DialogueNodeData>, n: DialogueNode,
                        conns: seq<NodeLinkData>, j: nat): (r: Result<seq<Edge>, LoadError>)
    ensures r.Ok? ==> |r.value| == |conns|
    ensures r.Ok? ==> forall k :: 0 <= k < |conns| ==>
              && Wirable(all, data, n, conns, j, k)
              && r.value[k] == Edge(n.id, n.outputPorts[j + k],
                                    Some(FirstNodeWithGuid(all, conns[k].targetNodeGuid).value.id))
    ensures r.Err? ==> exists k :: 0 <= k < |conns| && !Wirable(all, data, n, conns, j, k)
    decreases |conns|
  {
    if |conns| == 0 then Ok([])
    else
      var t := conns[0].targetNodeGuid;
      match FirstNodeWithGuid(all, t)
      case None =>
        assert !Wirable(all, data, n, conns, j, 0);
        Err(DanglingReference)
      case Some(target) =>
        if j >= |n.outputPorts| then
          assert !Wirable(all, data, n, conns, j, 0);
          Err(PortIndexOutOfRange)
        else if target.entryPoint then
          assert !Wirable(all, data, n, conns, j, 0);
          Err(NoInputPort)
        else if FirstNodeData(data, t).None? then
          assert !Wirable(all, data, n, conns, j, 0);
          Err(DanglingReference)
        else match ConnectLinks(all, data, n, conns[1..], j + 1)
          case Err(e) =>
            assert exists k :: 1 <= k < |conns| && !Wirable(all, data, n, conns, j, k) by {
              var k :| 0 <= k < |conns[1..]| && !Wirable(all, data, n, conns[1..], j + 1, k);
              assert conns[1..][k] == conns[k + 1];
              assert !Wirable(all, data, n, conns, j, k + 1);
            }
            Err(e)
          case Ok(rest) =>
            var e := Edge(n.id, n.outputPorts[j], Some(target.id));
            ConnectLinksCons(all, data, n, conns, j, e, rest);
            Ok([e] + rest)
  }

  /** The step of `ConnectLinks`: the first link's edge in front of the rest's edges. */
  lemma ConnectLinksCons(all: seq<DialogueNode>, data: seq<DialogueNodeData>, n: DialogueNode,
                         conns: seq<NodeLinkData>, j: nat, e: Edge, rest: seq<Edge>)
    requires 0 < |conns| && Wirable(all, data, n, conns, j, 0)
    requires e == Edge(n.id, n.outputPorts[j], Some(FirstNodeWithGuid(all, conns[0].targetNodeGuid).value.id))
    requires |rest| == |conns| - 1
    requires forall k :: 0 <= k < |conns[1..]| ==>
               && Wirable(all, data, n, conns[1..], j + 1, k)
               && rest[k] == Edge(n.id, n.outputPorts[j + 1 + k],
                                  Some(FirstNodeWithGuid(all, conns[1..][k].targetNodeGuid).value.id))
    ensures forall k :: 0 <= k < |conns| ==>
              && Wirable(all, data, n, conns, j, k)
              && ([e] + rest)[k] == Edge(n.id, n.outputPorts[j + k],
                                         Some(FirstNodeWithGuid(all, conns[k].targetNodeGuid).value.id))
  {
    forall k | 1 <= k < |conns|
      ensures Wirable(all, data, n, conns, j, k)
      ensures ([e] + rest)[k] == Edge(n.id, n.outputPorts[j + k],
                                      Some(FirstNodeWithGuid(all, conns[k].targetNodeGuid).value.id))
    {
      var i := k - 1;
      assert conns[1..][i] == conns[k];
      assert Wirable(all, data, n, conns[1..], j + 1, i);
      assert ([e] + rest)[k] == rest[i];
    }
  }

  /** Every link leaving every node of `from` can be drawn from that node. */
  ghost predicate AllWirable(all: seq<DialogueNode>, c: DialogueContainer, from: seq<DialogueNode>) {
    forall i, k :: 0 <= i < |from| && 0 <= k < |OutgoingLinks(c.nodeLinks, from[i].guid)| ==>
      Wirable(all, c.dialogueNodeData, from[i], OutgoingLinks(c.nodeLinks, from[i].guid), 0, k)
  }

  /** All links of a list of nodes can be drawn when those of its first node and those of
      the rest can. */
  lemma AllWirableCons(all: seq<DialogueNode>, c: DialogueContainer, from: seq<DialogueNode>)
    requires |from| > 0
    ensures AllWirable(all, c, from)
        <==> && (forall k :: 0 <= k < |OutgoingLinks(c.nodeLinks, from[0].guid)| ==>
                   Wirable(all, c.dialogueNodeData, from[0], OutgoingLinks(c.nodeLinks, from[0].guid), 0, k))
             && AllWirable(all, c, from[1..])
  {
    var rest := from[1..];
    if AllWirable(all, c, from) {
      forall i, k | 0 <= i < |rest| && 0 <= k < |OutgoingLinks(c.nodeLinks, rest[i].guid)|
        ensures Wirable(all, c.dialogueNodeData, rest[i], OutgoingLinks(c.nodeLinks, rest[i].guid), 0, k)
      {
        assert rest[i] == from[i + 1];
      }
    }
    if AllWirable(all, c, rest) {
      forall i, k | 1 <= i < |from| && 0 <= k < |OutgoingLinks(c.nodeLinks, from[i].guid)|
        ensures Wirable(all, c.dialogueNodeData, from[i], OutgoingLinks(c.nodeLinks, from[i].guid), 0, k)
      {
        assert rest[i - 1] == from[i];
      }
    }
  }

  /** The edges of `ConnectDialogueNodes` for the nodes `from`, node by node: the first
      link that cannot be drawn aborts. */
  function ConnectNodes(all: seq<DialogueNode>, c: DialogueContainer, from: seq<DialogueNode>)
    : (r: Result<seq<Edge>, LoadError>)
    ensures r.Ok? <==> AllWirable(all, c, from)
    decreases |from|
  {
    if |from| == 0 then Ok([])
    else
      AllWirableCons(all, c, from);
      match ConnectLinks(all, c.dialogueNodeData, from[0], OutgoingLinks(c.nodeLinks, from[0].guid), 0)
      case Err(e) => Err(e)
      case Ok(es) =>
        match ConnectNodes(all, c, from[1..])
        case Err(e) => Err(e)
        case Ok(rest) => Ok(es + rest)
  }

  /** The link leaves a node of the view. */
  predicate LeavesView(nodes: seq<DialogueNode>, l: NodeLinkData) {
    exists i :: 0 <= i < |nodes| && nodes[i].guid == l.baseNodeGuid
  }

  /** Some link whose base is a node of the view targets this GUID. */
  predicate IsLinkTarget(nodes: seq<DialogueNode>, links: seq<NodeLinkData>, guid: string) {
    exists k :: 0 <= k < |links| && links[k].targetNodeGuid == guid && LeavesView(nodes, links[k])
  }

  /** The position a node has after `ConnectDialogueNodes`: the first node carrying a
      targeted GUID moves to that GUID's stored position; every other node stays put. */
  function RestoredNode(nodes: seq<DialogueNode>, data: seq<DialogueNodeData>, links: seq<NodeLinkData>, i: nat)
    : (r: DialogueNode)
    requires i < |nodes|
    ensures r.(position := nodes[i].position) == nodes[i]
    ensures (|| FirstGuidIndex(nodes, nodes[i].guid) != Some(i) || !IsLinkTarget(nodes, links, nodes[i].guid)
             || FirstNodeData(data, nodes[i].guid).None?) ==> r == nodes[i]
    ensures && FirstGuidIndex(nodes, nodes[i].guid) == Some(i) && IsLinkTarget(nodes, links, nodes[i].guid)
            && FirstNodeData(data, nodes[i].guid).Some?
            ==> r.position == data[FirstNodeData(data, nodes[i].guid).value].position
  {
    var n := nodes[i];
    var firstOfGuid := forall j :: 0 <= j < i ==> nodes[j].guid != n.guid;
    match FirstNodeData(data, n.guid)
    case Some(d) =>
      if firstOfGuid && IsLinkTarget(nodes, links, n.guid) then n.(position := data[d].position) else n
    case None => n
  }

  /** After wiring, the first node carrying the target GUID of a link that leaves the view
      stands at the first stored position for that GUID. */
  ghost predicate TargetRestored(before: seq<DialogueNode>, after: seq<DialogueNode>,
                                 data: seq<DialogueNodeData>, t: string) {
    && FirstGuidIndex(before, t).Some? && FirstGuidIndex(before, t).value < |after|
    && FirstNodeData(data, t).Some?
    && after[FirstGuidIndex(before, t).value].position == data[FirstNodeData(data, t).value].position
  }

  /** When every link can be drawn, every link leaving the view restores its target. */
  lemma RestoredTargets(nodes: seq<DialogueNode>, c: DialogueContainer, after: seq<DialogueNode>)
    requires AllWirable(nodes, c, nodes)
    requires |after| == |nodes|
    requires forall i :: 0 <= i < |nodes| ==> after[i] == RestoredNode(nodes, c.dialogueNodeData, c.nodeLinks, i)
    ensures forall k :: 0 <= k < |c.nodeLinks| && LeavesView(nodes, c.nodeLinks[k]) ==>
              TargetRestored(nodes, after, c.dialogueNodeData, c.nodeLinks[k].targetNodeGuid)
  {
    forall k | 0 <= k < |c.nodeLinks| && LeavesView(nodes, c.nodeLinks[k])
      ensures TargetRestored(nodes, after, c.dialogueNodeData, c.nodeLinks[k].targetNodeGuid)
    {
      var l := c.nodeLinks[k];
      var t := l.targetNodeGuid;
      var i :| 0 <= i < |nodes| && nodes[i].guid == l.baseNodeGuid;
      var o := OutgoingLinks(c.nodeLinks, nodes[i].guid);
      assert l in c.nodeLinks;
      var m :| 0 <= m < |o| && o[m] == l;
      assert Wirable(nodes, c.dialogueNodeData, nodes[i], o, 0, m);
      var v := FirstGuidIndex(nodes, t).value;
      assert IsLinkTarget(nodes, c.nodeLinks, nodes[v].guid);
      assert after[v] == RestoredNode(nodes, c.dialogueNodeData, c.nodeLinks, v);
    }
  }

  /** `ConnectDialogueNodes`: wires every node's links, node by node in view order, and
      restores the targets' positions. The first broken reference aborts the load. */
  function ConnectDialogueNodes(g: StoryGraphView, c: DialogueContainer): (r: Result<StoryGraphView, LoadError>)
    ensures r.Ok? <==> AllWirable(g.nodes, c, g.nodes)
    ensures r.Ok? ==> r.value.edges == g.edges + ConnectNodes(g.nodes, c, g.nodes).value
    ensures r.Ok? ==> |r.value.nodes| == |g.nodes|
    ensures r.Ok? ==> forall i :: 0 <= i < |g.nodes| ==> r.value.nodes[i].(position := g.nodes[i].position) == g.nodes[i]
    ensures r.Ok? ==> forall k :: 0 <= k < |c.nodeLinks| && LeavesView(g.nodes, c.nodeLinks[k]) ==>
              TargetRestored(g.nodes, r.value.nodes, c.dialogueNodeData, c.nodeLinks[k].targetNodeGuid)
    ensures r.Ok? ==> forall i :: 0 <= i < |g.nodes| && !IsLinkTarget(g.nodes, c.nodeLinks, g.nodes[i].guid) ==>
              r.value.nodes[i] == g.nodes[i]
    ensures r.Ok? ==> forall i :: 0 <= i < |g.nodes| && FirstGuidIndex(g.nodes, g.nodes[i].guid) != Some(i) ==>
              r.value.nodes[i] == g.nodes[i]
    ensures r.Ok? ==> r.value.groups == g.groups && r.value.exposedProperties == g.exposedProperties
  {
    match ConnectNodes(g.nodes, c, g.nodes)
    case Err(e) => Err(e)
    case Ok(es) =>
      var restored := seq(|g.nodes|, i requires 0 <= i < |g.nodes| =>
                            RestoredNode(g.nodes, c.dialogueNodeData, c.nodeLinks, i));
      RestoredTargets(g.nodes, c, restored);
      Ok(g.(edges := g.edges + es, nodes := restored))
  }

  /** `p` is what an ordinary add of the stored property `stored` appends to `before`:
      the stored value, under the least-suffix name unused in `before`. */
  predicate AddedAs(before: seq<ExposedProperty>, stored: ExposedProperty, p: ExposedProperty) {
    p.propertyValue == stored.propertyValue && p.propertyName == UniqueName(before, stored.propertyName)
  }

  /** The blackboard after the loader's `foreach`: the stored properties added one by one
      to an empty blackboard with ordinary adds, so each name is made unique against the
      names loaded before it. */
  function LoadProperties(props: seq<ExposedProperty>): (r: seq<ExposedProperty>)
    ensures |r| == |props|
    ensures forall k :: 0 <= k < |props| ==> AddedAs(r[..k], props[k], r[k])
    ensures DistinctNames(r)
    decreases |props|
  {
    if |props| == 0 then []
    else
      var init := props[..|props| - 1];
      var prev := LoadProperties(init);
      var r := AddPropertyToBlackBoard(prev, props[|props| - 1], false);
      LoadPropertiesExtend(init, props, prev, r);
      AddKeepsNamesDistinct(prev, props[|props| - 1]);
      r
  }

  /** The step of `LoadProperties`: the last property added after the earlier ones. */
  lemma LoadPropertiesExtend(init: seq<ExposedProperty>, props: seq<ExposedProperty>,
                             prev: seq<ExposedProperty>, r: seq<ExposedProperty>)
    requires |props| > 0 && init == props[..|props| - 1] && |prev| == |init|
    requires forall k :: 0 <= k < |init| ==> AddedAs(prev[..k], init[k], prev[k])
    requires |r| == |props| && r[..|prev|] == prev && AddedAs(prev, props[|props| - 1], r[|prev|])
    ensures forall k :: 0 <= k < |props| ==> AddedAs(r[..k], props[k], r[k])
  {
    forall k | 0 <= k < |props|
      ensures AddedAs(r[..k], props[k], r[k])
    {
      if k < |init| {
        assert r[..k] == prev[..k];
        assert r[k] == prev[k];
        assert init[k] == props[k];
      } else {
        assert r[..k] == prev;
      }
    }
  }

  /** Stored properties with distinct names load verbatim. */
  lemma {:induction false} LoadPropertiesVerbatim(props: seq<ExposedProperty>)
    requires DistinctNames(props)
    ensures LoadProperties(props) == props
    decreases |props|
  {
    if |props| > 0 {
      var init := props[..|props| - 1];
      var last := props[|props| - 1];
      assert DistinctNames(init) by {
        forall i, j | 0 <= i < j < |init| ensures init[i].propertyName != init[j].propertyName {
          assert init[i] == props[i] && init[j] == props[j];
        }
      }
      LoadPropertiesVerbatim(init);
      assert !NameTaken(init, Suffixed(last.propertyName, 0)) by {
        forall i | 0 <= i < |init| ensures init[i].propertyName != last.propertyName {
          assert init[i] == props[i];
        }
      }
      LeastSuffixIsUnique(init, last.propertyName, 0);
      assert init + [last] == props;
    }
  }

  /** `AddExposedProperties`: the blackboard is cleared and refilled from the asset with
      ordinary adds, so a stored name that repeats an earlier one comes back suffixed. */
  function AddExposedProperties(g: StoryGraphView, c: DialogueContainer): (r: StoryGraphView)
    ensures |r.exposedProperties| == |c.exposedProperties|
    ensures forall k :: 0 <= k < |c.exposedProperties| ==>
              AddedAs(r.exposedProperties[..k], c.exposedProperties[k], r.exposedProperties[k])
    ensures DistinctNames(r.exposedProperties)
    ensures DistinctNames(c.exposedProperties) ==> r.exposedProperties == c.exposedProperties
    ensures r.(exposedProperties := g.exposedProperties) == g
  {
    if DistinctNames(c.exposedProperties) then
      LoadPropertiesVerbatim(c.exposedProperties);
      g.(exposedProperties := LoadProperties(c.exposedProperties))
    else g.(exposedProperties := LoadProperties(c.exposedProperties))
  }

  /** Loading an asset that stores two properties of one name renames the second. */
  lemma LoadRenamesDuplicate(g: StoryGraphView)
    ensures var c := DialogueContainer([], [], [ExposedProperty("Health", "1"), ExposedProperty("Health", "2")], []);
            AddExposedProperties(g, c).exposedProperties
            == [ExposedProperty("Health", "1"), ExposedProperty("Health(1)", "2")]
  {
    var stored := [ExposedProperty("Health", "1"), ExposedProperty("Health", "2")];
    var once := [ExposedProperty("Health", "1")];
    assert stored[..1] == once && once[..0] == [];
    LoadPropertiesVerbatim(once);
    assert Suffixed("Health", 1) == "Health(1)";
    assert once[0].propertyName == Suffixed("Health", 0);
    LeastSuffixIsUnique(once, "Health", 1);
    assert LoadProperties(stored) == AddPropertyToBlackBoard(once, stored[1], false);
  }

  /** The nodes a rebuilt group contains: every node, in view order, whose GUID is listed. */
  function ContainedNodes(nodes: seq<DialogueNode>, childNodes: seq<string>): (r: seq<NodeId>)
    ensures |r| <= |nodes|
    ensures forall i :: 0 <= i < |nodes| && nodes[i].guid in childNodes ==> nodes[i].id in r
    ensures forall id :: id in r ==> exists i :: 0 <= i < |nodes| && nodes[i].id == id && nodes[i].guid in childNodes
  {
    if |nodes| == 0 then []
    else
      var rest := ContainedNodes(nodes[1..], childNodes);
      assert forall id :: id in rest ==> exists i :: 1 <= i < |nodes| && nodes[i].id == id && nodes[i].guid in childNodes;
      if nodes[0].guid in childNodes then [nodes[0].id] + rest else rest
  }

  /** `GenerateCommentBlocks`: existing groups are removed and one group per stored block is
      created, with the stored title and position. */
  function GenerateCommentBlocks(g: StoryGraphView, c: DialogueContainer): (r: StoryGraphView)
    ensures |r.groups| == |c.commentBlockData|
    ensures forall k :: 0 <= k < |c.commentBlockData| ==>
              r.groups[k] == Group(c.commentBlockData[k].title, c.commentBlockData[k].position,
                                   ContainedNodes(g.nodes, c.commentBlockData[k].childNodes))
    ensures r.(groups := g.groups) == g
  {
    var groups := seq(|c.commentBlockData|, k requires 0 <= k < |c.commentBlockData| =>
                        Group(c.commentBlockData[k].title, c.commentBlockData[k].position,
                              ContainedNodes(g.nodes, c.commentBlockData[k].childNodes)));
    g.(groups := groups)
  }

  /** The steps of `LoadNarrative` after the asset is found, in the source's order. */
  function LoadContainer(g: StoryGraphView, c: DialogueContainer): (r: Result<StoryGraphView, LoadError>)
    ensures |c.nodeLinks| == 0 ==> r == Err(NoLinks)
    ensures (forall i :: 0 <= i < |g.nodes| ==> !g.nodes[i].entryPoint) ==> r.Err?
    ensures r.Ok? ==> |r.value.nodes| == |EntryNodes(g.nodes)| + |c.dialogueNodeData|
    ensures r.Ok? ==> |c.nodeLinks| > 0 && |r.value.nodes| > 0 && r.value.nodes[0].entryPoint
                      && r.value.nodes[0].guid == c.nodeLinks[0].baseNodeGuid
    ensures r.Ok? ==> |r.value.exposedProperties| == |c.exposedProperties| && DistinctNames(r.value.exposedProperties)
    ensures r.Ok? && DistinctNames(c.exposedProperties) ==> r.value.exposedProperties == c.exposedProperties
    ensures r.Ok? ==> |r.value.groups| == |c.commentBlockData|
                      && forall k :: 0 <= k < |c.commentBlockData| ==>
                           r.value.groups[k].title == c.commentBlockData[k].title
                           && r.value.groups[k].position == c.commentBlockData[k].position
  {
    match ClearGraph(g, c)
    case Err(e) => Err(e)
    case Ok(cleared) =>
      var generated := GenerateDialogueNodes(cleared, c);
      assert generated.nodes[0] == cleared.nodes[0] == EntryNodes(g.nodes)[0].(guid := c.nodeLinks[0].baseNodeGuid);
      match ConnectDialogueNodes(generated, c)
      case Err(e) => Err(e)
      case Ok(connected) =>
        assert connected.nodes[0].(position := generated.nodes[0].position) == generated.nodes[0];
        var withProperties := AddExposedProperties(connected, c);
        assert withProperties.nodes == connected.nodes;
        Ok(GenerateCommentBlocks(withProperties, c))
  }

  /** What a load hands back: the extracted file name and the rebuilt view. */
  datatype Loaded = Loaded(fileName: string, graph: StoryGraphView)

  /** `LoadNarrative`: the path comes from the file panel (a parameter here). An empty path
      loads nothing; otherwise the file name is cut out and the asset at the path rebuilt. */
  function LoadNarrative(g: StoryGraphView, assets: map<string, DialogueContainer>, filePath: string)
    : (r: Result<Loaded, LoadError>)
    ensures |filePath| == 0 ==> r == Ok(Loaded("", g))
    ensures |filePath| > 0 && r.Ok? ==> (&& ExtractFileName(filePath) == Ok(r.value.fileName)
                                         && filePath in assets
                                         && LoadContainer(g, assets[filePath]) == Ok(r.value.graph))
    ensures |filePath| > 0 && filePath !in assets ==> r.Err?
  {
    if |filePath| == 0 then Ok(Loaded("", g))
    else match ExtractFileName(filePath)
      case Err(e) => Err(e)
      case Ok(name) =>
        if filePath !in assets then Err(MissingAsset)
        else match LoadContainer(g, assets[filePath])
          case Err(e) => Err(e)
          case Ok(loaded) => Ok(Loaded(name, loaded))
  }
}
