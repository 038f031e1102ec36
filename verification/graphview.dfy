/** The editor graph (`StoryGraphView`) as plain data: dialogue nodes, edges between
    their ports, comment groups and the blackboard's exposed properties, with the
    operations the view performs on them. Rendering and widgets are not modelled. */
module GraphView {
  import opened Wrappers
  import opened Strings
  import opened Runtime

  /** The identity of a node object in the editor. It is distinct from the node's GUID:
      the source compares nodes by reference, and two nodes can carry the same GUID. */
  type NodeId = nat

  /** `DialogueNode`: a GUID, lines of text, the entry flag, the names of its output
      ports in order, and its position. Every non-entry node also has one input port. */
  datatype DialogueNode = DialogueNode(
    id: NodeId,
    guid: string,
    dialogueText: seq<string>,
    entryPoint: bool,
    outputPorts: seq<string>,
    position: Vector2)

  /** An edge from the output port named `outputPortName` on node `outputNode` to the input
      port of `inputNode`; `None` is an edge whose input end is not attached to a node. */
  datatype Edge = Edge(outputNode: NodeId, outputPortName: string, inputNode: Option<NodeId>)

  /** A comment group and the elements it contains, in containment order. */
  datatype Group = Group(title: string, position: Vector2, containedElements: seq<NodeId>)

  /** The view's state. Node, edge and group order is the order the view lists them in. */
  datatype StoryGraphView = StoryGraphView(
    nodes: seq<DialogueNode>,
    edges: seq<Edge>,
    groups: seq<Group>,
    exposedProperties: seq<ExposedProperty>)

  /** `GetEntryPointNodeInstance`: the START node, with the single output port "Next". */
  function EntryPointNode(id: NodeId, guid: string): (n: DialogueNode)
    ensures n.entryPoint && n.id == id && n.guid == guid
    ensures n.outputPorts == ["Next"] && n.dialogueText == ["ENTRYPOINT"]
  {
    DialogueNode(id, guid, ["ENTRYPOINT"], true, ["Next"], Vector2(100.0, 200.0))
  }

  /** A freshly constructed view: the entry node alone. */
  function NewStoryGraphView(entryId: NodeId, entryGuid: string): (g: StoryGraphView)
    ensures |g.nodes| == 1 && g.nodes[0] == EntryPointNode(entryId, entryGuid)
    ensures g.edges == [] && g.groups == [] && g.exposedProperties == []
  {
    StoryGraphView([EntryPointNode(entryId, entryGuid)], [], [], [])
  }

  /** `CreateNode`: a non-entry node holding `text`, without output ports yet. The GUID the
      source draws at random is a parameter here. */
  function CreateNode(id: NodeId, guid: string, text: seq<string>, position: Vector2): (n: DialogueNode)
    ensures !n.entryPoint && n.outputPorts == []
    ensures n.id == id && n.guid == guid && n.dialogueText == text && n.position == position
  {
    DialogueNode(id, guid, text, false, [], position)
  }

  // ---------------------------------------------------------------- blackboard

  /** Some property already has this name. */
  predicate NameTaken(props: seq<ExposedProperty>, name: string) {
    exists i :: 0 <= i < |props| && props[i].propertyName == name
  }

  /** No two properties share a name. */
  predicate DistinctNames(props: seq<ExposedProperty>) {
    forall i, j :: 0 <= i < j < |props| ==> props[i].propertyName != props[j].propertyName
  }

  /** `name` followed by `k` copies of "(1)". */
  function Suffixed(name: string, k: nat): (r: string)
    ensures |r| == |name| + 3 * k
    ensures r[..|name|] == name
  {
    if k == 0 then name else Suffixed(name, k - 1) + "(1)"
  }

  /** The length of the longest property name. */
  function MaxNameLength(props: seq<ExposedProperty>): (m: nat)
    ensures forall i :: 0 <= i < |props| ==> |props[i].propertyName| <= m
  {
    if |props| == 0 then 0
    else
      var rest := MaxNameLength(props[1..]);
      if |props[0].propertyName| > rest then |props[0].propertyName| else rest
  }

  /** The least number of "(1)" suffixes, counting from `k`, that makes `name` unused.
      It exists because a name longer than every existing name is unused. */
  function SuffixCountFrom(props: seq<ExposedProperty>, name: string, k: nat): (r: nat)
    requires forall j :: 0 <= j < k ==> NameTaken(props, Suffixed(name, j))
    ensures r >= k
    ensures !NameTaken(props, Suffixed(name, r))
    ensures forall j :: 0 <= j < r ==> NameTaken(props, Suffixed(name, j))
    decreases MaxNameLength(props) + 1 - (|name| + 3 * k)
  {
    if NameTaken(props, Suffixed(name, k)) then SuffixCountFrom(props, name, k + 1) else k
  }

  /** The name a non-load add stores: `name` with the least number of "(1)" suffixes that
      avoids every existing name. */
  function UniqueName(props: seq<ExposedProperty>, name: string): (r: string)
    ensures !NameTaken(props, r)
    ensures exists k: nat :: r == Suffixed(name, k) && forall j :: 0 <= j < k ==> NameTaken(props, Suffixed(name, j))
  {
    var k := SuffixCountFrom(props, name, 0);
    Suffixed(name, k)
  }

  /** Only one suffix count is least. */
  lemma LeastSuffixIsUnique(props: seq<ExposedProperty>, name: string, k: nat)
    requires !NameTaken(props, Suffixed(name, k))
    requires forall j :: 0 <= j < k ==> NameTaken(props, Suffixed(name, j))
    ensures UniqueName(props, name) == Suffixed(name, k)
  {
    var m: nat := SuffixCountFrom(props, name, 0);
    assert m < k ==> NameTaken(props, Suffixed(name, m));
    assert k < m ==> NameTaken(props, Suffixed(name, k));
  }

  /** The disambiguation loop of `AddPropertyToBlackBoard` as the source writes it:
      append "(1)" while the name collides. It stops, at the least such name. */
  method DisambiguateName(props: seq<ExposedProperty>, name: string) returns (r: string)
    ensures r == UniqueName(props, name)
    ensures !NameTaken(props, r)
  {
    r := name;
    ghost var k: nat := 0;
    while NameTaken(props, r)
      invariant r == Suffixed(name, k)
      invariant forall j :: 0 <= j < k ==> NameTaken(props, Suffixed(name, j))
      decreases MaxNameLength(props) + 1 - |r|
    {
      r := r + "(1)";
      k := k + 1;
    }
    LeastSuffixIsUnique(props, name, k);
  }

  /** `AddPropertyToBlackBoard`: appends one property with the given value. In load mode
      the name is kept verbatim; otherwise it is disambiguated. */
  function AddPropertyToBlackBoard(props: seq<ExposedProperty>, property: ExposedProperty, loadMode: bool)
    : (r: seq<ExposedProperty>)
    ensures |r| == |props| + 1 && r[..|props|] == props
    ensures r[|props|].propertyValue == property.propertyValue
    ensures loadMode ==> r[|props|].propertyName == property.propertyName
    ensures !loadMode ==> r[|props|].propertyName == UniqueName(props, property.propertyName)
    ensures !loadMode ==> !NameTaken(props, r[|props|].propertyName)
  {
    var name := if loadMode then property.propertyName else UniqueName(props, property.propertyName);
    props + [ExposedProperty(name, property.propertyValue)]
  }

  /** A non-load add keeps the property names pairwise distinct. */
  lemma AddKeepsNamesDistinct(props: seq<ExposedProperty>, property: ExposedProperty)
    requires DistinctNames(props)
    ensures DistinctNames(AddPropertyToBlackBoard(props, property, false))
  {
    var r := AddPropertyToBlackBoard(props, property, false);
    forall i, j | 0 <= i < j < |r|
      ensures r[i].propertyName != r[j].propertyName
    {
      if j == |props| {
        assert r[i] == props[i];
      } else {
        assert r[i] == props[i] && r[j] == props[j];
      }
    }
  }

  /** Adding "Health" three times stores "Health", "Health(1)" and "Health(1)(1)". */
  lemma RepeatedAddExample()
    ensures var p := ExposedProperty("Health", "v");
            var once := AddPropertyToBlackBoard([], p, false);
            var twice := AddPropertyToBlackBoard(once, p, false);
            var thrice := AddPropertyToBlackBoard(twice, p, false);
            thrice == [ExposedProperty("Health", "v"), ExposedProperty("Health(1)", "v"),
                       ExposedProperty("Health(1)(1)", "v")]
  {
    var p := ExposedProperty("Health", "v");
    LeastSuffixIsUnique([], "Health", 0);
    var once := [ExposedProperty("Health", "v")];
    assert Suffixed("Health", 1) == "Health(1)";
    assert once[0].propertyName == Suffixed("Health", 0);
    LeastSuffixIsUnique(once, "Health", 1);
    var twice := once + [ExposedProperty("Health(1)", "v")];
    assert Suffixed("Health", 2) == "Health(1)(1)";
    assert twice[0].propertyName == Suffixed("Health", 0);
    assert twice[1].propertyName == Suffixed("Health", 1);
    assert !NameTaken(twice, Suffixed("Health", 2));
    LeastSuffixIsUnique(twice, "Health", 2);
  }

  /** `ExposedProperties.FindIndex(x => x.propertyName == name)`: the first index with that
      name, or -1. */
  function FindPropertyIndex(props: seq<ExposedProperty>, name: string): (r: int)
    ensures -1 <= r < |props|
    ensures r == -1 <==> !NameTaken(props, name)
    ensures r >= 0 ==> props[r].propertyName == name
    ensures forall j :: 0 <= j < r ==> props[j].propertyName != name
  {
    if |props| == 0 then -1
    else if props[0].propertyName == name then 0
    else
      var i := FindPropertyIndex(props[1..], name);
      if i < 0 then -1 else i + 1
  }

  /** Why a blackboard edit stops: indexing the list with -1 when no property has the name,
      or a rename to a name already in use. */
  datatype BlackboardError = IndexOutOfRange | DuplicateName

  /** The value-field callback: the first property named like the edited item takes the
      new value; an unknown name indexes with -1, which throws. */
  function EditPropertyValue(props: seq<ExposedProperty>, itemName: string, newValue: string)
    : (r: Result<seq<ExposedProperty>, BlackboardError>)
    ensures r.Err? <==> !NameTaken(props, itemName)
    ensures r.Ok? ==> |r.value| == |props|
    ensures r.Ok? ==> forall j :: 0 <= j < |props| ==>
              r.value[j].propertyName == props[j].propertyName
              && (r.value[j].propertyValue == props[j].propertyValue
                  || (r.value[j].propertyValue == newValue && j == FindPropertyIndex(props, itemName)))
    ensures r.Ok? ==> r.value[FindPropertyIndex(props, itemName)].propertyValue == newValue
  {
    var i := FindPropertyIndex(props, itemName);
    if i < 0 then Err(IndexOutOfRange)
    else Ok(props[i := props[i].(propertyValue := newValue)])
  }

  /** A value edit touches one entry: every other entry, and every name, is unchanged. */
  lemma EditTouchesOneEntry(props: seq<ExposedProperty>, itemName: string, newValue: string, j: nat)
    requires EditPropertyValue(props, itemName, newValue).Ok?
    requires j < |props| && j != FindPropertyIndex(props, itemName)
    ensures EditPropertyValue(props, itemName, newValue).value[j] == props[j]
  {
  }

  // ---------------------------------------------------------------- ports

  /** The label `AddChoicePort` gives a new port: the requested name, or "Option n" with n
      one more than the ports the node already has when the requested name is empty. */
  function ChoicePortName(existingCount: nat, overriddenPortName: string): (r: string)
    ensures overriddenPortName != "" ==> r == overriddenPortName
    ensures overriddenPortName == "" ==> r == "Option " + NatToString(existingCount + 1)
  {
    if overriddenPortName == "" then "Option " + NatToString(existingCount + 1) else overriddenPortName
  }

  /** A port label is never empty, and the fallback label tells the port's position. */
  lemma ChoicePortNameNeverEmpty(existingCount: nat, overriddenPortName: string)
    ensures ChoicePortName(existingCount, overriddenPortName) != ""
    ensures overriddenPortName == "" ==>
              var name := ChoicePortName(existingCount, overriddenPortName);
              name[..7] == "Option " && ParseDigits(name[7..]) == existingCount + 1
  {
    if overriddenPortName == "" {
      var name := ChoicePortName(existingCount, overriddenPortName);
      assert name[7..] == NatToString(existingCount + 1);
      NatToStringRoundTrip(existingCount + 1);
    }
  }

  /** `AddChoicePort`: appends one output port to the node and changes nothing else. */
  function AddChoicePort(node: DialogueNode, overriddenPortName: string): (r: DialogueNode)
    ensures r.outputPorts == node.outputPorts + [ChoicePortName(|node.outputPorts|, overriddenPortName)]
    ensures r.(outputPorts := node.outputPorts) == node
  {
    node.(outputPorts := node.outputPorts + [ChoicePortName(|node.outputPorts|, overriddenPortName)])
  }

  /** A port of the view, identified by its node and a per-view port identity. */
  datatype PortRef = PortRef(node: NodeId, port: nat)

  /** `GetCompatiblePorts`: every port, in view order, that is neither the start port nor
      on the start port's node. */
  function CompatiblePorts(ports: seq<PortRef>, start: PortRef): (r: seq<PortRef>)
    ensures |r| <= |ports|
    ensures forall p :: p in r ==> p in ports && p != start && p.node != start.node
    ensures forall p :: p in ports && p != start && p.node != start.node ==> p in r
  {
    if |ports| == 0 then []
    else if ports[0] != start && ports[0].node != start.node then [ports[0]] + CompatiblePorts(ports[1..], start)
    else CompatiblePorts(ports[1..], start)
  }

  /** Compatibility filtering keeps view order: it distributes over concatenation. */
  lemma {:induction false} CompatiblePortsConcat(a: seq<PortRef>, b: seq<PortRef>, start: PortRef)
    ensures CompatiblePorts(a + b, start) == CompatiblePorts(a, start) + CompatiblePorts(b, start)
    decreases |a|
  {
    if |a| == 0 {
      assert a + b == b;
    } else {
      assert (a + b)[0] == a[0];
      assert (a + b)[1..] == a[1..] + b;
      CompatiblePortsConcat(a[1..], b, start);
    }
  }

  /** The index of the first edge leaving `node` through a port named `portName`, or -1. */
  function FirstEdgeFrom(edges: seq<Edge>, node: NodeId, portName: string): (r: int)
    ensures -1 <= r < |edges|
    ensures r >= 0 ==> edges[r].outputNode == node && edges[r].outputPortName == portName
    ensures forall j :: 0 <= j < |edges| && (r < 0 || j < r) ==>
              !(edges[j].outputNode == node && edges[j].outputPortName == portName)
  {
    if |edges| == 0 then -1
    else if edges[0].outputNode == node && edges[0].outputPortName == portName then 0
    else
      var i := FirstEdgeFrom(edges[1..], node, portName);
      if i < 0 then -1 else i + 1
  }

  /** `RemovePort`: drops the first edge leaving the node through a port with the socket's
      name, if there is one, and then the port itself. Other nodes are untouched. */
  function RemovePort(g: StoryGraphView, nodeIndex: nat, portIndex: nat): (r: StoryGraphView)
    requires nodeIndex < |g.nodes| && portIndex < |g.nodes[nodeIndex].outputPorts|
    ensures var node := g.nodes[nodeIndex];
            var k := FirstEdgeFrom(g.edges, node.id, node.outputPorts[portIndex]);
            && (k < 0 ==> r.edges == g.edges)
            && (k >= 0 ==> r.edges == g.edges[..k] + g.edges[k + 1..])
    ensures |r.nodes| == |g.nodes|
    ensures forall i :: 0 <= i < |g.nodes| && i != nodeIndex ==> r.nodes[i] == g.nodes[i]
    ensures var ports := g.nodes[nodeIndex].outputPorts;
            r.nodes[nodeIndex] == g.nodes[nodeIndex].(outputPorts := ports[..portIndex] + ports[portIndex + 1..])
    ensures r.groups == g.groups && r.exposedProperties == g.exposedProperties
  {
    var node := g.nodes[nodeIndex];
    var k := FirstEdgeFrom(g.edges, node.id, node.outputPorts[portIndex]);
    var edges := if k < 0 then g.edges else g.edges[..k] + g.edges[k + 1..];
    var ports := node.outputPorts[..portIndex] + node.outputPorts[portIndex + 1..];
    g.(edges := edges, nodes := g.nodes[nodeIndex := node.(outputPorts := ports)])
  }

  /** Removing a port removes at most one edge, and only one of that node's edges through
      a port of that name; every other edge keeps its place in order. */
  lemma RemovePortRemovesAtMostOneEdge(g: StoryGraphView, nodeIndex: nat, portIndex: nat)
    requires nodeIndex < |g.nodes| && portIndex < |g.nodes[nodeIndex].outputPorts|
    ensures var r := RemovePort(g, nodeIndex, portIndex);
            |g.edges| - 1 <= |r.edges| <= |g.edges|
    ensures var r := RemovePort(g, nodeIndex, portIndex);
            multiset(r.edges) <= multiset(g.edges)
    ensures var r := RemovePort(g, nodeIndex, portIndex);
            var node := g.nodes[nodeIndex];
            forall e :: e in multiset(g.edges) - multiset(r.edges) ==>
              e.outputNode == node.id && e.outputPortName == node.outputPorts[portIndex]
  {
    var node := g.nodes[nodeIndex];
    var k := FirstEdgeFrom(g.edges, node.id, node.outputPorts[portIndex]);
    if k >= 0 {
      assert g.edges == g.edges[..k] + [g.edges[k]] + g.edges[k + 1..];
      assert multiset(g.edges) == multiset(g.edges[..k] + g.edges[k + 1..]) + multiset{g.edges[k]};
    }
  }

  /** The first position of `x` in `s`, or -1. */
  function FirstIndexOf<T(==)>(s: seq<T>, x: T): (r: int)
    ensures -1 <= r < |s|
    ensures r < 0 <==> x !in s
    ensures r >= 0 ==> s[r] == x && forall j :: 0 <= j < r ==> s[j] != x
  {
    if |s| == 0 then -1
    else if s[0] == x then 0
    else
      var i := FirstIndexOf(s[1..], x);
      if i < 0 then -1 else i + 1
  }

  /** `List.Remove`: drops the first occurrence of `x`, if any, keeping the rest in order. */
  function RemoveFirst<T(==)>(s: seq<T>, x: T): (r: seq<T>)
    ensures x !in s ==> r == s
    ensures x in s ==> |r| == |s| - 1
  {
    if |s| == 0 then []
    else if s[0] == x then s[1..]
    else [s[0]] + RemoveFirst(s[1..], x)
  }

  /** Dropping position `i` of the tail, with the head put back, drops position `i + 1`. */
  lemma DropFromTail<T>(s: seq<T>, i: nat)
    requires i + 1 < |s|
    ensures [s[0]] + (s[1..][..i] + s[1..][i + 1..]) == s[..i + 1] + s[i + 2..]
  {
    assert [s[0]] + s[1..][..i] == s[..i + 1];
  }

  /** Removing `x` from a list whose first `x` sits at `k` drops position `k`. */
  lemma {:induction false} RemoveFirstAt<T>(s: seq<T>, x: T, k: nat)
    requires k < |s| && s[k] == x
    requires forall j :: 0 <= j < k ==> s[j] != x
    ensures RemoveFirst(s, x) == s[..k] + s[k + 1..]
    decreases k
  {
    if k == 0 {
      assert s[..0] + s[1..] == s[1..];
    } else {
      var t := s[1..];
      assert forall j :: 0 <= j < k - 1 ==> t[j] == s[j + 1];
      RemoveFirstAt(t, x, k - 1);
      DropFromTail(s, k - 1);
    }
  }

  /** What `List.Remove` leaves: the list without its first occurrence of `x`. */
  lemma RemoveFirstDropsFirstOccurrence<T>(s: seq<T>, x: T)
    requires x in s
    ensures var k := FirstIndexOf(s, x); RemoveFirst(s, x) == s[..k] + s[k + 1..]
  {
    RemoveFirstAt(s, x, FirstIndexOf(s, x));
  }

  /** `List.Remove` takes away exactly one copy of a present value. */
  lemma RemoveFirstMultiset<T>(s: seq<T>, x: T)
    requires x in s
    ensures multiset(RemoveFirst(s, x)) == multiset(s) - multiset{x}
  {
    var k := FirstIndexOf(s, x);
    RemoveFirstDropsFirstOccurrence(s, x);
    assert s == s[..k] + [x] + s[k + 1..];
  }

  /** `RemoveTextField`: the node loses the first line equal to the field's text; other
      lines, including later copies of the same text, stay. */
  function RemoveTextField(node: DialogueNode, fieldText: string): (r: DialogueNode)
    ensures r.(dialogueText := node.dialogueText) == node
    ensures fieldText !in node.dialogueText ==> r == node
    ensures fieldText in node.dialogueText ==>
              |r.dialogueText| == |node.dialogueText| - 1
              && multiset(r.dialogueText) == multiset(node.dialogueText) - multiset{fieldText}
    ensures fieldText in node.dialogueText ==>
              var k := FirstIndexOf(node.dialogueText, fieldText);
              r.dialogueText == node.dialogueText[..k] + node.dialogueText[k + 1..]
  {
    var text := RemoveFirst(node.dialogueText, fieldText);
    if fieldText in node.dialogueText then
      RemoveFirstMultiset(node.dialogueText, fieldText);
      RemoveFirstDropsFirstOccurrence(node.dialogueText, fieldText);
      node.(dialogueText := text)
    else node.(dialogueText := text)
  }
}
