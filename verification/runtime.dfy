/** The serialized dialogue asset: four flat record lists (the `DialogueContainer`
    scriptable object) and the lookups both the player and the loader perform on them. */
module Runtime {
  import opened Wrappers

  /** An editor coordinate. It is stored and restored but never computed on. */
  datatype Vector2 = Vector2(x: real, y: real)

  const ZeroPosition := Vector2(0.0, 0.0)

  /** One outgoing choice: from `baseNodeGuid`, labelled `portName`, to `targetNodeGuid`. */
  datatype NodeLinkData = NodeLinkData(baseNodeGuid: string, portName: string, targetNodeGuid: string)

  /** One dialogue node: its GUID, its lines of text and its editor position. */
  datatype DialogueNodeData = DialogueNodeData(nodeGuid: string, dialogueText: seq<string>, position: Vector2)

  /** A global substitution variable. */
  datatype ExposedProperty = ExposedProperty(propertyName: string, propertyValue: string)

  /** The property `ExposedProperty.CreateInstance()` produces. */
  const DefaultProperty := ExposedProperty("New String", "New Value")

  /** A comment block: the GUIDs of the nodes it groups, its position and its title. */
  datatype CommentBlockData = CommentBlockData(childNodes: seq<string>, position: Vector2, title: string)

  /** The asset. The entry node is not stored: by convention it is the base of the first link. */
  datatype DialogueContainer = DialogueContainer(
    nodeLinks: seq<NodeLinkData>,
    dialogueNodeData: seq<DialogueNodeData>,
    exposedProperties: seq<ExposedProperty>,
    commentBlockData: seq<CommentBlockData>)

  const EmptyContainer := DialogueContainer([], [], [], [])

  /** `nodeLinks.Where(x => x.baseNodeGuid == guid)`: the links leaving `guid`, in list order. */
  function OutgoingLinks(links: seq<NodeLinkData>, guid: string): (r: seq<NodeLinkData>)
    ensures |r| <= |links|
    ensures forall l :: l in r ==> l in links && l.baseNodeGuid == guid
    ensures forall l :: l in links && l.baseNodeGuid == guid ==> l in r
  {
    if |links| == 0 then []
    else if links[0].baseNodeGuid == guid then [links[0]] + OutgoingLinks(links[1..], guid)
    else OutgoingLinks(links[1..], guid)
  }

  /** Filtering distributes over concatenation: the links of an earlier part of the list
      come before those of a later part. */
  lemma {:induction false} OutgoingConcat(a: seq<NodeLinkData>, b: seq<NodeLinkData>, guid: string)
    ensures OutgoingLinks(a + b, guid) == OutgoingLinks(a, guid) + OutgoingLinks(b, guid)
    decreases |a|
  {
    if |a| == 0 {
      assert a + b == b;
    } else {
      assert (a + b)[0] == a[0];
      assert (a + b)[1..] == a[1..] + b;
      OutgoingConcat(a[1..], b, guid);
    }
  }

  /** `sel` is the ordered selection of `links` at the increasing positions `idx`, and a
      position is selected exactly when its link leaves `guid`. */
  ghost predicate SelectionOf(links: seq<NodeLinkData>, sel: seq<NodeLinkData>, guid: string, idx: seq<nat>) {
    && |idx| == |sel|
    && (forall k :: 0 <= k < |idx| ==> idx[k] < |links| && sel[k] == links[idx[k]])
    && (forall k, m :: 0 <= k < m < |idx| ==> idx[k] < idx[m])
    && (forall i :: 0 <= i < |links| ==> (links[i].baseNodeGuid == guid <==> i in idx))
  }

  /** Every position moved one place right. */
  function ShiftRight(idx: seq<nat>): (r: seq<nat>)
    ensures |r| == |idx|
    ensures forall k :: 0 <= k < |r| ==> r[k] == idx[k] + 1
  {
    if |idx| == 0 then [] else [idx[0] + 1] + ShiftRight(idx[1..])
  }

  /** Moving positions right moves membership with them. */
  lemma ShiftRightMembership(idx: seq<nat>, i: nat)
    requires i >= 1
    ensures i in ShiftRight(idx) <==> i - 1 in idx
  {
    var shifted := ShiftRight(idx);
    if i - 1 in idx {
      var k :| 0 <= k < |idx| && idx[k] == i - 1;
      assert shifted[k] == i;
    }
    if i in shifted {
      var k :| 0 <= k < |shifted| && shifted[k] == i;
      assert idx[k] == i - 1;
    }
  }

  /** `sel` is selected from `links` at positions `idx`, all of them past position 0, and
      every later position whose link leaves `guid` is among them. */
  ghost predicate SelectionPastHead(links: seq<NodeLinkData>, sel: seq<NodeLinkData>, guid: string, idx: seq<nat>) {
    && |idx| == |sel|
    && (forall k :: 0 <= k < |idx| ==> 1 <= idx[k] < |links| && sel[k] == links[idx[k]])
    && (forall k, m :: 0 <= k < m < |idx| ==> idx[k] < idx[m])
    && (forall i :: 1 <= i < |links| ==> (links[i].baseNodeGuid == guid <==> i in idx))
  }

  /** A selection of the tail, moved one place right, selects the same links of the whole list. */
  lemma ShiftSelection(links: seq<NodeLinkData>, sel: seq<NodeLinkData>, guid: string, rest: seq<nat>)
    requires |links| > 0
    requires SelectionOf(links[1..], sel, guid, rest)
    ensures SelectionPastHead(links, sel, guid, ShiftRight(rest))
  {
    ShiftedMembership(links, guid, rest);
    ShiftedPositions(links, sel, rest);
  }

  /** A link past the head leaves `guid` exactly when its shifted position is selected. */
  lemma ShiftedMembership(links: seq<NodeLinkData>, guid: string, rest: seq<nat>)
    requires |links| > 0
    requires forall i :: 0 <= i < |links[1..]| ==> (links[1..][i].baseNodeGuid == guid <==> i in rest)
    ensures forall i :: 1 <= i < |links| ==> (links[i].baseNodeGuid == guid <==> i in ShiftRight(rest))
  {
    forall i | 1 <= i < |links|
      ensures links[i].baseNodeGuid == guid <==> i in ShiftRight(rest)
    {
      assert links[i] == links[1..][i - 1];
      ShiftRightMembership(rest, i);
    }
  }

  /** The shifted positions pick the same links out of the whole list. */
  lemma ShiftedPositions(links: seq<NodeLinkData>, sel: seq<NodeLinkData>, rest: seq<nat>)
    requires |links| > 0 && |rest| == |sel|
    requires forall k :: 0 <= k < |rest| ==> rest[k] < |links[1..]| && sel[k] == links[1..][rest[k]]
    ensures forall k :: 0 <= k < |rest| ==> 1 <= ShiftRight(rest)[k] < |links| && sel[k] == links[ShiftRight(rest)[k]]
  {
    forall k | 0 <= k < |rest|
      ensures 1 <= ShiftRight(rest)[k] < |links| && sel[k] == links[ShiftRight(rest)[k]]
    {
      assert links[1..][rest[k]] == links[rest[k] + 1];
    }
  }

  /** A head link that leaves `guid` is selected first, ahead of the tail's selection. */
  lemma SelectHead(links: seq<NodeLinkData>, sel: seq<NodeLinkData>, guid: string, idx: seq<nat>)
    requires |links| > 0 && links[0].baseNodeGuid == guid
    requires SelectionPastHead(links, sel, guid, idx)
    ensures SelectionOf(links, [links[0]] + sel, guid, [0] + idx)
  {
    var all := [0] + idx;
    var r := [links[0]] + sel;
    forall k | 0 <= k < |all|
      ensures all[k] < |links| && r[k] == links[all[k]]
    {
      if k > 0 {
        assert all[k] == idx[k - 1] && r[k] == sel[k - 1];
      }
    }
    forall i | 0 <= i < |links|
      ensures links[i].baseNodeGuid == guid <==> i in all
    {
      if i > 0 {
        assert i in all <==> i in idx;
      }
    }
  }

  /** A head link that does not leave `guid` is skipped. */
  lemma SkipHead(links: seq<NodeLinkData>, sel: seq<NodeLinkData>, guid: string, idx: seq<nat>)
    requires |links| > 0 && links[0].baseNodeGuid != guid
    requires SelectionPastHead(links, sel, guid, idx)
    ensures SelectionOf(links, sel, guid, idx)
  {
    assert 0 !in idx;
  }

  /** The choices at `guid` are an ordered selection from the link list: the selected
      positions increase, and a position is selected exactly when its link leaves `guid`. */
  lemma {:induction false} OutgoingIsOrderedSelection(links: seq<NodeLinkData>, guid: string) returns (idx: seq<nat>)
    ensures SelectionOf(links, OutgoingLinks(links, guid), guid, idx)
    decreases |links|
  {
    if |links| == 0 {
      idx := [];
    } else {
      var tail := OutgoingLinks(links[1..], guid);
      var rest := OutgoingIsOrderedSelection(links[1..], guid);
      ShiftSelection(links, tail, guid, rest);
      if links[0].baseNodeGuid == guid {
        SelectHead(links, tail, guid, ShiftRight(rest));
        idx := [0] + ShiftRight(rest);
      } else {
        SkipHead(links, tail, guid, ShiftRight(rest));
        idx := ShiftRight(rest);
      }
    }
  }

  /** Filtering twice by the same GUID is filtering once; by two different GUIDs it is empty. */
  lemma {:induction false} OutgoingOfOutgoing(links: seq<NodeLinkData>, g: string, h: string)
    ensures OutgoingLinks(OutgoingLinks(links, g), h) == if g == h then OutgoingLinks(links, g) else []
    decreases |links|
  {
    if |links| > 0 {
      OutgoingOfOutgoing(links[1..], g, h);
      if links[0].baseNodeGuid == g {
        var r := OutgoingLinks(links, g);
        assert r[0] == links[0];
        assert r[1..] == OutgoingLinks(links[1..], g);
      }
    }
  }

  /** `dialogueNodeData.FindIndex(x => x.nodeGuid == guid)`, as an option: the position of
      the first record with that GUID. */
  function FirstNodeData(nodes: seq<DialogueNodeData>, guid: string): (r: Option<nat>)
    ensures r.None? <==> forall i :: 0 <= i < |nodes| ==> nodes[i].nodeGuid != guid
    ensures r.Some? ==> r.value < |nodes| && nodes[r.value].nodeGuid == guid
                        && forall j :: 0 <= j < r.value ==> nodes[j].nodeGuid != guid
  {
    if |nodes| == 0 then None
    else if nodes[0].nodeGuid == guid then Some(0)
    else match FirstNodeData(nodes[1..], guid)
      case None => None
      case Some(i) => Some(i + 1)
  }

  /** Some record carries this GUID. */
  predicate HasNodeData(nodes: seq<DialogueNodeData>, guid: string) {
    exists i :: 0 <= i < |nodes| && nodes[i].nodeGuid == guid
  }
}
