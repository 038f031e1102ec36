# Node-based dialogue system: a Dafny model

This project models the headless logic of a Unity node-based dialogue tool. A dialogue
is designed as a graph in an editor window, saved as a `DialogueContainer` asset,
reloaded into the editor, and played back at run time. The asset holds four flat record
lists: node links, node records, exposed properties and comment blocks. All the logic
works on those lists and on the editor graph, which is modelled as plain data: nodes
with a GUID, lines of text, an entry flag and output port names; edges from an output
port to a node's input port; comment groups; and the blackboard's property list.

Modules, one per source class:

- `Wrappers`: `Option` and `Result`.
- `Strings`: the .NET string operations the code relies on. These are ordinal `Replace`,
  `LastIndexOf` and decimal rendering of a count.
- `Runtime`: the serialized records (`NodeLinkData`, `DialogueNodeData`,
  `ExposedProperty`, `CommentBlockData`, `DialogueContainer`). It also holds the two
  lookups that playback and loading share: the links leaving a GUID, and the first record
  with a GUID.
- `DialogueParser`: playback. It covers entry resolution, a node's text and buttons with
  property substitution, and following a choice.
- `GraphView`: the editor graph (`StoryGraphView`). It covers the START node, node
  creation, blackboard adds with name disambiguation, value edits, choice ports, port
  compatibility, port removal and text-line removal.
- `StoryGraph`: the editor window. It covers the toolbar's save and load request, and the
  blackboard's add and rename callbacks.
- `GraphSaveUtility`: saving the graph into a container, and rebuilding the graph from
  one, step by step as the source does it.
- `RoundTrip`: what survives loading an asset into a freshly opened editor and saving it
  again.

A thrown exception in the source is an `Err` value in the model. Examples are `First()` on
an empty list, `Find` returning null, a list index out of range, or `Substring` with a
reversed range. GUIDs, node identities, the file panel's answer and asset storage are
parameters: asset storage is a map from path to container.

Where the code and its intent part ways, the model follows the code:

- The demo player passes a node's text, a list of lines, to a `ProcessProperties` that
  takes one string. The model substitutes each line on its own.
- The editor window calls `LoadNarrative(_fileName)`, but `LoadNarrative` takes two `out`
  parameters and opens its own file panel. The model's load request takes the panel's
  answer as a parameter. It does not store the file name the load extracts back into the
  window's file name field.
- Playback and loading take the base of the first link to be the START node. Nothing in
  saving guarantees this. `GraphSaveUtility.EntryConventionFragile` shows a graph where
  it fails: the designer drew an edge between two ordinary nodes before connecting START.
- An empty choice label does not survive a save and reload: it comes back as
  "Option n" (`GraphSaveUtility.EmptyLabelComesBackNumbered`).

## Model

| member | source | states |
|---|---|---|
| `Strings.Replace` | Samples/DialogueSystemDemo/DialogueParser.cs:40 | ordinal `Replace`: a replacement as long as the token keeps the text's length, a longer one never shortens it and a shorter one never lengthens it |
| `Strings.ReplaceAbsent` | Samples/DialogueSystemDemo/DialogueParser.cs:40 | `Replace` leaves text that holds no occurrence of the token unchanged |
| `Strings.ReplaceIdentity` | Samples/DialogueSystemDemo/DialogueParser.cs:40 | replacing a token by itself changes nothing |
| `Strings.ReplaceLeadingToken` | Samples/DialogueSystemDemo/DialogueParser.cs:40 | a leading occurrence is replaced and scanning resumes after it, without rescanning the replacement |
| `Strings.ReplacePlainPrefix` | Samples/DialogueSystemDemo/DialogueParser.cs:40 | a prefix without the token's first character passes through `Replace` verbatim |
| `Strings.ReplaceWithoutLead` | Samples/DialogueSystemDemo/DialogueParser.cs:40 | text without the token's first character is left unchanged |
| `Strings.LastIndexOf` | com.DialogueSystem/Editor/GraphSaveUtility.cs:124-125 | ordinal `LastIndexOf`: the result is -1 or an occurrence, and no occurrence lies after it |
| `Strings.NatToString` | com.DialogueSystem/Editor/Graph/StoryGraphView.cs:177 | the rendering of a count is a non-empty string of digits without a leading zero |
| `Strings.NatToStringRoundTrip` | com.DialogueSystem/Editor/Graph/StoryGraphView.cs:177 | reading the rendered digits back gives the count |
| `Runtime.OutgoingLinks` | Samples/DialogueSystemDemo/DialogueParser.cs:26 | the links leaving a GUID: exactly the links of the list whose base is that GUID |
| `Runtime.OutgoingIsOrderedSelection` | Samples/DialogueSystemDemo/DialogueParser.cs:26-37 | the links leaving a GUID are taken from the list at increasing positions, and a position is taken exactly when its link leaves that GUID |
| `Runtime.OutgoingConcat` | Samples/DialogueSystemDemo/DialogueParser.cs:26 | filtering distributes over concatenation, so list order is kept |
| `Runtime.OutgoingOfOutgoing` | Samples/DialogueSystemDemo/DialogueParser.cs:26 | filtering twice by one GUID is filtering once; filtering by two GUIDs is empty |
| `Runtime.FirstNodeData` | Samples/DialogueSystemDemo/DialogueParser.cs:25 | `Find` by GUID: none exactly when no record has the GUID, else the first record that has it |
| `DialogueParser.Token` | Samples/DialogueSystemDemo/DialogueParser.cs:40 | a property's token is its name between square brackets |
| `DialogueParser.ProcessProperties` | Samples/DialogueSystemDemo/DialogueParser.cs:40 | substitution keeps the text's length when every property's value is as long as its token, and never shortens the text when every value is at least as long |
| `DialogueParser.ProcessPropertiesSnoc` | Samples/DialogueSystemDemo/DialogueParser.cs:40 | the substitution is a left fold: the last property is replaced last, in the text all earlier properties produced |
| `DialogueParser.ProcessPropertiesConcat` | Samples/DialogueSystemDemo/DialogueParser.cs:40 | substituting with a concatenated property list substitutes with each part in turn |
| `DialogueParser.ProcessPropertiesNoTokens` | Samples/DialogueSystemDemo/DialogueParser.cs:40 | text that holds no property's token is shown as written |
| `DialogueParser.ProcessPropertiesWithoutBrackets` | Samples/DialogueSystemDemo/DialogueParser.cs:40 | text without `[` is shown as written, whatever the properties |
| `DialogueParser.ProcessLines` | Samples/DialogueSystemDemo/DialogueParser.cs:25-27 | a node's lines are each substituted on their own, one output line per input line |
| `DialogueParser.ChoicesFor` | Samples/DialogueSystemDemo/DialogueParser.cs:32-37 | one button per link, in order; its label is substituted like node text and it leads to the link's target |
| `DialogueParser.Start` | Samples/DialogueSystemDemo/DialogueParser.cs:17-21 | playback fails exactly when there are no links; otherwise it starts at the first link's target |
| `DialogueParser.ProceedToNarrative` | Samples/DialogueSystemDemo/DialogueParser.cs:23-38 | fails exactly when no record has the GUID; otherwise it shows the first such record's lines and one button per link leaving the GUID |
| `DialogueParser.Choose` | Samples/DialogueSystemDemo/DialogueParser.cs:36 | pressing button k succeeds exactly when there is a k-th link leaving the node, and moves to that link's target |
| `DialogueParser.ChoiceMatchesButton` | Samples/DialogueSystemDemo/DialogueParser.cs:35-36 | the k-th button shown leads where choosing k goes |
| `DialogueParser.NodeWithoutLinksEnds` | Samples/DialogueSystemDemo/DialogueParser.cs:26-32 | a node no link leaves shows no buttons, and every choice there fails |
| `DialogueParser.StartExample` | Samples/DialogueSystemDemo/DialogueParser.cs:19-20 | on two chained links, playback starts at the first link's target |
| `DialogueParser.SubstituteTrailingToken` | Samples/DialogueSystemDemo/DialogueParser.cs:40 | a plain prefix followed by a property's token shows as the prefix followed by the value |
| `DialogueParser.ConversationExample` | Samples/DialogueSystemDemo/DialogueParser.cs:23-38 | a worked node: "Hello [Name]" shows as "Hello Ada" with its two buttons in link order, and the second button leads to its target |
| `GraphView.EntryPointNode` | com.DialogueSystem/Editor/Graph/StoryGraphView.cs:227-247 | the START node is the entry, says "ENTRYPOINT" and has the single output port "Next" |
| `GraphView.NewStoryGraphView` | com.DialogueSystem/Editor/Graph/StoryGraphView.cs:22-38 | a new view holds the START node alone: no edges, groups or properties |
| `GraphView.CreateNode` | com.DialogueSystem/Editor/Graph/StoryGraphView.cs:114-146 | a created node is not the entry, carries the given GUID, text and position, and has no output ports |
| `GraphView.Suffixed` | com.DialogueSystem/Editor/Graph/StoryGraphView.cs:74 | k appended "(1)" suffixes lengthen the name by 3k and keep it as a prefix |
| `GraphView.SuffixCountFrom` | com.DialogueSystem/Editor/Graph/StoryGraphView.cs:72-75 | the least suffix count from k that makes the name unused exists, and every smaller count collides |
| `GraphView.UniqueName` | com.DialogueSystem/Editor/Graph/StoryGraphView.cs:72-75 | the stored name is unused, and it is the requested name with the least number of "(1)" suffixes that avoids every existing name |
| `GraphView.LeastSuffixIsUnique` | com.DialogueSystem/Editor/Graph/StoryGraphView.cs:72-75 | any suffix count that avoids every name, where all smaller counts collide, gives the stored name |
| `GraphView.DisambiguateName` | com.DialogueSystem/Editor/Graph/StoryGraphView.cs:72-75 | the source's append-while-taken loop terminates, with an unused name equal to the least-suffix name |
| `GraphView.AddPropertyToBlackBoard` | com.DialogueSystem/Editor/Graph/StoryGraphView.cs:68-80 | appends one property with its value unchanged and earlier entries untouched; in load mode the name is verbatim, otherwise it is the unused least-suffix name |
| `GraphView.AddKeepsNamesDistinct` | com.DialogueSystem/Editor/Graph/StoryGraphView.cs:72-80 | a non-load add keeps property names pairwise distinct |
| `GraphView.RepeatedAddExample` | com.DialogueSystem/Editor/Graph/StoryGraphView.cs:72-80 | adding "Health" three times stores "Health", "Health(1)" and "Health(1)(1)" |
| `GraphView.FindPropertyIndex` | com.DialogueSystem/Editor/Graph/StoryGraphView.cs:90 | `FindIndex`: -1 exactly when no property has the name, else the first index that has it |
| `GraphView.EditPropertyValue` | com.DialogueSystem/Editor/Graph/StoryGraphView.cs:89-92 | a value edit fails exactly when no property has the item's name; otherwise only the first such entry takes the new value, and every name is unchanged |
| `GraphView.EditTouchesOneEntry` | com.DialogueSystem/Editor/Graph/StoryGraphView.cs:90-91 | every entry other than the first one with the item's name is left as it was |
| `GraphView.ChoicePortName` | com.DialogueSystem/Editor/Graph/StoryGraphView.cs:175-178 | a port is named by the requested name when it is non-empty, else "Option " followed by one more than the node's port count |
| `GraphView.ChoicePortNameNeverEmpty` | com.DialogueSystem/Editor/Graph/StoryGraphView.cs:175-178 | a port name is never empty, and the fallback name reads back as the port's one-based position |
| `GraphView.AddChoicePort` | com.DialogueSystem/Editor/Graph/StoryGraphView.cs:169-196 | appends exactly one output port with that name and changes nothing else about the node |
| `GraphView.CompatiblePorts` | com.DialogueSystem/Editor/Graph/StoryGraphView.cs:98-109 | the compatible ports are exactly the ports that are neither the start port nor on its node |
| `GraphView.CompatiblePortsConcat` | com.DialogueSystem/Editor/Graph/StoryGraphView.cs:103-106 | compatibility filtering distributes over concatenation, so view order is kept |
| `GraphView.FirstEdgeFrom` | com.DialogueSystem/Editor/Graph/StoryGraphView.cs:203-207 | the first edge leaving the node through a port of that name, or -1 when there is none |
| `GraphView.RemovePort` | com.DialogueSystem/Editor/Graph/StoryGraphView.cs:201-215 | drops the first matching edge if there is one, and then the port; other nodes, groups and properties are untouched |
| `GraphView.RemovePortRemovesAtMostOneEdge` | com.DialogueSystem/Editor/Graph/StoryGraphView.cs:203-209 | removing a port removes at most one edge, and only one that leaves that node through a port of that name |
| `GraphView.FirstIndexOf` | com.DialogueSystem/Editor/Graph/StoryGraphView.cs:165 | -1 exactly when the value is absent, else its first position |
| `GraphView.RemoveFirst` | com.DialogueSystem/Editor/Graph/StoryGraphView.cs:165 | `List.Remove` leaves an absent value's list as it was, and otherwise shortens the list by one |
| `GraphView.RemoveFirstDropsFirstOccurrence` | com.DialogueSystem/Editor/Graph/StoryGraphView.cs:165 | `List.Remove` drops exactly the first occurrence and keeps the rest in order |
| `GraphView.RemoveFirstMultiset` | com.DialogueSystem/Editor/Graph/StoryGraphView.cs:165 | `List.Remove` of a present value takes away exactly one copy of it and nothing else |
| `GraphView.RemoveTextField` | com.DialogueSystem/Editor/Graph/StoryGraphView.cs:163-167 | the node loses the first line equal to the field's text, if it has one: its lines become those before that line followed by those after it, so one copy goes and nothing else about the node changes |
| `GraphSaveUtility.NodeById` | com.DialogueSystem/Editor/GraphSaveUtility.cs:71-72 | an edge end resolves to the view's node of that identity, or to none when the view has no such node |
| `GraphSaveUtility.LinkFor` | com.DialogueSystem/Editor/GraphSaveUtility.cs:71-79 | an edge saves as a link exactly when it has an input end and both ends are nodes of the view; the link runs from the output node's GUID, through the output port's name, to the input node's GUID |
| `GraphSaveUtility.FirstGuidIndex` | com.DialogueSystem/Editor/GraphSaveUtility.cs:172 | none exactly when no node has the GUID, else the position of the first node that has it |
| `GraphSaveUtility.FirstNodeWithGuid` | com.DialogueSystem/Editor/GraphSaveUtility.cs:172 | `First` by GUID: none exactly when no node has the GUID, else the first node that has it |
| `GraphSaveUtility.SaveLinks` | com.DialogueSystem/Editor/GraphSaveUtility.cs:69-81 | at most one link per edge; when every edge resolves, one link per edge in edge order, from the output node's GUID through the port name to the input node's GUID |
| `GraphSaveUtility.SaveLinksConcat` | com.DialogueSystem/Editor/GraphSaveUtility.cs:69-81 | saving links distributes over concatenation of the edge list, so edge order is kept |
| `GraphSaveUtility.SaveNodeData` | com.DialogueSystem/Editor/GraphSaveUtility.cs:83-89 | at most one record per node; without START nodes, one record per node in view order, holding its GUID, text and position |
| `GraphSaveUtility.SaveNodeDataMembership` | com.DialogueSystem/Editor/GraphSaveUtility.cs:83-89 | a record is saved exactly when it is the GUID, text and position of some non-entry node |
| `GraphSaveUtility.SaveNodeDataConcat` | com.DialogueSystem/Editor/GraphSaveUtility.cs:83-89 | saving records distributes over concatenation of the node list, so view order is kept |
| `GraphSaveUtility.ChildGuids` | com.DialogueSystem/Editor/GraphSaveUtility.cs:103-104 | at most one GUID per contained element; when all contained elements are dialogue nodes, their GUIDs in containment order |
| `GraphSaveUtility.ChildGuidsMembership` | com.DialogueSystem/Editor/GraphSaveUtility.cs:103-104 | a GUID is listed exactly when some contained element is a dialogue node carrying it |
| `GraphSaveUtility.SaveCommentBlocks` | com.DialogueSystem/Editor/GraphSaveUtility.cs:100-112 | one record per group, in view order, with the group's child GUIDs, position and title |
| `GraphSaveUtility.SaveContainer` | com.DialogueSystem/Editor/GraphSaveUtility.cs:42-46 | saving fails exactly when the view has no edges; otherwise the container holds the saved links, records, blocks and the properties verbatim |
| `GraphSaveUtility.SaveGraph` | com.DialogueSystem/Editor/GraphSaveUtility.cs:40-64 | without edges no asset changes; otherwise the asset at the path, new or overwritten, holds exactly the saved container, and every other asset is untouched |
| `GraphSaveUtility.EntryConventionHolds` | com.DialogueSystem/Editor/GraphSaveUtility.cs:69-81 | when the first edge leaves the START node, the first saved link is that edge's link |
| `GraphSaveUtility.FragileEdgeLinks` | com.DialogueSystem/Editor/GraphSaveUtility.cs:71-79 | in the example view, each edge saves as its own link |
| `GraphSaveUtility.EntryConventionFragile` | com.DialogueSystem/Editor/GraphSaveUtility.cs:69-81 | a view whose first edge joins two ordinary nodes saves a first link that does not leave START |
| `GraphSaveUtility.ExtractFileName` | com.DialogueSystem/Editor/GraphSaveUtility.cs:124-126 | the cut fails exactly when the last ".asset" starts before the character after the last "/"; a name it cuts holds no "/" |
| `GraphSaveUtility.ExtractFileNameOfAssetPath` | com.DialogueSystem/Editor/GraphSaveUtility.cs:124-126 | a path `dir/name.asset` with no "/" in `name` yields `name` |
| `GraphSaveUtility.FirstEntryIndex` | com.DialogueSystem/Editor/GraphSaveUtility.cs:142 | `Find` of the START node: none exactly when there is no START node, else the first one |
| `GraphSaveUtility.EntryNodes` | com.DialogueSystem/Editor/GraphSaveUtility.cs:143-146 | the nodes that survive clearing are exactly the START nodes |
| `GraphSaveUtility.EntryNodesRenameFirst` | com.DialogueSystem/Editor/GraphSaveUtility.cs:142-146 | giving the first START node a new GUID and then keeping the START nodes is keeping them and giving the first one kept that GUID |
| `GraphSaveUtility.KeptEdges` | com.DialogueSystem/Editor/GraphSaveUtility.cs:144-145 | the edges that survive clearing are exactly those that do not enter a removed node |
| `GraphSaveUtility.KeptEdgesIgnoresGuids` | com.DialogueSystem/Editor/GraphSaveUtility.cs:143-145 | which edges clearing keeps depends only on the nodes' identities and entry flags, so giving a node a new GUID does not change it |
| `GraphSaveUtility.ClearGraph` | com.DialogueSystem/Editor/GraphSaveUtility.cs:140-148 | fails without links, or without a START node; otherwise the remaining nodes are the START nodes in view order with only the first of them given the first link's base GUID, the remaining edges are exactly those that do not enter a removed node, and groups and properties stay |
| `GraphSaveUtility.NextNodeId` | com.DialogueSystem/Editor/GraphSaveUtility.cs:156 | a fresh node identity exceeds every identity in the view |
| `GraphSaveUtility.AddChoicePorts` | com.DialogueSystem/Editor/GraphSaveUtility.cs:160-161 | one port per link appended in link order, each named after its link with the "Option n" fallback; nothing else about the node changes |
| `GraphSaveUtility.GeneratedNode` | com.DialogueSystem/Editor/GraphSaveUtility.cs:155-161 | the node built from a record has its GUID and text, is not the entry, stands at the origin and has one port per link leaving the GUID, in link order |
| `GraphSaveUtility.EmptyLabelComesBackNumbered` | com.DialogueSystem/Editor/GraphSaveUtility.cs:161 | a stored link with an empty name gets a port named "Option n", not the stored empty name |
| `GraphSaveUtility.GeneratedNodes` | com.DialogueSystem/Editor/GraphSaveUtility.cs:155-162 | one node per record, in record order, each built from its record, with consecutive fresh identities |
| `GraphSaveUtility.GenerateDialogueNodes` | com.DialogueSystem/Editor/GraphSaveUtility.cs:153-163 | the view's nodes are kept and followed by one node per record, built from it, with identities no earlier node has; edges, groups and properties stay |
| `GraphSaveUtility.ConnectLinks` | com.DialogueSystem/Editor/GraphSaveUtility.cs:169-178 | the j-th link is drawn from output port j to the first node with the target GUID; it fails exactly when some link cannot be drawn: a missing target, a missing port, a START target or a missing record |
| `GraphSaveUtility.ConnectNodes` | com.DialogueSystem/Editor/GraphSaveUtility.cs:167-173 | wiring the view's nodes in order succeeds exactly when, for every node, every link leaving its GUID can be drawn |
| `GraphSaveUtility.RestoredNode` | com.DialogueSystem/Editor/GraphSaveUtility.cs:172-177 | wiring changes a node's position at most; the node takes its GUID's stored position when it is the first node with that GUID, a link leaving a node of the view enters it and a record has that GUID, and is left as it was otherwise |
| `GraphSaveUtility.RestoredTargets` | com.DialogueSystem/Editor/GraphSaveUtility.cs:170-177 | when every link can be drawn, the target of every link leaving a node of the view ends at its record's stored position |
| `GraphSaveUtility.ConnectDialogueNodes` | com.DialogueSystem/Editor/GraphSaveUtility.cs:165-180 | succeeds exactly when every link leaving every node can be drawn; it appends the drawn edges, moves the target of each such link to its stored position, leaves every other node as it was, and leaves groups and properties |
| `GraphSaveUtility.LoadProperties` | com.DialogueSystem/Editor/GraphSaveUtility.cs:196-198 | the stored properties are added one by one with ordinary adds: each keeps its value and takes the least-suffix name unused by those loaded before it, so the loaded names are pairwise distinct |
| `GraphSaveUtility.LoadPropertiesVerbatim` | com.DialogueSystem/Editor/GraphSaveUtility.cs:196-198 | stored properties with pairwise distinct names load verbatim |
| `GraphSaveUtility.AddExposedProperties` | com.DialogueSystem/Editor/GraphSaveUtility.cs:193-199 | the blackboard is emptied and refilled with one property per stored one, each added as an ordinary add; stored names that are distinct come back verbatim, and nothing else about the view changes |
| `GraphSaveUtility.LoadRenamesDuplicate` | com.DialogueSystem/Editor/GraphSaveUtility.cs:196-198 | an asset storing two properties named "Health" loads them as "Health" and "Health(1)" |
| `GraphSaveUtility.ContainedNodes` | com.DialogueSystem/Editor/GraphSaveUtility.cs:209 | a rebuilt group contains exactly the view's nodes whose GUID is listed |
| `GraphSaveUtility.GenerateCommentBlocks` | com.DialogueSystem/Editor/GraphSaveUtility.cs:201-211 | the old groups are replaced by one group per stored block, with its title, position and listed nodes; nothing else changes |
| `GraphSaveUtility.LoadContainer` | com.DialogueSystem/Editor/GraphSaveUtility.cs:130-134 | the load steps in order: no links or no START node fails; a successful load keeps the START nodes plus one node per record, with the first START node carrying the first link's base GUID, has one group per stored block with its title and position, and has distinct property names that equal the stored ones when those are distinct |
| `GraphSaveUtility.LoadNarrative` | com.DialogueSystem/Editor/GraphSaveUtility.cs:114-135 | an empty path loads nothing; a loaded graph comes from the asset at the path with the file name cut out of it; a missing asset fails |
| `StoryGraph.AddItem` | com.DialogueSystem/Editor/Graph/StoryGraph.cs:80-82 | the "+" button appends the default property's value under "New String" with the least number of "(1)" suffixes that makes it unused |
| `StoryGraph.AddItemKeepsNamesDistinct` | com.DialogueSystem/Editor/Graph/StoryGraph.cs:80-82 | adding items keeps property names pairwise distinct |
| `StoryGraph.RenameProperty` | com.DialogueSystem/Editor/Graph/StoryGraph.cs:83-94 | a taken new name is refused; an unknown old name fails; otherwise the length and every value stay, and each name is either kept or the new name |
| `StoryGraph.RenameTouchesFirstMatch` | com.DialogueSystem/Editor/Graph/StoryGraph.cs:91-92 | an accepted rename changes only the entry at the old name's first index |
| `StoryGraph.RenameToSameNameRefused` | com.DialogueSystem/Editor/Graph/StoryGraph.cs:84-85 | renaming a property to its own name is refused as a duplicate |
| `StoryGraph.RenameKeepsNamesDistinct` | com.DialogueSystem/Editor/Graph/StoryGraph.cs:85-92 | an accepted rename keeps property names pairwise distinct |
| `StoryGraph.RequestDataOperation` | com.DialogueSystem/Editor/Graph/StoryGraph.cs:47-58 | an empty file name is refused; a save writes the graph under the file name; a load changes only the graph, and only from an existing asset |
| `StoryGraph.SaveEmptyGraphWritesNothing` | com.DialogueSystem/Editor/Graph/StoryGraph.cs:48-51 | saving a graph without edges leaves the session as it was |
| `RoundTrip.OutgoingOfRegroup` | com.DialogueSystem/Editor/GraphSaveUtility.cs:167-173 | regrouping links by distinct GUIDs keeps each listed GUID's links in order and drops the rest |
| `RoundTrip.RegroupKeepsEveryNodesLinks` | com.DialogueSystem/Editor/GraphSaveUtility.cs:167-173 | when the GUIDs cover every base, regrouping keeps every node's links in their order |
| `RoundTrip.DrawnEdgeSavesAsLink` | com.DialogueSystem/Editor/GraphSaveUtility.cs:172-173 | an edge the loader draws saves back as the link between the two GUIDs |
| `RoundTrip.ConnectLinksSavesBack` | com.DialogueSystem/Editor/GraphSaveUtility.cs:169-173 | a node's drawn edges save back as exactly the links leaving it, in order |
| `RoundTrip.ConnectNodesSavesBack` | com.DialogueSystem/Editor/GraphSaveUtility.cs:167-179 | wiring all nodes and saving gives the links regrouped in node order |
| `RoundTrip.ClearFreshEditor` | com.DialogueSystem/Editor/GraphSaveUtility.cs:142-147 | clearing a fresh editor only gives its START node the first link's base GUID |
| `RoundTrip.GenerateInFreshEditor` | com.DialogueSystem/Editor/GraphSaveUtility.cs:153-163 | in a fresh editor the generated nodes are START followed by one node per record |
| `RoundTrip.FreshLoad` | com.DialogueSystem/Editor/GraphSaveUtility.cs:128-134 | loading a loadable asset into a fresh editor succeeds, with the wired edges, the restored nodes, the properties verbatim (their names are distinct) and one group per block |
| `RoundTrip.LoadThenSaveKeepsLinks` | com.DialogueSystem/Editor/GraphSaveUtility.cs:66-98 | loading a loadable asset and saving again keeps the first link and, for every node, its outgoing links in order, and writes the properties back verbatim |
| `RoundTrip.LoadedRecordPosition` | com.DialogueSystem/Editor/GraphSaveUtility.cs:175-177 | a reloaded record's node stands at its stored position when some link enters it, and at the origin otherwise |
| `RoundTrip.LoadThenSaveKeepsRecords` | com.DialogueSystem/Editor/GraphSaveUtility.cs:83-89 | loading and saving again writes the records in order with GUID and text kept; the position is kept only for a linked-to node |
| `RoundTrip.GroupChildrenRoundTrip` | com.DialogueSystem/Editor/GraphSaveUtility.cs:209 | a group rebuilt from a GUID list and saved again lists exactly the listed GUIDs that some node carries |
| `RoundTrip.LoadThenSaveKeepsCommentBlocks` | com.DialogueSystem/Editor/GraphSaveUtility.cs:201-211 | loading and saving again keeps every block's title and position; its children are the stored ones that name a node |

## Left out

- Rendering and widgets are not modelled: Unity's GraphView and UIElements, manipulators,
  grid, styles, minimap, toolbar, search window, buttons and text fields. The `AddTextField`
  widgets are widget state only.
- Renaming a choice port through its label field (StoryGraphView.cs:185) is not modelled.
  That callback sets the port's name, including to "", and the name is what `SaveNodes`
  writes as a link's port name (GraphSaveUtility.cs:77) and what port removal matches
  (StoryGraphView.cs:204). So a rename changes the links a later save writes; the model's
  port names are fixed when the port is made.
- The source shares objects between the graph and the asset; the model uses values. A saved
  record holds the node's own list of lines (GraphSaveUtility.cs:86), the saved properties
  are the blackboard's own objects (GraphSaveUtility.cs:97), and a loaded node holds its
  record's list (StoryGraphView.cs:118, called from GraphSaveUtility.cs:156). So after a
  save or load, removing a text line or editing a property value (StoryGraphView.cs:91)
  also changes the asset in memory. The model does not capture that.
- Asset storage is a map from path to container. The save and open file panels,
  `RevealInFinder`, `SetDirty` and `SaveAssets` are not modelled. Nor is the parameterless
  `SaveGraph()` that asks for a path (GraphSaveUtility.cs:30-38), nor the case of an
  existing asset at the path that is not a `DialogueContainer`.
- `Guid.NewGuid()` is not modelled: GUIDs and node identities are parameters.
- Positions are opaque pairs that are stored and restored but never computed on. Node and
  comment-block sizes are dropped.
- The `Application.dataPath` prefix replacement (GraphSaveUtility.cs:122) is left out,
  because it depends on the environment. The load takes the path after that replacement.
- When a load throws part way, the source leaves the editor partly rebuilt. The model
  returns the error and keeps no partial state.
- The demo player's `Instantiate`, `Destroy` and TMPro text assignment are left out.
  Playback returns the lines and buttons to show.
- The view's `ClearBlackBoardAndExposedProperties` is modelled only as the empty start of
  `GraphSaveUtility.AddExposedProperties`.
- `RoundTrip.LoadThenSaveKeepsLinks` is stated for an asset loaded into a freshly opened
  editor, where the asset has a shape the editor can save (`RoundTrip.LoadableContainer`).
  That shape is a subset of what the editor saves: the editor can also save a first link
  that does not leave START (`GraphSaveUtility.EntryConventionFragile`) and, through a
  port rename, a link whose port name is "". Under these conditions only the links leaving each node and their order are kept; the global order
  of the link list is regrouped node by node.
- `RoundTrip.LoadThenSaveKeepsRecords` is stated under the same conditions. A record's
  position survives only when some link enters it.
- `RoundTrip.LoadThenSaveKeepsCommentBlocks` is stated under the same conditions. It says
  which GUIDs a block lists, not their order: they come back in node order, not stored
  order.
- `GraphSaveUtility.LoadNarrative` does not state its result for every failing load step.
  `GraphSaveUtility.LoadContainer` states the node, group and property counts of a
  successful load, and `RoundTrip.FreshLoad` states its full content for a fresh editor.
