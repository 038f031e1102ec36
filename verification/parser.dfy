/** Playback of a dialogue asset (the demo `DialogueParser`): find the entry, show a
    node's lines and choices with exposed properties substituted, follow a choice. */
module DialogueParser {
  import opened Wrappers
  import opened Strings
  import opened Runtime

  /** What stops playback: `First()` on an empty link list, `Find` returning null for an
      unknown node, or a choice index no button corresponds to. */
  datatype PlaybackError = NoEntryLink | NodeNotFound | InvalidChoice

  /** A button: the substituted label and the node it leads to. */
  datatype Choice = Choice(caption: string, targetNodeGuid: string)

  /** What one visit to a node shows. */
  datatype Narrative = Narrative(text: seq<string>, choices: seq<Choice>)

  /** The token a property's value replaces. */
  function Token(name: string): (t: string)
    ensures |t| == |name| + 2 && t[0] == '[' && t[|t| - 1] == ']'
    ensures t[1..|t| - 1] == name
  {
    "[" + name + "]"
  }

  /** `ProcessProperties`: a left fold over the property list, each step replacing the
      property's token by its value in the text produced so far. */
  function ProcessProperties(props: seq<ExposedProperty>, text: string): (r: string)
    ensures (forall i :: 0 <= i < |props| ==> |props[i].propertyValue| == |Token(props[i].propertyName)|)
            ==> |r| == |text|
    ensures (forall i :: 0 <= i < |props| ==> |props[i].propertyValue| >= |Token(props[i].propertyName)|)
            ==> |r| >= |text|
    decreases |props|
  {
    if |props| == 0 then text
    else ProcessProperties(props[1..], Replace(text, Token(props[0].propertyName), props[0].propertyValue))
  }

  /** The last property is applied last, to the result of all earlier ones. */
  lemma {:induction false} ProcessPropertiesSnoc(props: seq<ExposedProperty>, p: ExposedProperty, text: string)
    ensures ProcessProperties(props + [p], text)
         == Replace(ProcessProperties(props, text), Token(p.propertyName), p.propertyValue)
    decreases |props|
  {
    if |props| == 0 {
      assert props + [p] == [p];
    } else {
      var first := props[0];
      var step := Replace(text, Token(first.propertyName), first.propertyValue);
      assert (props + [p])[0] == first;
      assert (props + [p])[1..] == props[1..] + [p];
      ProcessPropertiesSnoc(props[1..], p, step);
    }
  }

  /** Substituting with a concatenated list is substituting with each part in turn. */
  lemma {:induction false} ProcessPropertiesConcat(a: seq<ExposedProperty>, b: seq<ExposedProperty>, text: string)
    ensures ProcessProperties(a + b, text) == ProcessProperties(b, ProcessProperties(a, text))
    decreases |a|
  {
    if |a| == 0 {
      assert a + b == b;
    } else {
      assert (a + b)[0] == a[0];
      assert (a + b)[1..] == a[1..] + b;
      ProcessPropertiesConcat(a[1..], b, Replace(text, Token(a[0].propertyName), a[0].propertyValue));
    }
  }

  /** Text holding no property's token is shown as written. */
  lemma {:induction false} ProcessPropertiesNoTokens(props: seq<ExposedProperty>, text: string)
    requires forall i :: 0 <= i < |props| ==> !Contains(text, Token(props[i].propertyName))
    ensures ProcessProperties(props, text) == text
    decreases |props|
  {
    if |props| > 0 {
      ReplaceAbsent(text, Token(props[0].propertyName), props[0].propertyValue);
      ProcessPropertiesNoTokens(props[1..], text);
    }
  }

  /** Text without any `[` is shown as written, whatever the properties. */
  lemma {:induction false} ProcessPropertiesWithoutBrackets(props: seq<ExposedProperty>, text: string)
    requires '[' !in text
    ensures ProcessProperties(props, text) == text
    decreases |props|
  {
    if |props| > 0 {
      ReplaceWithoutLead(text, Token(props[0].propertyName), props[0].propertyValue);
      ProcessPropertiesWithoutBrackets(props[1..], text);
    }
  }

  /** A node's lines, each substituted on its own. */
  function ProcessLines(props: seq<ExposedProperty>, lines: seq<string>): (r: seq<string>)
    ensures |r| == |lines|
    ensures forall i :: 0 <= i < |lines| ==> r[i] == ProcessProperties(props, lines[i])
  {
    if |lines| == 0 then []
    else [ProcessProperties(props, lines[0])] + ProcessLines(props, lines[1..])
  }

  /** One button per outgoing link, label substituted like node text. */
  function ChoicesFor(props: seq<ExposedProperty>, links: seq<NodeLinkData>): (r: seq<Choice>)
    ensures |r| == |links|
    ensures forall k :: 0 <= k < |links| ==>
              r[k] == Choice(ProcessProperties(props, links[k].portName), links[k].targetNodeGuid)
  {
    if |links| == 0 then []
    else [Choice(ProcessProperties(props, links[0].portName), links[0].targetNodeGuid)]
         + ChoicesFor(props, links[1..])
  }

  /** `Start`: playback begins at the target of the first link. */
  function Start(c: DialogueContainer): (r: Result<string, PlaybackError>)
    ensures r.Err? <==> |c.nodeLinks| == 0
    ensures r.Ok? ==> r.value == c.nodeLinks[0].targetNodeGuid
  {
    if |c.nodeLinks| == 0 then Err(NoEntryLink) else Ok(c.nodeLinks[0].targetNodeGuid)
  }

  /** `ProceedToNarrative`: the first node record with the GUID supplies the lines, and
      the links leaving that GUID, in list order, supply the buttons. */
  function ProceedToNarrative(c: DialogueContainer, guid: string): (r: Result<Narrative, PlaybackError>)
    ensures r.Err? <==> !HasNodeData(c.dialogueNodeData, guid)
    ensures r.Err? ==> r.error == NodeNotFound
    ensures r.Ok? ==> exists i :: 0 <= i < |c.dialogueNodeData| && c.dialogueNodeData[i].nodeGuid == guid
                                  && (forall j :: 0 <= j < i ==> c.dialogueNodeData[j].nodeGuid != guid)
                                  && r.value.text == ProcessLines(c.exposedProperties, c.dialogueNodeData[i].dialogueText)
    ensures r.Ok? ==> r.value.choices == ChoicesFor(c.exposedProperties, OutgoingLinks(c.nodeLinks, guid))
  {
    match FirstNodeData(c.dialogueNodeData, guid)
    case None => Err(NodeNotFound)
    case Some(i) =>
      Ok(Narrative(ProcessLines(c.exposedProperties, c.dialogueNodeData[i].dialogueText),
                   ChoicesFor(c.exposedProperties, OutgoingLinks(c.nodeLinks, guid))))
  }

  /** Pressing the `k`-th button at `guid`: playback moves to that link's target. */
  function Choose(c: DialogueContainer, guid: string, k: int): (r: Result<string, PlaybackError>)
    ensures r.Ok? <==> 0 <= k < |OutgoingLinks(c.nodeLinks, guid)|
    ensures r.Ok? ==> exists l :: l in c.nodeLinks && l.baseNodeGuid == guid && l.targetNodeGuid == r.value
    ensures r.Ok? ==> r.value == OutgoingLinks(c.nodeLinks, guid)[k].targetNodeGuid
  {
    var out := OutgoingLinks(c.nodeLinks, guid);
    if 0 <= k < |out| then Ok(out[k].targetNodeGuid) else Err(InvalidChoice)
  }

  /** The button shown `k`-th leads where `Choose` goes. */
  lemma ChoiceMatchesButton(c: DialogueContainer, guid: string, k: int)
    requires ProceedToNarrative(c, guid).Ok?
    requires 0 <= k < |ProceedToNarrative(c, guid).value.choices|
    ensures Choose(c, guid, k) == Ok(ProceedToNarrative(c, guid).value.choices[k].targetNodeGuid)
  {
  }

  /** A node no link leaves is an ending: it shows no buttons and every choice fails. */
  lemma NodeWithoutLinksEnds(c: DialogueContainer, guid: string, k: int)
    requires forall i :: 0 <= i < |c.nodeLinks| ==> c.nodeLinks[i].baseNodeGuid != guid
    ensures ProceedToNarrative(c, guid).Ok? ==> ProceedToNarrative(c, guid).value.choices == []
    ensures Choose(c, guid, k) == Err(InvalidChoice)
  {
  }

  /** Entry resolution on the links `[(A,"x",B), (B,"y",C)]` starts at `B`. */
  lemma StartExample()
    ensures Start(DialogueContainer([NodeLinkData("A", "x", "B"), NodeLinkData("B", "y", "C")], [], [], []))
         == Ok("B")
  {
  }

  /** A bracket-free prefix followed by one property's token shows the prefix followed by
      the property's value. */
  lemma SubstituteTrailingToken(prefix: string, name: string, value: string)
    requires '[' !in prefix
    ensures ProcessProperties([ExposedProperty(name, value)], prefix + Token(name)) == prefix + value
  {
    var token := Token(name);
    ReplacePlainPrefix(prefix, token, token, value);
    ReplaceLeadingToken([], token, value);
    assert token + [] == token;
    assert value + [] == value;
  }

  /** A worked conversation: node A says "Hello [Name]" with Name = "Ada" and offers
      "Go north" to B and "Go south" to C. */
  const ExampleProperties := [ExposedProperty("Name", "Ada")]
  const ExampleLinks := [NodeLinkData("A", "Go north", "B"), NodeLinkData("A", "Go south", "C")]
  const ExampleDialogue := DialogueContainer(
    ExampleLinks,
    [DialogueNodeData("A", ["Hello [Name]"], ZeroPosition),
     DialogueNodeData("B", [], ZeroPosition), DialogueNodeData("C", [], ZeroPosition)],
    ExampleProperties, [])

  /** The example's greeting, substituted. */
  lemma ExampleGreeting()
    ensures ProcessProperties(ExampleProperties, "Hello [Name]") == "Hello Ada"
  {
    SubstituteTrailingToken("Hello ", "Name", "Ada");
    assert "Hello " + Token("Name") == "Hello [Name]";
  }

  /** The example's node text, line by line. */
  lemma ExampleLines()
    ensures ProcessLines(ExampleProperties, ["Hello [Name]"]) == ["Hello Ada"]
  {
    ExampleGreeting();
  }

  /** The example's buttons, in link order, with bracket-free labels unchanged. */
  lemma ExampleChoices()
    ensures ChoicesFor(ExampleProperties, ExampleLinks) == [Choice("Go north", "B"), Choice("Go south", "C")]
  {
    ProcessPropertiesWithoutBrackets(ExampleProperties, "Go north");
    ProcessPropertiesWithoutBrackets(ExampleProperties, "Go south");
    var choices := ChoicesFor(ExampleProperties, ExampleLinks);
    assert choices[0] == Choice("Go north", "B");
    assert choices[1] == Choice("Go south", "C");
  }

  /** Playing the example: A shows "Hello Ada" and both buttons; the second leads to C. */
  lemma ConversationExample()
    ensures ProceedToNarrative(ExampleDialogue, "A")
            == Ok(Narrative(["Hello Ada"], [Choice("Go north", "B"), Choice("Go south", "C")]))
    ensures Choose(ExampleDialogue, "A", 1) == Ok("C")
  {
    assert OutgoingLinks(ExampleLinks, "A") == ExampleLinks;
    assert FirstNodeData(ExampleDialogue.dialogueNodeData, "A") == Some(0);
    ExampleLines();
    ExampleChoices();
  }
}
