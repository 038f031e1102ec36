/** The editor window (`StoryGraph`): the toolbar's save and load requests and the
    blackboard's add and rename callbacks. */
module StoryGraph {
  import opened Wrappers
  import opened Runtime
  import opened GraphView
  import opened GraphSaveUtility

  /** The toolbar's file name field starts with this text. */
  const InitialFileName := "New Narrative"

  /** The "+" button of the blackboard: a default property, with its name made unique. */
  function AddItem(props: seq<ExposedProperty>): (r: seq<ExposedProperty>)
    ensures |r| == |props| + 1 && r[..|props|] == props
    ensures r[|props|].propertyValue == DefaultProperty.propertyValue
    ensures !NameTaken(props, r[|props|].propertyName)
    ensures r[|props|].propertyName == UniqueName(props, DefaultProperty.propertyName)
  {
    AddPropertyToBlackBoard(props, DefaultProperty, false)
  }

  /** Adding items keeps property names distinct, so a blackboard built only with the
      "+" button never holds two properties of one name. */
  lemma AddItemKeepsNamesDistinct(props: seq<ExposedProperty>)
    requires DistinctNames(props)
    ensures DistinctNames(AddItem(props))
  {
    AddKeepsNamesDistinct(props, DefaultProperty);
  }

  /** The blackboard's rename callback: a name some property already has is refused (the
      error dialog); otherwise the first property named `oldName` takes `newName`. When no
      property is named `oldName`, `FindIndex` gives -1 and the indexer throws. */
  function RenameProperty(props: seq<ExposedProperty>, oldName: string, newName: string)
    : (r: Result<seq<ExposedProperty>, BlackboardError>)
    ensures NameTaken(props, newName) ==> r == Err(DuplicateName)
    ensures !NameTaken(props, newName) && !NameTaken(props, oldName) ==> r == Err(IndexOutOfRange)
    ensures r.Ok? <==> !NameTaken(props, newName) && NameTaken(props, oldName)
    ensures r.Ok? ==> |r.value| == |props| && NameTaken(r.value, newName) && !NameTaken(props, newName)
    ensures r.Ok? ==> forall j :: 0 <= j < |props| ==>
              r.value[j].propertyValue == props[j].propertyValue
              && (r.value[j].propertyName == props[j].propertyName || r.value[j].propertyName == newName)
  {
    if NameTaken(props, newName) then Err(DuplicateName)
    else
      var i := FindPropertyIndex(props, oldName);
      if i < 0 then Err(IndexOutOfRange)
      else
        var r := props[i := props[i].(propertyName := newName)];
        assert r[i].propertyName == newName;
        Ok(r)
  }

  /** A rename changes exactly one entry, the first one with the old name. */
  lemma RenameTouchesFirstMatch(props: seq<ExposedProperty>, oldName: string, newName: string, j: nat)
    requires RenameProperty(props, oldName, newName).Ok?
    requires j < |props|
    ensures var r := RenameProperty(props, oldName, newName).value;
            r[j] == if j == FindPropertyIndex(props, oldName) then props[j].(propertyName := newName) else props[j]
  {
  }

  /** Renaming a property to its own name is refused as a duplicate. */
  lemma RenameToSameNameRefused(props: seq<ExposedProperty>, name: string)
    requires NameTaken(props, name)
    ensures RenameProperty(props, name, name) == Err(DuplicateName)
  {
  }

  /** Accepted renames keep property names distinct. */
  lemma RenameKeepsNamesDistinct(props: seq<ExposedProperty>, oldName: string, newName: string)
    requires DistinctNames(props)
    requires RenameProperty(props, oldName, newName).Ok?
    ensures DistinctNames(RenameProperty(props, oldName, newName).value)
  {
    var r := RenameProperty(props, oldName, newName).value;
    var k := FindPropertyIndex(props, oldName);
    forall i, j | 0 <= i < j < |r|
      ensures r[i].propertyName != r[j].propertyName
    {
      RenameTouchesFirstMatch(props, oldName, newName, i);
      RenameTouchesFirstMatch(props, oldName, newName, j);
      if i == k {
        assert props[j].propertyName != newName;
      } else if j == k {
        assert props[i].propertyName != newName;
      } else {
        assert props[i].propertyName != props[j].propertyName;
      }
    }
  }

  /** The editor's state as the toolbar sees it: the file name field, the graph view and
      the project's assets. */
  datatype Session = Session(fileName: string, graph: StoryGraphView, assets: map<string, DialogueContainer>)

  /** Why a toolbar request changed nothing: the file name field was empty (the "Invalid
      File name" dialog), or the load failed. */
  datatype RequestError = InvalidFileNameField | LoadFailed(reason: LoadError)

  /** `RequestDataOperation(save)`: with a non-empty file name, save writes the graph to the
      asset at that name, and load rebuilds the graph from the asset the open-file panel
      returns (`chosenPath`). The file name field is left as it was: the window does not
      keep the name the load extracts. */
  function RequestDataOperation(s: Session, save: bool, chosenPath: string): (r: Result<Session, RequestError>)
    ensures |s.fileName| == 0 ==> r == Err(InvalidFileNameField)
    ensures |s.fileName| > 0 && save ==> r == Ok(s.(assets := SaveGraph(s.assets, s.fileName, s.graph)))
    ensures |s.fileName| > 0 && !save && |chosenPath| == 0 ==> r == Ok(s)
    ensures r.Ok? ==> r.value.graph == s.graph || (!save && chosenPath in s.assets)
    ensures !save && r.Ok? ==> r.value.assets == s.assets && r.value.fileName == s.fileName
  {
    if |s.fileName| == 0 then Err(InvalidFileNameField)
    else if save then Ok(s.(assets := SaveGraph(s.assets, s.fileName, s.graph)))
    else match LoadNarrative(s.graph, s.assets, chosenPath)
      case Err(e) => Err(LoadFailed(e))
      case Ok(loaded) => Ok(s.(graph := loaded.graph))
  }

  /** Saving a graph with no edges leaves every asset as it was. */
  lemma SaveEmptyGraphWritesNothing(s: Session)
    requires |s.fileName| > 0 && |s.graph.edges| == 0
    ensures RequestDataOperation(s, true, "") == Ok(s)
  {
  }
}
