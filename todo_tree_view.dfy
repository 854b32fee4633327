/**
 * The TodoTree view: it rebuilds the widget's checked and expanded key lists
 * from its data, and each rendered node's callbacks forward that node's own
 * key to the handlers the view receives.
 */
module TodoTreeView {
  import opened Wrappers
  import opened Keys
  import opened Tasks
  import opened TreeWalk
  import opened TodoEditor

  /** A call a rendered node makes on the handlers passed to TodoTree. */
  datatype Request =
    | EditTask(key: string, value: string)    // handleEditTask(key, value)
    | AddSubtask(key: string)                 // handleAddSubtask(key)
    | AddDueDate(key: string, date: string)   // handleAddDueDate(key, date)

  /**
   * The effect run whenever data changes: with data present, both lists are
   * rebuilt from empty by one walk and handed to the setters; without data the
   * setters are not called.
   */
  method SyncFromData(data: Option<seq<Task>>) returns (r: Option<KeyLists>)
    ensures r.Some? <==> data.Some?
    ensures data.Some? ==> r.value.checked == FlagKeys(data.value, Checked)
    ensures data.Some? ==> r.value.expanded == FlagKeys(data.value, Expanded)
  {
    r := None;
    if data.Some? {
      var keys := CollectKeys(data.value);
      r := Some(keys);
    }
  }

  /** handleTitleEdit: the edited text, against the node's own key. */
  function TitleEdit(node: Task, value: string): (r: Request)
    ensures r.EditTask? && r.key == node.key && r.value == value
  {
    EditTask(node.key, value)
  }

  /** handleAddSubtaskClick: the node's own key. */
  function AddSubtaskClick(node: Task): (r: Request)
    ensures r.AddSubtask? && r.key == node.key
  {
    AddSubtask(node.key)
  }

  /**
   * handleAddDueDateClick: the picked day, already formatted as the date
   * library prints 'YYYY-MM-DD', or the empty string for a cleared pick,
   * against the node's own key.
   */
  function AddDueDateClick(node: Task, date: Option<string>): (r: Request)
    ensures r.AddDueDate? && r.key == node.key
    ensures date.None? ==> r.date == ""
    ensures date.Some? ==> r.date == date.value
  {
    AddDueDate(node.key, if date.Some? then date.value else "")
  }

  /** Editing a rendered node's title through the Todo handler retitles exactly that node. */
  lemma TitleEditRetitlesRenderedNode(todo: seq<Task>, p: seq<nat>, value: string)
    requires WellKeyed(todo) && ValidPath(todo, p)
    ensures var req := TitleEdit(NodeAt(todo, p), value);
      UpdatedList(todo, Indices(Split(req.key)), req.key, Edit, req.value)
        == Ok(ReplaceAt(todo, p, NodeAt(todo, p).(title := value)))
  {
    NodeKeyFindsNode(todo, p);
  }

  /**
   * Clicking a rendered node's add-subtask icon, through the Todo handler,
   * appends one untitled child under exactly that node, keyed by the node's
   * path extended with its old child count.
   */
  lemma AddSubtaskClickAppendsUnderRenderedNode(todo: seq<Task>, p: seq<nat>)
    requires WellKeyed(todo) && ValidPath(todo, p)
    ensures var req := AddSubtaskClick(NodeAt(todo, p));
      var c := |NodeAt(todo, p).children|;
      var r := UpdatedList(todo, Indices(Split(req.key)), req.key, Add, "");
      r.Ok? && WellKeyed(r.value) && ValidPath(r.value, p) &&
      NodeAt(r.value, p).children == NodeAt(todo, p).children + [NewTask(KeyOf(p + [c]), "")]
  {
    var node := NodeAt(todo, p);
    NodeKeyFindsNode(todo, p);
    AddAppendsChild(todo, Indices(Split(node.key)), node.key, "");
    AddSubtaskKeepsKeys(todo, p, "");
    WellKeyedAt(todo, [], p);
    assert [] + p == p;
    KeyOfChild(p, |node.children|);
  }
}
