/**
 * The Todo component's editor: findKey walks a split composite key down the
 * tree, using every segment (the first one too) as an index into the list at
 * its depth, and then either appends a subtask or overwrites a title; the
 * three handlers feed it and keep the new root list.
 */
module TodoEditor {
  import opened Wrappers
  import opened Keys
  import opened Tasks

  /** The two modes the handlers pass to findKey. */
  datatype Mode = Add | Edit

  /** nodeList[index] is undefined where findKey assigns to it, so JavaScript throws a TypeError. */
  datatype Failure = TargetMissing

  /** Where findKey's walk over a parsed key ends. */
  datatype Location =
    | Dead                   // a non-final segment met a missing or childless node
    | Missing                // the final segment addresses no node
    | Found(path: seq<nat>)  // the addressed node

  /** nodeList[index], or undefined. */
  function Lookup(list: seq<Task>, index: Option<nat>): (r: Option<Task>)
    ensures r.Some? <==> index.Some? && index.value < |list|
    ensures r.Some? ==> r.value == list[index.value]
  {
    if index.Some? && index.value < |list| then Some(list[index.value]) else None
  }

  predicate AllParsed(idx: seq<Option<nat>>) {
    forall i :: 0 <= i < |idx| ==> idx[i].Some?
  }

  function Values(idx: seq<Option<nat>>): (p: seq<nat>)
    requires AllParsed(idx)
    ensures |p| == |idx| && forall i :: 0 <= i < |idx| ==> p[i] == idx[i].value
  {
    if idx == [] then [] else [idx[0].value] + Values(idx[1..])
  }

  /** The segments q lead to a node with children; no segments at all lead to the root list. */
  predicate Descends(list: seq<Task>, q: seq<Option<nat>>) {
    q == [] || (AllParsed(q) && ValidPath(list, Values(q)) && |NodeAt(list, Values(q)).children| > 0)
  }

  lemma DescendsStep(list: seq<Task>, q: seq<Option<nat>>)
    requires |q| > 1
    ensures Descends(list, q) <==>
      Lookup(list, q[0]).Some? && Descends(Lookup(list, q[0]).value.children, q[1..])
  {
    if AllParsed(q) {
      assert Values(q)[1..] == Values(q[1..]);
    }
    if Lookup(list, q[0]).Some? && AllParsed(q[1..]) {
      assert AllParsed(q) by {
        forall i | 0 <= i < |q| ensures q[i].Some? {
          if i > 0 { assert q[i] == q[1..][i - 1]; }
        }
      }
    }
  }

  /**
   * The walk of findKey over parsed segments idx. It ends at a node exactly when
   * every segment parses and the segments form a path of the tree; it stops
   * early, changing nothing, exactly when the segments before the last do not
   * lead to a node with children; otherwise the final segment misses.
   */
  function Locate(list: seq<Task>, idx: seq<Option<nat>>): (loc: Location)
    ensures loc.Found? <==> |idx| > 0 && AllParsed(idx) && ValidPath(list, Values(idx))
    ensures loc.Found? ==> loc.path == Values(idx)
    ensures loc.Dead? <==> |idx| > 1 && !Descends(list, idx[..|idx| - 1])
  {
    if |idx| == 0 then Missing
    else
      var node := Lookup(list, idx[0]);
      if |idx| == 1 then
        assert idx[..0] == [];
        if node.Some? then Found([idx[0].value]) else Missing
      else if node.Some? && |node.value.children| > 0 then
        var loc := Locate(node.value.children, idx[1..]);
        assert AllParsed(idx) ==> Values(idx) == [idx[0].value] + Values(idx[1..]);
        assert AllParsed(idx[1..]) ==> AllParsed(idx) by {
          if AllParsed(idx[1..]) {
            forall i | 0 <= i < |idx| ensures idx[i].Some? {
              if i > 0 { assert idx[i] == idx[1..][i - 1]; }
            }
          }
        }
        if |idx| == 2 then
          assert idx[..1] == [idx[0]];
          match loc
          case Found(p) => Found([idx[0].value] + p)
          case _ => loc
        else
          DescendsStep(list, idx[..|idx| - 1]);
          assert idx[..|idx| - 1][1..] == idx[1..][..|idx| - 2];
          match loc
          case Found(p) => Found([idx[0].value] + p)
          case _ => loc
      else
        if |idx| == 2 then
          assert idx[..1] == [idx[0]];
          Dead
        else
          DescendsStep(list, idx[..|idx| - 1]);
          Dead
  }

  /** What findKey does to the node it reaches. */
  function Perform(node: Task, key: string, mode: Mode, value: string): (r: Task)
    ensures r.key == node.key && r.checked == node.checked && r.expanded == node.expanded
    ensures mode == Add ==> (r.title == node.title &&
      r.children == node.children + [NewTask(key + [Separator] + NatToString(|node.children|), value)])
    ensures mode == Edit ==> r.title == value && r.children == node.children
  {
    match mode
    case Add => node.(children := node.children + [NewTask(key + [Separator] + NatToString(|node.children|), value)])
    case Edit => node.(title := value)
  }

  /** The list findKey returns for the parsed segments idx, or the failure it throws. */
  function UpdatedList(list: seq<Task>, idx: seq<Option<nat>>, key: string, mode: Mode, value: string)
    : Result<seq<Task>, Failure>
  {
    match Locate(list, idx)
    case Dead => Ok(list)
    case Missing => Err(TargetMissing)
    case Found(p) => Ok(ReplaceAt(list, p, Perform(NodeAt(list, p), key, mode, value)))
  }

  /**
   * findKey(keyPath, nodeList, key, mode, value): shifts the first segment off
   * the path, descends into the children of the node it names while segments
   * remain, and at the last segment appends a child keyed key-<child count> or
   * overwrites the title.
   */
  method FindKey(keyPath: seq<string>, nodeList: seq<Task>, key: string, mode: Mode, value: string)
    returns (r: Result<seq<Task>, Failure>)
    ensures r == UpdatedList(nodeList, Indices(keyPath), key, mode, value)
    decreases |keyPath|
  {
    var path := keyPath;
    var list := nodeList;
    // Number(keyPath.shift()): shifting an empty path gives undefined, which is NaN
    var index: Option<nat> := None;
    if |path| > 0 {
      index := ParseSegment(path[0]);
      path := path[1..];
    }
    var node := Lookup(list, index);
    if node.Some? && |node.value.children| > 0 && |path| > 0 {
      var children := FindKey(path, node.value.children, key, mode, value);
      if children.Err? {
        return Err(children.error);
      }
      list := list[index.value := node.value.(children := children.value)];
      assert Indices(keyPath) == [index] + Indices(path);
      if Locate(node.value.children, Indices(path)).Found? {
        var p := Locate(node.value.children, Indices(path)).path;
        assert ([index.value] + p)[1..] == p;
      } else if Locate(node.value.children, Indices(path)).Dead? {
        assert list == nodeList;
      }
    } else if |path| == 0 {
      if node.None? {
        return Err(TargetMissing);
      }
      match mode {
        case Add =>
          var newKey := key + [Separator] + NatToString(|node.value.children|);
          list := list[index.value := node.value.(children := node.value.children + [NewTask(newKey, value)])];
        case Edit =>
          list := list[index.value := node.value.(title := value)];
      }
    } else {
      assert Indices(keyPath) == [index] + Indices(path);
    }
    return Ok(list);
  }

  /** handleAddTask's new list: the old roots, then one root keyed by the old root count. */
  function AddTask(todo: seq<Task>): (r: seq<Task>)
    ensures |r| == |todo| + 1 && r[..|todo|] == todo
    ensures r[|todo|].title == "" && !r[|todo|].checked && !r[|todo|].expanded && r[|todo|].children == []
    ensures r[|todo|].key == KeyOf([|todo|])
    ensures ParseSegment(r[|todo|].key) == Some(|todo|)
  {
    ParseNatToString(|todo|);
    todo + [NewTask(NatToString(|todo|), "")]
  }

  /** key is the key of some node of the tree (the keys the tree view hands back). */
  ghost predicate IsNodeKey(list: seq<Task>, key: string) {
    exists p :: ValidPath(list, p) && NodeAt(list, p).key == key
  }

  /** The Todo component's state: the root list of tasks. */
  class Todo {
    var todo: seq<Task>

    constructor ()
      ensures todo == []
    {
      todo := [];
    }

    /** handleAddTask */
    method HandleAddTask()
      modifies this
      ensures todo == AddTask(old(todo))
      ensures old(WellKeyed(todo)) ==> WellKeyed(todo)
    {
      if WellKeyed(todo) {
        AddTaskKeepsKeys(todo);
      }
      todo := AddTask(todo);
    }

    /** handleAddSubtask: findKey in 'add' mode with an empty title; a throw leaves the state alone. */
    method HandleAddSubtask(key: string) returns (r: Result<seq<Task>, Failure>)
      modifies this
      ensures r == UpdatedList(old(todo), Indices(Split(key)), key, Add, "")
      ensures todo == if r.Ok? then r.value else old(todo)
      ensures old(WellKeyed(todo)) && old(IsNodeKey(todo, key)) ==> r.Ok? && WellKeyed(todo)
    {
      ghost var before := todo;
      r := FindKey(Split(key), todo, key, Add, "");
      if r.Ok? {
        todo := r.value;
      }
      if WellKeyed(before) && IsNodeKey(before, key) {
        var p :| ValidPath(before, p) && NodeAt(before, p).key == key;
        AddSubtaskKeepsKeys(before, p, "");
      }
    }

    /** handleEditTask: findKey in 'edit' mode; a throw leaves the state alone. */
    method HandleEditTask(key: string, value: string) returns (r: Result<seq<Task>, Failure>)
      modifies this
      ensures r == UpdatedList(old(todo), Indices(Split(key)), key, Edit, value)
      ensures todo == if r.Ok? then r.value else old(todo)
      ensures old(WellKeyed(todo)) ==> WellKeyed(todo)
    {
      r := FindKey(Split(key), todo, key, Edit, value);
      if r.Ok? {
        if WellKeyed(todo) {
          EditKeepsKeys(todo, Indices(Split(key)), key, value);
        }
        todo := r.value;
      }
    }
  }

  /** Appending a childless node to a list adds exactly one path, [|list|], and leaves the others alone. */
  lemma ValidPathSnoc(list: seq<Task>, x: Task, s: seq<nat>)
    requires x.children == []
    ensures ValidPath(list + [x], s) <==> ValidPath(list, s) || s == [|list|]
    ensures ValidPath(list, s) ==> NodeAt(list + [x], s) == NodeAt(list, s)
    ensures s == [|list|] ==> NodeAt(list + [x], s) == x
  {
    if |s| > 0 && s[0] < |list| {
      assert (list + [x])[s[0]] == list[s[0]];
    }
  }

  /**
   * Adding under the addressed node appends exactly one childless node keyed
   * key-c, where c is the old child count, as its last child; the earlier
   * children, the node's own fields and every other node are unchanged, and the
   * only new path is the one to the new child.
   */
  lemma {:induction false} AddAppendsChild(list: seq<Task>, idx: seq<Option<nat>>, key: string, value: string)
    requires Locate(list, idx).Found?
    ensures var p := Locate(list, idx).path;
      var node := NodeAt(list, p);
      var c := |node.children|;
      var child := NewTask(key + [Separator] + NatToString(c), value);
      UpdatedList(list, idx, key, Add, value).Ok? &&
      var r := UpdatedList(list, idx, key, Add, value).value;
      ValidPath(r, p) && Own(NodeAt(r, p)) == Own(node) &&
      NodeAt(r, p).children == node.children + [child] &&
      (c == 0 ==> NodeAt(r, p).children == [NewTask(key + [Separator, '0'], value)]) &&
      ValidPath(r, p + [c]) && NodeAt(r, p + [c]) == child &&
      (forall q :: ValidPath(r, q) <==> ValidPath(list, q) || q == p + [c]) &&
      (forall q :: ValidPath(list, q) ==> Own(NodeAt(r, q)) == Own(NodeAt(list, q))) &&
      (forall q :: ValidPath(list, q) && !(q <= p) ==> NodeAt(r, q) == NodeAt(list, q))
  {
    var p := Locate(list, idx).path;
    var node := NodeAt(list, p);
    var c := |node.children|;
    var child := NewTask(key + [Separator] + NatToString(c), value);
    var t := Perform(node, key, Add, value);
    ReplaceAtTarget(list, p, t);
    assert c == 0 ==> (NatToString(c) == "0" && node.children + [child] == [child] &&
                       key + [Separator] + NatToString(c) == key + [Separator, '0']);
    forall q
      ensures ValidPath(ReplaceAt(list, p, t), q) <==> ValidPath(list, q) || q == p + [c]
      ensures ValidPath(list, q) ==> Own(NodeAt(ReplaceAt(list, p, t), q)) == Own(NodeAt(list, q))
      ensures ValidPath(list, q) && !(q <= p) ==> NodeAt(ReplaceAt(list, p, t), q) == NodeAt(list, q)
      ensures q == p + [c] ==> ValidPath(ReplaceAt(list, p, t), q) && NodeAt(ReplaceAt(list, p, t), q) == child
    {
      AppendChildAt(list, p, child, q);
    }
  }

  /** Appending a childless node under the node at p, seen from one path q. */
  lemma AppendChildAt(list: seq<Task>, p: seq<nat>, child: Task, q: seq<nat>)
    requires ValidPath(list, p) && child.children == []
    ensures var node := NodeAt(list, p);
      var r := ReplaceAt(list, p, node.(children := node.children + [child]));
      (ValidPath(r, q) <==> ValidPath(list, q) || q == p + [|node.children|]) &&
      (ValidPath(list, q) ==> Own(NodeAt(r, q)) == Own(NodeAt(list, q))) &&
      (ValidPath(list, q) && !(q <= p) ==> NodeAt(r, q) == NodeAt(list, q)) &&
      (q == p + [|node.children|] ==> ValidPath(r, q) && NodeAt(r, q) == child)
  {
    var node := NodeAt(list, p);
    var t := node.(children := node.children + [child]);
    if p < q {
      var s := q[|p|..];
      assert q == p + s;
      ReplaceAtBelow(list, p, t, q);
      PathConcat(list, p, s);
      ValidPathSnoc(node.children, child, s);
      if q == p + [|node.children|] {
        assert s == [|node.children|];
      }
    } else if q == p {
      ReplaceAtTarget(list, p, t);
    } else {
      ReplaceAtOutside(list, p, t, q);
      assert q != p + [|node.children|];
    }
  }

  /**
   * Editing overwrites the addressed node's title and nothing else: its key,
   * flags and children stay, the tree has the same paths, and every other node
   * keeps its own fields.
   */
  lemma {:induction false} EditRetitles(list: seq<Task>, idx: seq<Option<nat>>, key: string, value: string)
    requires Locate(list, idx).Found?
    ensures var p := Locate(list, idx).path;
      UpdatedList(list, idx, key, Edit, value).Ok? &&
      var r := UpdatedList(list, idx, key, Edit, value).value;
      ValidPath(r, p) && NodeAt(r, p) == NodeAt(list, p).(title := value) &&
      (forall q :: ValidPath(r, q) <==> ValidPath(list, q)) &&
      (forall q :: ValidPath(list, q) && q != p ==> Own(NodeAt(r, q)) == Own(NodeAt(list, q))) &&
      (forall q :: ValidPath(list, q) && !(q <= p) ==> NodeAt(r, q) == NodeAt(list, q))
  {
    var p := Locate(list, idx).path;
    var node := NodeAt(list, p);
    var t := Perform(node, key, Edit, value);
    ReplaceAtTarget(list, p, t);
    forall q
      ensures ValidPath(ReplaceAt(list, p, t), q) <==> ValidPath(list, q)
      ensures ValidPath(list, q) && q != p ==> Own(NodeAt(ReplaceAt(list, p, t), q)) == Own(NodeAt(list, q))
      ensures ValidPath(list, q) && !(q <= p) ==> NodeAt(ReplaceAt(list, p, t), q) == NodeAt(list, q)
    {
      RetitleAt(list, p, value, q);
    }
  }

  /** Retitling the node at p, seen from one path q. */
  lemma RetitleAt(list: seq<Task>, p: seq<nat>, value: string, q: seq<nat>)
    requires ValidPath(list, p)
    ensures var r := ReplaceAt(list, p, NodeAt(list, p).(title := value));
      (ValidPath(r, q) <==> ValidPath(list, q)) &&
      (ValidPath(list, q) && q != p ==> Own(NodeAt(r, q)) == Own(NodeAt(list, q))) &&
      (ValidPath(list, q) && !(q <= p) ==> NodeAt(r, q) == NodeAt(list, q))
  {
    var t := NodeAt(list, p).(title := value);
    if p < q {
      var s := q[|p|..];
      assert q == p + s;
      ReplaceAtBelow(list, p, t, q);
      PathConcat(list, p, s);
    } else if q == p {
      ReplaceAtTarget(list, p, t);
    } else {
      ReplaceAtOutside(list, p, t, q);
    }
  }

  /** Every prefix of a path ending above its last node leads to a node with children. */
  lemma {:induction false} AncestorsHaveChildren(list: seq<Task>, p: seq<nat>, d: nat)
    requires ValidPath(list, p) && 0 < d < |p|
    ensures ValidPath(list, p[..d]) && |NodeAt(list, p[..d]).children| > 0
  {
    assert p[..d][0] == p[0];
    if d > 1 {
      assert p[..d][1..] == p[1..][..d - 1];
      AncestorsHaveChildren(list[p[0]].children, p[1..], d - 1);
    }
  }

  /**
   * A dead segment at any non-final depth (the segments up to it do not lead
   * to a node with children) makes findKey return the list unchanged.
   */
  lemma DeadSegmentLeavesListUnchanged(list: seq<Task>, idx: seq<Option<nat>>, d: nat, key: string, mode: Mode, value: string)
    requires 0 < d < |idx| && !Descends(list, idx[..d])
    ensures UpdatedList(list, idx, key, mode, value) == Ok(list)
  {
    var q := idx[..|idx| - 1];
    if Descends(list, q) {
      assert q[..d] == idx[..d];
      assert Values(q[..d]) == Values(q)[..d];
      if d < |q| {
        AncestorsHaveChildren(list, Values(q), d);
      }
      assert false;
    }
  }

  /**
   * When the earlier segments lead to a node with children (or there is just
   * one segment) but the last one addresses nothing, findKey throws.
   */
  lemma MissingTargetFails(list: seq<Task>, idx: seq<Option<nat>>, key: string, mode: Mode, value: string)
    requires |idx| > 0 && Descends(list, idx[..|idx| - 1])
    requires !(AllParsed(idx) && ValidPath(list, Values(idx)))
    ensures UpdatedList(list, idx, key, mode, value) == Err(TargetMissing)
  {
  }

  /** In a well-keyed tree, a node's own key leads findKey back to that node. */
  lemma NodeKeyFindsNode(list: seq<Task>, p: seq<nat>)
    requires WellKeyed(list) && ValidPath(list, p)
    ensures Locate(list, Indices(Split(NodeAt(list, p).key))) == Found(p)
  {
    WellKeyedAt(list, [], p);
    assert [] + p == p;
    KeyRoundTrip(p);
    assert Values(Somes(p)) == p;
  }

  /** handleAddTask keeps every key equal to its index path. */
  lemma AddTaskKeepsKeys(todo: seq<Task>)
    requires WellKeyed(todo)
    ensures WellKeyed(AddTask(todo))
  {
    assert AddTask(todo) == todo + [NewTask(NatToString(|todo|), "")];
    WellKeyedAppend(todo, [], NewTask(NatToString(|todo|), ""));
  }

  /** Editing any key keeps every key equal to its index path. */
  lemma EditKeepsKeys(todo: seq<Task>, idx: seq<Option<nat>>, key: string, value: string)
    requires WellKeyed(todo) && UpdatedList(todo, idx, key, Edit, value).Ok?
    ensures WellKeyed(UpdatedList(todo, idx, key, Edit, value).value)
  {
    if Locate(todo, idx).Found? {
      var p := Locate(todo, idx).path;
      WellKeyedAt(todo, [], p);
      assert [] + p == p;
      WellKeyedReplace(todo, [], p, NodeAt(todo, p).(title := value));
    }
  }

  /**
   * Adding a subtask under a node, by that node's own key, succeeds and keeps
   * every key equal to its index path; the new child's key is the node's path
   * extended by the old child count.
   */
  lemma AddSubtaskKeepsKeys(todo: seq<Task>, p: seq<nat>, value: string)
    requires WellKeyed(todo) && ValidPath(todo, p)
    ensures var key := NodeAt(todo, p).key;
      var r := UpdatedList(todo, Indices(Split(key)), key, Add, value);
      r.Ok? && WellKeyed(r.value) &&
      ValidPath(r.value, p + [|NodeAt(todo, p).children|]) &&
      NodeAt(r.value, p + [|NodeAt(todo, p).children|]).key == KeyOf(p + [|NodeAt(todo, p).children|])
  {
    var node := NodeAt(todo, p);
    var key := node.key;
    var c := |node.children|;
    NodeKeyFindsNode(todo, p);
    WellKeyedAt(todo, [], p);
    assert [] + p == p;
    KeyOfChild(p, c);
    var child := NewTask(key + [Separator] + NatToString(c), value);
    WellKeyedAppend(node.children, p, child);
    WellKeyedReplace(todo, [], p, Perform(node, key, Add, value));
    AddAppendsChild(todo, Indices(Split(key)), key, value);
  }

  /**
   * handleAddSubtask keeps the key invariant only for keys of existing nodes:
   * "00" reads as root 0 of [{ key: "0" }], and the child it adds is keyed
   * "00-0" where its path key is "0-0".
   */
  lemma NonNodeKeyBreaksKeys()
    ensures var list := [NewTask("0", "")];
      var r := UpdatedList(list, Indices(Split("00")), "00", Add, "");
      WellKeyed(list) && r.Ok? && !WellKeyed(r.value)
  {
    var list := [NewTask("0", "")];
    RootZeroWellKeyed();
    DoubleZeroReadsAsZero();
    assert AllParsed([Some(0)]) && Values([Some(0)]) == [0] && ValidPath(list, [0]);
    var t := Perform(list[0], "00", Add, "");
    assert NodeAt(list, [0]) == list[0];
    assert ReplaceAt(list, [0], t) == [t];
    var r := UpdatedList(list, [Some(0)], "00", Add, "");
    assert r == Ok([t]);
    assert t.children[0].key == "00-0";
    KeyOfChild([0], 0);
    assert [0] + [0] == [0, 0];
    assert KeyOf([0, 0]) == "0-0";
    assert ValidPath([t], [0, 0]) && NodeAt([t], [0, 0]) == t.children[0];
    assert [] + [0, 0] == [0, 0];
    assert "00-0" != "0-0" by {
      assert "00-0"[1] != "0-0"[1];
    }
    if WellKeyed([t]) {
      WellKeyedAt([t], [], [0, 0]);
    }
  }

  lemma RootZeroWellKeyed()
    ensures KeyOf([0]) == "0" && WellKeyed([NewTask("0", "")])
  {
    assert Segments([0]) == [NatToString(0)];
    assert [] + [0] == [0];
  }

  lemma DoubleZeroReadsAsZero()
    ensures Indices(Split("00")) == [Some(0)]
  {
    SplitJoin(["00"]);
    LeadingZeroIgnored("0");
  }
}
