/**
 * traverseTree, shared word for word by the TodoTree and Completed views: a
 * pre-order walk that appends the key of every checked node to one list and
 * the key of every expanded node to another.
 */
module TreeWalk {
  import opened Wrappers
  import opened Tasks

  /** The two node flags the walk reads. */
  datatype Flag = Checked | Expanded

  function Has(t: Task, f: Flag): bool {
    match f
    case Checked => t.checked
    case Expanded => t.expanded
  }

  /** The nodes of a list of trees in pre-order: a node, its subtree, then its later siblings. */
  function Flatten(list: seq<Task>): seq<Task> {
    if list == [] then [] else [list[0]] + Flatten(list[0].children) + Flatten(list[1..])
  }

  /** The keys of the nodes of a sequence that carry flag f, one per such node, in order. */
  function Marked(nodes: seq<Task>, f: Flag): seq<string> {
    if nodes == [] then [] else (if Has(nodes[0], f) then [nodes[0].key] else []) + Marked(nodes[1..], f)
  }

  /**
   * What one traverseTree call appends for a list: for each node in turn, its
   * key if it carries the flag, then what the walk of its children appends.
   */
  function FlagKeys(list: seq<Task>, f: Flag): seq<string> {
    if list == [] then []
    else (if Has(list[0], f) then [list[0].key] else []) + FlagKeys(list[0].children, f) + FlagKeys(list[1..], f)
  }

  /** The walk reports at most one key per node of the tree. */
  lemma {:induction false} FlagKeysBounded(list: seq<Task>, f: Flag)
    ensures |FlagKeys(list, f)| <= |Flatten(list)|
  {
    if list != [] {
      FlagKeysBounded(list[0].children, f);
      FlagKeysBounded(list[1..], f);
    }
  }

  lemma {:induction false} FlagKeysConcat(a: seq<Task>, b: seq<Task>, f: Flag)
    ensures FlagKeys(a + b, f) == FlagKeys(a, f) + FlagKeys(b, f)
  {
    if a == [] {
      assert a + b == b;
    } else {
      assert (a + b)[0] == a[0] && (a + b)[1..] == a[1..] + b;
      FlagKeysConcat(a[1..], b, f);
    }
  }

  lemma {:induction false} FlattenConcat(a: seq<Task>, b: seq<Task>)
    ensures Flatten(a + b) == Flatten(a) + Flatten(b)
  {
    if a == [] {
      assert a + b == b;
    } else {
      assert (a + b)[0] == a[0] && (a + b)[1..] == a[1..] + b;
      FlattenConcat(a[1..], b);
    }
  }

  lemma {:induction false} MarkedConcat(a: seq<Task>, b: seq<Task>, f: Flag)
    ensures Marked(a + b, f) == Marked(a, f) + Marked(b, f)
  {
    if a == [] {
      assert a + b == b;
    } else {
      assert (a + b)[0] == a[0] && (a + b)[1..] == a[1..] + b;
      MarkedConcat(a[1..], b, f);
    }
  }

  /** The walk's keys are exactly the flagged nodes' keys in pre-order. */
  lemma {:induction false} FlagKeysArePreorderMarked(list: seq<Task>, f: Flag)
    ensures FlagKeys(list, f) == Marked(Flatten(list), f)
  {
    if list != [] {
      FlagKeysArePreorderMarked(list[0].children, f);
      FlagKeysArePreorderMarked(list[1..], f);
      MarkedConcat([list[0]] + Flatten(list[0].children), Flatten(list[1..]), f);
      MarkedConcat([list[0]], Flatten(list[0].children), f);
    }
  }

  /** A key is marked exactly when some node of the sequence carries the flag and has that key. */
  lemma {:induction false} MarkedMembership(nodes: seq<Task>, f: Flag, k: string)
    ensures k in Marked(nodes, f) <==> exists j :: 0 <= j < |nodes| && Has(nodes[j], f) && nodes[j].key == k
  {
    if nodes != [] {
      MarkedMembership(nodes[1..], f, k);
      if exists j :: 0 <= j < |nodes[1..]| && Has(nodes[1..][j], f) && nodes[1..][j].key == k {
        var j :| 0 <= j < |nodes[1..]| && Has(nodes[1..][j], f) && nodes[1..][j].key == k;
        assert nodes[j + 1] == nodes[1..][j];
      }
      if exists j :: 0 <= j < |nodes| && Has(nodes[j], f) && nodes[j].key == k {
        var j :| 0 <= j < |nodes| && Has(nodes[j], f) && nodes[j].key == k;
        if j > 0 {
          assert nodes[1..][j - 1] == nodes[j];
        }
      }
    }
  }

  /** The place of the node at path p in the pre-order. */
  function Position(list: seq<Task>, p: seq<nat>): nat
    requires ValidPath(list, p)
  {
    |Flatten(list[..p[0]])| + if |p| == 1 then 0 else 1 + Position(list[p[0]].children, p[1..])
  }

  lemma {:induction false} FlattenAround(list: seq<Task>, i: nat)
    requires i < |list|
    ensures Flatten(list) == Flatten(list[..i]) + [list[i]] + Flatten(list[i].children) + Flatten(list[i + 1..])
  {
    var tail := list[i..];
    assert list == list[..i] + tail;
    FlattenConcat(list[..i], tail);
    assert tail[0] == list[i] && tail[1..] == list[i + 1..];
    assert Flatten(tail) == [list[i]] + Flatten(list[i].children) + Flatten(list[i + 1..]);
  }

  /** The pre-order holds every node of the tree, each at its position. */
  lemma {:induction false} PositionIndexes(list: seq<Task>, p: seq<nat>)
    requires ValidPath(list, p)
    ensures Position(list, p) < |Flatten(list)|
    ensures Flatten(list)[Position(list, p)] == NodeAt(list, p)
  {
    var i := p[0];
    FlattenAround(list, i);
    if |p| > 1 {
      PositionIndexes(list[i].children, p[1..]);
    }
  }

  /**
   * The path of the j-th node of the pre-order: every node the walk visits is
   * a node of the tree.
   */
  function PathAt(list: seq<Task>, j: nat): (p: seq<nat>)
    requires j < |Flatten(list)|
    ensures ValidPath(list, p) && NodeAt(list, p) == Flatten(list)[j]
  {
    var inner := |Flatten(list[0].children)|;
    if j == 0 then [0]
    else if j <= inner then
      var q := PathAt(list[0].children, j - 1);
      assert ([0] + q)[1..] == q;
      [0] + q
    else
      var q := PathAt(list[1..], j - 1 - inner);
      var p := [q[0] + 1] + q[1..];
      assert list[p[0]] == list[1..][q[0]];
      assert p[1..] == q[1..];
      p
  }

  /** A node comes before every node of its subtree. */
  lemma {:induction false} ParentBeforeDescendants(list: seq<Task>, p: seq<nat>, q: seq<nat>)
    requires ValidPath(list, q) && |p| > 0 && p < q
    ensures ValidPath(list, p) && Position(list, p) < Position(list, q)
  {
    assert p[0] == q[0];
    if |p| > 1 {
      assert p[1..] < q[1..];
      ParentBeforeDescendants(list[q[0]].children, p[1..], q[1..]);
    }
  }

  /** A node and all of its subtree come before its later siblings and their subtrees. */
  lemma {:induction false} SiblingsInOrder(list: seq<Task>, pre: seq<nat>, i: nat, j: nat, s: seq<nat>, t: seq<nat>)
    requires i < j
    requires ValidPath(list, pre + [i] + s) && ValidPath(list, pre + [j] + t)
    ensures Position(list, pre + [i] + s) < Position(list, pre + [j] + t)
  {
    var a, b := pre + [i] + s, pre + [j] + t;
    if pre == [] {
      assert a == [i] + s && b == [j] + t;
      assert a[0] == i && b[0] == j && a[1..] == s && b[1..] == t;
      FlattenAround(list[..j], i);
      assert list[..j][..i] == list[..i] && list[..j][i] == list[i];
      if |s| > 0 {
        PositionIndexes(list[i].children, s);
      }
    } else {
      assert a[0] == pre[0] && b[0] == pre[0];
      assert a[1..] == pre[1..] + [i] + s && b[1..] == pre[1..] + [j] + t;
      SiblingsInOrder(list[pre[0]].children, pre[1..], i, j, s, t);
    }
  }

  /** The walk reports a key exactly when some node of the tree with that key carries the flag. */
  lemma FlagKeysMembership(list: seq<Task>, f: Flag, k: string)
    ensures k in FlagKeys(list, f) <==> exists p :: ValidPath(list, p) && Has(NodeAt(list, p), f) && NodeAt(list, p).key == k
  {
    FlagKeysArePreorderMarked(list, f);
    MarkedMembership(Flatten(list), f, k);
    var nodes := Flatten(list);
    if exists j :: 0 <= j < |nodes| && Has(nodes[j], f) && nodes[j].key == k {
      var j :| 0 <= j < |nodes| && Has(nodes[j], f) && nodes[j].key == k;
      var p := PathAt(list, j);
      assert ValidPath(list, p) && Has(NodeAt(list, p), f) && NodeAt(list, p).key == k;
    }
    if exists p :: ValidPath(list, p) && Has(NodeAt(list, p), f) && NodeAt(list, p).key == k {
      var p :| ValidPath(list, p) && Has(NodeAt(list, p), f) && NodeAt(list, p).key == k;
      PositionIndexes(list, p);
      var j := Position(list, p);
      assert 0 <= j < |nodes| && Has(nodes[j], f) && nodes[j].key == k;
    }
  }

  /** One more node of the forEach: its own key if flagged, then its subtree's keys. */
  lemma FlagKeysStep(list: seq<Task>, i: nat, f: Flag)
    requires i < |list|
    ensures FlagKeys(list[..i + 1], f) ==
      FlagKeys(list[..i], f) + (if Has(list[i], f) then [list[i].key] else []) + FlagKeys(list[i].children, f)
  {
    var one := [list[i]];
    assert list[..i + 1] == list[..i] + one;
    assert one[0] == list[i] && one[1..] == [];
    var own := if Has(list[i], f) then [list[i].key] else [];
    assert FlagKeys(one, f) == own + FlagKeys(list[i].children, f) + [];
    FlagKeysConcat(list[..i], one, f);
  }

  /** What one more node of the forEach adds to an accumulator. */
  lemma AccumulateStep(acc: seq<string>, list: seq<Task>, i: nat, f: Flag, before: seq<string>, after: seq<string>)
    requires i < |list|
    requires before == acc + FlagKeys(list[..i], f)
    requires after == before + (if Has(list[i], f) then [list[i].key] else []) + FlagKeys(list[i].children, f)
    ensures after == acc + FlagKeys(list[..i + 1], f)
  {
    FlagKeysStep(list, i, f);
  }

  /** The accumulators checkedKeysFromData and expandedKeysFromData that traverseTree appends to. */
  class Collector {
    var checkedKeys: seq<string>
    var expandedKeys: seq<string>

    constructor ()
      ensures checkedKeys == [] && expandedKeys == []
    {
      checkedKeys := [];
      expandedKeys := [];
    }

    /** The flag tests of the forEach callback: a node's key joins each list whose flag it carries. */
    method MarkNode(task: Task)
      modifies this
      ensures checkedKeys == old(checkedKeys) + (if Has(task, Checked) then [task.key] else [])
      ensures expandedKeys == old(expandedKeys) + (if Has(task, Expanded) then [task.key] else [])
    {
      if task.checked {
        checkedKeys := checkedKeys + [task.key];
      }
      if task.expanded {
        expandedKeys := expandedKeys + [task.key];
      }
    }

    /** traverseTree(nodeList): nodeList.forEach, appending flagged keys and descending into children. */
    method Traverse(nodeList: seq<Task>)
      modifies this
      ensures checkedKeys == old(checkedKeys) + FlagKeys(nodeList, Checked)
      ensures expandedKeys == old(expandedKeys) + FlagKeys(nodeList, Expanded)
    {
      ghost var checked0, expanded0 := checkedKeys, expandedKeys;
      var i := 0;
      while i < |nodeList|
        invariant 0 <= i <= |nodeList|
        invariant checkedKeys == checked0 + FlagKeys(nodeList[..i], Checked)
        invariant expandedKeys == expanded0 + FlagKeys(nodeList[..i], Expanded)
      {
        var task := nodeList[i];
        ghost var checkedBefore, expandedBefore := checkedKeys, expandedKeys;
        MarkNode(task);
        if |task.children| > 0 {
          Traverse(task.children);
        }
        AccumulateStep(checked0, nodeList, i, Checked, checkedBefore, checkedKeys);
        AccumulateStep(expanded0, nodeList, i, Expanded, expandedBefore, expandedKeys);
        i := i + 1;
      }
      assert nodeList[..i] == nodeList;
    }
  }

  /** The checked and expanded key lists the view hands to its tree widget. */
  datatype KeyLists = KeyLists(checked: seq<string>, expanded: seq<string>)

  /**
   * One run of traverseTree over the data, starting from empty accumulators:
   * the result depends on the tree alone.
   */
  method CollectKeys(data: seq<Task>) returns (r: KeyLists)
    ensures r.checked == FlagKeys(data, Checked) && r.expanded == FlagKeys(data, Expanded)
  {
    var collector := new Collector();
    collector.Traverse(data);
    r := KeyLists(collector.checkedKeys, collector.expandedKeys);
  }
}
