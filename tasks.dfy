/**
 * The task tree: antd tree nodes with a composite key, a title, the checked
 * and expanded flags, and an ordered list of children. Nodes are addressed by
 * index paths; the keys the editor writes are those paths joined with '-'.
 */
module Tasks {
  import opened Keys

  /**
   * A tree node. The source distinguishes an absent children field from an
   * array; it only ever replaces an absent field by a non-empty array, so the
   * empty sequence stands for "no children" here.
   */
  datatype Task = Task(key: string, title: string, checked: bool, expanded: bool, children: seq<Task>)

  /** The node literal { title, key }: both flags unset (falsy) and no children. */
  function NewTask(key: string, title: string): (t: Task)
    ensures t.key == key && t.title == title
    ensures !t.checked && !t.expanded && t.children == []
  {
    Task(key, title, false, false, [])
  }

  /** A node's own fields, without its subtree. */
  function Own(t: Task): Task {
    t.(children := [])
  }

  /** p addresses a node of list: its first index picks a root, each next one a child. */
  predicate ValidPath(list: seq<Task>, p: seq<nat>) {
    |p| > 0 && p[0] < |list| && (|p| == 1 || ValidPath(list[p[0]].children, p[1..]))
  }

  function NodeAt(list: seq<Task>, p: seq<nat>): Task
    requires ValidPath(list, p)
  {
    if |p| == 1 then list[p[0]] else NodeAt(list[p[0]].children, p[1..])
  }

  /** The list with the node at p replaced by t. */
  function ReplaceAt(list: seq<Task>, p: seq<nat>, t: Task): (r: seq<Task>)
    requires ValidPath(list, p)
    ensures |r| == |list|
  {
    list[p[0] := if |p| == 1 then t else list[p[0]].(children := ReplaceAt(list[p[0]].children, p[1..], t))]
  }

  /** The nodes below the node at p are addressed by extending p. */
  lemma {:induction false} PathConcat(list: seq<Task>, p: seq<nat>, s: seq<nat>)
    requires ValidPath(list, p) && |s| > 0
    ensures ValidPath(list, p + s) <==> ValidPath(NodeAt(list, p).children, s)
    ensures ValidPath(list, p + s) ==> NodeAt(list, p + s) == NodeAt(NodeAt(list, p).children, s)
  {
    assert (p + s)[0] == p[0];
    if |p| == 1 {
      assert (p + s)[1..] == s;
    } else {
      assert (p + s)[1..] == p[1..] + s;
      PathConcat(list[p[0]].children, p[1..], s);
    }
  }

  /** After ReplaceAt the path still addresses a node, and it is the new one. */
  lemma {:induction false} ReplaceAtTarget(list: seq<Task>, p: seq<nat>, t: Task)
    requires ValidPath(list, p)
    ensures ValidPath(ReplaceAt(list, p, t), p) && NodeAt(ReplaceAt(list, p, t), p) == t
  {
    if |p| > 1 {
      ReplaceAtTarget(list[p[0]].children, p[1..], t);
    }
  }

  /**
   * Outside the replaced subtree nothing changes: every path that is not p or
   * below it addresses a node before exactly when after, with the same own
   * fields, and the whole subtree is the same unless the node is an ancestor of p.
   */
  lemma {:induction false} ReplaceAtOutside(list: seq<Task>, p: seq<nat>, t: Task, q: seq<nat>)
    requires ValidPath(list, p) && !(p <= q)
    ensures ValidPath(ReplaceAt(list, p, t), q) <==> ValidPath(list, q)
    ensures ValidPath(list, q) ==> Own(NodeAt(ReplaceAt(list, p, t), q)) == Own(NodeAt(list, q))
    ensures ValidPath(list, q) && !(q <= p) ==> NodeAt(ReplaceAt(list, p, t), q) == NodeAt(list, q)
  {
    var r := ReplaceAt(list, p, t);
    if |q| > 0 && q[0] < |list| && q[0] == p[0] && |p| > 1 && |q| > 1 {
      ReplaceAtOutside(list[p[0]].children, p[1..], t, q[1..]);
    }
  }

  /** Below p, the new tree is the new node's subtree. */
  lemma {:induction false} ReplaceAtBelow(list: seq<Task>, p: seq<nat>, t: Task, q: seq<nat>)
    requires ValidPath(list, p) && p < q
    ensures ValidPath(ReplaceAt(list, p, t), q) <==> ValidPath(t.children, q[|p|..])
    ensures ValidPath(ReplaceAt(list, p, t), q) ==> NodeAt(ReplaceAt(list, p, t), q) == NodeAt(t.children, q[|p|..])
  {
    assert q[0] == p[0];
    if |p| > 1 {
      assert p[1..] < q[1..];
      assert q[1..][|p| - 1..] == q[|p|..];
      ReplaceAtBelow(list[p[0]].children, p[1..], t, q[1..]);
    }
  }

  /** Every node's key is its index path, under the given prefix, joined with '-'. */
  predicate WellKeyedUnder(list: seq<Task>, prefix: seq<nat>) {
    forall i :: 0 <= i < |list| ==>
      list[i].key == KeyOf(prefix + [i]) && WellKeyedUnder(list[i].children, prefix + [i])
  }

  /** The editor's invariant on its root list: a node's key is its index path joined with '-'. */
  predicate WellKeyed(list: seq<Task>) {
    WellKeyedUnder(list, [])
  }

  /** In a well-keyed tree the node at p has key KeyOf(p), and its children are well keyed under p. */
  lemma {:induction false} WellKeyedAt(list: seq<Task>, prefix: seq<nat>, p: seq<nat>)
    requires WellKeyedUnder(list, prefix) && ValidPath(list, p)
    ensures NodeAt(list, p).key == KeyOf(prefix + p)
    ensures WellKeyedUnder(NodeAt(list, p).children, prefix + p)
  {
    if |p| == 1 {
      assert prefix + p == prefix + [p[0]];
    } else {
      assert prefix + [p[0]] + p[1..] == prefix + p;
      WellKeyedAt(list[p[0]].children, prefix + [p[0]], p[1..]);
    }
  }

  /** Replacing a node by one with the same key and well-keyed children keeps the tree well keyed. */
  lemma {:induction false} WellKeyedReplace(list: seq<Task>, prefix: seq<nat>, p: seq<nat>, t: Task)
    requires WellKeyedUnder(list, prefix) && ValidPath(list, p)
    requires t.key == NodeAt(list, p).key
    requires WellKeyedUnder(t.children, prefix + p)
    ensures WellKeyedUnder(ReplaceAt(list, p, t), prefix)
  {
    var r := ReplaceAt(list, p, t);
    forall i | 0 <= i < |r|
      ensures r[i].key == KeyOf(prefix + [i]) && WellKeyedUnder(r[i].children, prefix + [i])
    {
      if i != p[0] {
        assert r[i] == list[i];
        assert list[i].key == KeyOf(prefix + [i]) && WellKeyedUnder(list[i].children, prefix + [i]);
      } else if |p| == 1 {
        assert prefix + p == prefix + [i];
      } else {
        assert prefix + [p[0]] + p[1..] == prefix + p;
        assert list[i].key == KeyOf(prefix + [i]) && WellKeyedUnder(list[i].children, prefix + [i]);
        WellKeyedReplace(list[i].children, prefix + [i], p[1..], t);
      }
    }
  }

  /** Appending a node keyed by the next index, with well-keyed children, keeps a list well keyed. */
  lemma {:induction false} WellKeyedAppend(list: seq<Task>, prefix: seq<nat>, x: Task)
    requires WellKeyedUnder(list, prefix)
    requires x.key == KeyOf(prefix + [|list|]) && WellKeyedUnder(x.children, prefix + [|list|])
    ensures WellKeyedUnder(list + [x], prefix)
  {
    var r := list + [x];
    forall i | 0 <= i < |r|
      ensures r[i].key == KeyOf(prefix + [i]) && WellKeyedUnder(r[i].children, prefix + [i])
    {
      if i < |list| {
        assert r[i] == list[i];
        assert list[i].key == KeyOf(prefix + [i]) && WellKeyedUnder(list[i].children, prefix + [i]);
      } else {
        assert i == |list| && r[i] == x;
      }
    }
  }
}
