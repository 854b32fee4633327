/**
 * The Completed view: the same walk over its own data as TodoTree, and the
 * two widget callbacks, which report clicks to the handlers it receives.
 */
module CompletedView {
  import opened Wrappers
  import opened Keys
  import opened Tasks
  import opened TreeWalk

  /** The tag Completed adds to what it reports. */
  const Origin: string := "completed"

  /** A call the Completed view makes on the handlers passed to it. */
  datatype Report =
    | CheckTask(keys: seq<string>, origin: string)       // handleCheckTask(keys, origin)
    | TaskExpansion(keys: seq<string>, origin: string)   // handleTaskExpansion(keys, origin)

  /**
   * The effect run whenever data changes: with data present, both lists are
   * rebuilt from empty by one walk; without data the setters are not called.
   */
  method SyncFromData(data: Option<seq<Task>>) returns (r: Option<KeyLists>)
    ensures r.Some? <==> data.Some?
    ensures data.Some? ==> r.value.checked == FlagKeys(data.value, Checked)
    ensures data.Some? ==> r.value.expanded == FlagKeys(data.value, Expanded)
  {
    r := None;
    if data.Some? {
      var keys := CollectKeys(data.value);
      r := Some(keys);
    }
  }

  /** onExpand: the widget's expanded-key list, unchanged, tagged as coming from Completed. */
  function OnExpand(expandedKeysValue: seq<string>): (r: Report)
    ensures r.TaskExpansion? && r.keys == expandedKeysValue && r.origin == Origin
  {
    TaskExpansion(expandedKeysValue, Origin)
  }

  /**
   * onCheck: a one-element list holding the clicked node's key up to its first
   * '-', tagged as coming from Completed. The reported segment has no '-', is a
   * prefix of the clicked key, and is either the whole key or followed by '-'.
   */
  function OnCheck(uncheckedKey: string): (r: Report)
    ensures r.CheckTask? && r.origin == Origin && |r.keys| == 1
    ensures Separator !in r.keys[0] && r.keys[0] <= uncheckedKey
    ensures |r.keys[0]| < |uncheckedKey| ==> uncheckedKey[|r.keys[0]|] == Separator
    ensures Separator !in uncheckedKey ==> r.keys == [uncheckedKey]
  {
    CheckTask([RootSegment(uncheckedKey)], Origin)
  }

  /** In a well-keyed tree, clicking any node reports the key of the root task it belongs to. */
  lemma OnCheckReportsRootKey(list: seq<Task>, p: seq<nat>)
    requires WellKeyed(list) && ValidPath(list, p)
    ensures OnCheck(NodeAt(list, p).key).keys == [list[p[0]].key]
  {
    WellKeyedAt(list, [], p);
    WellKeyedAt(list, [], [p[0]]);
    assert [] + p == p && [] + [p[0]] == [p[0]];
    RootSegmentOfKey(p);
    assert Segments([p[0]]) == [NatToString(p[0])];
  }

  /** Every node below a root carries a key that starts with the root's key and '-'. */
  predicate KeyedBelow(children: seq<Task>, rootKey: string) {
    forall j :: 0 <= j < |children| ==>
      rootKey + [Separator] <= children[j].key && KeyedBelow(children[j].children, rootKey)
  }

  /**
   * The key shape onCheck relies on, whatever the roots' own keys are: each
   * root key is free of '-', and every node below a root extends it with '-'.
   */
  predicate RootKeyed(list: seq<Task>) {
    forall i :: 0 <= i < |list| ==> Separator !in list[i].key && KeyedBelow(list[i].children, list[i].key)
  }

  lemma {:induction false} KeyedBelowAt(children: seq<Task>, rootKey: string, s: seq<nat>)
    requires KeyedBelow(children, rootKey) && ValidPath(children, s)
    ensures rootKey + [Separator] <= NodeAt(children, s).key
  {
    if |s| > 1 {
      KeyedBelowAt(children[s[0]].children, rootKey, s[1..]);
    }
  }

  /** The first piece of a key that extends a '-'-free root key with '-' is that root key. */
  lemma RootSegmentOfExtension(rootKey: string, key: string)
    requires Separator !in rootKey && rootKey + [Separator] <= key
    ensures RootSegment(key) == rootKey
  {
    var r := RootSegment(key);
    var n := |rootKey|;
    assert key[n] == Separator;
  }

  /**
   * Whenever each root key is free of '-' and its descendants' keys extend it
   * with '-', clicking any node reports the key of its root task, kept or not
   * equal to its position.
   */
  lemma OnCheckReportsOwnRoot(list: seq<Task>, p: seq<nat>)
    requires RootKeyed(list) && ValidPath(list, p)
    ensures OnCheck(NodeAt(list, p).key).keys == [list[p[0]].key]
  {
    var root := list[p[0]];
    if |p| == 1 {
      assert Separator !in root.key;
    } else {
      KeyedBelowAt(root.children, root.key, p[1..]);
      RootSegmentOfExtension(root.key, NodeAt(list, p).key);
    }
  }
}
