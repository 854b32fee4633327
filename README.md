# Multi-level to-do list: positional tree editor and key walks

This project models the core of a React to-do list whose tasks nest to any depth.
It verifies the model in Dafny.

- **Tree editor** (`src/components/todo/Todo.tsx`). The component keeps the root list of tasks.
  - `handleAddTask` appends a root keyed by the old root count.
  - `handleAddSubtask` and `handleEditTask` split a composite key such as `"0-2-1"` on `-`. They hand the pieces to `findKey`.
  - `findKey` uses every piece, the first one too, as `Number(piece)`: an index into the list at its depth.
  - At the last piece it either appends a child keyed `<key>-<child count>` or overwrites the title.
  - The key invariant: every node's key is its index path joined with `-`. The model proves that a node's own key leads `findKey` back to that node.
  - `handleAddTask` and `handleEditTask` keep the invariant for any key.
  - `handleAddSubtask` keeps it for the key of an existing node, which is the only key the tree view passes (TodoTree.tsx:95-97). For other keys it can break: `Number()` ignores leading zeros, so `"00"` addresses root 0 of `[{ key: "0" }]`, and the child it adds is keyed `"00-0"`, not `"0-0"`.
- **Flag walks** (`TodoTree.tsx`, `Completed.tsx`). `traverseTree` walks the tree in pre-order. It collects the keys of checked nodes and, separately, of expanded nodes. The model proves that the lists are exactly the flagged nodes' keys, in pre-order, one per node.
- **Callbacks.** The tree view's node callbacks forward the node's own key. Completed's `onCheck` reports the clicked key's first `-`-separated segment. That segment is the root task's key whenever root keys contain no `-` and every key below a root extends it with `-`, as in a well-keyed tree.

Modules:
- `Wrappers`: Option and Result.
- `Keys`: decimal printing, `Number()` on digit strings, `split('-')`, `join('-')`, the root segment.
- `Tasks`: the node datatype, index paths, replacing a node, the key invariant.
- `TodoEditor`: `findKey`, `handleAddTask`, the `Todo` state class and its handlers.
- `TreeWalk`: `traverseTree` as a class over the two accumulators, plus the pre-order lemmas.
- `TodoTreeView`, `CompletedView`: the two views.

How the model represents the code:
- A failed assignment `nodeList[index].x = …` (index out of range or NaN) throws a TypeError in JavaScript. The model returns it as `Err(TargetMissing)`, and the handlers then leave the state unchanged: `setTodo` is never reached.
- A non-final piece that meets a missing or childless node makes `findKey` return the list unchanged. The model's `Locate` characterises both outcomes exactly.

Behaviour worth knowing:
- Roots are addressed by position.
- New nodes are the literal `{ title, key }`, so `checked` and `expanded` both start unset (false).
- A dead intermediate piece is a silent no-op; a missing final target throws.

## Model

| member | source | states |
|---|---|---|
| `Keys.NatToString` | src/components/todo/Todo.tsx:30 | the text of a child count or root count is a non-empty digit string with no leading zero |
| `Keys.ParseNatToString` | src/components/todo/Todo.tsx:23 | `Number()` of a printed index gives back that index |
| `Keys.ParseSegment` | src/components/todo/Todo.tsx:23 | `Number(piece)` gives an index exactly when the piece is a digit string, the empty one included (read as 0); anything else gives no index |
| `Keys.LeadingZeroIgnored` | src/components/todo/Todo.tsx:23 | a leading zero does not change the number a digit string reads as |
| `Keys.Split` | src/components/todo/Todo.tsx:54 | `split('-')` yields at least one piece, no piece contains `-`, and joining the pieces with `-` gives back the key |
| `Keys.SplitJoin` | src/components/todo/Todo.tsx:60 | splitting pieces joined with `-` gives back the pieces when none contains `-` |
| `Keys.KeyRoundTrip` | src/components/todo/Todo.tsx:23-27 | splitting the key of index path p and applying `Number()` to every piece yields exactly p, root index included |
| `Keys.KeyOfChild` | src/components/todo/Todo.tsx:30 | the key of the c-th child of the node at p is p's key, `-`, and c |
| `Keys.RootSegment` | src/components/todo/Completed/Completed.tsx:69 | the first piece of the split key has no `-`, is a prefix of the key, is followed by `-` unless it is the whole key, and is the whole key when the key has no `-` |
| `Keys.RootSegmentOfKey` | src/components/todo/Completed/Completed.tsx:69 | the first piece of the key of path p is the decimal root index p[0] |
| `Tasks.NewTask` | src/components/todo/Todo.tsx:31 | the node literal has the given key and title, no children, and both flags unset |
| `Tasks.WellKeyedAt` | src/components/todo/Todo.tsx:23-27 | in a well-keyed tree the node at p has key KeyOf(p), and its children are well keyed under p |
| `Tasks.ReplaceAtOutside` | src/components/todo/Todo.tsx:27 | writing a node back at p leaves every path that is not p or below it valid exactly when it was, with the same own fields, and the whole subtree the same off p's ancestor chain |
| `TodoEditor.Lookup` | src/components/todo/Todo.tsx:23-24 | `nodeList[Number(piece)]` is a node exactly when the piece parses and is in range, and is then that element |
| `TodoEditor.Locate` | src/components/todo/Todo.tsx:22-44 | the walk reaches a node exactly when every piece parses and the pieces form a path of the tree, and then at that path; it stops early exactly when the pieces before the last do not lead to a node with children |
| `TodoEditor.Perform` | src/components/todo/Todo.tsx:29-37 | add appends `NewTask(key-c, value)` with c the old child count and keeps the title; edit sets the title and keeps the children; key and flags never change |
| `TodoEditor.FindKey` | src/components/todo/Todo.tsx:22-44 | the recursive, path-shifting method returns the list of `UpdatedList`: the list unchanged on a dead path, `TargetMissing` when the last piece misses, else the list with the addressed node's child appended or title overwritten |
| `TodoEditor.AddTask` | src/components/todo/Todo.tsx:46-48 | the old roots stay in place and one untitled, unflagged, childless root follows, keyed by the old root count, and that key parses back to its index |
| `TodoEditor.Todo.constructor` | src/components/todo/Todo.tsx:20 | the root list starts empty |
| `TodoEditor.Todo.HandleAddTask` | src/components/todo/Todo.tsx:46-51 | the state becomes `AddTask` of the old state and stays well keyed |
| `TodoEditor.Todo.HandleAddSubtask` | src/components/todo/Todo.tsx:53-57 | the state becomes `findKey`'s add-mode list with an empty title, or stays unchanged when `findKey` throws; for a node's own key in a well-keyed tree it succeeds and stays well keyed |
| `TodoEditor.Todo.HandleEditTask` | src/components/todo/Todo.tsx:59-63 | the state becomes `findKey`'s edit-mode list, or stays unchanged when `findKey` throws; a well-keyed state stays well keyed |
| `TodoEditor.AddAppendsChild` | src/components/todo/Todo.tsx:29-35 | adding appends exactly one childless node keyed key-c (key-0 for a childless target) as the last child; earlier children, the target's own fields and all other nodes are unchanged; the only new path is p+[c] |
| `TodoEditor.EditRetitles` | src/components/todo/Todo.tsx:36-37 | editing changes only the addressed node's title: same paths, same key, flags and children, every other node's own fields unchanged |
| `TodoEditor.DeadSegmentLeavesListUnchanged` | src/components/todo/Todo.tsx:26-43 | if the pieces before any non-final piece fail to lead to a node with children, the list comes back unchanged |
| `TodoEditor.MissingTargetFails` | src/components/todo/Todo.tsx:28-37 | if the earlier pieces lead to a node with children but the last one addresses nothing, the unguarded assignment fails |
| `TodoEditor.NodeKeyFindsNode` | src/components/todo/Todo.tsx:23-27 | in a well-keyed tree, the key of the node at p leads the walk to p |
| `TodoEditor.AddTaskKeepsKeys` | src/components/todo/Todo.tsx:47-48 | adding a root keeps every key equal to its index path |
| `TodoEditor.EditKeepsKeys` | src/components/todo/Todo.tsx:37 | editing by any key keeps every key equal to its index path |
| `TodoEditor.AddSubtaskKeepsKeys` | src/components/todo/Todo.tsx:30-35 | adding under a node by its own key succeeds, keeps every key equal to its index path, and keys the new child KeyOf(p+[c]) |
| `TodoEditor.NonNodeKeyBreaksKeys` | src/components/todo/Todo.tsx:23-35 | adding under the key `"00"` in the well-keyed tree `[{ key: "0" }]` succeeds but leaves a tree that is not well keyed |
| `TreeWalk.FlagKeysBounded` | src/components/todo/TodoTree/TodoTree.tsx:51-74 | each list holds at most one key per node of the tree |
| `TreeWalk.FlagKeysArePreorderMarked` | src/components/todo/TodoTree/TodoTree.tsx:54-68 | what the walk appends is the keys of the flagged nodes of the pre-order, one per flagged node, in that order |
| `TreeWalk.FlagKeysMembership` | src/components/todo/TodoTree/TodoTree.tsx:56-62 | a key is in a list exactly when some node of the tree with that key carries the flag |
| `TreeWalk.PositionIndexes` | src/components/todo/TodoTree/TodoTree.tsx:55-66 | every node of the tree occurs in the pre-order, at its position |
| `TreeWalk.PathAt` | src/components/todo/TodoTree/TodoTree.tsx:55-66 | every node of the pre-order is the node at some path of the tree |
| `TreeWalk.ParentBeforeDescendants` | src/components/todo/TodoTree/TodoTree.tsx:56-66 | a node precedes every node of its subtree |
| `TreeWalk.SiblingsInOrder` | src/components/todo/TodoTree/TodoTree.tsx:55 | a node and its subtree precede its later siblings and their subtrees |
| `TreeWalk.Collector.constructor` | src/components/todo/TodoTree/TodoTree.tsx:51-52 | both accumulators start empty |
| `TreeWalk.Collector.MarkNode` | src/components/todo/TodoTree/TodoTree.tsx:56-62 | a node's key is appended to the checked list exactly when it is checked and to the expanded list exactly when it is expanded, and nothing else changes |
| `TreeWalk.Collector.Traverse` | src/components/todo/TodoTree/TodoTree.tsx:54-68 | the `forEach` loop with its recursive descent appends exactly `FlagKeys` of the list to each accumulator |
| `TreeWalk.CollectKeys` | src/components/todo/TodoTree/TodoTree.tsx:51-71 | one walk from empty accumulators yields exactly the checked keys and the expanded keys of the tree |
| `TodoTreeView.SyncFromData` | src/components/todo/TodoTree/TodoTree.tsx:50-75 | with data present both lists are rebuilt from the tree alone; without data nothing is set |
| `TodoTreeView.TitleEdit` | src/components/todo/TodoTree/TodoTree.tsx:91-93 | the edited text is forwarded against the node's own key |
| `TodoTreeView.AddSubtaskClick` | src/components/todo/TodoTree/TodoTree.tsx:95-97 | the node's own key is forwarded |
| `TodoTreeView.AddDueDateClick` | src/components/todo/TodoTree/TodoTree.tsx:99-101 | the node's own key is forwarded with the formatted date, or the empty string for a cleared pick |
| `TodoTreeView.TitleEditRetitlesRenderedNode` | src/components/todo/TodoTree/TodoTree.tsx:91-93 | in a well-keyed tree, the forwarded edit retitles exactly the rendered node |
| `TodoTreeView.AddSubtaskClickAppendsUnderRenderedNode` | src/components/todo/TodoTree/TodoTree.tsx:95-97 | in a well-keyed tree, the forwarded add appends one untitled child keyed KeyOf(p+[c]) under exactly the rendered node, keeping the tree well keyed |
| `CompletedView.SyncFromData` | src/components/todo/Completed/Completed.tsx:33-58 | the same walk: with data present both lists are rebuilt from the tree alone |
| `CompletedView.OnExpand` | src/components/todo/Completed/Completed.tsx:60-61 | the expanded-key list is forwarded unchanged, tagged `'completed'` |
| `CompletedView.OnCheck` | src/components/todo/Completed/Completed.tsx:66-73 | exactly one key is reported, tagged `'completed'`: the clicked key up to its first `-` (no `-`, a prefix, the whole key when it has no `-`) |
| `CompletedView.OnCheckReportsRootKey` | src/components/todo/Completed/Completed.tsx:68-71 | in a well-keyed tree, clicking any node reports the key of its root task |
| `CompletedView.OnCheckReportsOwnRoot` | src/components/todo/Completed/Completed.tsx:68-71 | whatever the roots' keys, if each is free of `-` and every key below a root extends it with `-`, clicking any node reports the key of its root task |
| `CompletedView.RootSegmentOfExtension` | src/components/todo/Completed/Completed.tsx:69 | the first piece of a key that extends a `-`-free key with `-` is that key |

## Left out

- Rendering is not modelled: JSX, the antd `Tree`, `DatePicker` and `Typography` widgets, CSS class choice, and the React hooks. The state setters, `autoExpandParent` and the widget's own checked and expanded state are UI plumbing.
- `renderDueDate` and date formatting are not modelled. They depend on `moment` and the wall clock. `AddDueDateClick` takes the already formatted date text as its parameter.
- TodoTree's `onExpand` and `onCheck` (TodoTree.tsx:77-86) are left out, along with the dispatch of its due-date, check and expansion requests. They call `handleTaskExpansion`, `handleCheckTask` and `handleAddDueDate`, and `Todo` never passes those props (Todo.tsx:86-90). The model stops at the request value.
- There is no completion transfer, expansion syncing, due-date update or localStorage persistence. No source file shown implements them. `src/App.tsx` is layout only, and the tests render the DOM.
- Aliasing is not modelled. `[...todo]` copies only the root array, so `findKey` also writes into node objects that the previous state shares. The model works on values and captures only the new state.
- `Keys.ParseSegment` reads only digit strings as numbers. JavaScript's `Number()` also accepts forms such as `" 1"`, `"1.0"`, `"1e2"` and `"0x1"`, and it loses precision above 2^53. None of these occurs in keys the editor writes.
- `TodoEditor.FindKey` covers only the modes `'add'` and `'edit'`, the only ones its callers pass. Any other mode string would leave the list unchanged.
- An empty `children` array is not distinguished from an absent one. The source only replaces an absent `children` by a non-empty array, so an empty array never occurs in its trees.
