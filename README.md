# Folder tree store, modelled in Dafny

The project models a browser folder/file tree widget (a React component written in TypeScript). Its data is one
ordered forest of items. A folder has an id, a name, ordered children and a collapsed flag. A file has an id
and a name. The tree store (`src/FolderTree.tsx`) is the component that changes this forest. It can:

- add a folder or file as the last root;
- rename an item, toggle a folder, or delete an item with everything below it;
- move an item by drag and drop: before or after another item, inside a folder, or to the end of the root list.

A move is built from two recursive passes. `removeItemFromTree` detaches the dragged node. `insertItemInTree`
puts it back next to the target or inside it. Each drop target row (`src/FolderItem.tsx`) classifies a drop as
before, after or inside. Each row also decides which name an edit commits.

Modules:

- `Types` (types.dfy): the item datatype, `Option`, the move position, and the default names.
- `Forest` (forest.dfy): a reference model of a forest, independent of the store. It gives:
  - the pre-order list of ids, and what unique ids means;
  - paths of sibling indices naming a node;
  - three path-addressed edits: replace, remove and insert. Remove and insert are each proved to change the ids exactly by the affected subtree.
- `FolderTree` (folder_tree.dfy): the store's operations as functions of the forest. Where the source works
  with loops and accumulators, there is also a method with that loop. Each method is proved to compute its
  function: the `reduce` of removeItemFromTree, the `map`/`reduce` of insertItemInTree, and the early-return
  `for` loops of findItem and isDescendant.
- `FolderTreeProperties` (folder_tree_properties.dfy): what those operations do, stated against the Forest edits.
  For example, with unique ids:
  - removal is `RemoveAt` of the node's path;
  - a before/after insert is `InsertAt` next to the target;
  - an inside insert is `InsertAt` at the end of the target folder's children.
  The moves follow from these, including their lossy cases.
- `FolderTreeStore` (folder_tree_store.dfy): the component's state as a class with one `items` field. Each
  handler is a method. Its new state is the operation applied to the old state, and it keeps ids unique.
- `FolderItem` (folder_item.dfy): the row's logic:
  - the drop classifier, on real-valued offsets;
  - ECMAScript `trim` and the commit-name rule;
  - the label fallback;
  - the row's edit state (`isEditing`, `tempName`) as a class.

Two behaviours of the code are easy to misread, and the model proves them as they are:

- An `inside` move onto a node inside the dragged subtree is not rejected. The guard
  (src/FolderTree.tsx:109-110) looks the target up in the tree after extraction, where that target no longer
  is. So the guard is never taken when ids are unique (`GuardNeverFires`). The insert then finds no target, and
  the whole dragged subtree leaves the forest (`MoveIntoOwnSubtree`, `NestedMoveDropsAll`).
- An `inside` move onto a file inserts nothing, but the pruned forest is still committed, so the dragged
  node is lost (`MoveInsideFile`).

`removeItemFromTree` keeps overwriting `removedItem`, so it reports the last match it meets. It does not
search inside a matching node. `findItem` returns the first match in display order. With unique ids the two
agree (`RemovedIsFound`).

## Model

| member | source | states |
|---|---|---|
| Types.DefaultName | src/FolderTree.tsx:157 | the default a blank name falls back to is never empty |
| Forest.RemoveAtIds | src/FolderTree.tsx:18-39 | taking out the subtree at a path takes out exactly that subtree's ids |
| Forest.InsertAtIds | src/FolderTree.tsx:63-76 | inserting a node adds exactly one copy of its subtree's ids |
| Forest.InsertAtAt | src/FolderTree.tsx:63-76 | the inserted node, subtree intact, sits at the slot it was inserted into |
| Forest.SameShapeRefl | src/FolderTree.tsx:155-163 | every forest has its own shape, the case of a renamed or toggled node whose children are kept |
| Forest.PathOfAt | src/FolderTree.tsx:99-108 | with unique ids, the path found for a node's id is that node's own path |
| Forest.PathOf | src/FolderTree.tsx:99-108 | finds a path to a node with the id exactly when the id occurs in the forest |
| FolderTree.Remove | src/FolderTree.tsx:18-39 | a detached node carries the requested id |
| FolderTree.RemoveAppend | src/FolderTree.tsx:23-37 | removal from a concatenation concatenates the pruned parts, and the later part's match wins, as the accumulating loop sees it |
| FolderTree.RemoveItemFromTree | src/FolderTree.tsx:18-39 | the reduce loop, with in-place child replacement and the overwritten removedItem, computes Remove |
| FolderTree.RemoveFound | src/FolderTree.tsx:22-38 | a node is detached exactly when the id occurs somewhere in the forest |
| FolderTree.MapInsert | src/FolderTree.tsx:47-62 | the map pass keeps the number of roots and rewrites each root independently |
| FolderTree.InsertInto | src/FolderTree.tsx:48-62 | the map callback keeps each node's id and kind |
| FolderTree.SpliceAppend | src/FolderTree.tsx:63-76 | the reduce pass over a concatenation is the concatenation of the two passes |
| FolderTree.InsertItemInTree | src/FolderTree.tsx:41-77 | the map loop and the accumulating reduce loop compute Insert |
| FolderTree.Insert | src/FolderTree.tsx:41-77 | no contract of its own; what it does is stated by `InsertSibling`, `InsertInside`, `InsertInsideFile` and `InsertAbsent`, and `InsertItemInTree` is proved equal to it |
| FolderTree.Splice | src/FolderTree.tsx:63-76 | no contract of its own; `SpliceAppend` and `SpliceOne` state how the reduce pass over a prefix grows, and `InsertItemInTree` is proved to compute it |
| FolderTree.Placed | src/FolderTree.tsx:64-75 | no contract of its own; the nodes one child contributes to the reduce pass (the child alone, or the dragged node before or after it), pinned by `SpliceOne` and `InsertSibling` |
| FolderTree.Find | src/FolderTree.tsx:99-108 | a found node carries the id, and a node is found exactly when the id occurs in the forest |
| FolderTree.FindItem | src/FolderTree.tsx:99-108 | the early-return search loop computes Find |
| FolderTree.Contains | src/FolderTree.tsx:88-96 | true exactly when the id is that of the node or of one of its descendants |
| FolderTree.IsDescendant | src/FolderTree.tsx:88-96 | the early-return loop over the children computes Contains |
| FolderTree.DetachNested | src/FolderTree.tsx:28-30 | the in-place pruning leaves the root list's length and ids as they were |
| FolderTree.MoveItem | src/FolderTree.tsx:79-117 | a self-move, or a move of an absent id, leaves the forest unchanged |
| FolderTree.MoveItemToRoot | src/FolderTree.tsx:119-123 | an absent id leaves the forest unchanged; otherwise the dragged node is the last root |
| FolderTree.AddFolder | src/FolderTree.tsx:133-142 | the old roots are kept and a folder with the new id, an empty name, no children and collapsed false is appended last; ids grow by exactly the new id |
| FolderTree.AddFile | src/FolderTree.tsx:144-151 | the old roots are kept and a file with the new id and an empty name is appended last; ids grow by exactly the new id |
| FolderTree.NewFolder | src/FolderTree.tsx:134-140 | no contract of its own; `AddFolder` states the node it builds: a folder with the fresh id, an empty name, no children, expanded |
| FolderTree.NewFile | src/FolderTree.tsx:145-149 | no contract of its own; `AddFile` states the node it builds: a file with the fresh id and an empty name |
| FolderTree.RenamedTo | src/FolderTree.tsx:157 | the stored name is the new name when that is not empty, and the kind's default when it is; never empty |
| FolderTree.Rename | src/FolderTree.tsx:153-166 | renaming keeps the forest's shape (every id and kind in its place, at every depth) and its ids in display order |
| FolderTree.Toggle | src/FolderTree.tsx:168-181 | toggling keeps the forest's shape (every id and kind in its place, at every depth) and its ids in display order |
| FolderTree.Delete | src/FolderTree.tsx:187-192 | the id is gone at every depth and no other id is added |
| FolderTreeProperties.RemoveAbsent | src/FolderTree.tsx:22-38 | with the id absent, nothing is detached and the forest is returned as it was |
| FolderTreeProperties.RemoveUnique | src/FolderTree.tsx:18-39 | with unique ids, the node at the id's path is detached with its subtree intact, and the rest of the forest is exactly RemoveAt of that path |
| FolderTreeProperties.RemoveIsDelete | src/FolderTree.tsx:18-39 | for any forest, the pruned forest equals what deleteRecursive returns for the same id |
| FolderTreeProperties.RemoveIds | src/FolderTree.tsx:18-39 | the pruned forest no longer holds the id; with unique ids, pruned forest plus detached subtree hold exactly the input's ids |
| FolderTreeProperties.DeleteAbsent | src/FolderTree.tsx:187-192 | deleting an absent id changes nothing |
| FolderTreeProperties.DeleteAt | src/FolderTree.tsx:187-192 | with unique ids, delete is RemoveAt of the node's path: all its descendants go, and the remaining nodes keep parent and order |
| FolderTreeProperties.DeleteIdempotent | src/FolderTree.tsx:187-192 | deleting twice is deleting once |
| FolderTreeProperties.FindFirst | src/FolderTree.tsx:99-108 | findItem returns the first node in display order with the id, and none when there is none |
| FolderTreeProperties.RemovedIsFound | src/FolderTree.tsx:85 | with unique ids, the detached node is the node findItem finds |
| FolderTreeProperties.InsertAbsent | src/FolderTree.tsx:41-77 | with no node carrying the target id, the forest is returned unchanged |
| FolderTreeProperties.InsertSibling | src/FolderTree.tsx:63-76 | with unique ids, before/after inserts exactly one node immediately before/after the target, among its own siblings, and moves nothing else |
| FolderTreeProperties.InsertInside | src/FolderTree.tsx:48-54 | with unique ids, inside on a folder appends the node as that folder's last child and changes nothing else |
| FolderTreeProperties.InsertInsideFile | src/FolderTree.tsx:48-62 | with unique ids, inside on a file target returns the forest unchanged |
| FolderTreeProperties.GuardNeverFires | src/FolderTree.tsx:109-112 | with unique ids, the inside-move guard is never taken |
| FolderTree.CycleGuard | src/FolderTree.tsx:109-110 | no contract of its own; `GuardNeverFires` shows it is false when ids are unique |
| FolderTreeProperties.MoveIsInsert | src/FolderTree.tsx:84-116 | with unique ids, a move of a present node to another id inserts that node, subtree intact, into the forest without it |
| FolderTreeProperties.MoveSibling | src/FolderTree.tsx:85-116 | a before/after move onto a surviving target lands the node right next to it; ids stay the same and unique, and the dragged node, subtree intact, sits at that slot |
| FolderTreeProperties.MoveInside | src/FolderTree.tsx:85-116 | an inside move onto a surviving folder makes the node its last child; ids stay the same and unique, and the dragged node, subtree intact, sits at that slot |
| FolderTreeProperties.MoveInsideFile | src/FolderTree.tsx:115-116 | an inside move onto a file commits the pruned forest, and the dragged node is lost |
| FolderTreeProperties.MoveTargetGone | src/FolderTree.tsx:115-116 | a move onto a target missing from the pruned forest commits the pruned forest |
| FolderTreeProperties.MoveIntoOwnSubtree | src/FolderTree.tsx:99-116 | a move onto a node inside the dragged subtree drops the whole subtree, target included |
| FolderTreeProperties.MovePreservesUnique | src/FolderTree.tsx:79-117 | every move keeps ids unique |
| FolderTreeProperties.MoveToRootUnique | src/FolderTree.tsx:119-123 | with unique ids, the detached node, subtree intact, is appended as the last root of RemoveAt of its path; ids stay the same and unique, and the dragged node, subtree intact, sits at that slot |
| FolderTreeProperties.RenameAbsent | src/FolderTree.tsx:153-166 | renaming an absent id changes nothing |
| FolderTreeProperties.RenameAt | src/FolderTree.tsx:153-166 | with unique ids, only the matching node's name changes, to the new name or its kind's default when that is empty |
| FolderTreeProperties.RenameIdempotent | src/FolderTree.tsx:153-166 | renaming twice to the same name is renaming once |
| FolderTreeProperties.ToggleAbsent | src/FolderTree.tsx:168-181 | toggling an absent id changes nothing |
| FolderTreeProperties.ToggleAt | src/FolderTree.tsx:168-181 | with unique ids, only the matching folder's flag flips; a matching file is unchanged |
| FolderTreeProperties.ToggleTwice | src/FolderTree.tsx:168-181 | toggling twice restores the forest |
| FolderTreeProperties.AddUnique | src/FolderTree.tsx:133-151 | appending a root with a fresh id keeps ids unique |
| FolderTreeProperties.NestedMoveDropsAll | src/FolderTree.tsx:99-116 | folder a holding b holding c: moving a inside c leaves an empty forest |
| FolderTreeProperties.GuardFiresOnDuplicate | src/FolderTree.tsx:28-30 | with a duplicated id the guard can fire: no commit, yet a nested node has left the live forest through the in-place pruning |
| FolderTreeStore.TreeStore.constructor | src/FolderTree.tsx:16 | the store starts empty, and ids are trivially unique |
| FolderTreeStore.TreeStore.Valid | src/FolderTree.tsx:16 | no contract of its own; the store invariant (ids unique), kept by every handler |
| FolderTreeStore.TreeStore.HandleMoveItem | src/FolderTree.tsx:79-117 | the handler, with its guards and the loop methods, leaves MoveItem of the old forest and keeps ids unique |
| FolderTreeStore.TreeStore.HandleMoveItemToRoot | src/FolderTree.tsx:119-123 | leaves MoveItemToRoot of the old forest and keeps ids unique |
| FolderTreeStore.TreeStore.HandleContainerDrop | src/FolderTree.tsx:127-130 | a drop already handled by a nested row changes nothing; any other drop moves to the root |
| FolderTreeStore.TreeStore.HandleAddFolder | src/FolderTree.tsx:133-142 | with a fresh id, leaves AddFolder of the old forest and keeps ids unique |
| FolderTreeStore.TreeStore.HandleAddFile | src/FolderTree.tsx:144-151 | with a fresh id, leaves AddFile of the old forest and keeps ids unique |
| FolderTreeStore.TreeStore.HandleRenameItem | src/FolderTree.tsx:153-166 | leaves Rename of the old forest and keeps ids unique |
| FolderTreeStore.TreeStore.HandleToggleItem | src/FolderTree.tsx:168-181 | leaves Toggle of the old forest and keeps ids unique |
| FolderTreeStore.TreeStore.HandleDeleteItem | src/FolderTree.tsx:183-193 | an unconfirmed delete changes nothing; a confirmed one leaves Delete of the old forest; ids stay unique |
| FolderItem.Classify | src/FolderItem.tsx:62-69 | inside exactly when the offset is past 20 and the target is a folder; otherwise before exactly when above the midpoint |
| FolderItem.OnDrop | src/FolderItem.tsx:56-71 | a move is issued exactly when the row is mounted, the item is not dropped on itself, and an offset is known; it names the dragged item, the target and the classified position |
| FolderItem.FileNeverInside | src/FolderItem.tsx:65 | a file target is never classified as inside |
| FolderItem.HalvesSplitAtMidpoint | src/FolderItem.tsx:68 | outside the inside band, the exact midpoint counts as after, and moving down never turns after into before |
| FolderItem.TrimStart | src/FolderItem.tsx:92 | drops exactly the leading white space |
| FolderItem.TrimEnd | src/FolderItem.tsx:92 | drops exactly the trailing white space |
| FolderItem.Trim | src/FolderItem.tsx:92 | no contract of its own; `TrimStart`, `TrimEnd` and `TrimBlank` state what it keeps |
| FolderItem.TrimBlank | src/FolderItem.tsx:92 | a name trims to nothing exactly when all its characters are white space |
| FolderItem.CommitName | src/FolderItem.tsx:90-93 | a blank edit commits the kind's default, any other edit commits the text untrimmed; never empty |
| FolderItem.Label | src/FolderItem.tsx:145 | the label is the name, or the kind's default when the name is empty; never empty |
| FolderItem.CommitRenames | src/FolderItem.tsx:92 | with unique ids, committing an edit of any node renames exactly that node to the committed name |
| FolderItem.ItemEditor.constructor | src/FolderItem.tsx:33-34 | a row starts editing exactly when its name is empty, with its name as the edit text |
| FolderItem.ItemEditor.StartEditing | src/FolderItem.tsx:144-152 | enters edit mode and keeps the edit text |
| FolderItem.ItemEditor.Change | src/FolderItem.tsx:138 | the edit text becomes the input's value |
| FolderItem.ItemEditor.FinishEditing | src/FolderItem.tsx:90-93 | leaves edit mode and requests a rename to the committed name |
| FolderItem.ItemEditor.KeyDown | src/FolderItem.tsx:82-88 | Enter commits; Escape leaves edit mode, restores the name and requests nothing; other keys change nothing |

## Left out

- Rendering, JSX, CSS classes, icons and framer-motion animation: these are presentation only.
- react-dnd: `useDrag`, `useDrop`, `monitor.didDrop`, `getClientOffset` and `getBoundingClientRect` are foreign library calls. Their results are parameters: the offset and the bounding box are `Option` values, and `didDrop` is a boolean. A row's drop callback does not check `didDrop`, and react-dnd also runs the drop callback of every ancestor row under the cursor. Each of those callbacks issues its own move, classified against its own row's box. That fan-out is not modelled: `OnDrop` models one callback.
- `window.confirm` is user I/O. The user's answer is the `confirmed` parameter of `HandleDeleteItem`.
- `uuidv4` is randomness. The new id is a parameter, and the add handlers require it to be fresh.
- `useState`/`setItems`: the state becomes the `items` field of `TreeStore`. A functional update `prev => …` is the same as an update of the current field, because the handlers run one after another.
- The `useEffect` that focuses the input is browser focus handling, with no effect on the data.
- src/App.tsx is not part of this model. It only wires the drag-and-drop provider.
- Floating point: offsets, the box height and the 20-pixel threshold are reals, so rounding of JavaScript numbers is not modelled.
- A file with children: the item type allows `children` on a file, but the code never creates one and never looks into one. The `File` constructor has no children, so such a file cannot be represented.
- FolderTree.DetachNested: its contract states only that the root list keeps its length and ids. Its effect below the roots is shown by `GuardFiresOnDuplicate` alone, because only the guard branch lets that effect survive, and only duplicate ids reach that branch.
- The in-place `item.children = …` of removeItemFromTree is modelled by value. On the committing paths the live forest is replaced. When nothing matches, the reassigned children equal the old ones. So only the guard branch shows it (`DetachNested`).
- Whether the input's blur event fires again when Enter or Escape unmounts it is browser and React behaviour. Each event is a separate method call, and a second `finishEditing` from such a blur is not modelled.
- A closure reading a stale `tempName`: the model reads the current state, as the component does after each re-render.
