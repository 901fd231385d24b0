# Drag-and-drop folder organiser: the client's state transitions

The client keeps a mirror of two collections: items (`_id`, title, icon,
`folderId` or null, `order`) and folders (`_id`, name, `isOpen`, `order`).
It renders folders and an "ungrouped" bucket. Each group is sorted by `order`.
Two kinds of event change the mirror:

- **A drop** (`handleDragEnd`). An item dropped into the group it came from
  reorders that group and numbers it 0..n-1. An item dropped into another
  group only gets a new `folderId`. A folder dropped onto the folder list is
  moved, and the whole list is renumbered.
- **A server broadcast** (`itemAdded`, `folderAdded`, `itemUpdated`,
  `folderUpdated`, `reordered`). These append, replace by id, or overwrite
  a list.

This project writes both as pure functions on an immutable `State` and proves
properties of them:

- `Splice`: the `splice`-based move and the by-id lookup and replacement,
  generic in the element type.
- `Ordering`: the stable sort by `order` that the render applies.
- `ItemDrop`, `FolderDrop`: the two kinds of drop.
- `Broadcast`: the socket reducers.
- `DragEnd`: the handler as a whole, and the broadcast that echoes a drop back
  to the client that made it.
- `Display`: the group as the user sees it. It holds the one defect found
  (see Findings) and its correction.

`DragEnd.HandleDragEnd` follows the handler as written. In particular, a
same-group drop applies the drop indices to the group in array order.
`Display.ReorderAsShown` is the corrected same-group reorder. It is proved to
make the group render as the user's drag intended.

The code and a plain reading of the handler disagree in one place. One would
expect a same-group drop to take the *dragged item* out and put it back. The
code instead takes out whatever sits at `source.index` of the group filtered
in array order (App.tsx:177-185). The model follows the code. When the
filtered array order is the shown order, the code agrees with the correction
(`Display.AsWrittenAgreesWhileArrayIsShownOrder`). Otherwise it moves whatever
sits at `source.index` in array order, which can be an item other than the
dragged one (`Display.WrongItemMovedExample`).

Group membership follows the code literally. The droppable id
"UNGROUPED_ITEMS" selects items whose `folderId` is null. Any droppable id,
that sentinel included, selects items whose `folderId` equals it. The render
uses `folderId === null` for the ungrouped bucket. So a folder whose id was
literally "UNGROUPED_ITEMS" would be grouped differently by the handler and by
the render. Server ids never take that form.

## Model

| member | source | states |
|---|---|---|
| Splice.Remove | frontend/src/App.tsx:184 | `splice(i, 1)` removes exactly the element at `i`: earlier elements keep their index, later ones shift down by one, and the multiset loses only that element |
| Splice.Insert | frontend/src/App.tsx:185 | `splice(j, 0, x)` puts `x` at index `j`: earlier elements stay, later ones shift up by one, and the multiset gains only `x` |
| Splice.Move | frontend/src/App.tsx:184-185 | the remove-then-insert pair is a permutation: the moved element lands at `to`, and position `k` holds what was at the independently defined `MoveSource(from, to, k)`; taking the moved element out again gives the sequence without it |
| Splice.MoveSourceMonotone | frontend/src/App.tsx:184-185 | elements other than the moved one keep their relative order |
| Splice.MoveSourceReflects | frontend/src/App.tsx:184-185 | the converse: of two positions other than `to`, the one holding the earlier original element comes first |
| Splice.MoveInPlace | frontend/src/App.tsx:184-185 | dropping an element onto its own index changes nothing |
| Splice.MoveKeepsKeysUnique | frontend/src/App.tsx:184-185 | a move keeps ids unique |
| Splice.FindIndex | frontend/src/App.tsx:193 | `findIndex` by id returns the first position holding the id, and -1 exactly when no element holds it |
| Splice.FindIndexOfUnique | frontend/src/App.tsx:193 | with unique ids, looking up the id of the element at `k` gives `k` |
| Splice.ReplaceByKey | frontend/src/App.tsx:212-214 | the `map` with an id test replaces every entry carrying the id and keeps every other entry in place |
| Splice.ReplaceKeepsKeys | frontend/src/App.tsx:73-79 | a replacement by id keeps each position's id, so it keeps ids unique |
| Splice.ReplaceIdempotent | frontend/src/App.tsx:73-79 | replacing twice with the same record is the same as replacing once |
| Splice.ReplaceAbsentIsNoOp | frontend/src/App.tsx:73-79 | a replacement for an id that is not held changes nothing |
| Ordering.InsertByOrder | frontend/src/App.tsx:333 | inserting into a list sorted by `order` keeps it sorted and adds exactly that element |
| Ordering.SortByOrder | frontend/src/App.tsx:333 | the render's sort by `order` returns a sorted permutation of its input |
| Ordering.InsertByOrderStable | frontend/src/App.tsx:333 | an inserted element goes ahead of every element with the same `order`, and those keep their order |
| Ordering.SortByOrderStable | frontend/src/App.tsx:333 | the sort is stable, as JavaScript's `Array.prototype.sort` is: for every `order` value, the elements carrying it come out in the order they went in |
| Ordering.SortOfSorted | frontend/src/App.tsx:371 | sorting a list already sorted by `order` returns it unchanged |
| Ordering.UniqueKeysPermutation | frontend/src/App.tsx:333 | sorting cannot create duplicate keys: any permutation keeps keys unique |
| Ordering.ShownAtOwnOrder | frontend/src/App.tsx:440 | when a sorted group's `order` values are distinct and lie in 0..n-1, each element is shown at the index equal to its `order` |
| ItemDrop.InGroup | frontend/src/App.tsx:178-181 | the handler's membership test (repeated at 189-191): an item whose `folderId` is what a drop into the group assigns belongs to it; a null `folderId` belongs only to the ungrouped sentinel; any other group holds exactly the items whose `folderId` is its id |
| ItemDrop.GroupMembers | frontend/src/App.tsx:177-182 | the group filter keeps exactly the elements that belong to the group |
| ItemDrop.GroupMembersUnfold | frontend/src/App.tsx:177-182 | one step of the filter: the head is kept exactly when it belongs to the group |
| ItemDrop.GroupMembersAppend | frontend/src/App.tsx:177-182 | filtering distributes over concatenation |
| ItemDrop.GroupMembersUnique | frontend/src/App.tsx:177-182 | the filtered group of items with unique ids has unique ids |
| ItemDrop.RankOfMember | frontend/src/App.tsx:177-182 | a member's index in the filtered group is the number of group members before it in the item array |
| ItemDrop.RankMonotone | frontend/src/App.tsx:177-182 | a later member has a larger index in the filtered group |
| ItemDrop.NewFolderId | frontend/src/App.tsx:172-175 | the destination's `folderId` is null exactly for the ungrouped sentinel, and the droppable id otherwise |
| ItemDrop.FindItem | frontend/src/App.tsx:166-170 | `find` by id returns an item exactly when one carries the id; it returns the FIRST item carrying the id, and with unique ids the only one |
| ItemDrop.Relabel | frontend/src/App.tsx:188-196 | the `map` callback changes at most a record's `order`, and only for a group member; a member whose id is missing from the rearranged group gets -1, as `findIndex` returns |
| ItemDrop.Renumber | frontend/src/App.tsx:187-197 | the `map` keeps the array's length and positions, changes at most `order`, and leaves non-members alone |
| ItemDrop.RenumberInRange | frontend/src/App.tsx:187-197 | renumbering by a rearrangement of the group gives each member an `order` in 0..n-1, at which the rearranged group holds its id |
| ItemDrop.ReorderWithinGroup | frontend/src/App.tsx:176-199 | a same-group drop keeps the array's length and positions, changes only `order`, and changes it only for group members; each member is numbered by the index of its id in the moved group |
| ItemDrop.RenumberedAtUniquePosition | frontend/src/App.tsx:193-194 | with unique ids in the rearranged group, a member gets exactly the index where its id sits |
| ItemDrop.ReorderNumbersDistinct | frontend/src/App.tsx:187-197 | with unique ids, two members never receive the same number |
| ItemDrop.ReorderNumbersGroupOnce | frontend/src/App.tsx:187-197 | with unique ids, the group's `order` values after the drop are exactly 0..n-1 |
| ItemDrop.GroupOrdersInRange | frontend/src/App.tsx:187-197 | every number the drop hands out lies in 0..n-1 |
| ItemDrop.EveryNumberUsed | frontend/src/App.tsx:187-197 | with unique ids, every number in 0..n-1 is handed out |
| ItemDrop.EveryNumberTaken | frontend/src/App.tsx:187-197 | every index 0..n-1 of the rearranged group is some member's new `order` |
| ItemDrop.DraggedLandsAtDestination | frontend/src/App.tsx:184-195 | the element at `source.index` of the filtered group gets `order == destination.index` |
| ItemDrop.OthersKeepRelativeOrder | frontend/src/App.tsx:184-195 | the other members keep their relative order: the earlier in the array gets the smaller number |
| ItemDrop.PairKeepsRelativeOrder | frontend/src/App.tsx:184-195 | the same for one pair of members |
| ItemDrop.NumberTracesBackToRank | frontend/src/App.tsx:184-195 | a non-moved member's new number is the index that the move maps back to its old index in the filtered group |
| ItemDrop.DropInPlaceKeepsNumberedGroup | frontend/src/App.tsx:184-197 | dropping a member back on its own index, in a group already numbered by filtered position, leaves the items unchanged |
| ItemDrop.MoveToGroup | frontend/src/App.tsx:206-216 | a cross-group drop keeps every id and every entry with another id; entries with the dragged id get the destination's `folderId`; with unique ids, nothing else about the dragged item changes, `order` included |
| ItemDrop.MovedItemChangesGroup | frontend/src/App.tsx:206-214 | after a cross-group drop the dragged item belongs to the destination group and not to the source group |
| FolderDrop.ReorderFolders | frontend/src/App.tsx:232-244 | a folder drop puts the moved folder at `to`; position `k` holds the folder from `MoveSource(from, to, k)` with `order == k`, and every folder's `order` is its index |
| FolderDrop.ReorderFoldersIsPermutation | frontend/src/App.tsx:233-237 | apart from `order`, the folders after the drop are a permutation of those before, and the folders other than the moved one keep their relative order |
| FolderDrop.ReorderedFoldersShownAsIs | frontend/src/App.tsx:370-372 | the render's sort leaves the reordered folder list as it is |
| FolderDrop.DropInPlaceKeepsNumberedFolders | frontend/src/App.tsx:232-242 | dropping a folder on its own index in a list numbered 0..n-1 changes nothing |
| Broadcast.Apply | frontend/src/App.tsx:65-92 | each broadcast touches only the list it names: an add appends, an update replaces every entry with its id and keeps the rest, and a reorder overwrites each list the payload carries and keeps the others |
| Broadcast.RedeliveryIsHarmless | frontend/src/App.tsx:73-92 | updates and reorders are idempotent: a repeated delivery has the effect of one |
| Broadcast.UpdateOfUnknownIdIsIgnored | frontend/src/App.tsx:73-87 | an update for an id the client does not hold leaves the state unchanged |
| Broadcast.ApplyKeepsIdsUnique | frontend/src/App.tsx:65-92 | ids stay unique, except after an add of an id already held or a reorder payload with repeated ids |
| Broadcast.AddedItemIsFound | frontend/src/App.tsx:65-67 | after an add of a new id, looking that id up finds the added item |
| Broadcast.AddThenUpdateIsAddOfUpdate | frontend/src/App.tsx:65-79 | an add followed by an update of the same new id equals adding the updated record |
| Broadcast.FullReorderOverwrites | frontend/src/App.tsx:89-92 | a reorder carrying both lists makes everything before it irrelevant |
| DragEnd.HandleDragEnd | frontend/src/App.tsx:150-253 | no destination, an unknown item, a folder dropped elsewhere than the folder list, or another `type` leaves the state unchanged; an item drop leaves folders alone, keeps the length and ids of the items and, with unique ids, changes only `folderId` and `order`; a folder drop leaves items alone |
| DragEnd.SameGroupDropRenumbers | frontend/src/App.tsx:176-199 | a consistently reported same-group drop gives the dragged item `order == destination.index`, numbers the group 0..n-1, and touches no other group and no folder |
| DragEnd.CrossGroupDropOnlyMovesItem | frontend/src/App.tsx:206-216 | a cross-group drop rewrites only the dragged item's `folderId` and touches no folder |
| DragEnd.Echo | backend/index.ts:208-243 | a drop issues a request, and so an echo, exactly when it is a same-group, cross-group or folder-list drop; a reorder echo carries only the list sent, and a cross-group echo is an `itemUpdated` for the dragged id (backend/index.ts:146-168) |
| DragEnd.EchoIsAbsorbed | frontend/src/App.tsx:199-220 | the broadcast of one's own drop, applied to the optimistically updated state, changes nothing |
| DragEnd.FolderSwapExample | frontend/src/App.tsx:232-242 | folders F1 (order 0), F2 (order 1); dragging F2 to index 0 gives F2 with order 0, then F1 with order 1 |
| DragEnd.FolderDropReorders | frontend/src/App.tsx:227-244 | a folder dropped onto the folder list gets exactly the folder reorder |
| DragEnd.SecondFolderToFront | frontend/src/App.tsx:233-242 | moving the second of two folders to index 0 swaps them and renumbers them 0, 1 |
| DragEnd.MoveIntoEmptyFolderExample | frontend/src/App.tsx:206-214 | an ungrouped item with order 0 dragged into an empty folder gets that folder's id and keeps order 0 |
| Display.Shown | frontend/src/App.tsx:332-334 | the rendered group is a permutation of the filtered group, sorted by `order` |
| Display.RenumberCons | frontend/src/App.tsx:187-197 | the renumbering `map` works entry by entry |
| Display.GroupMembersOfRenumber | frontend/src/App.tsx:187-197 | renumbering commutes with filtering |
| Display.GroupMembersOfGroup | frontend/src/App.tsx:177-182 | filtering a group by its own id changes nothing |
| Display.RenumberedGroup | frontend/src/App.tsx:187-197 | the renumbered group has distinct numbers in 0..n-1, and each member's number is where the arrangement holds it |
| Display.ShownFollowsArrangement | frontend/src/App.tsx:436-441 | with unique ids, renumbering a group by any rearrangement of it makes the group render as that rearrangement, numbered by index |
| Display.AsWrittenFollowsArrayOrder | frontend/src/App.tsx:176-199 | as written, the group renders after the drop as the ARRAY-ordered group with element `from` moved to `to`, whatever was on screen |
| Display.ReorderAsShown | frontend/src/App.tsx:176-199 | corrected drop: only group members' `order` changes, and with unique ids the group renders as the group shown before the drop, with element `from` moved to `to` |
| Display.AsWrittenAgreesWhileArrayIsShownOrder | frontend/src/App.tsx:176-185 | while the array-ordered group equals the shown group, the code as written and the corrected drop coincide |
| Display.AsWrittenOnTwo | frontend/src/App.tsx:176-185 | as written, [a (order 1), b (order 0)] with indices 0 to 1 still shows b, a |
| Display.AsShownOnTwo | frontend/src/App.tsx:176-185 | corrected, the same drop shows a, b |
| Display.WrongItemMovedExample | frontend/src/App.tsx:176-185 | two ungrouped items stored [a (order 1), b (order 0)] are shown b, a; dragging b from index 0 to 1 leaves b, a on screen as written, and gives a, b with the correction |

## Left out

- The server, the database and the HTTP requests are left out. The drop's `axios.put` and its failure are not modelled; the optimistic state is kept whatever the request does. `DragEnd.Echo` assumes the server's documents agree with the client's mirror.
- `handleAddItem`, `handleAddFolder` and `toggleFolder` only send requests. Their effect reaches the client as a broadcast, which `Broadcast.Apply` models.
- `handleDragStart`, console logging, the initial fetch, socket subscription and unsubscription, and all rendering other than the per-group sort are left out. They are I/O or presentation.
- The interleaving of broadcasts with drops, and React's batching of state updates, are not modelled. Each event is one atomic transition.
- `order` is a JavaScript number and is modelled as an unbounded integer. Fractional and very large values do not arise from the handler.
- `DragEnd.IndicesInRange` requires the indices the drag library reports to lie within the list; what the program does otherwise is not modelled. In JavaScript a negative `splice` start counts from the end. A start past the end removes nothing, so `removed` is `undefined` and is then inserted. For items, the `findIndex` at App.tsx:193 then throws on `undefined._id` before `setItems` whenever it reaches that entry, leaving the state unchanged. For folders, the `map` at App.tsx:239-242 turns it into a record holding only `order`.
- The render sorts the folder array in place (`folders.sort`), which mutates the state array. That sort is not modelled as a state change. So the folder drop in `DragEnd.HandleDragEnd` matches the program only when `s.folders` is already sorted by `order`: the program indexes the array after the render has sorted it. `Ordering.SortOfSorted` says sorting such an array changes nothing, and `FolderDrop.ReorderedFoldersShownAsIs` says every folder drop leaves the array sorted.
- HandleDragEnd: "only `folderId` and `order` change" is stated only under unique ids. With repeated ids, a cross-group drop replaces every entry carrying the id with a copy of the first one.

## Findings

| source | as written | input that shows it | evidently intended | confidence | as-written member | corrected member |
|---|---|---|---|---|---|---|
| frontend/src/App.tsx:177-185 | the same-group drop applies the drag library's indices to the group filtered in array order; the list shows the group sorted by `order` (App.tsx:332-334, 436-441), and a reorder renumbers the group without moving array entries, so the two orders differ from the second drop on | ungrouped items stored [a (order 1), b (order 0)] are shown b, a; dragging b from index 0 to index 1 moves a onto the index it already holds, and the list still shows b, a | apply the indices to the group as shown, sorted by `order` | high, not executed | Display.WrongItemMovedExample | Display.ReorderAsShown |
