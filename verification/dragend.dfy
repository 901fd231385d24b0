/**
 `handleDragEnd` as a state transition: the drop result the drag-and-drop
 library reports, applied to the client's mirror. The network request the
 handler then issues is not part of the transition; `Echo` describes the
 broadcast the server sends back for it, so that the round trip can be stated.
 */
module DragEnd {
  import opened Wrappers
  import opened Types
  import opened Splice
  import opened ItemDrop
  import opened FolderDrop
  import opened Broadcast

  /** A droppable id and an index within it. */
  datatype Location = Location(droppableId: string, index: int)

  /** What the library passes to `onDragEnd`; `kind` is its `type` field. */
  datatype DropResult = DropResult(draggableId: Id, kind: string, source: Location, destination: Option<Location>)

  const ItemType: string := "ITEM"
  const FolderType: string := "FOLDER"

  /** An item dropped, found in the mirror, into the group it came from. */
  predicate SameGroupDrop(s: State, e: DropResult)
  {
    && e.destination.Some?
    && e.kind == ItemType
    && FindItem(s.items, e.draggableId).Some?
    && e.source.droppableId == e.destination.value.droppableId
  }

  /** An item dropped, found in the mirror, into a group other than the one it came from. */
  predicate CrossGroupDrop(s: State, e: DropResult)
  {
    && e.destination.Some?
    && e.kind == ItemType
    && FindItem(s.items, e.draggableId).Some?
    && e.source.droppableId != e.destination.value.droppableId
  }

  /** A folder dropped onto the folder list. */
  predicate FolderListDrop(e: DropResult)
  {
    e.destination.Some? && e.kind == FolderType && e.destination.value.droppableId == FoldersList
  }

  /**
   What the library guarantees about the indices of the drops that use them:
   both lie within the list they index. For an item they index the filtered
   group; for a folder, the folder array.
   */
  predicate IndicesInRange(s: State, e: DropResult)
  {
    && (SameGroupDrop(s, e) ==>
          0 <= e.source.index < |GroupMembers(s.items, e.source.droppableId)| &&
          0 <= e.destination.value.index < |GroupMembers(s.items, e.source.droppableId)|)
    && (FolderListDrop(e) ==>
          0 <= e.source.index < |s.folders| && 0 <= e.destination.value.index < |s.folders|)
  }

  /**
   The drop handler. A drop outside any list, an item the mirror does not hold,
   a folder dropped elsewhere than the folder list, and any other `type` leave
   the state as it was. An item drop never adds, removes or moves entries of the
   item array, keeps every entry's id, and (ids being unique) changes at most an
   entry's `folderId` and `order`; it leaves the folders alone, and a folder
   drop leaves the items alone.
   */
  function HandleDragEnd(s: State, e: DropResult): (r: State)
    requires IndicesInRange(s, e)
    ensures e.destination.None? ==> r == s
    ensures e.kind == ItemType && !HasKey(s.items, ItemKey, e.draggableId) ==> r == s
    ensures e.kind != ItemType && !FolderListDrop(e) ==> r == s
    ensures e.kind != ItemType ==> r.items == s.items
    ensures !FolderListDrop(e) ==> r.folders == s.folders
    ensures |r.items| == |s.items|
    ensures forall k :: 0 <= k < |s.items| ==> r.items[k].id == s.items[k].id
    ensures UniqueKeys(s.items, ItemKey) ==>
              forall k :: 0 <= k < |s.items| ==>
                r.items[k] == s.items[k].(folderId := r.items[k].folderId, order := r.items[k].order)
    ensures |r.folders| == |s.folders|
  {
    if e.destination.None? then s
    else if e.kind == ItemType then
      if FindItem(s.items, e.draggableId).None? then s
      else if e.source.droppableId == e.destination.value.droppableId then
        s.(items := ReorderWithinGroup(s.items, e.source.droppableId, e.source.index, e.destination.value.index))
      else
        s.(items := MoveToGroup(s.items, e.draggableId, e.destination.value.droppableId))
    else if e.kind == FolderType && e.destination.value.droppableId == FoldersList then
      s.(folders := ReorderFolders(s.folders, e.source.index, e.destination.value.index))
    else s
  }

  /**
   A same-group drop reported consistently (the item at `source.index` of the
   filtered group is the dragged one), with unique ids: the dragged item gets
   `order == destination.index`, the group is numbered 0..n-1 with each number
   once, members of other groups and all folders are untouched.
   */
  lemma SameGroupDropRenumbers(s: State, e: DropResult)
    requires IndicesInRange(s, e) && SameGroupDrop(s, e)
    requires UniqueKeys(s.items, ItemKey)
    requires GroupMembers(s.items, e.source.droppableId)[e.source.index].id == e.draggableId
    ensures var r := HandleDragEnd(s, e);
            var g := e.source.droppableId;
            && r.folders == s.folders
            && (forall k :: 0 <= k < |s.items| && s.items[k].id == e.draggableId ==> r.items[k].order == e.destination.value.index)
            && (forall k :: 0 <= k < |s.items| && !InGroup(s.items[k], g) ==> r.items[k] == s.items[k])
            && GroupOrders(s.items, g, r.items) == Upto(|GroupMembers(s.items, g)|)
  {
    var g := e.source.droppableId;
    DraggedLandsAtDestination(s.items, g, e.source.index, e.destination.value.index);
    ReorderNumbersGroupOnce(s.items, g, e.source.index, e.destination.value.index);
  }

  /**
   A cross-group drop with unique ids rewrites only the dragged item, only its
   `folderId` (null for the ungrouped bucket, the folder id otherwise); its
   `order` is kept and no group is renumbered.
   */
  lemma CrossGroupDropOnlyMovesItem(s: State, e: DropResult)
    requires IndicesInRange(s, e) && CrossGroupDrop(s, e)
    requires UniqueKeys(s.items, ItemKey)
    ensures var r := HandleDragEnd(s, e);
            && r.folders == s.folders
            && (forall k :: 0 <= k < |s.items| && s.items[k].id != e.draggableId ==> r.items[k] == s.items[k])
            && (forall k :: 0 <= k < |s.items| && s.items[k].id == e.draggableId ==>
                  r.items[k] == s.items[k].(folderId := NewFolderId(e.destination.value.droppableId)))
  {
  }

  /**
   The broadcast the server sends back for the request a drop issues, assuming
   the server's documents agree with the mirror: the `reordered` payload of a
   same-group or folder drop (with only the list it sent), or the `itemUpdated`
   document of a cross-group move. Drops that issue no request have no echo.
   */
  function Echo(s: State, e: DropResult): (r: Option<Event>)
    requires IndicesInRange(s, e)
    ensures r.None? <==> !SameGroupDrop(s, e) && !CrossGroupDrop(s, e) && !FolderListDrop(e)
    ensures SameGroupDrop(s, e) ==> r.Some? && r.value.Reordered? && r.value.items.Some? && r.value.folders.None?
    ensures FolderListDrop(e) ==> r.Some? && r.value.Reordered? && r.value.items.None? && r.value.folders.Some?
    ensures CrossGroupDrop(s, e) ==> r.Some? && r.value.ItemUpdated? && r.value.item.id == e.draggableId
  {
    if SameGroupDrop(s, e) then Some(Reordered(Some(HandleDragEnd(s, e).items), None))
    else if CrossGroupDrop(s, e) then
      var dragged := FindItem(s.items, e.draggableId).value;
      Some(ItemUpdated(dragged.(folderId := NewFolderId(e.destination.value.droppableId))))
    else if FolderListDrop(e) then Some(Reordered(None, Some(HandleDragEnd(s, e).folders)))
    else None
  }

  /**
   The originating client also receives the broadcast of its own drop; applying
   it to the optimistically updated state changes nothing.
   */
  lemma EchoIsAbsorbed(s: State, e: DropResult)
    requires IndicesInRange(s, e)
    requires Echo(s, e).Some?
    ensures Apply(HandleDragEnd(s, e), Echo(s, e).value) == HandleDragEnd(s, e)
  {
    if CrossGroupDrop(s, e) {
      var dragged := FindItem(s.items, e.draggableId).value;
      var updated := dragged.(folderId := NewFolderId(e.destination.value.droppableId));
      ReplaceIdempotent(s.items, updated, ItemKey);
    }
  }

  /**
   Two folders F1 (order 0) and F2 (order 1); F2 dragged to index 0 yields F2
   with order 0 followed by F1 with order 1.
   */
  lemma FolderSwapExample(f1: Folder, f2: Folder)
    requires f1.order == 0 && f2.order == 1
    ensures var e := DropResult(f2.id, FolderType, Location(FoldersList, 1), Some(Location(FoldersList, 0)));
            HandleDragEnd(State([], [f1, f2]), e).folders == [f2.(order := 0), f1.(order := 1)]
  {
    var e := DropResult(f2.id, FolderType, Location(FoldersList, 1), Some(Location(FoldersList, 0)));
    FolderDropReorders(State([], [f1, f2]), e);
    SecondFolderToFront(f1, f2);
  }

  /** A folder dropped onto the folder list takes the folder branch of the handler. */
  lemma FolderDropReorders(s: State, e: DropResult)
    requires IndicesInRange(s, e) && FolderListDrop(e) && e.kind == FolderType
    ensures HandleDragEnd(s, e).folders == ReorderFolders(s.folders, e.source.index, e.destination.value.index)
  {
  }

  /** Moving the second of two folders to the front swaps them and renumbers both. */
  lemma SecondFolderToFront(f1: Folder, f2: Folder)
    ensures ReorderFolders([f1, f2], 1, 0) == [f2.(order := 0), f1.(order := 1)]
  {
    var r := ReorderFolders([f1, f2], 1, 0);
    assert r[0] == f2.(order := 0) && r[1] == f1.(order := 1);
  }

  /**
   An ungrouped item I1 with order 0 dragged into an empty folder F1 gets
   `folderId` F1 and keeps order 0.
   */
  lemma MoveIntoEmptyFolderExample(i1: Item, f1: Folder)
    requires i1.folderId == None && i1.order == 0 && f1.id != UngroupedItems
    ensures var e := DropResult(i1.id, ItemType, Location(UngroupedItems, 0), Some(Location(f1.id, 0)));
            HandleDragEnd(State([i1], [f1]), e).items == [i1.(folderId := Some(f1.id))]
  {
    assert ItemKey([i1][0]) == i1.id;
  }
}
