/**
 Dropping an item (`handleDragEnd` with type "ITEM"). A drop inside the group
 it came from reorders that group and renumbers it 0..n-1; a drop into another
 group only rewrites the item's `folderId`.

 A group is named by a droppable id: a folder's id, or the reserved sentinel
 "UNGROUPED_ITEMS" for the bucket of items whose `folderId` is null.
 */
module ItemDrop {
  import opened Wrappers
  import opened Types
  import opened Splice

  /** The droppable id of the ungrouped bucket. */
  const UngroupedItems: string := "UNGROUPED_ITEMS"

  /**
   Membership test of the handler, literally: the sentinel selects items with a
   null `folderId`, and any id (the sentinel included) selects items whose
   `folderId` equals it.
   */
  predicate InGroup(item: Item, group: string)
    ensures item.folderId == NewFolderId(group) ==> InGroup(item, group)
    ensures item.folderId.None? ==> (InGroup(item, group) <==> group == UngroupedItems)
    ensures group != UngroupedItems ==> (InGroup(item, group) <==> item.folderId == Some(group))
  {
    (group == UngroupedItems && item.folderId == None) || item.folderId == Some(group)
  }

  /** `items.filter(item => InGroup(item, group))`: the group in array order. */
  function GroupMembers(items: seq<Item>, group: string): (r: seq<Item>)
    ensures |r| <= |items|
    ensures forall k :: 0 <= k < |r| ==> r[k] in items && InGroup(r[k], group)
    ensures forall k :: 0 <= k < |items| && InGroup(items[k], group) ==> items[k] in r
  {
    if |items| == 0 then []
    else
      assert items == [items[0]] + items[1..];
      var rest := GroupMembers(items[1..], group);
      if InGroup(items[0], group) then [items[0]] + rest else rest
  }

  /** One step of the filter: the head is kept exactly when it belongs to the group. */
  lemma GroupMembersUnfold(items: seq<Item>, group: string)
    requires |items| > 0
    ensures GroupMembers(items, group) ==
              if InGroup(items[0], group) then [items[0]] + GroupMembers(items[1..], group)
              else GroupMembers(items[1..], group)
  {
  }

  /** Filtering distributes over concatenation. */
  lemma {:induction false} GroupMembersAppend(a: seq<Item>, b: seq<Item>, group: string)
    ensures GroupMembers(a + b, group) == GroupMembers(a, group) + GroupMembers(b, group)
  {
    if |a| > 0 {
      var ab := a + b;
      assert ab[0] == a[0];
      assert ab[1..] == a[1..] + b;
      GroupMembersAppend(a[1..], b, group);
      GroupMembersUnfold(ab, group);
      GroupMembersUnfold(a, group);
      if InGroup(a[0], group) {
        calc {
          GroupMembers(ab, group);
          [a[0]] + GroupMembers(a[1..] + b, group);
          [a[0]] + (GroupMembers(a[1..], group) + GroupMembers(b, group));
          ([a[0]] + GroupMembers(a[1..], group)) + GroupMembers(b, group);
        }
      }
    } else {
      assert a + b == b;
    }
  }

  /** A group taken from items with unique ids has unique ids. */
  lemma {:induction false} GroupMembersUnique(items: seq<Item>, group: string)
    requires UniqueKeys(items, ItemKey)
    ensures UniqueKeys(GroupMembers(items, group), ItemKey)
  {
    if |items| > 0 {
      var tail := items[1..];
      assert UniqueKeys(tail, ItemKey);
      GroupMembersUnique(tail, group);
      var rest := GroupMembers(tail, group);
      forall j | 0 <= j < |rest|
        ensures rest[j].id != items[0].id
      {
        assert rest[j] in tail;
        var p :| 0 <= p < |tail| && tail[p] == rest[j];
        assert items[p + 1] == rest[j];
      }
    }
  }

  /**
   A member of the group sits in the filtered array at the index equal to the
   number of group members before it in the item array.
   */
  lemma RankOfMember(items: seq<Item>, group: string, k: nat)
    requires k < |items| && InGroup(items[k], group)
    ensures |GroupMembers(items[..k], group)| < |GroupMembers(items, group)|
    ensures GroupMembers(items, group)[|GroupMembers(items[..k], group)|] == items[k]
  {
    assert items == items[..k] + items[k..];
    GroupMembersAppend(items[..k], items[k..], group);
    assert items[k..] == [items[k]] + items[k + 1..];
    assert GroupMembers(items[k..], group) == [items[k]] + GroupMembers(items[k + 1..], group);
  }

  /** A later member of the group has a strictly larger index in the filtered array. */
  lemma RankMonotone(items: seq<Item>, group: string, k1: nat, k2: nat)
    requires k1 < k2 <= |items| && InGroup(items[k1], group)
    ensures |GroupMembers(items[..k1], group)| < |GroupMembers(items[..k2], group)|
  {
    assert items[..k2] == items[..k1] + items[k1..k2];
    GroupMembersAppend(items[..k1], items[k1..k2], group);
    assert items[k1] in items[k1..k2];
    assert items[k1] in GroupMembers(items[k1..k2], group);
  }

  /** The `folderId` a drop into `destination` assigns: null for the ungrouped bucket. */
  function NewFolderId(destination: string): (r: Option<Id>)
    ensures r.None? <==> destination == UngroupedItems
    ensures r.Some? ==> r.value == destination
  {
    if destination == UngroupedItems then None else Some(destination)
  }

  /** `items.find(item => item._id === id)`: the first item carrying `id`, if any. */
  function FindItem(items: seq<Item>, id: Id): (r: Option<Item>)
    ensures r.Some? <==> HasKey(items, ItemKey, id)
    ensures r.Some? ==> r.value in items && r.value.id == id
    ensures r.Some? ==> exists k :: 0 <= k < |items| && items[k] == r.value && forall j :: 0 <= j < k ==> items[j].id != id
    ensures UniqueKeys(items, ItemKey) ==> forall k :: 0 <= k < |items| && items[k].id == id ==> r == Some(items[k])
  {
    var k := FindIndex(items, ItemKey, id);
    if k < 0 then None
    else
      assert forall j :: 0 <= j < |items| && items[j].id == id && UniqueKeys(items, ItemKey) ==> j == k;
      Some(items[k])
  }

  /** A group member's new `order`: its index (`findIndex` by id) in the rearranged group. */
  function Relabel(item: Item, group: string, arranged: seq<Item>): (r: Item)
    ensures r == item.(order := r.order)
    ensures !InGroup(item, group) ==> r == item
    ensures InGroup(item, group) ==> (r.order == -1 <==> !HasKey(arranged, ItemKey, item.id))
  {
    if InGroup(item, group) then item.(order := FindIndex(arranged, ItemKey, item.id)) else item
  }

  /** The `items.map` that gives each member of `group` its index in `arranged`. */
  function Renumber(items: seq<Item>, group: string, arranged: seq<Item>): (r: seq<Item>)
    ensures |r| == |items|
    ensures forall k :: 0 <= k < |items| ==> r[k] == items[k].(order := r[k].order)
    ensures forall k :: 0 <= k < |items| && !InGroup(items[k], group) ==> r[k] == items[k]
  {
    seq(|items|, k requires 0 <= k < |items| => Relabel(items[k], group, arranged))
  }

  /**
   Renumbering by a rearrangement of the group gives every member an order in
   0..n-1, namely a position of the rearranged group that holds its id.
   */
  lemma RenumberInRange(items: seq<Item>, group: string, arranged: seq<Item>)
    requires multiset(arranged) == multiset(GroupMembers(items, group))
    ensures forall k :: 0 <= k < |items| && InGroup(items[k], group) ==>
              0 <= Renumber(items, group, arranged)[k].order < |arranged| &&
              arranged[Renumber(items, group, arranged)[k].order].id == items[k].id
  {
    forall k | 0 <= k < |items| && InGroup(items[k], group)
      ensures 0 <= FindIndex(arranged, ItemKey, items[k].id)
    {
      assert items[k] in GroupMembers(items, group);
      assert items[k] in multiset(arranged);
      var p :| 0 <= p < |arranged| && arranged[p] == items[k];
      assert HasKey(arranged, ItemKey, items[k].id);
    }
  }

  /**
   A drop inside the group it started from (`source.droppableId ==
   destination.droppableId`): the filtered group has its element at `from`
   moved to `to`, and each member's `order` becomes its new index.
   Only `order` changes, only for members of the group, and every member ends up
   numbered by a position of the rearranged group that holds its id.
   */
  function ReorderWithinGroup(items: seq<Item>, group: string, from: int, to: int): (r: seq<Item>)
    requires 0 <= from < |GroupMembers(items, group)|
    requires 0 <= to < |GroupMembers(items, group)|
    ensures |r| == |items|
    ensures forall k :: 0 <= k < |items| ==> r[k] == items[k].(order := r[k].order)
    ensures forall k :: 0 <= k < |items| && !InGroup(items[k], group) ==> r[k] == items[k]
    ensures forall k :: 0 <= k < |items| && InGroup(items[k], group) ==>
              0 <= r[k].order < |GroupMembers(items, group)| &&
              Move(GroupMembers(items, group), from, to)[r[k].order].id == items[k].id
  {
    var arranged := Move(GroupMembers(items, group), from, to);
    RenumberInRange(items, group, arranged);
    Renumber(items, group, arranged)
  }

  /** The index of `items[k]` in the filtered group, when it is a member. */
  lemma RenumberedAtUniquePosition(items: seq<Item>, group: string, arranged: seq<Item>, k: nat, p: nat)
    requires UniqueKeys(arranged, ItemKey)
    requires k < |items| && InGroup(items[k], group)
    requires p < |arranged| && arranged[p].id == items[k].id
    ensures Renumber(items, group, arranged)[k].order == p
  {
    FindIndexOfUnique(arranged, ItemKey, p);
  }

  /** The numbers 0..n-1. */
  ghost function Upto(n: nat): (r: set<int>)
    ensures forall o :: o in r <==> 0 <= o < n
  {
    if n == 0 then {} else Upto(n - 1) + {n - 1}
  }

  /** The `order` values a result gives to the members of `group`. */
  ghost function GroupOrders(items: seq<Item>, group: string, r: seq<Item>): set<int>
    requires |r| == |items|
  {
    set k | 0 <= k < |items| && InGroup(items[k], group) :: r[k].order
  }

  /**
   With unique ids, a same-group drop gives distinct members of the group
   distinct numbers.
   */
  lemma ReorderNumbersDistinct(items: seq<Item>, group: string, from: int, to: int)
    requires UniqueKeys(items, ItemKey)
    requires 0 <= from < |GroupMembers(items, group)|
    requires 0 <= to < |GroupMembers(items, group)|
    ensures var r := ReorderWithinGroup(items, group, from, to);
            forall k1, k2 :: (0 <= k1 < |items| && 0 <= k2 < |items| && k1 != k2 &&
                              InGroup(items[k1], group) && InGroup(items[k2], group)) ==> r[k1].order != r[k2].order
  {
  }

  /**
   With unique ids, the numbers a same-group drop gives the members of the
   group are exactly 0..n-1, n the size of the group.
   */
  lemma ReorderNumbersGroupOnce(items: seq<Item>, group: string, from: int, to: int)
    requires UniqueKeys(items, ItemKey)
    requires 0 <= from < |GroupMembers(items, group)|
    requires 0 <= to < |GroupMembers(items, group)|
    ensures var r := ReorderWithinGroup(items, group, from, to);
            GroupOrders(items, group, r) == Upto(|GroupMembers(items, group)|)
  {
    GroupOrdersInRange(items, group, from, to);
    EveryNumberUsed(items, group, from, to);
  }

  /** Every number a same-group drop hands out lies in 0..n-1. */
  lemma GroupOrdersInRange(items: seq<Item>, group: string, from: int, to: int)
    requires 0 <= from < |GroupMembers(items, group)|
    requires 0 <= to < |GroupMembers(items, group)|
    ensures GroupOrders(items, group, ReorderWithinGroup(items, group, from, to)) <= Upto(|GroupMembers(items, group)|)
  {
    OrdersBelow(items, group, ReorderWithinGroup(items, group, from, to), |GroupMembers(items, group)|);
  }

  /** Numbers that all lie below `n` make a subset of 0..n-1. */
  lemma OrdersBelow(items: seq<Item>, group: string, r: seq<Item>, n: nat)
    requires |r| == |items|
    requires forall k :: 0 <= k < |items| && InGroup(items[k], group) ==> 0 <= r[k].order < n
    ensures GroupOrders(items, group, r) <= Upto(n)
  {
    forall o | o in GroupOrders(items, group, r)
      ensures o in Upto(n)
    {
      var k :| 0 <= k < |items| && InGroup(items[k], group) && r[k].order == o;
    }
  }

  /** With unique ids, every number in 0..n-1 is handed out by a same-group drop. */
  lemma EveryNumberUsed(items: seq<Item>, group: string, from: int, to: int)
    requires UniqueKeys(items, ItemKey)
    requires 0 <= from < |GroupMembers(items, group)|
    requires 0 <= to < |GroupMembers(items, group)|
    ensures Upto(|GroupMembers(items, group)|) <= GroupOrders(items, group, ReorderWithinGroup(items, group, from, to))
  {
    var g := GroupMembers(items, group);
    var arranged := Move(g, from, to);
    GroupMembersUnique(items, group);
    MoveKeepsKeysUnique(g, ItemKey, from, to);
    forall o | o in Upto(|g|)
      ensures o in GroupOrders(items, group, Renumber(items, group, arranged))
    {
      EveryNumberTaken(items, group, arranged, o);
    }
  }

  /** Every index of a rearrangement of the group is the new number of some member. */
  lemma EveryNumberTaken(items: seq<Item>, group: string, arranged: seq<Item>, o: nat)
    requires UniqueKeys(arranged, ItemKey)
    requires multiset(arranged) == multiset(GroupMembers(items, group))
    requires o < |arranged|
    ensures o in GroupOrders(items, group, Renumber(items, group, arranged))
  {
    assert arranged[o] in multiset(GroupMembers(items, group));
    assert arranged[o] in items;
    var k :| 0 <= k < |items| && items[k] == arranged[o];
    RenumberedAtUniquePosition(items, group, arranged, k, o);
  }

  /**
   With unique ids, the item that was at index `from` of the filtered group
   (the dragged one, in a drop the library reports consistently) gets
   `order == to`.
   */
  lemma DraggedLandsAtDestination(items: seq<Item>, group: string, from: int, to: int)
    requires UniqueKeys(items, ItemKey)
    requires 0 <= from < |GroupMembers(items, group)|
    requires 0 <= to < |GroupMembers(items, group)|
    ensures var r := ReorderWithinGroup(items, group, from, to);
            forall k :: 0 <= k < |items| && items[k].id == GroupMembers(items, group)[from].id ==> r[k].order == to
  {
    var g := GroupMembers(items, group);
    var arranged := Move(g, from, to);
    GroupMembersUnique(items, group);
    MoveKeepsKeysUnique(g, ItemKey, from, to);
    forall k | 0 <= k < |items| && items[k].id == g[from].id
      ensures ReorderWithinGroup(items, group, from, to)[k].order == to
    {
      assert g[from] in items;
      var j :| 0 <= j < |items| && items[j] == g[from];
      assert j == k;
      RenumberedAtUniquePosition(items, group, arranged, k, to);
    }
  }

  /**
   With unique ids, the members other than the dragged one keep their relative
   order: of two such members, the earlier one in the item array gets the
   smaller number.
   */
  lemma OthersKeepRelativeOrder(items: seq<Item>, group: string, from: int, to: int)
    requires UniqueKeys(items, ItemKey)
    requires 0 <= from < |GroupMembers(items, group)|
    requires 0 <= to < |GroupMembers(items, group)|
    ensures var r := ReorderWithinGroup(items, group, from, to);
            var dragged := GroupMembers(items, group)[from].id;
            forall k1, k2 :: (0 <= k1 < k2 < |items| &&
                              InGroup(items[k1], group) && InGroup(items[k2], group) &&
                              items[k1].id != dragged && items[k2].id != dragged) ==> r[k1].order < r[k2].order
  {
    var g := GroupMembers(items, group);
    forall k1, k2 | 0 <= k1 < k2 < |items| &&
                    InGroup(items[k1], group) && InGroup(items[k2], group) &&
                    items[k1].id != g[from].id && items[k2].id != g[from].id
      ensures ReorderWithinGroup(items, group, from, to)[k1].order < ReorderWithinGroup(items, group, from, to)[k2].order
    {
      PairKeepsRelativeOrder(items, group, from, to, k1, k2);
    }
  }

  lemma PairKeepsRelativeOrder(items: seq<Item>, group: string, from: int, to: int, k1: nat, k2: nat)
    requires UniqueKeys(items, ItemKey)
    requires 0 <= from < |GroupMembers(items, group)|
    requires 0 <= to < |GroupMembers(items, group)|
    requires k1 < k2 < |items| && InGroup(items[k1], group) && InGroup(items[k2], group)
    requires items[k1].id != GroupMembers(items, group)[from].id && items[k2].id != GroupMembers(items, group)[from].id
    ensures ReorderWithinGroup(items, group, from, to)[k1].order < ReorderWithinGroup(items, group, from, to)[k2].order
  {
    var r := ReorderWithinGroup(items, group, from, to);
    var rank1 := |GroupMembers(items[..k1], group)|;
    var rank2 := |GroupMembers(items[..k2], group)|;
    NumberTracesBackToRank(items, group, from, to, k1);
    NumberTracesBackToRank(items, group, from, to, k2);
    assert MoveSource(from, to, r[k1].order) == rank1;
    assert MoveSource(from, to, r[k2].order) == rank2;
    RankMonotone(items, group, k1, k2);
    MoveSourceReflects(from, to, r[k1].order, r[k2].order);
  }

  /**
   The number a non-dragged member receives is the index that the move sends
   back to its original index in the filtered group.
   */
  lemma NumberTracesBackToRank(items: seq<Item>, group: string, from: int, to: int, k: nat)
    requires UniqueKeys(items, ItemKey)
    requires 0 <= from < |GroupMembers(items, group)|
    requires 0 <= to < |GroupMembers(items, group)|
    requires k < |items| && InGroup(items[k], group) && items[k].id != GroupMembers(items, group)[from].id
    ensures var o := ReorderWithinGroup(items, group, from, to)[k].order;
            o != to && 0 <= o && MoveSource(from, to, o) == |GroupMembers(items[..k], group)|
  {
    var g := GroupMembers(items, group);
    var o := ReorderWithinGroup(items, group, from, to)[k].order;
    GroupMembersUnique(items, group);
    RankOfMember(items, group, k);
    assert g[MoveSource(from, to, o)].id == g[|GroupMembers(items[..k], group)|].id;
  }

  /**
   Dropping a member back onto its own index, in a group already numbered by
   its filtered positions, leaves the items exactly as they were.
   */
  lemma DropInPlaceKeepsNumberedGroup(items: seq<Item>, group: string, i: int)
    requires UniqueKeys(items, ItemKey)
    requires 0 <= i < |GroupMembers(items, group)|
    requires forall p :: 0 <= p < |GroupMembers(items, group)| ==> GroupMembers(items, group)[p].order == p
    ensures ReorderWithinGroup(items, group, i, i) == items
  {
    var g := GroupMembers(items, group);
    var r := ReorderWithinGroup(items, group, i, i);
    MoveInPlace(g, i);
    GroupMembersUnique(items, group);
    forall k | 0 <= k < |items|
      ensures r[k] == items[k]
    {
      if InGroup(items[k], group) {
        RankOfMember(items, group, k);
        RenumberedAtUniquePosition(items, group, g, k, |GroupMembers(items[..k], group)|);
      }
    }
  }

  /**
   A drop into a different group: the item found under `draggableId` is copied
   with its `folderId` rewritten, and every entry carrying that id is replaced
   by the copy. Its `order` is kept, and neither group is renumbered.
   */
  function MoveToGroup(items: seq<Item>, draggableId: Id, destination: string): (r: seq<Item>)
    requires FindItem(items, draggableId).Some?
    ensures |r| == |items|
    ensures forall k :: 0 <= k < |items| ==> r[k].id == items[k].id
    ensures forall k :: 0 <= k < |items| && items[k].id != draggableId ==> r[k] == items[k]
    ensures forall k :: 0 <= k < |items| && items[k].id == draggableId ==> r[k].folderId == NewFolderId(destination)
    ensures UniqueKeys(items, ItemKey) ==>
              forall k :: 0 <= k < |items| && items[k].id == draggableId ==>
                r[k] == items[k].(folderId := NewFolderId(destination))
  {
    var dragged := FindItem(items, draggableId).value;
    ReplaceByKey(items, dragged.(folderId := NewFolderId(destination)), ItemKey)
  }

  /**
   After a move into a different group the item belongs to the destination
   group and no longer to the source group.
   */
  lemma MovedItemChangesGroup(items: seq<Item>, draggableId: Id, source: string, destination: string)
    requires FindItem(items, draggableId).Some?
    requires source != destination
    ensures var r := MoveToGroup(items, draggableId, destination);
            forall k :: 0 <= k < |items| && items[k].id == draggableId ==>
              InGroup(r[k], destination) && !InGroup(r[k], source)
  {
  }
}
