/**
 The group as the user sees it, and the drop measured against it.

 The render shows each group filtered and sorted by `order`, and the library
 reports drop indices in that shown order. The same-group drop handler applies
 them to the group filtered in ARRAY order instead. A reorder renumbers the
 group but leaves the array where it was, so from the second drop on the two
 orders can differ, and then the handler can move the wrong item. `ReorderAsShown` applies
 the indices to the shown order, and the shown group then follows the drop.
 */
module Display {
  import opened Wrappers
  import opened Types
  import opened Splice
  import opened Ordering
  import opened ItemDrop

  /** The group as rendered: filtered, then stably sorted by `order`. */
  function Shown(items: seq<Item>, group: string): (r: seq<Item>)
    ensures |r| == |GroupMembers(items, group)|
    ensures multiset(r) == multiset(GroupMembers(items, group))
    ensures SortedBy(r, ItemOrder)
  {
    SortByOrder(GroupMembers(items, group), ItemOrder)
  }

  /** The elements of `s` with `order` set to their positions. */
  function Numbered(s: seq<Item>): (r: seq<Item>)
    ensures |r| == |s|
    ensures forall k :: 0 <= k < |r| ==> r[k] == s[k].(order := k)
  {
    seq(|s|, k requires 0 <= k < |s| => s[k].(order := k))
  }

  /** Renumbering works entry by entry, so it splits at the head. */
  lemma RenumberCons(x: Item, s: seq<Item>, group: string, arranged: seq<Item>)
    ensures Renumber([x] + s, group, arranged) == [Relabel(x, group, arranged)] + Renumber(s, group, arranged)
  {
  }

  /** Renumbering commutes with filtering: members stay members and outsiders are untouched. */
  lemma {:induction false} GroupMembersOfRenumber(items: seq<Item>, group: string, arranged: seq<Item>)
    ensures GroupMembers(Renumber(items, group, arranged), group) == Renumber(GroupMembers(items, group), group, arranged)
  {
    if |items| > 0 {
      var r := Renumber(items, group, arranged);
      var rest := GroupMembers(items[1..], group);
      assert r[0] == Relabel(items[0], group, arranged);
      assert r[1..] == Renumber(items[1..], group, arranged);
      GroupMembersOfRenumber(items[1..], group, arranged);
      GroupMembersUnfold(r, group);
      GroupMembersUnfold(items, group);
      if InGroup(items[0], group) {
        calc {
          GroupMembers(r, group);
          [r[0]] + GroupMembers(r[1..], group);
          [r[0]] + Renumber(rest, group, arranged);
          { RenumberCons(items[0], rest, group, arranged); }
          Renumber([items[0]] + rest, group, arranged);
        }
      } else {
        assert !InGroup(r[0], group);
      }
    }
  }

  /** Filtering a group by its own id changes nothing. */
  lemma {:induction false} GroupMembersOfGroup(items: seq<Item>, group: string)
    ensures GroupMembers(GroupMembers(items, group), group) == GroupMembers(items, group)
  {
    if |items| > 0 {
      GroupMembersOfGroup(items[1..], group);
      var rest := GroupMembers(items[1..], group);
      if InGroup(items[0], group) {
        assert ([items[0]] + rest)[1..] == rest;
      }
    }
  }

  /**
   The facts about one renumbered member that the shown-order proof needs: its
   number `o` is a position of `arranged`, and `arranged[o]` is that member.
   */
  lemma RenumberedMember(items: seq<Item>, group: string, arranged: seq<Item>, i: nat)
    requires UniqueKeys(items, ItemKey)
    requires multiset(arranged) == multiset(GroupMembers(items, group))
    requires i < |GroupMembers(items, group)|
    ensures var g := GroupMembers(items, group);
            var h := Renumber(g, group, arranged);
            0 <= h[i].order < |arranged| && arranged[h[i].order] == g[i] && h[i] == g[i].(order := h[i].order)
  {
    var g := GroupMembers(items, group);
    GroupMembersOfGroup(items, group);
    GroupMembersUnique(items, group);
    RenumberInRange(g, group, arranged);
    assert g[i] in g;
    var o := Renumber(g, group, arranged)[i].order;
    assert arranged[o] in multiset(g);
    var j :| 0 <= j < |g| && g[j] == arranged[o];
  }

  /**
   The renumbered group: as long as `arranged`, every member numbered by the
   position of `arranged` that holds it, so no two members share a number.
   */
  lemma RenumberedGroup(items: seq<Item>, group: string, arranged: seq<Item>)
    requires UniqueKeys(items, ItemKey)
    requires multiset(arranged) == multiset(GroupMembers(items, group))
    ensures var g := GroupMembers(items, group);
            var h := Renumber(g, group, arranged);
            && |h| == |arranged|
            && UniqueKeys(h, ItemOrder)
            && forall i :: 0 <= i < |h| ==>
                 0 <= h[i].order < |h| && arranged[h[i].order] == g[i] && h[i] == g[i].(order := h[i].order)
  {
    var g := GroupMembers(items, group);
    var h := Renumber(g, group, arranged);
    assert |arranged| == |g| by {
      assert |multiset(arranged)| == |multiset(g)|;
    }
    forall i | 0 <= i < |h|
      ensures 0 <= h[i].order < |h| && arranged[h[i].order] == g[i] && h[i] == g[i].(order := h[i].order)
    {
      RenumberedMember(items, group, arranged, i);
    }
    GroupMembersUnique(items, group);
  }

  /**
   Renumbering a group (ids unique) by any rearrangement of it makes the group
   render exactly as that rearrangement, numbered by position.
   */
  lemma ShownFollowsArrangement(items: seq<Item>, group: string, arranged: seq<Item>)
    requires UniqueKeys(items, ItemKey)
    requires multiset(arranged) == multiset(GroupMembers(items, group))
    ensures Shown(Renumber(items, group, arranged), group) == Numbered(arranged)
  {
    var g := GroupMembers(items, group);
    var h := Renumber(g, group, arranged);
    GroupMembersOfRenumber(items, group, arranged);
    RenumberedGroup(items, group, arranged);
    var shown := SortByOrder(h, ItemOrder);
    UniqueKeysPermutation(h, shown, ItemOrder);
    PermutedOrdersInRange(h, shown);
    ShownAtOwnOrder(shown, ItemOrder);
    forall k | 0 <= k < |shown|
      ensures shown[k] == arranged[k].(order := k)
    {
      ShownEntry(items, group, arranged, shown, k);
    }
  }

  /** Orders that all index into `h` still do so after `h` is permuted. */
  lemma PermutedOrdersInRange(h: seq<Item>, shown: seq<Item>)
    requires multiset(shown) == multiset(h)
    requires forall i :: 0 <= i < |h| ==> 0 <= h[i].order < |h|
    ensures |shown| == |h|
    ensures forall k :: 0 <= k < |shown| ==> 0 <= shown[k].order < |shown|
  {
    assert |shown| == |multiset(shown)| == |multiset(h)| == |h|;
    forall k | 0 <= k < |shown|
      ensures 0 <= shown[k].order < |shown|
    {
      assert shown[k] in multiset(h);
    }
  }

  /** An entry of the sorted renumbered group, read back through the arrangement. */
  lemma ShownEntry(items: seq<Item>, group: string, arranged: seq<Item>, shown: seq<Item>, k: nat)
    requires UniqueKeys(items, ItemKey)
    requires multiset(arranged) == multiset(GroupMembers(items, group))
    requires multiset(shown) == multiset(Renumber(GroupMembers(items, group), group, arranged))
    requires k < |shown| && shown[k].order == k
    ensures k < |arranged| && shown[k] == arranged[k].(order := k)
  {
    var g := GroupMembers(items, group);
    var h := Renumber(g, group, arranged);
    assert shown[k] in multiset(h);
    var i :| 0 <= i < |h| && h[i] == shown[k];
    RenumberedMember(items, group, arranged, i);
  }

  /**
   The same-group drop as the code is written: the shown group afterwards is
   the ARRAY-ordered group with the element at `from` moved to `to`, whatever
   the group looked like on screen.
   */
  lemma AsWrittenFollowsArrayOrder(items: seq<Item>, group: string, from: int, to: int)
    requires UniqueKeys(items, ItemKey)
    requires 0 <= from < |GroupMembers(items, group)|
    requires 0 <= to < |GroupMembers(items, group)|
    ensures Shown(ReorderWithinGroup(items, group, from, to), group) ==
            Numbered(Move(GroupMembers(items, group), from, to))
  {
    ShownFollowsArrangement(items, group, Move(GroupMembers(items, group), from, to));
  }

  /** The shown group, moved, is a rearrangement of the group, so renumbering by it shows it. */
  lemma ShownFollowsMove(items: seq<Item>, group: string, from: int, to: int)
    requires 0 <= from < |GroupMembers(items, group)|
    requires 0 <= to < |GroupMembers(items, group)|
    ensures var arranged := Move(Shown(items, group), from, to);
            UniqueKeys(items, ItemKey) ==> Shown(Renumber(items, group, arranged), group) == Numbered(arranged)
  {
    if UniqueKeys(items, ItemKey) {
      ShownFollowsArrangement(items, group, Move(Shown(items, group), from, to));
    }
  }

  /**
   The drop with its indices read in the shown order: the shown group is moved
   and renumbered. Only `order` changes, only for members of the group, and
   (ids unique) the group renders afterwards as the shown group before, with the
   element at `from` moved to `to`.
   */
  function ReorderAsShown(items: seq<Item>, group: string, from: int, to: int): (r: seq<Item>)
    requires 0 <= from < |GroupMembers(items, group)|
    requires 0 <= to < |GroupMembers(items, group)|
    ensures |r| == |items|
    ensures forall k :: 0 <= k < |items| ==> r[k] == items[k].(order := r[k].order)
    ensures forall k :: 0 <= k < |items| && !InGroup(items[k], group) ==> r[k] == items[k]
    ensures UniqueKeys(items, ItemKey) ==>
              Shown(r, group) == Numbered(Move(Shown(items, group), from, to))
  {
    var arranged := Move(Shown(items, group), from, to);
    ShownFollowsMove(items, group, from, to);
    Renumber(items, group, arranged)
  }

  /** While the array order of the group is its shown order, the code as written is correct. */
  lemma AsWrittenAgreesWhileArrayIsShownOrder(items: seq<Item>, group: string, from: int, to: int)
    requires 0 <= from < |GroupMembers(items, group)|
    requires 0 <= to < |GroupMembers(items, group)|
    requires Shown(items, group) == GroupMembers(items, group)
    ensures ReorderWithinGroup(items, group, from, to) == ReorderAsShown(items, group, from, to)
  {
  }

  /** Both items are ungrouped, so the ungrouped bucket is the whole array. */
  lemma TwoUngroupedMembers(a: Item, b: Item)
    requires a.folderId == None && b.folderId == None
    ensures GroupMembers([a, b], UngroupedItems) == [a, b]
  {
    assert [a, b][1..] == [b];
    assert GroupMembers([b], UngroupedItems) == [b];
  }

  /** The larger `order` is shown second. */
  lemma TwoUngroupedShown(a: Item, b: Item)
    requires a.folderId == None && b.folderId == None
    requires a.order == 1 && b.order == 0
    ensures Shown([a, b], UngroupedItems) == [b, a]
  {
    TwoUngroupedMembers(a, b);
    assert [a, b][1..] == [b];
    assert SortByOrder([b], ItemOrder) == [b];
    assert InsertByOrder(a, [b], ItemOrder) == [b, a];
  }

  /** Two distinct ids. */
  lemma TwoUniqueIds(a: Item, b: Item)
    requires a.id != b.id
    ensures UniqueKeys([a, b], ItemKey)
  {
  }

  /** Moving the first of two to index 1 swaps them. */
  lemma MoveFirstOfTwo(a: Item, b: Item)
    ensures Move([a, b], 0, 1) == [b, a]
  {
  }

  /** Two items already numbered by position. */
  lemma NumberedTwo(a: Item, b: Item)
    ensures Numbered([a, b]) == [a.(order := 0), b.(order := 1)]
  {
  }

  /** The code as written, on [a, b] with b shown first: index 0 of the array-ordered group is a. */
  lemma AsWrittenOnTwo(a: Item, b: Item)
    requires a.folderId == None && b.folderId == None && a.id != b.id
    requires a.order == 1 && b.order == 0
    ensures Shown(ReorderWithinGroup([a, b], UngroupedItems, 0, 1), UngroupedItems) == [b, a]
  {
    TwoUngroupedMembers(a, b);
    TwoUniqueIds(a, b);
    MoveFirstOfTwo(a, b);
    NumberedTwo(b, a);
    AsWrittenFollowsArrayOrder([a, b], UngroupedItems, 0, 1);
  }

  /** The corrected drop on the same input: index 0 of the shown group is b. */
  lemma AsShownOnTwo(a: Item, b: Item)
    requires a.folderId == None && b.folderId == None && a.id != b.id
    requires a.order == 1 && b.order == 0
    ensures Shown(ReorderAsShown([a, b], UngroupedItems, 0, 1), UngroupedItems) == [a.(order := 0), b.(order := 1)]
  {
    TwoUngroupedShown(a, b);
    TwoUniqueIds(a, b);
    MoveFirstOfTwo(b, a);
    NumberedTwo(a, b);
  }

  /**
   Two ungrouped items stored as [a (order 1), b (order 0)] are shown as b, a.
   The user drags b from shown index 0 to index 1. The code as written moves a
   instead (index 0 of the array-ordered group) onto index 1, where it already
   is, so the list still shows b, a; applying the indices to the shown order
   shows a, b.
   */
  lemma WrongItemMovedExample(a: Item, b: Item)
    requires a.folderId == None && b.folderId == None && a.id != b.id
    requires a.order == 1 && b.order == 0
    ensures GroupMembers([a, b], UngroupedItems) == [a, b]
    ensures Shown([a, b], UngroupedItems) == [b, a]
    ensures Shown(ReorderWithinGroup([a, b], UngroupedItems, 0, 1), UngroupedItems) == [b, a]
    ensures Shown(ReorderAsShown([a, b], UngroupedItems, 0, 1), UngroupedItems) == [a.(order := 0), b.(order := 1)]
  {
    TwoUngroupedMembers(a, b);
    TwoUngroupedShown(a, b);
    AsWrittenOnTwo(a, b);
    AsShownOnTwo(a, b);
  }
}
