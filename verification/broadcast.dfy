/**
 The reducers the client runs on each server broadcast: an added record is
 appended, an updated record replaces every entry with its id, and a reorder
 overwrites whichever of the two lists the payload carries.
 */
module Broadcast {
  import opened Wrappers
  import opened Types
  import opened Splice
  import opened ItemDrop

  /**
   The five broadcast events. A `reordered` payload may lack either list; an
   empty list is present (JavaScript treats `[]` as true).
   */
  datatype Event =
    | ItemAdded(item: Item)
    | FolderAdded(folder: Folder)
    | ItemUpdated(item: Item)
    | FolderUpdated(folder: Folder)
    | Reordered(items: Option<seq<Item>>, folders: Option<seq<Folder>>)

  /** The new state after one broadcast; each event touches only the list it names. */
  function Apply(s: State, e: Event): (r: State)
    ensures (e.ItemAdded? || e.ItemUpdated?) ==> r.folders == s.folders
    ensures (e.FolderAdded? || e.FolderUpdated?) ==> r.items == s.items
    ensures e.ItemAdded? ==>
              |r.items| == |s.items| + 1 && r.items[..|s.items|] == s.items && r.items[|s.items|] == e.item
    ensures e.FolderAdded? ==>
              |r.folders| == |s.folders| + 1 && r.folders[..|s.folders|] == s.folders && r.folders[|s.folders|] == e.folder
    ensures e.ItemUpdated? ==>
              |r.items| == |s.items| &&
              (forall k :: 0 <= k < |s.items| && s.items[k].id == e.item.id ==> r.items[k] == e.item) &&
              (forall k :: 0 <= k < |s.items| && s.items[k].id != e.item.id ==> r.items[k] == s.items[k])
    ensures e.FolderUpdated? ==>
              |r.folders| == |s.folders| &&
              (forall k :: 0 <= k < |s.folders| && s.folders[k].id == e.folder.id ==> r.folders[k] == e.folder) &&
              (forall k :: 0 <= k < |s.folders| && s.folders[k].id != e.folder.id ==> r.folders[k] == s.folders[k])
    ensures e.Reordered? ==>
              (e.items.None? ==> r.items == s.items) && (e.items.Some? ==> r.items == e.items.value) &&
              (e.folders.None? ==> r.folders == s.folders) && (e.folders.Some? ==> r.folders == e.folders.value)
  {
    match e
    case ItemAdded(item) => s.(items := s.items + [item])
    case FolderAdded(folder) => s.(folders := s.folders + [folder])
    case ItemUpdated(item) => s.(items := ReplaceByKey(s.items, item, ItemKey))
    case FolderUpdated(folder) => s.(folders := ReplaceByKey(s.folders, folder, FolderKey))
    case Reordered(items, folders) =>
      State(if items.Some? then items.value else s.items, if folders.Some? then folders.value else s.folders)
  }

  /** Every event except an addition can be delivered twice with the effect of once. */
  lemma RedeliveryIsHarmless(s: State, e: Event)
    requires !e.ItemAdded? && !e.FolderAdded?
    ensures Apply(Apply(s, e), e) == Apply(s, e)
  {
    match e
    case ItemUpdated(item) => ReplaceIdempotent(s.items, item, ItemKey);
    case FolderUpdated(folder) => ReplaceIdempotent(s.folders, folder, FolderKey);
    case Reordered(_, _) =>
  }

  /** An update for an id the client does not hold is ignored. */
  lemma UpdateOfUnknownIdIsIgnored(s: State, e: Event)
    requires e.ItemUpdated? ==> !HasKey(s.items, ItemKey, e.item.id)
    requires e.FolderUpdated? ==> !HasKey(s.folders, FolderKey, e.folder.id)
    requires e.ItemUpdated? || e.FolderUpdated?
    ensures Apply(s, e) == s
  {
    if e.ItemUpdated? {
      ReplaceAbsentIsNoOp(s.items, e.item, ItemKey);
    } else {
      ReplaceAbsentIsNoOp(s.folders, e.folder, FolderKey);
    }
  }

  /**
   Ids stay unique under every event except an addition of an id already held
   or a reorder payload with repeated ids.
   */
  lemma ApplyKeepsIdsUnique(s: State, e: Event)
    requires UniqueKeys(s.items, ItemKey) && UniqueKeys(s.folders, FolderKey)
    requires e.ItemAdded? ==> !HasKey(s.items, ItemKey, e.item.id)
    requires e.FolderAdded? ==> !HasKey(s.folders, FolderKey, e.folder.id)
    requires e.Reordered? && e.items.Some? ==> UniqueKeys(e.items.value, ItemKey)
    requires e.Reordered? && e.folders.Some? ==> UniqueKeys(e.folders.value, FolderKey)
    ensures UniqueKeys(Apply(s, e).items, ItemKey) && UniqueKeys(Apply(s, e).folders, FolderKey)
  {
    match e
    case ItemUpdated(item) => ReplaceKeepsKeys(s.items, item, ItemKey);
    case FolderUpdated(folder) => ReplaceKeepsKeys(s.folders, folder, FolderKey);
    case ItemAdded(item) =>
      var r := Apply(s, e).items;
      forall i, j | 0 <= i < |r| && 0 <= j < |r| && i != j
        ensures r[i].id != r[j].id
      {
        if i == |s.items| {
          assert s.items[j] == r[j];
        } else if j == |s.items| {
          assert s.items[i] == r[i];
        } else {
          assert s.items[i] == r[i] && s.items[j] == r[j];
        }
      }
    case FolderAdded(folder) =>
      var r := Apply(s, e).folders;
      forall i, j | 0 <= i < |r| && 0 <= j < |r| && i != j
        ensures r[i].id != r[j].id
      {
        if i == |s.folders| {
          assert s.folders[j] == r[j];
        } else if j == |s.folders| {
          assert s.folders[i] == r[i];
        } else {
          assert s.folders[i] == r[i] && s.folders[j] == r[j];
        }
      }
    case Reordered(_, _) =>
  }

  /** A freshly added item is what a later lookup of its id finds. */
  lemma AddedItemIsFound(s: State, x: Item)
    requires !HasKey(s.items, ItemKey, x.id)
    ensures FindItem(Apply(s, ItemAdded(x)).items, x.id) == Some(x)
  {
    var r := Apply(s, ItemAdded(x)).items;
    assert r[|s.items|] == x;
    assert FindIndex(r, ItemKey, x.id) == |s.items| by {
      var t := FindIndex(r, ItemKey, x.id);
      assert HasKey(r, ItemKey, x.id);
    }
  }

  /**
   An addition followed by an update of the same id equals adding the updated
   record directly, when the id was new.
   */
  lemma AddThenUpdateIsAddOfUpdate(s: State, x: Item, y: Item)
    requires !HasKey(s.items, ItemKey, x.id) && y.id == x.id
    ensures Apply(Apply(s, ItemAdded(x)), ItemUpdated(y)) == Apply(s, ItemAdded(y))
  {
    var lhs := Apply(Apply(s, ItemAdded(x)), ItemUpdated(y)).items;
    var rhs := Apply(s, ItemAdded(y)).items;
    forall k | 0 <= k < |lhs|
      ensures lhs[k] == rhs[k]
    {
      if k < |s.items| {
        assert s.items[k].id != x.id;
      }
    }
  }

  /** A reorder carrying both lists makes everything before it irrelevant: the last one wins. */
  lemma FullReorderOverwrites(s: State, e: Event, items: seq<Item>, folders: seq<Folder>)
    ensures Apply(Apply(s, e), Reordered(Some(items), Some(folders))) == State(items, folders)
  {
  }
}
