/**
 Dropping a folder (`handleDragEnd` with type "FOLDER") onto the folder list:
 the folder array has its element at `source.index` moved to
 `destination.index`, and every folder is renumbered by its new position.
 */
module FolderDrop {
  import opened Types
  import opened Splice
  import opened Ordering

  /** The droppable id of the folder list. */
  const FoldersList: string := "FOLDERS_LIST"

  /** A folder apart from its position: the same folder with `order` cleared. */
  function Unnumbered(folders: seq<Folder>): (r: seq<Folder>)
    ensures |r| == |folders|
    ensures forall k :: 0 <= k < |r| ==> r[k] == folders[k].(order := 0)
  {
    seq(|folders|, k requires 0 <= k < |folders| => folders[k].(order := 0))
  }

  /**
   The folder reorder: the moved folder lands at `to`, position `k` holds the
   folder found at `MoveSource(from, to, k)` before, and every folder's `order`
   is its new index; nothing but `order` is touched.
   */
  function ReorderFolders(folders: seq<Folder>, from: int, to: int): (r: seq<Folder>)
    requires 0 <= from < |folders| && 0 <= to < |folders|
    ensures |r| == |folders|
    ensures forall k :: 0 <= k < |r| ==> r[k].order == k
    ensures r[to] == folders[from].(order := to)
    ensures forall k :: 0 <= k < |r| ==> r[k] == folders[MoveSource(from, to, k)].(order := k)
  {
    var moved := Move(folders, from, to);
    seq(|moved|, k requires 0 <= k < |moved| => moved[k].(order := k))
  }

  /**
   Apart from their `order`, the folders after a drop are a permutation of the
   folders before, and the folders other than the moved one keep their relative
   order.
   */
  lemma ReorderFoldersIsPermutation(folders: seq<Folder>, from: int, to: int)
    requires 0 <= from < |folders| && 0 <= to < |folders|
    ensures multiset(Unnumbered(ReorderFolders(folders, from, to))) == multiset(Unnumbered(folders))
    ensures Remove(Unnumbered(ReorderFolders(folders, from, to)), to) == Remove(Unnumbered(folders), from)
  {
    var r := ReorderFolders(folders, from, to);
    assert Unnumbered(r) == Move(Unnumbered(folders), from, to);
  }

  /**
   The result is already sorted by `order`, so the render's sort leaves it as it
   is: the folder list is shown in the order the drop produced.
   */
  lemma ReorderedFoldersShownAsIs(folders: seq<Folder>, from: int, to: int)
    requires 0 <= from < |folders| && 0 <= to < |folders|
    ensures SortByOrder(ReorderFolders(folders, from, to), FolderOrder) == ReorderFolders(folders, from, to)
  {
    var r := ReorderFolders(folders, from, to);
    assert SortedBy(r, FolderOrder);
    SortOfSorted(r, FolderOrder);
  }

  /**
   The render sorts the folder array in place, so at drop time the indices
   reported by the library are positions in the array as shown: dropping a
   folder list that is numbered 0..n-1 back onto the index it came from changes
   nothing.
   */
  lemma DropInPlaceKeepsNumberedFolders(folders: seq<Folder>, i: int)
    requires 0 <= i < |folders|
    requires forall k :: 0 <= k < |folders| ==> folders[k].order == k
    ensures ReorderFolders(folders, i, i) == folders
  {
  }
}
