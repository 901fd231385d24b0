/**
 The two records the client mirrors: an item placed either in a folder or in the
 ungrouped bucket, and a folder in the folder list. Both carry an `order` that
 positions them within their group.
 */
module Types {
  import opened Wrappers

  /** Server-assigned document identifier (a MongoDB ObjectId rendered as text). */
  type Id = string

  /** `folderId == None` is the JavaScript `null`: the item is ungrouped. */
  datatype Item = Item(id: Id, title: string, icon: string, folderId: Option<Id>, order: int)

  datatype Folder = Folder(id: Id, name: string, isOpen: bool, order: int)

  /** The client's in-memory mirror of both collections (the two `useState` arrays). */
  datatype State = State(items: seq<Item>, folders: seq<Folder>)

  function ItemKey(i: Item): Id { i.id }

  function FolderKey(f: Folder): Id { f.id }

  function ItemOrder(i: Item): int { i.order }

  function FolderOrder(f: Folder): int { f.order }
}
