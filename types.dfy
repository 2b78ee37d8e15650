/** The shape of a tree item (src/types.ts) and the small value types shared by the tree store
    (src/FolderTree.tsx) and the item view (src/FolderItem.tsx). */
module Types {

  /** Node identifiers are opaque strings (uuids in the application). */
  type Id = string

  datatype Option<+T> = None | Some(value: T)

  /** A tree item. A folder owns an ordered list of children and a collapsed flag; a file owns
      neither. An unset `children` behaves exactly like an empty list and an unset `isCollapsed`
      like `false`, so both are modelled by those values. */
  datatype Node =
    | Folder(id: Id, name: string, children: seq<Node>, collapsed: bool)
    | File(id: Id, name: string)

  /** Where a dragged item goes relative to the drop target. */
  datatype Position = Before | After | Inside

  /** The label a node of this kind gets when its name is left blank. */
  function DefaultName(n: Node): (r: string)
    ensures r != ""
  {
    if n.Folder? then "Untitled Folder" else "Untitled File"
  }
}
