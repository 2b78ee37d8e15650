/** The decisions of one tree row, src/FolderItem.tsx: where a drop on the row goes, which
    name an edit commits, which label the row shows, and the row's edit state. */
module FolderItem {
  import opened Types
  import opened Forest
  import opened FolderTree
  import FolderTreeProperties

  /** A cursor position in client coordinates. */
  datatype Point = Point(x: real, y: real)

  /** The part of the row's bounding box the drop handler reads. */
  datatype Rect = Rect(left: real, top: real, height: real)

  /** The arguments the row passes to onMove. */
  datatype MoveRequest = MoveRequest(dragId: Id, targetId: Id, position: Position)

  /** The arguments the row passes to onRename. */
  datatype RenameRequest = RenameRequest(itemId: Id, newName: string)

  /** How far right of the row's left edge, in pixels, a drop counts as a drop inside. */
  const InsideOffset: real := 20.0

  // ---------------------------------------------------------------------------------------
  // The drop callback of the row's drop target

  /** The position a drop at (relativeX, relativeY) within a row of the given height asks for. */
  function Classify(target: Node, relativeX: real, relativeY: real, height: real): (r: Position)
    ensures r == Inside <==> relativeX > InsideOffset && target.Folder?
    ensures r == Before <==> !(relativeX > InsideOffset && target.Folder?) && relativeY < height / 2.0
  {
    if relativeX > InsideOffset && target.Folder? then Inside
    else if relativeY < height / 2.0 then Before
    else After
  }

  /** The move a drop of dragId on the row of target asks for: none when the row is not
      mounted, when the item is dropped on itself, or when the cursor position is unknown. */
  function OnDrop(dragId: Id, target: Node, offset: Option<Point>, rect: Option<Rect>): (r: Option<MoveRequest>)
    ensures r.Some? <==> rect.Some? && dragId != target.id && offset.Some?
    ensures r.Some? ==> r.value.dragId == dragId && r.value.targetId == target.id
    ensures r.Some? ==>
      r.value.position == Classify(target, offset.value.x - rect.value.left, offset.value.y - rect.value.top, rect.value.height)
  {
    if rect.None? || dragId == target.id || offset.None? then None
    else
      var relativeY := offset.value.y - rect.value.top;
      var relativeX := offset.value.x - rect.value.left;
      Some(MoveRequest(dragId, target.id, Classify(target, relativeX, relativeY, rect.value.height)))
  }

  /** A file row never receives a drop inside. */
  lemma FileNeverInside(target: Node, relativeX: real, relativeY: real, height: real)
    requires target.File?
    ensures Classify(target, relativeX, relativeY, height) != Inside
  {
  }

  /** Outside the inside band, the upper half (midpoint excluded) asks for before and the lower
      half (midpoint included) for after; and moving the cursor down never turns after back
      into before. */
  lemma HalvesSplitAtMidpoint(target: Node, relativeX: real, y1: real, y2: real, height: real)
    requires !(relativeX > InsideOffset && target.Folder?) && y1 <= y2
    ensures Classify(target, relativeX, height / 2.0, height) == After
    ensures Classify(target, relativeX, y1, height) == After ==> Classify(target, relativeX, y2, height) == After
  {
  }

  // ---------------------------------------------------------------------------------------
  // Trimming, as String.prototype.trim does it

  /** The characters trim strips: the white space and line terminators of ECMAScript. */
  predicate IsSpace(c: char) {
    var n := c as int;
    n == 0x09 || n == 0x0A || n == 0x0B || n == 0x0C || n == 0x0D || n == 0x20 || n == 0xA0
    || n == 0x1680 || (0x2000 <= n <= 0x200A) || n == 0x2028 || n == 0x2029 || n == 0x202F
    || n == 0x205F || n == 0x3000 || n == 0xFEFF
  }

  /** s without its leading white space. */
  function TrimStart(s: string): (r: string)
    ensures |r| <= |s| && r == s[|s| - |r|..]
    ensures forall i :: 0 <= i < |s| - |r| ==> IsSpace(s[i])
    ensures r != [] ==> !IsSpace(r[0])
    decreases s
  {
    if s == [] || !IsSpace(s[0]) then s else TrimStart(s[1..])
  }

  /** s without its trailing white space. */
  function TrimEnd(s: string): (r: string)
    ensures |r| <= |s| && r == s[..|r|]
    ensures forall i :: |r| <= i < |s| ==> IsSpace(s[i])
    ensures r != [] ==> !IsSpace(r[|r| - 1])
    decreases s
  {
    if s == [] || !IsSpace(s[|s| - 1]) then s else TrimEnd(s[..|s| - 1])
  }

  function Trim(s: string): string {
    TrimEnd(TrimStart(s))
  }

  /** A string trims to nothing exactly when all its characters are white space. */
  lemma TrimBlank(s: string)
    ensures Trim(s) == "" <==> forall i :: 0 <= i < |s| ==> IsSpace(s[i])
  {
    var t := TrimStart(s);
    if Trim(s) == "" {
      forall i | 0 <= i < |s| ensures IsSpace(s[i]) {
        if i >= |s| - |t| {
          assert s[i] == t[i - (|s| - |t|)];
        }
      }
    } else {
      var r := Trim(s);
      assert r[0] == t[0] == s[|s| - |t|];
    }
  }

  // ---------------------------------------------------------------------------------------
  // Names

  /** The name finishEditing passes on: the kind's default when tempName is blank, tempName
      itself, untrimmed, otherwise. Never empty. */
  function CommitName(tempName: string, item: Node): (r: string)
    ensures r != ""
    ensures (forall i :: 0 <= i < |tempName| ==> IsSpace(tempName[i])) ==> r == DefaultName(item)
    ensures (exists i :: 0 <= i < |tempName| && !IsSpace(tempName[i])) ==> r == tempName
  {
    TrimBlank(tempName);
    if Trim(tempName) == "" then DefaultName(item) else tempName
  }

  /** The text the row shows for the item when it is not being edited. */
  function Label(item: Node): (r: string)
    ensures r != ""
    ensures item.name != "" ==> r == item.name
    ensures item.name == "" ==> r == DefaultName(item)
  {
    if item.name != "" then item.name else DefaultName(item)
  }

  /** Committing an edit of a node of a forest with unique ids renames exactly that node, to
      the committed name: the store's empty-name fallback never applies. */
  lemma CommitRenames(f: seq<Node>, p: seq<nat>, tempName: string)
    requires Unique(f) && ValidPath(f, p)
    ensures Rename(f, At(f, p).id, CommitName(tempName, At(f, p)))
         == ReplaceAt(f, p, At(f, p).(name := CommitName(tempName, At(f, p))))
  {
    PathOfAt(f, p);
    FolderTreeProperties.RenameAt(f, At(f, p).id, CommitName(tempName, At(f, p)), p);
  }

  // ---------------------------------------------------------------------------------------
  // The row's edit state

  class ItemEditor {
    var isEditing: bool
    var tempName: string

    /** A row starts in edit mode exactly when its item has an empty name. */
    constructor (item: Node)
      ensures isEditing == (item.name == "") && tempName == item.name
    {
      isEditing := item.name == "";
      tempName := item.name;
    }

    /** The edit button and a double click on the label. */
    method StartEditing()
      modifies this
      ensures isEditing && tempName == old(tempName)
    {
      isEditing := true;
    }

    /** The input's change handler. */
    method Change(value: string)
      modifies this
      ensures tempName == value && isEditing == old(isEditing)
    {
      tempName := value;
    }

    /** finishEditing (Enter, or the input losing focus): leaves edit mode and asks to rename
        the item to the committed name. */
    method FinishEditing(item: Node) returns (request: RenameRequest)
      modifies this
      ensures !isEditing && tempName == old(tempName)
      ensures request == RenameRequest(item.id, CommitName(old(tempName), item))
    {
      isEditing := false;
      request := RenameRequest(item.id, CommitName(tempName, item));
    }

    /** handleKeyDown: Enter commits; Escape leaves edit mode, restores the item's name and asks
        for no rename; any other key changes nothing. */
    method KeyDown(item: Node, key: string) returns (request: Option<RenameRequest>)
      modifies this
      ensures key == "Enter" ==> !isEditing && tempName == old(tempName)
                                 && request == Some(RenameRequest(item.id, CommitName(old(tempName), item)))
      ensures key == "Escape" ==> !isEditing && tempName == item.name && request == None
      ensures key != "Enter" && key != "Escape" ==>
                isEditing == old(isEditing) && tempName == old(tempName) && request == None
    {
      request := None;
      if key == "Enter" {
        var r := FinishEditing(item);
        request := Some(r);
      }
      if key == "Escape" {
        isEditing := false;
        tempName := item.name;
      }
    }
  }
}
