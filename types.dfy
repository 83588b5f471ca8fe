/** The data the board works on: an item of the loaded board data, a board cell
    (an item or `null`), the board descriptor, and what an item editor is opened with. */
module Types {
  import opened Wrappers
  import opened JsObject

  /** An item of the board data; `pausedUntil` may be `null`. */
  datatype Item = Item(
    chainId: string,
    createdAt: string,
    isInsideBubble: bool,
    itemId: int,
    itemLevel: int,
    itemType: string,
    pausedUntil: Option<string>,
    visibility: string)

  /** A board slot: `Item | null`, where `None` is an empty cell. */
  type Cell = Option<Item>

  /** The board descriptor: its width and height in cells, its id, and its
      slots in row-major order. */
  datatype BoardData = BoardData(width: int, height: int, boardId: string, items: seq<Cell>)

  /** What an item editor is opened with: the item (as the object it is at run
      time) and the cell it sits in. */
  datatype EditTarget = EditTarget(item: Object, rowIndex: int, columnIndex: int)

  /** The per-instance identifier the view attaches to an item. */
  const UniqueIdKey := "uniqueId"

  /** The property that marks an item as locked inside a bubble. */
  const BubbleKey := "isInsideBubble"

  /** The property names of an item, in the order the board data lists them. */
  const ItemKeys: seq<string> :=
    ["itemId", "itemType", "chainId", "pausedUntil", "createdAt", "visibility", "itemLevel", BubbleKey]

  /** An item as the object the editor receives: one property per field, in data order. */
  function ItemObject(item: Item): (o: Object)
    ensures Keys(o) == ItemKeys
    ensures Get(o, "itemLevel") == Some(Num(item.itemLevel))
  {
    var o :=
      [ Entry("itemId", Num(item.itemId)),
        Entry("itemType", Str(item.itemType)),
        Entry("chainId", Str(item.chainId)),
        Entry("pausedUntil", if item.pausedUntil.Some? then Str(item.pausedUntil.value) else Null),
        Entry("createdAt", Str(item.createdAt)),
        Entry("visibility", Str(item.visibility)),
        Entry("itemLevel", Num(item.itemLevel)),
        Entry(BubbleKey, Bool(item.isInsideBubble)) ];
    KeysAt(o);
    assert Keys(o) == ItemKeys;
    GetAt(o, 6);
    o
  }
}
