# Merge board: row layout, board reducer and item editor drafts

A Dafny model of the logic in the merge-board front end. The board is a grid
of cells, and each cell holds an item or is empty. The model covers three pieces:

- **Board rows** (`app/MergeBoard/Board.tsx`). The board data holds its slots as
  one flat, row-major list (`Item | null`). For rendering, the board cuts that
  list into rows of `width` cells with a left-to-right `reduce`. It also derives
  its pixel size from `width` and `height` at 96 pixels per cell.
  `Board.BoardRows` is that loop, written as a method. It is proved equal to
  `Board.Chunk`, a front-to-back definition of the same partition. The lemmas
  about `Chunk` give the round trip, the placement of slot `i` at row `i / width`
  and column `i % width`, the row sizes and the row count.
- **Board reducer** (`app/MergeBoard/reducer.ts`). There are two actions,
  `DRAG_STARTED` and `DRAG_ENDED`. The reducer's only branch is the default one,
  and it returns the state unchanged. The initial state is a copy of the loaded
  board data.
- **Item editors** (`app/components/EditItem.tsx` and the earlier
  `app/MergeBoard/EditItem.tsx`). An editor keeps a draft of the edited item.
  Each text input overwrites one property with the typed string. The newer
  editor has a switch that negates `isInsideBubble`, and its Save calls `onSave`
  with the original edit target, whose item is replaced by the draft. The draft
  is modelled as the JavaScript object it is at run time: its own properties in
  insertion order (`JsObject`). This is needed because a typed input stores a
  string even in a numeric field such as `itemLevel`. Both panels share the
  draft's start and its change handler (`Draft`). A run of user events
  (`ItemEditor.Run`, `LegacyItemEditor.Run`) gives the properties that hold
  across a whole editing session.

Assumptions:
- `EditItemType` is imported by both editors but is not defined in
  `app/MergeBoard/types.ts`. The earlier editor's `onSave(item, rowIndex, columnIndex)`
  signature suggests its shape. It is modelled as
  `EditTarget(item, rowIndex, columnIndex)`.
- The item's property order is taken from the sample item in the comment at
  `app/MergeBoard/EditItem.tsx:1-8`.
- The instance identifier property is assumed to be named `uniqueId`. That is
  the key both field filters exclude.

The code does not check that the slot count is `width * height`. It renders
whatever rows the partition produces, and the last row may be short. For
`Board.BoardFillsPixels` that count is a hypothesis.

## Model

| member | source | states |
|---|---|---|
| `Board.BoardRows` | app/MergeBoard/Board.tsx:32-47 | The reduce's loop returns exactly `Chunk(items, width)`. Its invariant says the rows built so far are the partition of the slots seen so far. A row is started only when `index / width` is past the last row. |
| `Board.ChunkSnoc` | app/MergeBoard/Board.tsx:36-42 | Adding one slot to `p` sends it to row `length(p) / w`. That row is new, holding just that slot, exactly when `length(p) % w == 0`. Otherwise the slot is appended to the existing last row. So rows are created only when their first item arrives. |
| `Board.FlattenChunk` | app/MergeBoard/Board.tsx:34-47 | Joining the rows in order gives back the slot list exactly. |
| `Board.ChunkAt` | app/MergeBoard/Board.tsx:36-42 | The slot at flat index `i` is at `rows[i / w][i % w]`, and both indices are in range. |
| `Board.EmptyCellsStay` | app/MergeBoard/Board.tsx:35-42 | `null` slots are kept as cells in their positions: a cell is empty exactly when its flat slot is. |
| `Board.ChunkCount` | app/MergeBoard/Board.tsx:34-47 | There are `ceil(length(items) / w)` rows, and no slots means no rows. |
| `Board.RowCountIsCeil` | app/MergeBoard/Board.tsx:36 | The row count is the least `r` with `n <= r * w`, and it is 0 only for 0 slots. |
| `Board.ChunkRowSizes` | app/MergeBoard/Board.tsx:36-42 | Every row holds between 1 and `w` cells, and every row but the last holds exactly `w`. |
| `Board.BoardWidthInPixels` | app/MergeBoard/Board.tsx:49 | The board's width is `width` cells of 96 pixels. |
| `Board.BoardHeightInPixels` | app/MergeBoard/Board.tsx:50 | The board's height is `height` cells of 96 pixels. |
| `Board.BoardFillsPixels` | app/MergeBoard/Board.tsx:49-50 | If the data holds `width * height` slots, there are `height` rows of `width` cells each. Times 96, the row count is `boardHeightInPixels` and the row length is `boardWidthInPixels`. |
| `Reducer.Initial` | app/MergeBoard/reducer.ts:4-6 | The initial state has the loaded data's width, height, board id and slots. |
| `Reducer.Reduce` | app/MergeBoard/reducer.ts:10-16 | Both `DRAG_STARTED` and `DRAG_ENDED` return the state unchanged. |
| `Reducer.DispatchAllKeepsState` | app/MergeBoard/reducer.ts:10-16 | Dispatching any sequence of actions leaves the state unchanged. |
| `Reducer.StateIsLoadedData` | app/MergeBoard/reducer.ts:4-16 | After any actions, the board state equals the loaded board data. |
| `JsObject.Assign` | app/components/EditItem.tsx:26-29 | Writing `o[k] = v` on a copy (or spreading `{...o, [k]: v}`) makes `k` read `v` and leaves every other property as it was. An existing property keeps its place, and a new one is added last. That holds for the non-numeric keys the editors write; JavaScript lists array-index keys such as `"0"` first. |
| `JsObject.Omit` | app/components/EditItem.tsx:45-48 | An entry is in the filtered list exactly when it is an entry of the object and its key is not hidden. |
| `JsObject.OmitAppend` | app/components/EditItem.tsx:45-48 | Filtering distributes over concatenation, so the entries keep their order. |
| `JsObject.Shown` | app/components/EditItem.tsx:53 | `value ?? ""` shows null as the empty string, and it shows any other value as it is. |
| `JsObject.Inputs` | app/components/EditItem.tsx:49-57 | One input per field, in field order. Each input writes its field's key and shows its field's value. |
| `Types.ItemObject` | app/MergeBoard/types.ts:1-10 | An item as an object has the eight properties of `Item`, in data order. Its `itemLevel` reads as the number. |
| `Draft.InitialDraft` | app/components/EditItem.tsx:19 | The draft starts as the edited item. The earlier panel does the same at `app/MergeBoard/EditItem.tsx:21`. |
| `Draft.HandleChange` | app/components/EditItem.tsx:21-31 | Property `key` becomes the typed string, and every other property is unchanged. An existing key adds no property. The earlier panel's copy-then-assign at `app/MergeBoard/EditItem.tsx:23-30` builds the same object. |
| `ItemEditor.TypedLevelIsString` | app/components/EditItem.tsx:28 | Typing into `itemLevel` stores the raw string. The draft is then no item's object, because its level is no longer a number. |
| `ItemEditor.HandleToggleSwitch` | app/components/EditItem.tsx:33-40 | `isInsideBubble` becomes the JavaScript negation of its old value (true to false, false to true, `undefined` to true). No other property changes. |
| `ItemEditor.ToggleTwice` | app/components/EditItem.tsx:33-40 | With a boolean `isInsideBubble`, toggling twice restores the draft exactly. |
| `ItemEditor.Fields` | app/components/EditItem.tsx:45-48 | The editable fields are exactly the draft's entries except `uniqueId` and `isInsideBubble`. |
| `ItemEditor.FieldsKeepOrder` | app/components/EditItem.tsx:45-48 | The field list keeps the draft's order. |
| `ItemEditor.TypingSparesHidden` | app/components/EditItem.tsx:49-55 | Typing into any rendered input changes neither `uniqueId` nor `isInsideBubble`, and adds no property. |
| `ItemEditor.SavePayload` | app/components/EditItem.tsx:68-70 | The save payload is the original edit target with only its item replaced by the draft, so row and column are preserved. |
| `ItemEditor.Step` | app/components/EditItem.tsx:49-72 | An input's change goes to `handleChange` for the property it shows, the switch to `handleToggleSwitch`, Cancel to `onCancel` and Save to `onSave` with the current draft. Edits call nothing, buttons leave the draft unchanged, and callbacks are only appended, at most one per event. |
| `ItemEditor.SaveUnedited` | app/components/EditItem.tsx:19-70 | Saving without edits hands back exactly the edit target the panel was opened with. |
| `ItemEditor.RunKeepsIdentity` | app/components/EditItem.tsx:19-72 | After any events, the draft keeps the item's `uniqueId`, and its property names if the item has `isInsideBubble`. Every `onSave` names the original row and column. |
| `ItemEditor.NoSaveNoEdit` | app/components/EditItem.tsx:67 | Without a click on Save, the only callback is `onCancel`, which carries no draft. No draft change reaches the parent. |
| `ItemEditor.BubbleFollowsToggles` | app/components/EditItem.tsx:33-63 | A boolean `isInsideBubble` ends up flipped exactly when the switch was clicked an odd number of times. Typing never touches it. |
| `LegacyItemEditor.Fields` | app/MergeBoard/EditItem.tsx:37-40 | The fields are exactly the draft's entries except `uniqueId`, so `isInsideBubble` stays editable. |
| `LegacyItemEditor.FieldsKeepOrder` | app/MergeBoard/EditItem.tsx:37-40 | The field list keeps the draft's order. |
| `LegacyItemEditor.OneInputPerField` | app/MergeBoard/EditItem.tsx:37-47 | Every property except `uniqueId` has an input that writes it. |
| `LegacyItemEditor.BubbleTypedAsText` | app/MergeBoard/EditItem.tsx:37-47 | Typing into the `isInsideBubble` input replaces the boolean with the typed string. |
| `LegacyItemEditor.RunKeepsIdentity` | app/MergeBoard/EditItem.tsx:23-47 | After any events, `uniqueId` and the property names are unchanged. |
| `LegacyItemEditor.Step` | app/MergeBoard/EditItem.tsx:41-52 | Typing into input `i` applies `handleChange` to the property that input shows; a position past the last input does nothing. A button click leaves the draft unchanged, since neither button has a handler. Every step keeps `uniqueId` and the property names. |
| `LegacyItemEditor.ClickChangesNothing` | app/MergeBoard/EditItem.tsx:49-52 | Removing a button click from anywhere in a run does not change the draft the run ends with. `Run` returns only the draft: nothing reaches `onSave`. |

## Left out

- Dragging: `handleDragEnd` and the effect that measures the board's screen position (`app/MergeBoard/Board.tsx:17-28,52-59`). They use DOM measurement and floating-point pointer coordinates, and the handler only logs. Moving, placing and deleting items, drag legality and clamping coordinates to cells are not implemented in this code, so they are not modelled.
- Rendering geometry: `boardWidthInPixels` and `boardHeightInPixels` are computed but not used by the render (`app/MergeBoard/Board.tsx:61-87`). The cells are styled 92 pixels with a 1-pixel border, and the flex container lays each row out as a column, side by side. The model relates the two expressions only to the row count and row length, not to what is drawn on screen.
- The framer-motion drag and animation settings, the styled components, `console.log` calls, React `key` props, the `Switch`, `Modal`, `Backdrop`, `AddItem` and `Item` components, the route, `useOutsideClick` and `image-utils`: presentation, DOM I/O or foreign runtime calls.
- The contents of `assigment.json`: not part of this model. The loaded board data is any `BoardData`.
- `Board.BoardRows` requires a positive integer `width`. With `width` 0, JavaScript files slot 0 under the key `NaN` and every later slot under `Infinity`. With a negative `width`, slot 0 still lands in row `"0"` (`Math.floor(-0)` is `-0`), and later slots go under keys such as `"-1"` and `"-2"`. With a fractional `width`, the row array can have holes. Those cases are not modelled.
- JSON numbers are modelled as integers, because the data's ids and levels are whole numbers. Floating point is not modelled.
- React state updates are modelled as applied one event at a time, each event against the inputs rendered for the current draft. Batching and render timing are not modelled.
- Object identity and sharing are not modelled, because every value here is a Dafny value. For example, `initial` shares the items array with the loaded data, and the saved payload's `item` is the editor's state object, which is the edited item object itself when nothing was edited (`ItemEditor.SaveUnedited` states this as value equality only).
- Types.ItemObject: the contract states the property names and the `itemLevel` value only. The other property values are given by the body but not restated.
- The newer editor's switch row display (`isOn`, `app/components/EditItem.tsx:58-64`) is presentation. Only its click handler is modelled.
