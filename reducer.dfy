/** The board's state machine: the actions the board may dispatch and the
    reducer that `useReducer` runs on them, starting from the loaded board data. */
module Reducer {
  import opened Types

  /** The two actions the board knows. */
  datatype Action = DragStarted | DragEnded

  /** `initial`: a shallow copy of the loaded board data. */
  function Initial(boardData: BoardData): (state: BoardData)
    ensures state.width == boardData.width && state.height == boardData.height
    ensures state.boardId == boardData.boardId && state.items == boardData.items
  {
    BoardData(boardData.width, boardData.height, boardData.boardId, boardData.items)
  }

  /** `reducer`: no action has a case of its own, so every action falls to the
      default branch, which hands the state back as it was. */
  function Reduce(state: BoardData, action: Action): (next: BoardData)
    ensures next == state
  {
    match action
    case _ => state
  }

  /** The state after the actions are dispatched one after another. */
  function DispatchAll(state: BoardData, actions: seq<Action>): BoardData
    decreases |actions|
  {
    if actions == [] then state else DispatchAll(Reduce(state, actions[0]), actions[1..])
  }

  /** No sequence of actions changes the board state. */
  lemma {:induction false} DispatchAllKeepsState(state: BoardData, actions: seq<Action>)
    ensures DispatchAll(state, actions) == state
    decreases |actions|
  {
    if actions != [] {
      DispatchAllKeepsState(Reduce(state, actions[0]), actions[1..]);
    }
  }

  /** Whatever is dispatched, the board shows the loaded data: the state keeps
      its width, height, id and slots. */
  lemma StateIsLoadedData(boardData: BoardData, actions: seq<Action>)
    ensures DispatchAll(Initial(boardData), actions) == boardData
  {
    DispatchAllKeepsState(Initial(boardData), actions);
  }
}
