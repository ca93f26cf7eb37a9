/** The records shared by both games and the session shell (src/types.ts),
    plus the few JavaScript value conventions the handlers rely on. */
module GameTypes {

  /** A nullable value: `T | null`. */
  datatype Option<+T> = None | Some(value: T)

  /** One coloured spot of a picture. In a catalog entry `color` is the target
      colour; in a game state it is the colour painted so far, "" when unpainted. */
  datatype ColorPosition = ColorPosition(x: int, y: int, color: string, id: string)

  /** One snapshot of a Colour Filler game. Timestamps are milliseconds. */
  datatype GameState = GameState(
    positions: seq<ColorPosition>,
    selectedColor: Option<string>,
    gameStarted: bool,
    startTime: Option<int>,
    endTime: Option<int>)

  /** The undo/redo buffer: `past` oldest first, `future` nearest first. */
  datatype HistoryState = HistoryState(past: seq<GameState>, present: GameState, future: seq<GameState>)

  /** The state of one Memory Table round. */
  datatype MemoryTableState = MemoryTableState(
    size: nat,
    numbers: seq<int>,
    revealed: bool,
    selectedNumbers: seq<int>,
    startTime: Option<int>,
    endTime: Option<int>,
    gameStarted: bool)

  datatype GameType = ColorFiller | MemoryTable

  /** JavaScript truthiness of a `number | null`: null and 0 are falsy. */
  predicate Truthy(t: Option<int>)
  {
    t.Some? && t.value != 0
  }

  /** JavaScript truthiness of a `string | null`: null and "" are falsy. */
  predicate TruthyString(s: Option<string>)
  {
    s.Some? && s.value != ""
  }

  /** The expression `t || 0` on a `number | null`. */
  function OrZero(t: Option<int>): (r: int)
    ensures Truthy(t) ==> r == t.value
    ensures !Truthy(t) ==> r == 0
  {
    if t.Some? then t.value else 0
  }
}
