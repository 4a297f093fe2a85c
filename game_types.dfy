/**
  The shapes of a game record (src/types.ts), the stored Game document with
  its derived `length`, and the repository's error values.
 */
module GameTypes {
  import opened Calendar

  /** A UTF-16 code unit: JavaScript strings, and their `length`, are counted in these. */
  newtype CodeUnit = x: int | 0 <= x < 0x1_0000

  type JsString = seq<CodeUnit>

  /** A store-assigned document identifier (an ObjectId), opaque apart from its order. */
  type Id = nat

  /** GameDataStructure: the fields a client supplies. `date` is in epoch milliseconds. */
  datatype GameData = GameData(
    word: JsString,
    date: int,
    guesses: int,
    link: JsString,
    definition: JsString)

  /** GameStructure: the client fields together with the document's identifier. */
  datatype GameStructure = GameStructure(id: Id, data: GameData)

  /** A stored game document: its identifier, the derived word length and the client fields. */
  datatype Game = Game(id: Id, length: nat, data: GameData)

  /** CustomError: a message and the HTTP status code the caller reports. */
  datatype CustomError = CustomError(message: string, statusCode: nat)

  const GameNotFound: CustomError := CustomError("Game not found", 404)
  const GameExists: CustomError := CustomError("Game exists", 409)

  datatype Option<T> = None | Some(value: T)

  datatype Result<T> = Success(value: T) | Failure(error: CustomError)

  /** The document `new Game({...game, length, date})` builds in addGame, before it is saved. */
  function NewGame(id: Id, input: GameData): (g: Game)
    ensures g.id == id && g.length == |input.word|
    ensures g.data.date <= input.date < g.data.date + DAY && IsUtcMidnight(g.data.date)
    ensures g.data == input.(date := g.data.date)
  {
    Game(id, |input.word|, input.(date := StartOfUtcDay(input.date)))
  }

  /**
    The document findByIdAndUpdate leaves behind: the supplied fields are set,
    `length` (not part of GameStructure) keeps its stored value.
   */
  function Updated(stored: Game, input: GameStructure): (g: Game)
    ensures g.id == stored.id && g.length == stored.length && g.data == input.data
  {
    stored.(data := input.data)
  }
}
