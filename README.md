# Daily word game: the games repository

This project models `GamesMongoRepository`, the data-access layer of a daily
word-guessing game backend, and proves properties of it in Dafny. The
repository sits over the game collection, which is meant to hold one puzzle
per day. addGame refuses a date whose truncated value is already stored. It
compares exact dates only. updateGame checks nothing, so two games can still
end up on the same day. It serves "today's game", the upcoming games, all games and a
game by id. It adds games (deriving the word's `length`, truncating the date to
a day and refusing a taken date with "Game exists"/409), deletes games and
updates them ("Game not found"/404 when the id is absent).

Files:

- `calendar.dfy` (module `Calendar`): dates as integer milliseconds since the
  epoch, `DAY = 86 400 000`. It holds the three day-boundary rules:
  - addGame stores `floor(t / DAY) * DAY`, the UTC midnight.
  - getCurrentGame looks up `floor((now + 2h) / DAY) * DAY`. This is the UTC+2
    midnight's wall-clock time, relabelled as UTC.
  - getGames filters from that key minus 2h, the instant of the UTC+2 midnight.

  These three rules differ from one another, and the model keeps them exactly
  as the code has them. Lemmas show that the getGames and getCurrentGame rules
  agree on UTC-midnight dates, and disagree exactly on the non-midnight dates
  in the two hours before the current game's date. Another lemma shows
  that the day addGame stores differs from the UTC+2 day of the same instant
  exactly between 22:00 and 24:00 UTC.
- `game_types.dfy` (module `GameTypes`): the record shapes of `src/types.ts`,
  the stored document with its derived `length`, and `CustomError` with its two
  values. Strings are sequences of UTF-16 code units, so `|word|` is
  JavaScript's `word.length`.
- `game_store.dfy` (module `GameStore`): the collection as a map from id to
  document. It holds the queries the repository sends: find with a `$gte` date
  filter and an ascending date sort, and findOne by exact date. It also holds
  the collection invariants: unique dates, `length` matching the word, and dates
  at midnight.
- `games_repository.dfy` (module `GamesRepository`): the class
  `GamesMongoRepository` with the collection as its `games` field. The
  read-only operations are functions that read the field. The three writes are
  methods that modify it.

Two consequences of the code are worth stating up front:

- addGame truncates the date to its UTC day (`GamesMongoRepository.ts:46`),
  while getCurrentGame and getGames use the UTC+2 day.
- updateGame's `findByIdAndUpdate` sets only the supplied `GameStructure`
  fields. That type has no `length`, so `length` keeps its stored value even
  when the word changes. The date is neither truncated nor checked for
  uniqueness.

## Model

| member | source | states |
|---|---|---|
| Calendar.StartOfUtcDay | src/repositories/games/GamesMongoRepository.ts:46 | the stored date is a UTC midnight, not after the input instant and less than a day before it |
| Calendar.StartOfUtcDayIdempotent | src/repositories/games/GamesMongoRepository.ts:46-49 | truncating a stored date again changes nothing; two inputs get the same stored date (and so conflict) iff they fall on the same UTC day |
| Calendar.CurrentGameDate | src/repositories/games/GamesMongoRepository.ts:31 | today's key is a UTC midnight `d` with `d - 2h <= now < d - 2h + DAY` |
| Calendar.UpcomingCutoff | src/repositories/games/GamesMongoRepository.ts:9 | the getGames cut-off is two hours before a UTC midnight, at or before `now` and less than a day before it |
| Calendar.CurrentGameWindow | src/repositories/games/GamesMongoRepository.ts:31-33 | the game stored at UTC midnight `d` is current exactly from 22:00 UTC the day before until 22:00 UTC on day `d` |
| Calendar.CutoffAgreesOnMidnights | src/repositories/games/GamesMongoRepository.ts:9-12 | for a UTC-midnight date, passing the getGames cut-off is the same as not being before the current game's date |
| Calendar.CutoffDiffersOffMidnight | src/repositories/games/GamesMongoRepository.ts:9-12 | the getGames cut-off and the current game's date disagree on a date iff it lies in the two hours before the current key; such a date is never a midnight |
| Calendar.StoredDayVersusLocalDay | src/repositories/games/GamesMongoRepository.ts:46 | the stored day equals the UTC+2 day of the same instant iff the instant is before 22:00 UTC; otherwise the UTC+2 day is the next day |
| GameTypes.NewGame | src/repositories/games/GamesMongoRepository.ts:43-47 | the new document carries the given id, has `length = |word|` and a UTC-midnight date within the day of the input; all other input fields are copied unchanged |
| GameTypes.Updated | src/repositories/games/GamesMongoRepository.ts:71-73 | after findByIdAndUpdate the document keeps its id and stored `length` and carries the supplied fields |
| GameStore.DateOrder | src/repositories/games/GamesMongoRepository.ts:19 | the sorted listing is in non-decreasing date order and lists every document of the table exactly once, as stored |
| GameStore.FindOneByDate | src/repositories/games/GamesMongoRepository.ts:33 | returns a stored document with exactly the date iff one exists |
| GameStore.CurrentGameLeadsUpcoming | src/repositories/games/GamesMongoRepository.ts:8-16 | while all stored dates are midnights, an existing current game means getGames is non-empty and its first game carries the current date |
| GameStore.UpdateCanDuplicateDate | src/repositories/games/GamesMongoRepository.ts:70-73 | an update to another document's date breaks date uniqueness, because update does not check it |
| GameStore.UpdateCanStaleLength | src/repositories/games/GamesMongoRepository.ts:70-73 | an update whose word has another length leaves `length` out of step with the word |
| GameStore.UpdateKeepsDatesUniqueIff | src/repositories/games/GamesMongoRepository.ts:70-73 | starting from unique dates, the table after an update still has unique dates iff no other document carries the supplied date |
| GameStore.UpdateKeepsLengthsIff | src/repositories/games/GamesMongoRepository.ts:70-73 | starting from matching lengths, the lengths still match after an update iff the new word is as long as the stored `length` |
| GameStore.UpdateCanDenormaliseDate | src/repositories/games/GamesMongoRepository.ts:70-73 | an update with a date off midnight stores it as given |
| GamesRepository.GamesMongoRepository.GetGames | src/repositories/games/GamesMongoRepository.ts:8-16 | returns exactly the stored games dated at or after the UTC+2 midnight, each once, in non-decreasing date order; reads only |
| GamesRepository.GamesMongoRepository.GetAllGames | src/repositories/games/GamesMongoRepository.ts:18-22 | returns every stored game exactly once, in non-decreasing date order |
| GamesRepository.GamesMongoRepository.GetGameById | src/repositories/games/GamesMongoRepository.ts:24-28 | returns the stored game with that id when present, and none (not an error) when absent |
| GamesRepository.GamesMongoRepository.GetCurrentGame | src/repositories/games/GamesMongoRepository.ts:30-40 | succeeds iff some game is dated at today's key, returning such a stored game; otherwise fails with "Game not found"/404, even when other games exist |
| GamesRepository.GamesMongoRepository.AddGame | src/repositories/games/GamesMongoRepository.ts:42-58 | fails with "Game exists"/409 and leaves the collection unchanged iff the truncated date is taken. Otherwise it adds exactly the returned game under the fresh id and changes nothing else. The returned game has `length = |word|`, the truncated date and the other fields copied, and getGameById then returns it. Date uniqueness, length consistency and midnight dates are preserved |
| GamesRepository.GamesMongoRepository.DeleteGame | src/repositories/games/GamesMongoRepository.ts:60-68 | on an absent id fails with "Game not found"/404 and changes nothing; otherwise removes only that game and returns its id; afterwards the id is absent; all three invariants are preserved |
| GamesRepository.GamesMongoRepository.UpdateGame | src/repositories/games/GamesMongoRepository.ts:70-80 | on an absent id fails with "Game not found"/404 and changes nothing. Otherwise it replaces only that game with the supplied fields and keeps its stored `length`. It returns the new game, and getGameById then returns it |
| GamesRepository.SameUtcDayConflicts | src/repositories/games/GamesMongoRepository.ts:42-58 | adding "APPLE" at 2024-03-01T15:00Z gives length 5 and date 2024-03-01T00:00Z; a second add at 23:00Z the same day fails with "Game exists" |

## Left out

- The HTTP layer (`src/server/index.ts`, its routers, controllers, logging and error middlewares) is not part of this model. It has no logic of its own.
- The wall clock: `now` is a parameter of GetGames and GetCurrentGame.
- Identifier generation: `new Game(...)` assigns an ObjectId. AddGame takes it as `newId` and requires that it is not in the collection.
- Malformed identifiers and their cast errors, and any transport failure of the store. The model has no such inputs or failures.
- The store's internals. `find`, `sort`, `findOne`, `findByIdAndDelete` and `findByIdAndUpdate` are map operations.
- GamesRepository.GamesMongoRepository.GetAllGames: the store gives no order to games with equal dates. The model lists them in id order, and the contract promises only non-decreasing dates.
- GamesRepository.GamesMongoRepository.GetGames: the same as GetAllGames for games with equal dates.
- GamesRepository.GamesMongoRepository.GetCurrentGame: when several games share the key date (possible after an update, a concurrent add, or in a collection given to the constructor), `findOne` may return any of them. The model returns the one with the least id, and the contract promises only some stored game with that date.
- JavaScript dates are IEEE doubles with a limited range and an invalid (NaN) value. `toUTCString` drops milliseconds, which the truncation discards anyway. Dates here are unbounded integers, and invalid dates are not modelled.
- `guesses` is a JavaScript number. It is modelled as an integer and never interpreted.
- Fields sent to updateGame beyond those of `GameStructure` (for instance a `length` in the request body) would also be set by the store. The model's update input carries only the declared fields.
- The asynchronous structure and the window between `findOne` and `save` in addGame, in which a concurrent add of the same date can slip through. The model is sequential.
- deleteGame returns the id as a string. The model returns the id itself.
