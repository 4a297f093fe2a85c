/**
  GamesMongoRepository: the data-access layer of the daily word game. It owns
  the game collection (meant to hold one game per day: addGame refuses an
  exact truncated date already stored, updateGame checks nothing) and adds to the
  store's primitives the derived `length`, the day truncation of dates, the
  "Game exists" check on creation and the "Game not found" errors.

  The current time is a parameter `now` (epoch milliseconds) of the two
  time-dependent queries, and the identifier the store would assign to a new
  document is a parameter of AddGame.
 */
module GamesRepository {
  import opened Calendar
  import opened GameTypes
  import opened GameStore

  class GamesMongoRepository {
    /** The game collection: documents by identifier. */
    var games: Table

    ghost predicate Valid()
      reads this
    {
      WellKeyed(games)
    }

    /** A repository over an existing collection. */
    constructor (collection: Table)
      requires WellKeyed(collection)
      ensures Valid() && games == collection
    {
      games := collection;
    }

    /** getGames: the games from the start of the current UTC+2 day on, earliest first. */
    function GetGames(now: int): (r: seq<Game>)
      reads this
      requires Valid()
      ensures DateOrdered(r)
      ensures forall i | 0 <= i < |r| ::
        r[i].id in games && games[r[i].id] == r[i] && r[i].data.date >= UpcomingCutoff(now)
      ensures multiset(Ids(r)) == multiset(set k | k in games && games[k].data.date >= UpcomingCutoff(now))
    {
      var later := AtOrAfter(games, UpcomingCutoff(now));
      assert WellKeyed(later);
      DateOrder(later)
    }

    /** getAllGames: every game, earliest first. */
    function GetAllGames(): (r: seq<Game>)
      reads this
      requires Valid()
      ensures DateOrdered(r)
      ensures forall i | 0 <= i < |r| :: r[i].id in games && games[r[i].id] == r[i]
      ensures multiset(Ids(r)) == multiset(games.Keys) && |r| == |games|
    {
      DateOrder(games)
    }

    /** getGameById: the game with that identifier, or none; absence is not an error. */
    function GetGameById(id: Id): (r: Option<Game>)
      reads this
      requires Valid()
      ensures r.Some? <==> id in games
      ensures r.Some? ==> r.value.id == id && r.value == games[id]
    {
      if id in games then Some(games[id]) else None
    }

    /** getCurrentGame: the game dated at today's UTC+2 midnight read as UTC, or "Game not found". */
    function GetCurrentGame(now: int): (r: Result<Game>)
      reads this
      requires Valid()
      ensures r.Success? <==> exists k | k in games :: games[k].data.date == CurrentGameDate(now)
      ensures r.Success? ==>
        r.value.id in games && games[r.value.id] == r.value && r.value.data.date == CurrentGameDate(now)
      ensures r.Failure? ==> r.error == GameNotFound
    {
      match FindOneByDate(games, CurrentGameDate(now))
      case None => Failure(GameNotFound)
      case Some(game) => Success(game)
    }

    /**
      addGame: derive `length`, truncate the date to its UTC midnight, refuse a
      date already taken with "Game exists", and otherwise save the new game
      under the fresh identifier `newId`.
     */
    method AddGame(input: GameData, newId: Id) returns (r: Result<Game>)
      requires Valid() && newId !in games
      modifies this
      ensures Valid()
      ensures r.Failure? <==> exists k | k in old(games) :: old(games)[k].data.date == StartOfUtcDay(input.date)
      ensures r.Failure? ==> r.error == GameExists && games == old(games)
      ensures r.Success? ==>
        && r.value.id == newId
        && r.value.length == |input.word|
        && r.value.data == input.(date := StartOfUtcDay(input.date))
        && games == old(games)[newId := r.value]
      ensures r.Success? ==> GetGameById(newId) == Some(r.value)
      ensures old(DatesUnique(games)) ==> DatesUnique(games)
      ensures old(LengthsMatch(games)) ==> LengthsMatch(games)
      ensures old(DatesNormalised(games)) ==> DatesNormalised(games)
    {
      var game := NewGame(newId, input);
      var existing := FindOneByDate(games, game.data.date);
      if existing.Some? {
        return Failure(GameExists);
      }
      games := games[newId := game];
      r := Success(game);
    }

    /** deleteGame: remove the game with that identifier and return the identifier, or "Game not found". */
    method DeleteGame(id: Id) returns (r: Result<Id>)
      requires Valid()
      modifies this
      ensures Valid()
      ensures r.Failure? <==> id !in old(games)
      ensures r.Failure? ==> r.error == GameNotFound && games == old(games)
      ensures r.Success? ==> r.value == id && games == old(games) - {id}
      ensures GetGameById(id) == None
      ensures old(DatesUnique(games)) ==> DatesUnique(games)
      ensures old(LengthsMatch(games)) ==> LengthsMatch(games)
      ensures old(DatesNormalised(games)) ==> DatesNormalised(games)
    {
      if id !in games {
        return Failure(GameNotFound);
      }
      var deleted := games[id];
      games := games - {id};
      r := Success(deleted.id);
    }

    /**
      updateGame: set the supplied fields of the game with that identifier and
      return the updated game, or "Game not found". Neither `length` nor the
      date is recomputed, and uniqueness of dates is not checked.
     */
    method UpdateGame(input: GameStructure) returns (r: Result<Game>)
      requires Valid()
      modifies this
      ensures Valid()
      ensures r.Failure? <==> input.id !in old(games)
      ensures r.Failure? ==> r.error == GameNotFound && games == old(games)
      ensures r.Success? ==>
        && r.value == Game(input.id, old(games)[input.id].length, input.data)
        && games == old(games)[input.id := r.value]
      ensures r.Success? ==> GetGameById(input.id) == Some(r.value)
    {
      if input.id !in games {
        return Failure(GameNotFound);
      }
      var updated := Updated(games[input.id], input);
      games := games[input.id := updated];
      r := Success(updated);
    }
  }

  /**
    Two games for the same UTC day: the first is saved with length 5 and the
    date 2024-03-01T00:00:00Z; the second, at 23:00 that day, is refused.
   */
  method SameUtcDayConflicts() returns (first: Result<Game>, second: Result<Game>)
    ensures first.Success? && first.value.length == 5
    ensures first.Success? && first.value.data.date == 1_709_251_200_000
    ensures second == Failure(GameExists)
  {
    var march1 := 1_709_251_200_000;
    var apple: JsString := [65, 80, 80, 76, 69];
    var repository := new GamesMongoRepository(map[]);
    first := repository.AddGame(GameData(apple, march1 + 15 * HOUR, 6, [], []), 1);
    StartOfUtcDayUnique(march1 + 15 * HOUR, march1);
    StartOfUtcDayUnique(march1 + 23 * HOUR, march1);
    second := repository.AddGame(GameData(apple, march1 + 23 * HOUR, 6, [], []), 2);
  }
}
