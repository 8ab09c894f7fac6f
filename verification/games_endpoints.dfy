/**
 * The list-backed part of GameStore.Api/Endpoints/GamesEndpoints.cs: a
 * static list of game summaries, returned whole by GET /Games and changed
 * in place by PUT and DELETE. GET by id and POST there go to the database
 * and never touch this list.
 */
module GamesEndpoints {
  import opened Games

  /** The static `games` list and the list-backed handlers of the /Games group. */
  class GameSummaries {
    var games: seq<Game>

    /** The static initialiser: the five seed summaries, ids 1 to 5. */
    constructor ()
      ensures games == Seed()
    {
      games := Seed();
    }

    /** GET /Games: the list itself, in stored order. */
    method GetAll() returns (r: seq<Game>)
      ensures r == games
    {
      r := games;
    }

    /** PUT /Games/{id}: FindIndex, then overwrite that slot, keeping the id. */
    method Update(id: int, input: GameInput) returns (r: Response)
      modifies this
      ensures Step(r, games) == UpdateGame(old(games), id, input)
      ensures !HasId(old(games), id) ==> r == NotFound && games == old(games)
      ensures HasId(old(games), id) ==>
        r == NoContent && games == old(games)[IndexOfId(old(games), id) := WithId(id, input)]
    {
      var index := IndexOfId(games, id);
      if index == -1 {
        return NotFound;
      }
      games := games[index := WithId(id, input)];
      r := NoContent;
    }

    /** DELETE /Games/{id}: FindIndex to test presence, then RemoveAll on the id. */
    method Delete(id: int) returns (r: Response)
      modifies this
      ensures Step(r, games) == DeleteGame(old(games), id)
      ensures !HasId(old(games), id) ==> r == NotFound && games == old(games)
      ensures HasId(old(games), id) ==> r == NoContent && games == WithoutId(old(games), id)
    {
      var index := IndexOfId(games, id);
      if index == -1 {
        return NotFound;
      }
      games := WithoutId(games, id);
      r := NoContent;
    }
  }
}
