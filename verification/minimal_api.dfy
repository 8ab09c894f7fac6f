/**
 * The minimal API of GameStore.Api/Program.cs: a list of games captured by
 * five request handlers that read it, append to it, overwrite a slot of it
 * and remove records from it in place.
 */
module MinimalApi {
  import opened Games

  /** The captured `games` list and the handlers mapped on /Games. */
  class GameCatalog {
    var games: seq<Game>

    /** The list starts with the five seed records, ids 1 to 5. */
    constructor ()
      ensures games == Seed()
    {
      games := Seed();
    }

    /** GET /Games: the list itself, in stored order. */
    method GetAll() returns (r: seq<Game>)
      ensures r == games
    {
      r := games;
    }

    /** GET /Games/{id}: List.Find on the id; the list is only read. */
    method Get(id: int) returns (r: Response)
      ensures r == GetGame(games, id)
      ensures r.Ok? || r == NotFound
    {
      var i := IndexOfId(games, id);
      if i == -1 {
        r := NotFound;
      } else {
        r := Ok(games[i]);
      }
    }

    /** POST /Games: the new record gets id Count + 1 and is appended. */
    method Create(input: GameInput) returns (r: Response)
      modifies this
      ensures Step(r, games) == CreateGame(old(games), input)
      ensures r.Created? && r.game == WithId(|old(games)| + 1, input)
      ensures |games| == |old(games)| + 1 && games[..|old(games)|] == old(games)
      ensures games[|old(games)|] == r.game
    {
      var game := WithId(|games| + 1, input);
      games := games + [game];
      r := Created(game);
    }

    /** PUT /Games/{id}: FindIndex, then overwrite that slot, keeping the id. */
    method Update(id: int, input: GameInput) returns (r: Response)
      modifies this
      ensures Step(r, games) == UpdateGame(old(games), id, input)
      ensures !HasId(old(games), id) ==> r == NotFound && games == old(games)
      ensures HasId(old(games), id) ==>
        r == NoContent && games == old(games)[IndexOfId(old(games), id) := WithId(id, input)]
    {
      var index := IndexOfId(games, id);
      if index == -1 {
        return NotFound;
      }
      games := games[index := WithId(id, input)];
      r := NoContent;
    }

    /** DELETE /Games/{id}: FindIndex to test presence, then RemoveAll on the id. */
    method Delete(id: int) returns (r: Response)
      modifies this
      ensures Step(r, games) == DeleteGame(old(games), id)
      ensures !HasId(old(games), id) ==> r == NotFound && games == old(games)
      ensures HasId(old(games), id) ==> r == NoContent && games == WithoutId(old(games), id)
    {
      var index := IndexOfId(games, id);
      if index == -1 {
        return NotFound;
      }
      games := WithoutId(games, id);
      r := NoContent;
    }
  }
}
