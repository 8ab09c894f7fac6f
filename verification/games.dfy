/**
 * The game catalog shared by both endpoint variants: the record shape, the
 * seed list, and the meaning of each handler as a pure step from one list
 * of records to the next. The handler classes in MinimalApi and
 * GamesEndpoints are proved against these step functions.
 */
module Games {

  /** A calendar date (DateOnly). No date arithmetic happens anywhere. */
  datatype Date = Date(year: int, month: int, day: int)

  /**
   * A game record (GameDto, and GameSummaryDto, which has the same fields).
   * The price is a C# decimal with two decimal places, held here in cents.
   */
  datatype Game = Game(id: int, name: string, genre: string, priceCents: int, releaseDate: Date)

  /** The body of a POST or PUT request (CreateGameDto, UpdateGameDto). */
  datatype GameInput = GameInput(name: string, genre: string, priceCents: int, releaseDate: Date)

  /** The result a handler returns; HTTP routing and headers are not modelled. */
  datatype Response = Ok(game: Game) | Created(game: Game) | NoContent | NotFound

  /** What a state-changing handler answers, and the list it leaves behind. */
  datatype Step = Step(response: Response, games: seq<Game>)

  /** The record a handler builds from a request body and an id. */
  function WithId(id: int, input: GameInput): Game
  {
    Game(id, input.name, input.genre, input.priceCents, input.releaseDate)
  }

  predicate HasId(games: seq<Game>, id: int)
  {
    exists i :: 0 <= i < |games| && games[i].id == id
  }

  /** The ids are exactly 1, 2, ..., |games|, in list order (the seed's shape). */
  predicate DenseIds(games: seq<Game>)
  {
    forall i :: 0 <= i < |games| ==> games[i].id == i + 1
  }

  /** No two records share an id. */
  predicate UniqueIds(games: seq<Game>)
  {
    forall i, j :: 0 <= i < j < |games| ==> games[i].id != games[j].id
  }

  /** The five records the list starts with. */
  function Seed(): (games: seq<Game>)
    ensures |games| == 5 && DenseIds(games)
  {
    [ Game(1, "Street Fighter II", "Fighting", 1999, Date(1991, 2, 1)),
      Game(2, "Final Fantasy VII", "Role-playing", 4999, Date(1997, 1, 31)),
      Game(3, "The Legend of Zelda: Ocarina of Time", "Action-adventure", 5999, Date(1998, 11, 21)),
      Game(4, "Super Mario Bros.", "Platform", 5999, Date(1985, 9, 13)),
      Game(5, "Sonic the Hedgehog", "Platform", 1999, Date(1991, 6, 23)) ]
  }

  /** List.FindIndex(g => g.Id == id): the first index holding that id, or -1. */
  function IndexOfId(games: seq<Game>, id: int): (i: int)
    ensures -1 <= i < |games|
    ensures i == -1 <==> !HasId(games, id)
    ensures 0 <= i ==> games[i].id == id && forall j :: 0 <= j < i ==> games[j].id != id
  {
    if games == [] then -1
    else if games[0].id == id then 0
    else
      var k := IndexOfId(games[1..], id);
      assert HasId(games, id) ==> HasId(games[1..], id) by {
        if HasId(games, id) {
          var w :| 0 <= w < |games| && games[w].id == id;
          assert games[1..][w - 1].id == id;
        }
      }
      if k == -1 then -1 else k + 1
  }

  /** List.RemoveAll(g => g.Id == id): every record with that id dropped. */
  function WithoutId(games: seq<Game>, id: int): (r: seq<Game>)
    ensures !HasId(r, id)
    ensures |r| <= |games|
  {
    if games == [] then []
    else
      var rest := WithoutId(games[1..], id);
      if games[0].id == id then rest
      else
        assert !HasId([games[0]] + rest, id) by {
          forall i | 0 <= i < |rest| + 1 ensures ([games[0]] + rest)[i].id != id {
            if i > 0 { assert ([games[0]] + rest)[i] == rest[i - 1]; }
          }
        }
        [games[0]] + rest
  }

  /** GET /Games/{id}: the first record with that id, or NotFound. */
  function GetGame(games: seq<Game>, id: int): (r: Response)
    ensures r == NotFound <==> !HasId(games, id)
    ensures r != NotFound ==>
      r.Ok? && r.game.id == id &&
      exists i :: 0 <= i < |games| && games[i] == r.game && forall j :: 0 <= j < i ==> games[j].id != id
  {
    var i := IndexOfId(games, id);
    if i == -1 then NotFound else Ok(games[i])
  }

  /** POST /Games: a record with id Count + 1 appended at the end. */
  function CreateGame(games: seq<Game>, input: GameInput): (st: Step)
    ensures st.response == Created(WithId(|games| + 1, input))
    ensures |st.games| == |games| + 1 && st.games[..|games|] == games
    ensures st.games[|games|] == st.response.game
    ensures HasId(st.games, |games| + 1)
  {
    var game := WithId(|games| + 1, input);
    Step(Created(game), games + [game])
  }

  /** PUT /Games/{id}: the first record with that id overwritten, keeping the id. */
  function UpdateGame(games: seq<Game>, id: int, input: GameInput): (st: Step)
    ensures !HasId(games, id) ==> st == Step(NotFound, games)
    ensures HasId(games, id) ==>
      var i := IndexOfId(games, id);
      && st.response == NoContent
      && |st.games| == |games|
      && st.games[i] == WithId(id, input)
      && forall j :: 0 <= j < |games| && j != i ==> st.games[j] == games[j]
  {
    var i := IndexOfId(games, id);
    if i == -1 then Step(NotFound, games)
    else Step(NoContent, games[i := WithId(id, input)])
  }

  /** DELETE /Games/{id}: NotFound if no record has the id, else all of them removed. */
  function DeleteGame(games: seq<Game>, id: int): (st: Step)
    ensures !HasId(games, id) ==> st == Step(NotFound, games)
    ensures HasId(games, id) ==> st.response == NoContent && !HasId(st.games, id)
  {
    if IndexOfId(games, id) == -1 then Step(NotFound, games)
    else Step(NoContent, WithoutId(games, id))
  }

  // ---------------------------------------------------------------------
  // RemoveAll keeps the surviving records in their original order.

  lemma {:induction false} WithoutIdAppend(a: seq<Game>, b: seq<Game>, id: int)
    ensures WithoutId(a + b, id) == WithoutId(a, id) + WithoutId(b, id)
  {
    if a == [] {
      assert a + b == b;
    } else {
      assert (a + b)[1..] == a[1..] + b;
      WithoutIdAppend(a[1..], b, id);
    }
  }

  /** RemoveAll drops every copy of a record with the id and keeps every copy of the others. */
  lemma {:induction false} WithoutIdCounts(games: seq<Game>, id: int)
    ensures forall g: Game :: multiset(WithoutId(games, id))[g] == if g.id == id then 0 else multiset(games)[g]
  {
    if games != [] {
      assert games == [games[0]] + games[1..];
      WithoutIdCounts(games[1..], id);
    }
  }

  lemma {:induction false} WithoutIdAbsent(games: seq<Game>, id: int)
    requires !HasId(games, id)
    ensures WithoutId(games, id) == games
  {
    if games != [] {
      assert !HasId(games[1..], id) by {
        forall i | 0 <= i < |games| - 1 ensures games[1..][i].id != id {
          assert games[1..][i] == games[i + 1];
        }
      }
      WithoutIdAbsent(games[1..], id);
      assert games == [games[0]] + games[1..];
    }
  }

  /** A slice in which no record carries the id. */
  lemma AbsentInSlice(games: seq<Game>, lo: nat, hi: nat, id: int)
    requires lo <= hi <= |games|
    requires forall j :: lo <= j < hi ==> games[j].id != id
    ensures !HasId(games[lo..hi], id)
  {
    forall i | 0 <= i < hi - lo ensures games[lo..hi][i].id != id {
      assert games[lo..hi][i] == games[lo + i];
    }
  }

  /** RemoveAll of an id held by one record between two stretches without it. */
  lemma WithoutIdBetween(before: seq<Game>, g: Game, after: seq<Game>, id: int)
    requires !HasId(before, id) && !HasId(after, id) && g.id == id
    ensures WithoutId(before + [g] + after, id) == before + after
  {
    assert WithoutId([g], id) == [] by {
      assert [g][1..] == [];
      assert WithoutId([g], id) == WithoutId([], id);
    }
    WithoutIdAbsent(before, id);
    WithoutIdAbsent(after, id);
    WithoutIdAppend(before, [g], id);
    assert WithoutId(before + [g], id) == before;
    WithoutIdAppend(before + [g], after, id);
  }

  /** A record whose id is unique in the list is removed alone: the others stay in order. */
  lemma WithoutIdUnique(games: seq<Game>, k: nat)
    requires k < |games|
    requires forall j :: 0 <= j < |games| && j != k ==> games[j].id != games[k].id
    ensures WithoutId(games, games[k].id) == games[..k] + games[k + 1..]
  {
    AbsentInSlice(games, 0, k, games[k].id);
    AbsentInSlice(games, k + 1, |games|, games[k].id);
    assert games[0..k] == games[..k] && games[k + 1..|games|] == games[k + 1..];
    assert games == games[..k] + [games[k]] + games[k + 1..];
    WithoutIdBetween(games[..k], games[k], games[k + 1..], games[k].id);
  }

  /** Two records sharing an id at the end: GET finds the first, RemoveAll drops both. */
  lemma TwoCopiesAtEnd(prefix: seq<Game>, first: Game, second: Game, id: int)
    requires !HasId(prefix, id) && first.id == id && second.id == id
    ensures GetGame(prefix + [first, second], id) == Ok(first)
    ensures WithoutId(prefix + [first, second], id) == prefix
  {
    var both := prefix + [first, second];
    assert both[|prefix|] == first;
    assert forall j :: 0 <= j < |prefix| ==> both[j] == prefix[j];
    assert IndexOfId(both, id) == |prefix|;
    WithoutIdAppend(prefix, [first, second], id);
    WithoutIdAbsent(prefix, id);
    assert [first, second][1..] == [second] && [second][1..] == [];
  }

  // ---------------------------------------------------------------------
  // Handler sequences.

  /** After a successful DELETE of an id, GET of that id answers NotFound. */
  lemma DeleteThenGet(games: seq<Game>, id: int)
    ensures GetGame(DeleteGame(games, id).games, id) == NotFound
  {
  }

  /** After a PUT on a present id, GET of that id answers with the new fields and the same id. */
  lemma UpdateThenGet(games: seq<Game>, id: int, input: GameInput)
    requires HasId(games, id)
    ensures UpdateGame(games, id, input).response == NoContent
    ensures GetGame(UpdateGame(games, id, input).games, id) == Ok(WithId(id, input))
  {
  }

  /** GET of the id POST just assigned returns the new record, provided the id was fresh. */
  lemma CreateThenGet(games: seq<Game>, input: GameInput)
    requires !HasId(games, |games| + 1)
    ensures CreateGame(games, input).response == Created(WithId(|games| + 1, input))
    ensures GetGame(CreateGame(games, input).games, |games| + 1) == Ok(WithId(|games| + 1, input))
  {
    var after := CreateGame(games, input).games;
    var n := |games|;
    assert after[n].id == n + 1;
    assert forall j :: 0 <= j < n ==> after[j] == games[j];
    assert forall j :: 0 <= j < n ==> after[j].id != n + 1;
  }

  // ---------------------------------------------------------------------
  // Ids: POST assigns Count + 1, which is fresh only while the ids are 1..Count.

  lemma DenseIsUnique(games: seq<Game>)
    requires DenseIds(games)
    ensures UniqueIds(games)
  {
  }

  /** On a dense list, POST's id is fresh and the list stays dense. */
  lemma CreateKeepsDense(games: seq<Game>, input: GameInput)
    requires DenseIds(games)
    ensures !HasId(games, |games| + 1)
    ensures DenseIds(CreateGame(games, input).games)
  {
  }

  /** PUT never changes an id, so it keeps a dense list dense and a unique list unique. */
  lemma UpdateKeepsIds(games: seq<Game>, id: int, input: GameInput)
    ensures var after := UpdateGame(games, id, input).games;
      |after| == |games| && forall i :: 0 <= i < |games| ==> after[i].id == games[i].id
    ensures DenseIds(games) ==> DenseIds(UpdateGame(games, id, input).games)
    ensures UniqueIds(games) ==> UniqueIds(UpdateGame(games, id, input).games)
  {
  }

  /** On a list with unique ids, POST keeps the ids unique exactly when its id is fresh. */
  lemma CreateKeepsUniqueIff(games: seq<Game>, input: GameInput)
    requires UniqueIds(games)
    ensures UniqueIds(CreateGame(games, input).games) <==> !HasId(games, |games| + 1)
  {
    var after := CreateGame(games, input).games;
    var n := |games|;
    assert forall j :: 0 <= j < n ==> after[j] == games[j];
    if HasId(games, n + 1) {
      var w :| 0 <= w < n && games[w].id == n + 1;
      assert after[w].id == after[n].id;
    }
  }

  /** With unique ids, a successful DELETE shrinks the list by exactly one. */
  lemma DeleteUniqueRemovesOne(games: seq<Game>, id: int)
    requires UniqueIds(games) && HasId(games, id)
    ensures |DeleteGame(games, id).games| == |games| - 1
    ensures UniqueIds(DeleteGame(games, id).games)
  {
    var k := IndexOfId(games, id);
    WithoutIdUnique(games, k);
    var after := games[..k] + games[k + 1..];
    forall i, j | 0 <= i < j < |after| ensures after[i].id != after[j].id {
      var i' := if i < k then i else i + 1;
      var j' := if j < k then j else j + 1;
      assert after[i] == games[i'] && after[j] == games[j'];
    }
  }

  /** On a dense list, DELETE of a present id removes exactly that one slot. */
  lemma DeleteDense(games: seq<Game>, k: int)
    requires DenseIds(games) && 1 <= k <= |games|
    ensures DeleteGame(games, k).games == games[..k - 1] + games[k..]
  {
    assert games[k - 1].id == k;
    WithoutIdUnique(games, k - 1);
  }

  /**
   * The id-reuse quirk: on a dense list, deleting any id but the last and then
   * creating a game gives the new record the id of the current last record.
   * From then on GET of that id sees only the older record, and DELETE of it
   * removes both.
   */
  lemma DeleteThenCreateReusesId(games: seq<Game>, k: int, input: GameInput)
    requires DenseIds(games) && 1 <= k < |games|
    ensures var shrunk := DeleteGame(games, k).games;
      && |shrunk| == |games| - 1
      && HasId(shrunk, |shrunk| + 1)
      && CreateGame(shrunk, input).response == Created(WithId(|games|, input))
      && GetGame(CreateGame(shrunk, input).games, |games|) == Ok(games[|games| - 1])
      && DeleteGame(CreateGame(shrunk, input).games, |games|).games == shrunk[..|shrunk| - 1]
  {
    var n := |games|;
    DeleteDense(games, k);
    var shrunk := games[..k - 1] + games[k..];
    var prefix := games[..k - 1] + games[k..n - 1];
    assert shrunk == prefix + [games[n - 1]];
    assert shrunk[..|shrunk| - 1] == prefix;
    assert HasId(shrunk, n) by { assert shrunk[n - 2].id == n; }
    assert !HasId(prefix, n) by {
      forall j | 0 <= j < |prefix| ensures prefix[j].id != n {
        assert prefix[j] == if j < k - 1 then games[j] else games[j + 1];
      }
    }
    assert CreateGame(shrunk, input).games == prefix + [games[n - 1], WithId(n, input)];
    TwoCopiesAtEnd(prefix, games[n - 1], WithId(n, input), n);
  }

  /**
   * The quirk on the seed list: DELETE 1, then POST, yields id 5, which
   * "Sonic the Hedgehog" already has; GET 5 still answers with Sonic.
   */
  lemma SeedDeleteThenCreate(input: GameInput)
    ensures var shrunk := DeleteGame(Seed(), 1).games;
      && HasId(shrunk, 5)
      && CreateGame(shrunk, input).response == Created(WithId(5, input))
      && GetGame(CreateGame(shrunk, input).games, 5) == Ok(Seed()[4])
      && Seed()[4].name == "Sonic the Hedgehog"
  {
    DeleteThenCreateReusesId(Seed(), 1, input);
  }
}
