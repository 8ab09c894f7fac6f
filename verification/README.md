# GameStore catalog: a verified Dafny model

This project models the in-memory core of the GameStore ASP.NET service: a
catalog of video games kept as a list of records `(Id, Name, Genre, Price,
ReleaseDate)`. Request handlers list the records, get one by id, create one,
update one in place and delete records. It also models the generic collection
helpers of `Repository<T>`.

- `wrappers.dfy` (`Wrappers`): `Option` for a collection that may be null
  (only `IsNullOrEmpty` accepts one), and `Result` for the exception that
  `ToDictionary` throws on a repeated key.
- `games.dfy` (`Games`): the record, the seed list, and each handler's meaning
  as a pure step from one list to the next (`GetGame`, `CreateGame`,
  `UpdateGame`, `DeleteGame`). It also holds the lemmas about handler sequences
  and about ids.
- `minimal_api.dfy` (`MinimalApi.GameCatalog`): the minimal API of `Program.cs`.
  The captured list is a `seq<Game>` field. Each handler is a method that
  updates that field in place and is proved against the step function.
- `games_endpoints.dfy` (`GamesEndpoints.GameSummaries`): the static list of
  `GamesEndpoints.cs` with its GET-all, PUT and DELETE handlers.
- `repository.dfy` (`Repository`): the static `items` list as a class, the
  hand-written `FindIndex` loop, and the LINQ one-liners as recursive functions
  with contracts.

Modelling choices:
- Prices are C# `decimal`. Every price in the code has two decimal places, so
  prices are held as integer cents. A price with more digits, such as 19.999,
  has no value in this model. Dates are `(year, month, day)` triples, and nothing computes with them.
- `GameDto` and `GameSummaryDto` have the same five fields, so both lists use
  one `Game` datatype.
- A response is `Ok(game) | Created(game) | NoContent | NotFound`.
- POST assigns the id `Count + 1`. The model keeps this exactly, including its
  quirk. While the ids are exactly 1..Count, as in the seed, the id is fresh.
  In that state, a DELETE of any id but the last makes the next POST reuse the
  id of the current last record. From then on, GET and PUT see only the older
  of the two records, and DELETE removes both (`DeleteThenCreateReusesId`,
  `SeedDeleteThenCreate`). Once the ids have gaps or repeats, whether `Count + 1`
  is fresh depends on the history (`CreateKeepsUniqueIff`). Ids are therefore
  not always fresh: the code reuses them, and the model follows the code.
- A C# `Dictionary` given to `MergeDictionaries` is modelled by its entries in
  enumeration order, as a sequence of pairs with distinct keys. A `Dictionary`
  always has distinct keys, which is why that precondition is there. The
  result is a `map`. The `ArgumentException` from `ToDictionary` becomes
  `Err(DuplicateKey(k))`, where `k` is the first repeated key in enumeration
  order.
- `GetPage` computes `(pageNumber - 1) * pageSize` in unchecked 32-bit `int`,
  which is C#'s default. The model writes out the wrap-around (`WrapInt32`).
- Dafny classes have no mutable static fields. So the static lists
  (`Repository<T>.items`, `GamesEndpoints.games`) are the fields of one
  instance each.

## Model

| member | source | states |
|---|---|---|
| Games.Seed | GameStore.Api/Program.cs:9-45 | the initial list holds exactly five records, with ids 1, 2, 3, 4, 5 in that order |
| Games.IndexOfId | GameStore.Api/Program.cs:84 | FindIndex on the id gives a value in [-1, Count): -1 exactly when no record has the id, otherwise the smallest index whose record has it |
| Games.GetGame | GameStore.Api/Program.cs:53-58 | GET by id answers NotFound exactly when no record has the id, and otherwise Ok with the record at the first position holding the id |
| Games.UpdateGame | GameStore.Api/Program.cs:82-100 | PUT on an absent id answers NotFound and leaves the list unchanged; on a present id it answers NoContent, keeps the length, puts the new fields with the same id at the first matching index, and leaves every other position unchanged |
| Games.CreateGame | GameStore.Api/Program.cs:63-78 | POST answers Created with a record whose id is Count + 1 and whose fields are the input's; the list grows by one at the end, every earlier record is unchanged, and the new id is then held |
| Games.DeleteGame | GameStore.Api/Program.cs:104-115 | DELETE on an absent id answers NotFound and leaves the list unchanged; on a present id it answers NoContent, and afterwards no record has that id |
| Games.WithoutId | GameStore.Api/Program.cs:112 | after RemoveAll on an id, no record has that id, and the list is no longer than before |
| Games.WithoutIdCounts | GameStore.Api/Program.cs:112 | RemoveAll drops every copy of each record with the id and keeps every copy of each other record |
| Games.WithoutIdAppend | GameStore.Api/Program.cs:112 | RemoveAll distributes over concatenation, so the surviving records keep their relative order |
| Games.WithoutIdAbsent | GameStore.Api/Program.cs:112 | RemoveAll on an id that no record has leaves the list unchanged |
| Games.WithoutIdUnique | GameStore.Api/Program.cs:112 | when only one record has the id, RemoveAll removes exactly that slot |
| Games.WithoutIdBetween | GameStore.Api/Program.cs:112 | RemoveAll of an id held by exactly one record, between two stretches without it, leaves the two stretches joined in order |
| Games.TwoCopiesAtEnd | GameStore.Api/Program.cs:53-115 | when two records at the end share an id that no earlier record has, GET returns the first of them and RemoveAll drops both |
| Games.DeleteThenGet | GameStore.Api/Program.cs:104-115 | after DELETE of an id, GET of the same id answers NotFound |
| Games.UpdateThenGet | GameStore.Api/Program.cs:82-100 | after PUT on a present id, GET of that id answers with the new fields and the same id |
| Games.CreateThenGet | GameStore.Api/Program.cs:63-78 | when the id Count + 1 is fresh, POST answers Created with that id, and GET of it returns the record just created |
| Games.DenseIsUnique | GameStore.Api/Program.cs:66 | a list whose ids are exactly 1..Count has no duplicate ids |
| Games.CreateKeepsDense | GameStore.Api/Program.cs:63-78 | on a list with ids exactly 1..Count, POST's id is fresh, and the list keeps ids exactly 1..Count afterwards |
| Games.UpdateKeepsIds | GameStore.Api/Program.cs:90-96 | PUT changes no id at any position, so it keeps dense ids dense and unique ids unique |
| Games.CreateKeepsUniqueIff | GameStore.Api/Program.cs:66 | on a list with unique ids, POST keeps the ids unique if and only if Count + 1 was not already an id |
| Games.DeleteUniqueRemovesOne | GameStore.Api/Program.cs:112 | with unique ids, a successful DELETE shortens the list by exactly one and keeps the ids unique |
| Games.DeleteDense | GameStore.Api/Program.cs:104-115 | on a list with ids exactly 1..Count, DELETE of a present id k removes exactly position k - 1 |
| Games.DeleteThenCreateReusesId | GameStore.Api/Program.cs:63-115 | on a list with ids 1..n, DELETE of any k < n and then POST gives the new record id n, which the old last record still has; GET n then returns the old record, and DELETE n removes both |
| Games.SeedDeleteThenCreate | GameStore.Api/Program.cs:9-78 | from the seed, DELETE 1 and then POST assigns id 5, which "Sonic the Hedgehog" already has; GET 5 still returns Sonic |
| MinimalApi.GameCatalog.constructor | GameStore.Api/Program.cs:9-45 | the captured list starts as the seed list |
| MinimalApi.GameCatalog.GetAll | GameStore.Api/Program.cs:49 | GET /Games returns the current list, unchanged and in stored order |
| MinimalApi.GameCatalog.Get | GameStore.Api/Program.cs:53-58 | GET by id answers as GetGame on the current list, always Ok or NotFound, and changes nothing |
| MinimalApi.GameCatalog.Create | GameStore.Api/Program.cs:63-78 | POST answers Created with a record whose id is the old Count + 1 and whose fields are the input's; the list grows by one at the end, and every earlier element is unchanged |
| MinimalApi.GameCatalog.Update | GameStore.Api/Program.cs:82-100 | PUT leaves the list unchanged and answers NotFound when the id is absent; otherwise it overwrites the first matching slot with the new fields and the same id, and answers NoContent |
| MinimalApi.GameCatalog.Delete | GameStore.Api/Program.cs:104-115 | DELETE leaves the list unchanged and answers NotFound when the id is absent; otherwise the list becomes the old list without any record with that id, and the answer is NoContent |
| GamesEndpoints.GameSummaries.constructor | GameStore.Api/Endpoints/GamesEndpoints.cs:12-48 | the static list starts as the five seed records, ids 1 to 5 |
| GamesEndpoints.GameSummaries.GetAll | GameStore.Api/Endpoints/GamesEndpoints.cs:55 | GET /Games returns the static list, unchanged and in stored order |
| GamesEndpoints.GameSummaries.Update | GameStore.Api/Endpoints/GamesEndpoints.cs:86-105 | PUT with an absent id answers NotFound and leaves the list unchanged; with a present id it replaces the first matching slot, keeps the id, and answers NoContent |
| GamesEndpoints.GameSummaries.Delete | GameStore.Api/Endpoints/GamesEndpoints.cs:109-120 | DELETE with an absent id answers NotFound and leaves the list unchanged; with a present id it removes every record with that id and answers NoContent |
| Repository.Repository.constructor | GameStore.Api/Repository/Repository.cs:8 | the static item list starts empty |
| Repository.Repository.Add | GameStore.Api/Repository/Repository.cs:10-13 | Add appends the item at the end of the list |
| Repository.Repository.Remove | GameStore.Api/Repository/Repository.cs:15-18 | Remove leaves the list unchanged when the item is absent; otherwise it removes exactly one copy of it |
| Repository.Repository.GetAll | GameStore.Api/Repository/Repository.cs:22-25 | GetAll returns the current list |
| Repository.Repository.GetAllWhere | GameStore.Api/Repository/Repository.cs:27-30 | GetAll(predicate) returns exactly the items that satisfy the predicate, in list order |
| Repository.RemoveFirst | GameStore.Api/Repository/Repository.cs:15-18 | List.Remove on an absent item changes nothing; on a present item it shortens the list by one and removes one copy of that item |
| Repository.RemoveFirstSplit | GameStore.Api/Repository/Repository.cs:15-18 | only the first occurrence is removed: everything before and after it stays, in order |
| Repository.FindIndex | GameStore.Api/Repository/Repository.cs:106-116 | the result lies in [-1, Count); it is -1 exactly when no element matches, and otherwise the smallest index whose element matches |
| Repository.Swap | GameStore.Api/Repository/Repository.cs:41-46 | the two variables come back exchanged, so swapping twice restores them |
| Repository.Max | GameStore.Api/Repository/Repository.cs:55-58 | the result is one of the two inputs: a when a.CompareTo(b) > 0, otherwise b, so a tie gives b |
| Repository.Min | GameStore.Api/Repository/Repository.cs:61-64 | the result is one of the two inputs: a when a.CompareTo(b) < 0, otherwise b, so a tie gives b |
| Repository.MaxIsUpperBound | GameStore.Api/Repository/Repository.cs:55-58 | under a CompareTo with opposite signs for swapped arguments, Max compares at least equal to both inputs |
| Repository.MinIsLowerBound | GameStore.Api/Repository/Repository.cs:61-64 | under a CompareTo with opposite signs for swapped arguments, Min compares at most equal to both inputs |
| Repository.MaxMinPair | GameStore.Api/Repository/Repository.cs:55-64 | for a pair that does not tie, Max and Min together return both inputs; on a tie, both return b |
| Repository.AreCollectionsEqual | GameStore.Api/Repository/Repository.cs:125-128 | SequenceEqual is true exactly when the two sequences are equal |
| Repository.IsNullOrEmpty | GameStore.Api/Repository/Repository.cs:49-52 | true exactly when the collection is null or has no element |
| Repository.ConvertAll | GameStore.Api/Repository/Repository.cs:67-70 | the result has the source's length, and each element is the converter applied to the element at the same position |
| Repository.Filter | GameStore.Api/Repository/Repository.cs:91-94 | Where keeps exactly the elements that satisfy the predicate, and is never longer than the source |
| Repository.FilterAppend | GameStore.Api/Repository/Repository.cs:91-94 | Where distributes over concatenation, so it keeps the original order |
| Repository.All | GameStore.Api/Repository/Repository.cs:155-158 | All is true exactly when every element satisfies the predicate |
| Repository.AllIffFilterKeepsAll | GameStore.Api/Repository/Repository.cs:155-158 | All holds exactly when Where with the same predicate returns the whole source |
| Repository.DistinctAfter | GameStore.Api/Repository/Repository.cs:85-88 | with a set of values already seen, Distinct yields no value twice and yields exactly the source's values that were not seen |
| Repository.GetDistinct | GameStore.Api/Repository/Repository.cs:85-88 | Distinct yields no value twice, and every value of the source appears |
| Repository.DistinctAfterSnoc | GameStore.Api/Repository/Repository.cs:85-88 | after a set of seen values, appending a value already in the source or seen changes nothing, and appending a new value adds it at the end |
| Repository.GetDistinctSnoc | GameStore.Api/Repository/Repository.cs:85-88 | a later repeat is dropped and a new value is appended, so each value keeps its first occurrence, in original order |
| Repository.FirstNonDefault | GameStore.Api/Repository/Repository.cs:139-142 | the result is the default exactly when every element is the default; otherwise it is an element of the source |
| Repository.FirstNonDefaultIsFirst | GameStore.Api/Repository/Repository.cs:139-142 | the result is the element at the first position that does not hold the default |
| Repository.Flatten | GameStore.Api/Repository/Repository.cs:147-150 | every element of every inner sequence is in the result, and every element of the result comes from some inner sequence; no inner sequence gives nothing, and one inner sequence gives itself exactly, which with FlattenAppend fixes every count and order |
| Repository.FlattenAppend | GameStore.Api/Repository/Repository.cs:147-150 | SelectMany distributes over concatenation, so the inner sequences stay in order |
| Repository.WrapInt32 | GameStore.Api/Repository/Repository.cs:135 | unchecked 32-bit arithmetic: the result is an int32, congruent to the exact value modulo 2^32, and equal to it when it fits |
| Repository.Skip | GameStore.Api/Repository/Repository.cs:135 | Skip with a non-positive count returns the whole source; otherwise it drops the first count elements, or all of them when count exceeds the length |
| Repository.Take | GameStore.Api/Repository/Repository.cs:135 | Take with a non-positive count returns nothing; otherwise it keeps the first count elements, or all of them when count exceeds the length |
| Repository.TakeThenSkip | GameStore.Api/Repository/Repository.cs:135 | for any count, Take and Skip split the source: Take's result followed by Skip's result is the source |
| Repository.GetPage | GameStore.Api/Repository/Repository.cs:133-136 | a non-positive pageSize gives an empty page; otherwise the page has at most pageSize elements, and it is a contiguous run of the source starting at some offset |
| Repository.PageOf | GameStore.Api/Repository/Repository.cs:133-136 | for pageNumber >= 1 and pageSize > 0, without wrap-around, the page is the slice from (pageNumber - 1) * pageSize to pageNumber * pageSize, each end clipped to the source length |
| Repository.GetPageNoOverflow | GameStore.Api/Repository/Repository.cs:133-136 | when neither the subtraction nor the product leaves int32, GetPage equals the exact page |
| Repository.GetPageOverflowExample | GameStore.Api/Repository/Repository.cs:135 | page 65537 of size 65536 wraps its skip to 0 and returns the first page, where the exact page is empty |
| Repository.PagesTile | GameStore.Api/Repository/Repository.cs:133-136 | the exact pages 1..n, concatenated, are the first n * pageSize elements of the source |
| Repository.ToDictionaryInto | GameStore.Api/Repository/Repository.cs:162-168 | adding the entries to a map succeeds exactly when no key repeats and none is already present; the result maps each key to its entry's value; a failure names a key that repeats or was already present |
| Repository.ToDictionary | GameStore.Api/Repository/Repository.cs:162-168 | ToDictionary succeeds exactly when the selected keys are distinct, and then maps each key to its element's value, with no other keys; on failure it names a repeated key |
| Repository.MergeDictionaries | GameStore.Api/Repository/Repository.cs:172-177 | the merge succeeds exactly when no key is in both dictionaries; the result then holds every entry of both and no other key; on failure it names a key present in both |

## Findings

| source | as written | input that shows it | evidently intended | confidence | as-written member | corrected member |
|---|---|---|---|---|---|---|
| GameStore.Api/Repository/Repository.cs:135 | `(pageNumber - 1) * pageSize` is computed in unchecked 32-bit `int`, so a large page wraps round to an early offset | `GetPage([x], 65537, 65536)`: the product 2^32 wraps to 0, and the result is `[x]` | a page beyond the end is empty | medium (depends on the project building without `checked` arithmetic); not executed | Repository.GetPageOverflowExample | Repository.PageOf |

The corrected definition is `Repository.PageOf`, which uses the exact product.
Its contract gives the exact slice, and `PagesTile` proves that consecutive
pages tile the source. `GetPageNoOverflow` shows that the two definitions agree
whenever nothing overflows.

## Left out

- Entity Framework paths: GET by id and POST in `GamesEndpoints.cs` (lines 59-82) go through the database context, whose code is not part of this model. So does the migration in `Data/DataExtensions.cs`. These never touch the static list.
- HTTP plumbing: routing, `MapGroup`, `WithParameterValidation`, `WithName`, the `Location` header of `CreatedAtRoute`, and `app.Run`. Input validation (the DTOs' attributes) is not part of this model. No handler needs a precondition on its input.
- Concurrency: the lists are shared across requests without locking. The model covers single-threaded sequences of handler calls only.
- Integer width of ids: `Count + 1` would overflow only at 2^31 - 1 records, which a `List` cannot hold. Ids are unbounded integers here.
- `DisplayAll` and `ForEach` (console output and arbitrary side-effecting actions), `GetRandomItem` (randomness), and `Retry` (exception-driven retries of an opaque function) are left out.
- `Clone` (`ICloneable`) and `GetDefaultValue` are left out; the default value is a parameter of `FirstNonDefault`.
- `SortBy` is left out: it relies on `OrderBy` with a key comparer that is not part of this model.
- Repository.GetPage: states that the page is a contiguous run of the source, but not which run. The exact run is stated by `PageOf` and `GetPageNoOverflow` when nothing wraps.
- Repository.Repository.GetAll: the C# method returns the live static list itself, so a caller that keeps it sees later `Add` and `Remove` calls and can change the list through it. The model returns the list's value at the time of the call, and captures no aliasing.
- Repository.Repository.GetAllWhere, Repository.Filter, Repository.GetDistinct, Repository.GetPage, Repository.Flatten: the C# methods return deferred LINQ queries, which re-read their source each time they are enumerated, so a later change to the source shows up in them. The model returns the result for the source as it stands at the call.
- Null arguments: LINQ throws `ArgumentNullException` on a null source or delegate, and `list.Count` in `FindIndex` and `a.CompareTo` in `Max` and `Min` throw `NullReferenceException`. Only `Repository.IsNullOrEmpty` takes a possibly-null collection (`Option`); every other helper is modelled for non-null arguments only, and the exceptions are not modelled.
- Repository.Repository.Remove, Repository.RemoveFirst, Repository.GetDistinct, Repository.AreCollectionsEqual, Repository.FirstNonDefault, Repository.ToDictionary, Repository.MergeDictionaries: C# compares elements and keys with `EqualityComparer<T>.Default`, which is reference identity for a class that does not override `Equals`. The model compares with value equality, so two distinct objects with equal fields count as equal here and not in C#.
- Prices: a `decimal` price with more than two decimal places (the handlers do not validate the input) has no integer-cents value and is not modelled.
