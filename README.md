# Contoso team statistics: cache-aside over Redis, in Dafny

A model of the core of a small ASP.NET Core application that shows a table of
sports teams (wins, losses, ties) read from a relational database, and that
demonstrates four ways of reading them:

* straight from the database, ordered by wins, highest first;
* from a Redis sorted set `teamsSortedSet` (every team scored by its wins),
  populated from the database on a miss;
* the top five of that sorted set, populating it first when the top read is
  empty;
* from one Redis string key per team, `team-<ID>`, written with a five-minute
  expiry on a miss and found again with a `team*` key scan.

Playing a season (new random statistics), rebuilding the database and the
create and delete forms all invalidate the cache by deleting every key that
matches `team*`.

The project has six modules:

* `Teams` (`team.dfy`): the team record and the season of games, an in-place
  loop over an array of teams.
* `KeyPatterns` (`key_patterns.dfy`): the glob patterns of `SCAN ... MATCH`
  (`*` and `?`), and the fact that `team*` matches exactly the keys that start
  with `team`.
* `SeqFacts` (`seq_facts.dfy`): sequences without repeats, multisets and
  cardinality.
* `SortedSets` (`sorted_sets.dfy`): a Redis sorted set as its ranking (pairs
  in ascending score order, each member once); `ZADD` as remove-then-insert at
  a place among equal scores that the model leaves open; `ZRANGE` by rank with
  Redis's index normalisation and the optional `REV`.
* `Cache` (`cache_service.dfy`): the cache service as a class whose `store`
  field is the Redis key space (`map<string, Entry>`), one atomic step per
  command: `SET` with expiry, `GET`, `DEL`, `SCAN`, `MGET`, `ZADD`, `ZRANGE`.
  Failures are values (`Outcome`, `Result`): a missing expiry, a non-positive
  expiry, and `WRONGTYPE` for a sorted-set command on a string key and for `GET` on a
  sorted-set key.
* `Home` (`home_controller.dfy`): the controller as a class holding the
  database table (`db: seq<Team>` with distinct IDs), its seed rows, and the
  cache service; its invariant is that `teamsSortedSet`, when present, is a
  sorted set whose every member is scored by its wins.

Integers are unbounded; the expiry is kept in milliseconds (five minutes is
300000). Random numbers become nondeterministic choices within the bounds the
source gives them.

## Model

| member | source | states |
|---|---|---|
| Teams.PlayGames | Data/Team.cs:26-37 | every team of the array gets new wins in [0, 33), losses in [0, 33) and ties in [0, 5); ID, name, count and order are kept |
| Teams.SeasonKeepsKeys | Data/Team.cs:31-36 | a season keeps the IDs distinct exactly when they were, and leaves every team's wins in [0, 33), losses in [0, 33) and ties in [0, 5) |
| KeyPatterns.Matches | RedisCacheService.cs:39 | the glob match of SCAN's MATCH option; a pattern without wildcards matches exactly the key equal to it |
| KeyPatterns.StarMatchesEverything | RedisCacheService.cs:39 | the pattern `*` matches every key |
| KeyPatterns.PrefixStar | Controllers/HomeController.cs:214 | a literal prefix followed by `*` matches a key exactly when the key starts with the prefix |
| SortedSets.RankWindow | RedisCacheService.cs:58-60 | the rank window of start/stop: within the set; the defaults 0 and -1 select the whole set; a stop past the end is clamped; a stop before the start selects nothing; negative indices count from the end |
| SortedSets.ZRange | RedisCacheService.cs:58-61 | a range read returns at most the set's pairs, all from the set, ascending or descending as asked, without repeated members; the default read returns the whole ranking in ascending order |
| SortedSets.TopRanks | Controllers/HomeController.cs:255 | the read of ranks 0 to k-1 in descending order returns min(k, n) pairs in descending score order, and no pair left out scores higher than one returned |
| SortedSets.NonEmptyReadsNonEmpty | Controllers/HomeController.cs:232 | a non-empty set reads as non-empty with the default window and with a top-k window |
| SortedSets.Without | RedisCacheService.cs:64 | the ranking without a member holds exactly the other pairs |
| SortedSets.WithoutKeepsRanking | RedisCacheService.cs:64 | taking a member out keeps the ranking ascending and free of repeated members |
| SortedSets.LowestSlot | RedisCacheService.cs:64 | every score has a place in an ascending ranking |
| SortedSets.InsertKeepsRanking | RedisCacheService.cs:64 | inserting a new member where its score fits keeps the ranking well formed and adds exactly that pair |
| SortedSets.RankingOfTeams | Controllers/HomeController.cs:240-247 | a ranking holding exactly the teams of a list, each scored by its wins, lists a permutation of that list |
| Cache.Lookup | RedisCacheService.cs:48 | one key of MGET: the team when the key holds a string value, nil exactly when the key is missing or holds a sorted set |
| Cache.MGet | RedisCacheService.cs:48 | MGET answers one pair per key asked, in the order asked, each key with its string value or nil when it is missing or holds a sorted set |
| Cache.NonNull | RedisCacheService.cs:50-55 | the filter and projection of MGET's answer keeps every value that is not nil, as many times as it was answered, and drops exactly the nils: its length is the answer's length minus the number of nils |
| Cache.AnswerCount | RedisCacheService.cs:48 | MGET over keys without repeats gives each answer (a value or nil) once per key whose lookup gives it |
| Cache.FilteredMembers | RedisCacheService.cs:45-55 | filtering MGET's reply over the matching keys keeps exactly the values held under matching keys |
| Cache.FilteredCounts | RedisCacheService.cs:45-55 | over the matching keys, each listed once, the filtered reply holds one value per matching key that holds a string: each team as many times as such keys hold it |
| Cache.FilteredBounds | RedisCacheService.cs:45-55 | the filtered reply is no longer than the set of matching keys, and is non-empty exactly when some matching key holds a string |
| Cache.RemoveMatching | RedisCacheService.cs:36-41 | the store after deleting every key that matches the pattern: exactly the keys that do not match, each with its old entry |
| Cache.RemoveMatchingSpec | RedisCacheService.cs:36-41 | deleting the keys that match a pattern leaves none that match, keeps every other key and its entry, changes nothing when nothing matches, and is idempotent |
| Cache.NothingHeldAfterRemoval | RedisCacheService.cs:36-41 | after deleting the matching keys, a pattern read finds no value |
| Cache.RedisCacheService.Get | RedisCacheService.cs:33 | GET returns the string value under a key or nil when missing, and fails with WRONGTYPE exactly on a sorted-set key |
| Cache.RedisCacheService.AddOrUpdate | RedisCacheService.cs:34 | a missing expiry fails (the optional value is read unconditionally) and a non-positive one is refused, both leaving the store alone; otherwise the key is overwritten with the value and its expiry and no other key changes |
| Cache.RedisCacheService.Remove | RedisCacheService.cs:35 | DEL removes the key and nothing else |
| Cache.RedisCacheService.SearchKeys | RedisCacheService.cs:39 | SCAN returns every key that matches the pattern, each once, and no other |
| Cache.RedisCacheService.RemoveByKeyMatch | RedisCacheService.cs:36-41 | the new store is the old one without the matching keys |
| Cache.RedisCacheService.GetByKeyMatch | RedisCacheService.cs:42-56 | returns one value per matching key that holds a string: as many values as such keys, each team as many times as such keys hold it, and something exactly when there is one such key |
| Cache.RedisCacheService.SortedSetAdd | RedisCacheService.cs:64 | on a string key fails with WRONGTYPE and changes nothing; otherwise the key holds a sorted set whose pairs are the old ones minus the member's old pair plus the new pair, and no other key changes |
| Cache.RedisCacheService.SortedSetRangeByRankWithScores | RedisCacheService.cs:58-62 | fails exactly on a string key; with a window starting at rank 0 the answer is empty exactly when the key is missing |
| Home.InsertByWins | Controllers/HomeController.cs:221-223 | inserting adds exactly one team and puts either it or the old head first |
| Home.InsertKeepsOrder | Controllers/HomeController.cs:221-223 | inserting into a list sorted by wins (highest first) keeps it sorted |
| Home.OrderByWinsDescending | Controllers/HomeController.cs:218-226 | the database read is sorted by wins, highest first, and is a permutation of the table |
| Home.OrderingKeepsIds | Controllers/HomeController.cs:221-225 | the database read holds exactly the table's teams, with distinct IDs |
| Home.NatToString | Controllers/HomeController.cs:288 | the decimal form of a number is digits only, one digit exactly below ten |
| Home.NatToStringInjective | Controllers/HomeController.cs:288 | distinct numbers have distinct decimal forms |
| Home.IntToStringInjective | Controllers/HomeController.cs:288 | distinct integers have distinct decimal forms, sign included |
| Home.TeamKeys | Controllers/HomeController.cs:288 | every `team-<ID>` key and `teamsSortedSet` match `team*`; no team key is the sorted-set key; distinct IDs give distinct keys |
| Home.InvalidationEmptiesEveryView | Controllers/HomeController.cs:212-216 | after deleting `team*` there is no sorted set, no team key and no value under the pattern, so the next cached read misses |
| Home.TopFiveSorted | Controllers/HomeController.cs:255 | the top read of a ranking scored by wins has min(5, n) teams, most wins first, and no team twice when the ranking repeats none |
| Home.TopFiveHighest | Controllers/HomeController.cs:255 | the top read returns teams of the set, and the teams left out have no more wins |
| Home.TopFiveOfTeams | Controllers/HomeController.cs:255-262 | the top read of a set populated from the table is the min(5, n) teams of the table with the most wins, each once, most wins first |
| Home.PopulatedSetReadsBack | Controllers/HomeController.cs:240-249 | a set populated from the table reads back as a permutation of the table |
| Home.WinsPairsStep | Controllers/HomeController.cs:243-247 | each ZADD of the population loop adds the next team, scored by its wins, to the pairs written so far |
| Home.WriteListSpec | Controllers/HomeController.cs:286-289 | after the list writes every team sits under `team-<ID>` with the five-minute expiry, and no other key changed |
| Home.WriteListKeepsCache | Controllers/HomeController.cs:286-289 | the list writes keep the store well formed and leave the sorted set alone |
| Home.RemovingOne | Controllers/HomeController.cs:178-180 | removing one team removes exactly the team with its ID and keeps the others' IDs distinct |
| Home.FindById | Controllers/HomeController.cs:178 | the lookup by ID finds the position of the team with that ID, or nothing exactly when no team has it |
| Home.HomeController.GetFromDB | Controllers/HomeController.cs:218-226 | the database read is sorted by wins, highest first, and holds the table's teams with the same multiplicities |
| Home.HomeController.InvalidateCache | Controllers/HomeController.cs:212-216 | the store loses every `team*` key and nothing else; the sorted set is gone and no value is left under the pattern |
| Home.HomeController.GetFromSortedSet | Controllers/HomeController.cs:228-250 | a hit returns the cached members in ascending score order and changes nothing; a miss returns the database read, leaves every team in the set scored by its wins, changes no other key, and the next read returns a permutation of what was returned |
| Home.HomeController.GetFromSortedSetTop5 | Controllers/HomeController.cs:252-268 | returns min(5, n) distinct teams of the set, most wins first, none left out with more wins; on a miss the set is populated from the table first and the answer is the top of the table; empty exactly when there was no set and the table is empty |
| Home.HomeController.GetFromList | Controllers/HomeController.cs:270-292 | a hit returns one value per `team*` key that holds a string (each team as many times as such keys hold it) and changes nothing; a miss returns the database read and writes each team under `team-<ID>` with the five-minute expiry, readable by GET, changing no other key |
| Home.HomeController.WriteTeams | Controllers/HomeController.cs:286-289 | the write loop of a list miss leaves the store as the writes of every team under `team-<ID>` with the five-minute expiry, in order, and keeps it well formed |
| Home.HomeController.PlayGames | Controllers/HomeController.cs:190-202 | the table goes through a season (bounds as above, IDs, names and order kept) and then the cache is invalidated |
| Home.HomeController.RebuildDB | Controllers/HomeController.cs:204-210 | the table is back to its seed rows and the cache is invalidated |
| Home.HomeController.Create | Controllers/HomeController.cs:105-116 | the table never changes and never gains the posted team; a valid form whose lookup returns invalidates the cache and redirects; an invalid form redisplays it and changes nothing |
| Home.HomeController.DeleteConfirmed | Controllers/HomeController.cs:172-183 | with a team of that ID it is removed (exactly it), the cache invalidated and the page redirected; without one the removal throws and nothing changes |
| Home.HomeController.ApplyAction | Controllers/HomeController.cs:29-42 | `playGames` plays a season, `rebuildDB` restores the seed rows, any other action keeps the table; the cache loses every `team*` key after `playGames`, `clearCache` and `rebuildDB` and is unchanged otherwise |
| Home.HomeController.ReadTeams | Controllers/HomeController.cs:47-65 | for each result type, what a hit and a miss return and the cache they leave: the sorted set's members or its population from the table, the top five (each once) of the set or of the table, one value per `team*` key holding a string or the list writes; `fromDB` and unrecognised types return the database read and leave the cache unchanged |
| Home.HomeController.Index | Controllers/HomeController.cs:25-74 | the action runs first, and the read then behaves as that read does on the cache the action left (the old cache, or it without the `team*` keys); after an invalidating action every cached read misses, so the sorted-set and list reads return the database read and the top-five read returns the top of the table |

## Left out

- Asynchrony: every call is one sequential atomic step; concurrent requests, cache stampedes and interleaved SCAN/DEL are not modelled.
- Expiry: entries record the expiry they were written with; time never passes, so keys never expire on their own.
- Transport and server failures of Redis and of the database are not modelled; a call either does what the command does or fails with the error values above.
- Serialisation (protobuf) and the Redis client library's internals: members and values are `Team` values compared structurally.
- `GetAsync` is modelled for `Team` values only, not for an arbitrary type parameter.
- Cache.RedisCacheService.SearchKeys: SCAN can report a key more than once; the model reports each once. `GetByKeyMatchAsync` removes repeats itself with `ToHashSet` (RedisCacheService.cs:48); `RemoveByKeyMatchAsync` passes the keys as they come (RedisCacheService.cs:40), where a repeated key is harmless because deleting a key twice leaves the same store as deleting it once.
- KeyPatterns.Matches: only `*` and `?`; character classes `[...]` and backslash escapes are not modelled (the application's patterns use neither).
- SortedSets.ZRange: the order of members with equal scores is left open by ZADD and is not tied to Redis's lexicographic order of serialised members.
- Home.OrderByWinsDescending: the database's order among teams with equal wins is not specified by the query; the model keeps table order (a stable sort).
- Integer width: team statistics and IDs are unbounded integers; the 32-bit `int` and 64-bit `long` of the source never overflow at these sizes.
- `System.Random` becomes a nondeterministic choice within the bounds; the seed rows' random statistics are the constant `seed`.
- Home.HomeController.Create: the lookup is given the whole posted team as its key; whether the data layer raises on that is a parameter. The method never inserts the team, as written.
- Edit, Details, the GET forms, views, anti-forgery and `ModelState` are MVC plumbing and are not modelled; note that Edit saves without invalidating the cache, so cached reads can be stale after it.
- Home.HomeController.DeleteConfirmed: the branch where the team set itself is null (an error page) is not modelled; the table always exists.
- The stopwatch timing, `ViewBag.msg` messages and console output carry no state the model needs.
- Dependency injection and connection settings (RedisModule.cs, RedisSettings.cs) and the database context's configuration and seeding are not part of this model.
- Home.HomeController.Valid: the controller assumes it is the only writer of `teamsSortedSet`, so that key never holds a string value (which would make the sorted-set reads fail with WRONGTYPE).
