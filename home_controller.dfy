/** The cache-aside orchestration of the team statistics page: four ways to
    read the teams (straight from the database, the full sorted set, the top
    five of the sorted set, one cache key per team), wildcard invalidation,
    and the actions that change the database and then invalidate. */
module Home {
  import opened Teams
  import opened SeqFacts
  import opened KeyPatterns
  import opened SortedSets
  import opened Cache

  /** The key of the sorted set of all teams, scored by wins. */
  const SortedSetKey := "teamsSortedSet"
  /** The pattern of every team key: the sorted set and the per-team keys. */
  const TeamPattern := "team*"
  /** The expiry of a per-team key: five minutes, in milliseconds. */
  const ListExpiry := 300000
  /** How many teams the top read returns (ranks 0 to 4). */
  const TopCount := 5

  predicate SortedByWinsDesc(s: seq<Team>) {
    forall i, j :: 0 <= i < j < |s| ==> s[i].wins >= s[j].wins
  }

  /** A team with at least as many wins as the head of a sorted list may go
      in front of it. */
  lemma ConsSorted(a: Team, s: seq<Team>)
    requires SortedByWinsDesc(s) && (s == [] || a.wins >= s[0].wins)
    ensures SortedByWinsDesc([a] + s)
  {
    var r := [a] + s;
    forall i, j | 0 <= i < j < |r|
      ensures r[i].wins >= r[j].wins
    {
      assert r[j] == s[j - 1];
      if i > 0 {
        assert r[i] == s[i - 1];
      } else if j > 1 {
        assert s[0].wins >= s[j - 1].wins;
      }
    }
  }

  /** `t` placed in front of the first team of `s` with no more wins. */
  function InsertByWins(t: Team, s: seq<Team>): (r: seq<Team>)
    ensures multiset(r) == multiset(s) + multiset{t}
    ensures r[0] == t || (s != [] && r[0] == s[0])
  {
    if s == [] || t.wins >= s[0].wins then [t] + s
    else
      assert s == [s[0]] + s[1..];
      [s[0]] + InsertByWins(t, s[1..])
  }

  /** Inserting into a list sorted by wins keeps it sorted. */
  lemma {:induction false} InsertKeepsOrder(t: Team, s: seq<Team>)
    requires SortedByWinsDesc(s)
    ensures SortedByWinsDesc(InsertByWins(t, s))
  {
    if s == [] || t.wins >= s[0].wins {
      ConsSorted(t, s);
    } else {
      var tail := s[1..];
      assert SortedByWinsDesc(tail) by {
        forall i, j | 0 <= i < j < |tail| ensures tail[i].wins >= tail[j].wins {
          assert tail[i] == s[i + 1] && tail[j] == s[j + 1];
        }
      }
      InsertKeepsOrder(t, tail);
      var rest := InsertByWins(t, tail);
      assert s[0].wins >= rest[0].wins by {
        if rest[0] != t {
          assert rest[0] == s[1];
        }
      }
      ConsSorted(s[0], rest);
    }
  }

  /** The database query ordered by wins, highest first. Teams with equal
      wins keep their database order. */
  function OrderByWinsDescending(s: seq<Team>): (r: seq<Team>)
    ensures SortedByWinsDesc(r)
    ensures multiset(r) == multiset(s)
  {
    if s == [] then []
    else
      assert s == [s[0]] + s[1..];
      var rest := OrderByWinsDescending(s[1..]);
      InsertKeepsOrder(s[0], rest);
      InsertByWins(s[0], rest)
  }

  /** Teams with distinct IDs are distinct teams. */
  lemma IdsMakeDistinct(s: seq<Team>)
    requires DistinctIds(s)
    ensures Distinct(s)
  {
    forall i, j | 0 <= i < j < |s|
      ensures s[i] != s[j]
    {
      assert s[i].id != s[j].id;
    }
  }

  /** A reordering of teams with distinct IDs keeps the IDs distinct. */
  lemma PermutationKeepsIds(a: seq<Team>, b: seq<Team>)
    requires DistinctIds(a) && multiset(a) == multiset(b)
    ensures DistinctIds(b)
  {
    IdsMakeDistinct(a);
    PermutationKeepsDistinct(a, b);
    forall i, j | 0 <= i < j < |b|
      ensures b[i].id != b[j].id
    {
      assert b[i] in multiset(a) && b[j] in multiset(a);
      var x :| 0 <= x < |a| && a[x] == b[i];
      var y :| 0 <= y < |a| && a[y] == b[j];
      assert x != y;
    }
  }

  /** Ordering keeps the teams, so it keeps their IDs distinct. */
  lemma OrderingKeepsIds(s: seq<Team>)
    requires DistinctIds(s)
    ensures Distinct(s) && Distinct(OrderByWinsDescending(s))
    ensures DistinctIds(OrderByWinsDescending(s))
    ensures forall t :: t in OrderByWinsDescending(s) <==> t in s
  {
    var r := OrderByWinsDescending(s);
    IdsMakeDistinct(s);
    PermutationKeepsIds(s, r);
    IdsMakeDistinct(r);
    forall t
      ensures t in r <==> t in s
    {
      assert t in r <==> t in multiset(r);
      assert t in s <==> t in multiset(s);
    }
  }

  function Digit(d: int): char
    requires 0 <= d < 10
  {
    (48 + d) as char
  }

  /** The decimal digits of `n`. */
  function NatToString(n: nat): (s: string)
    ensures 1 <= |s|
    ensures |s| == 1 <==> n < 10
    ensures forall i :: 0 <= i < |s| ==> '0' <= s[i] <= '9'
    decreases n
  {
    if n < 10 then [Digit(n)] else NatToString(n / 10) + [Digit(n % 10)]
  }

  /** An integer in decimal, with a leading minus when negative. */
  function IntToString(i: int): string {
    if i < 0 then "-" + NatToString(-i) else NatToString(i)
  }

  /** Distinct numbers have distinct decimal digits. */
  lemma {:induction false} NatToStringInjective(a: nat, b: nat)
    requires NatToString(a) == NatToString(b)
    ensures a == b
    decreases a
  {
    if a >= 10 && b >= 10 {
      var sa, sb := NatToString(a / 10), NatToString(b / 10);
      assert sa + [Digit(a % 10)] == sb + [Digit(b % 10)];
      assert |sa| == |sb|;
      assert sa == (sa + [Digit(a % 10)])[..|sa|];
      assert sb == (sb + [Digit(b % 10)])[..|sb|];
      NatToStringInjective(a / 10, b / 10);
      assert Digit(a % 10) == NatToString(a)[|sa|] == Digit(b % 10);
    }
  }

  lemma IntToStringInjective(a: int, b: int)
    ensures IntToString(a) == IntToString(b) ==> a == b
  {
    assert IntToString(a)[0] == '-' <==> a < 0;
    assert IntToString(b)[0] == '-' <==> b < 0;
    if IntToString(a) == IntToString(b) {
      if a < 0 && b < 0 {
        assert NatToString(-a) == IntToString(a)[1..];
        assert NatToString(-b) == IntToString(b)[1..];
        NatToStringInjective(-a, -b);
      } else if a >= 0 && b >= 0 {
        NatToStringInjective(a, b);
      }
    }
  }

  /** The per-team cache key, "team-" followed by the ID. */
  function TeamKey(id: int): string {
    "team-" + IntToString(id)
  }

  /** Every per-team key and the sorted-set key fall under the invalidation
      pattern; no per-team key is the sorted-set key; distinct IDs give
      distinct keys. */
  lemma TeamKeys(a: int, b: int)
    ensures Matches(TeamPattern, TeamKey(a)) && Matches(TeamPattern, SortedSetKey)
    ensures TeamKey(a) != SortedSetKey
    ensures TeamKey(a) == TeamKey(b) <==> a == b
  {
    assert TeamPattern == "team" + "*";
    assert Literal("team");
    PrefixStar("team", TeamKey(a));
    PrefixStar("team", SortedSetKey);
    assert TeamKey(a)[4] == '-' && SortedSetKey[4] == 's';
    if TeamKey(a) == TeamKey(b) {
      assert IntToString(a) == TeamKey(a)[5..] && IntToString(b) == TeamKey(b)[5..];
      IntToStringInjective(a, b);
    }
  }

  /** After invalidation no cached read can hit: the sorted set is gone, no
      per-team key is left, and no key under the pattern holds a value. */
  lemma InvalidationEmptiesEveryView(m: Store)
    ensures SortedSetKey !in RemoveMatching(m, TeamPattern)
    ensures forall id :: TeamKey(id) !in RemoveMatching(m, TeamPattern)
    ensures !HoldsValues(RemoveMatching(m, TeamPattern), TeamPattern)
  {
    TeamKeys(0, 0);
    forall id
      ensures TeamKey(id) !in RemoveMatching(m, TeamPattern)
    {
      TeamKeys(id, id);
    }
    NothingHeldAfterRemoval(m, TeamPattern);
  }

  /** The ranking cached under the sorted-set key; empty when it is absent. */
  function CachedRanking(m: Store): seq<Scored> {
    if SortedSetKey in m && m[SortedSetKey].ZSet? then m[SortedSetKey].ranking else []
  }

  /** What the controller keeps true of the cache: the sorted-set key, when
      present, holds a sorted set, and every team in it is scored by its
      wins. */
  ghost predicate ScoredByWins(m: Store) {
    && (SortedSetKey in m ==> m[SortedSetKey].ZSet?)
    && forall p :: p in ZPairs(m, SortedSetKey) ==> p.score == p.member.wins
  }

  /** The members of a descending ranking scored by wins are sorted by
      wins. */
  lemma DescendingByWins(r: seq<Scored>)
    requires Descend(r)
    requires forall p :: p in r ==> p.score == p.member.wins
    ensures SortedByWinsDesc(Members(r))
  {
    var teams := Members(r);
    forall i, j | 0 <= i < j < |teams|
      ensures teams[i].wins >= teams[j].wins
    {
      assert r[i] in r && r[j] in r;
    }
  }

  /** The top read of a ranking scored by wins: at most five teams, most
      wins first, none of them twice when the ranking has no repeats. */
  lemma TopFiveSorted(z: seq<Scored>)
    requires Ascend(z)
    requires forall p :: p in z ==> p.score == p.member.wins
    ensures |Members(ZRange(z, 0, TopCount - 1, Descending))| == (if |z| < TopCount then |z| else TopCount)
    ensures SortedByWinsDesc(Members(ZRange(z, 0, TopCount - 1, Descending)))
    ensures DistinctMembers(z) ==> Distinct(Members(ZRange(z, 0, TopCount - 1, Descending)))
  {
    TopRanks(z, TopCount);
    DescendingByWins(ZRange(z, 0, TopCount - 1, Descending));
    if DistinctMembers(z) {
      MembersDistinct(ZRange(z, 0, TopCount - 1, Descending));
    }
  }

  /** A team the top read returns is a team of the ranking. */
  lemma TopFiveMember(z: seq<Scored>, t: Team)
    requires Ascend(z)
    requires t in Members(ZRange(z, 0, TopCount - 1, Descending))
    ensures t in Members(z)
  {
    var r := ZRange(z, 0, TopCount - 1, Descending);
    var teams := Members(r);
    var i :| 0 <= i < |teams| && teams[i] == t;
    assert r[i] in r;
    var j :| 0 <= j < |z| && z[j] == r[i];
    assert Members(z)[j] == t;
  }

  /** When no pair of `z` left out of `r` outscores a pair of `r`, and every
      pair is scored by its team's wins, no team of `z` left out of `r` has
      more wins than a team of `r`. */
  lemma LeftOutHasNoMoreWins(r: seq<Scored>, z: seq<Scored>, t: Team, u: Team)
    requires forall p :: p in z ==> p.score == p.member.wins
    requires forall p :: p in r ==> p in z
    requires forall p, q :: p in r && q in z && q !in r ==> q.score <= p.score
    requires t in Members(r) && u in Members(z) && u !in Members(r)
    ensures u.wins <= t.wins
  {
    var teams, ms := Members(r), Members(z);
    var i :| 0 <= i < |teams| && teams[i] == t;
    var j :| 0 <= j < |z| && ms[j] == u;
    forall k | 0 <= k < |r|
      ensures r[k] != z[j]
    {
      assert teams[k] in teams;
    }
    assert r[i] in r && z[j] in z;
  }

  /** The top read returns teams of the ranking, and no team of the ranking
      left out has more wins than one returned. */
  lemma TopFiveHighest(z: seq<Scored>)
    requires Ascend(z)
    requires forall p :: p in z ==> p.score == p.member.wins
    ensures var teams := Members(ZRange(z, 0, TopCount - 1, Descending));
      && (forall t :: t in teams ==> t in Members(z))
      && (forall t, u :: t in teams && u in Members(z) && u !in teams ==> u.wins <= t.wins)
  {
    var r := ZRange(z, 0, TopCount - 1, Descending);
    var teams := Members(r);
    forall t | t in teams
      ensures t in Members(z)
    {
      TopFiveMember(z, t);
    }
    TopRanks(z, TopCount);
    forall t, u | t in teams && u in Members(z) && u !in teams
      ensures u.wins <= t.wins
    {
      LeftOutHasNoMoreWins(r, z, t, u);
    }
  }

  /** The top read of a sorted set populated from `db` (every team scored
      by its wins): the min(5, |db|) teams of `db` with the most wins, most
      wins first. */
  lemma TopFiveOfTeams(z: seq<Scored>, db: seq<Team>)
    requires Ranked(z) && DistinctIds(db)
    requires Pairs(z) == WinsPairs(db)
    ensures var teams := Members(ZRange(z, 0, TopCount - 1, Descending));
      && |teams| == (if |db| < TopCount then |db| else TopCount)
      && SortedByWinsDesc(teams)
      && Distinct(teams)
      && (forall t :: t in teams ==> t in db)
      && (forall t, u :: t in teams && u in db && u !in teams ==> u.wins <= t.wins)
  {
    IdsMakeDistinct(db);
    RankingOfTeams(z, db);
    assert forall p :: p in z ==> p.score == p.member.wins by {
      forall p | p in z
        ensures p.score == p.member.wins
      {
        assert p in Pairs(z);
      }
    }
    TopFiveSorted(z);
    TopFiveHighest(z);
  }

  /** A sorted set populated from `db` reads back as a permutation of `db`:
      the same teams, but in ascending score order rather than the
      database's descending one, with ties in any order. */
  lemma PopulatedSetReadsBack(c: RedisCacheService, db: seq<Team>)
    requires c.Valid() && ScoredByWins(c.store) && DistinctIds(db)
    requires ZPairs(c.store, SortedSetKey) == WinsPairs(db)
    requires SortedSetKey in c.store || db == []
    ensures c.SortedSetRangeByRankWithScores(SortedSetKey).Success?
    ensures multiset(c.SortedSetRangeByRankWithScores(SortedSetKey).value) == multiset(db)
  {
    OrderingKeepsIds(db);
    if SortedSetKey in c.store {
      assert WellFormed(c.store[SortedSetKey]);
      var z := c.store[SortedSetKey].ranking;
      RankingOfTeams(z, db);
    }
  }

  /** One more ZADD of the population loop: the pairs written so far, with
      the next team scored by its wins. */
  lemma WinsPairsStep(s: seq<Team>, i: nat)
    requires Distinct(s) && i < |s|
    ensures forall p :: p in WinsPairs(s[..i]) ==> p.member != s[i]
    ensures (set p | p in WinsPairs(s[..i]) && p.member != s[i]) + {Scored(s[i], s[i].wins)} == WinsPairs(s[..i + 1])
  {
    assert s[..i + 1] == s[..i] + [s[i]];
    forall p | p in WinsPairs(s[..i])
      ensures p.member != s[i]
    {
      var j :| 0 <= j < i && s[j] == p.member;
    }
  }

  /** The writes the per-team read makes for `s`: each team under its own
      key. */
  function ListEntries(s: seq<Team>): seq<(string, Team)> {
    seq(|s|, i requires 0 <= i < |s| => (TeamKey(s[i].id), s[i]))
  }

  /** The cache keys the per-team read writes for `s`. */
  function ListKeys(s: seq<Team>): set<string> {
    set t | t in s :: TeamKey(t.id)
  }

  /** The store after the writes of `e`, in order, each with the five-minute
      expiry. */
  function WriteAll(m: Store, e: seq<(string, Team)>): Store
    decreases |e|
  {
    if e == [] then m
    else WriteAll(m, e[..|e| - 1])[e[|e| - 1].0 := Str(e[|e| - 1].1, ListExpiry)]
  }

  /** Writes to distinct keys each leave their value. */
  lemma {:induction false} WriteAllHolds(m: Store, e: seq<(string, Team)>)
    requires forall i, j :: 0 <= i < j < |e| ==> e[i].0 != e[j].0
    ensures forall i :: 0 <= i < |e| ==> e[i].0 in WriteAll(m, e) && WriteAll(m, e)[e[i].0] == Str(e[i].1, ListExpiry)
    decreases |e|
  {
    if e != [] {
      var front := e[..|e| - 1];
      assert forall i :: 0 <= i < |front| ==> front[i] == e[i];
      WriteAllHolds(m, front);
    }
  }

  /** The writes of `e` change no key they do not name. */
  lemma {:induction false} WriteAllAgrees(m: Store, e: seq<(string, Team)>)
    ensures AgreeOutside(m, WriteAll(m, e), set p | p in e :: p.0)
    decreases |e|
  {
    if e != [] {
      var front := e[..|e| - 1];
      WriteAllAgrees(m, front);
      assert forall p :: p in front ==> p in e by {
        assert e == front + [e[|e| - 1]];
      }
    }
  }

  /** The per-team keys of teams with distinct IDs are distinct. */
  lemma ListEntriesDistinct(s: seq<Team>)
    requires DistinctIds(s)
    ensures forall i, j :: 0 <= i < j < |s| ==> ListEntries(s)[i].0 != ListEntries(s)[j].0
    ensures (set p | p in ListEntries(s) :: p.0) == ListKeys(s)
  {
    var e := ListEntries(s);
    forall i, j | 0 <= i < j < |s|
      ensures e[i].0 != e[j].0
    {
      TeamKeys(s[i].id, s[j].id);
    }
    forall k | k in ListKeys(s)
      ensures k in set p | p in e :: p.0
    {
      var t :| t in s && k == TeamKey(t.id);
      var i :| 0 <= i < |s| && s[i] == t;
      assert e[i] in e;
    }
  }

  /** The store after the per-team read's writes for `s`. */
  function WriteList(m: Store, s: seq<Team>): Store {
    WriteAll(m, ListEntries(s))
  }

  /** Writing teams with distinct IDs leaves each team under its own key and
      every other key as it was. */
  lemma WriteListSpec(m: Store, s: seq<Team>)
    requires DistinctIds(s)
    ensures forall t :: t in s ==> TeamKey(t.id) in WriteList(m, s) && WriteList(m, s)[TeamKey(t.id)] == Str(t, ListExpiry)
    ensures AgreeOutside(m, WriteList(m, s), ListKeys(s))
  {
    var e := ListEntries(s);
    ListEntriesDistinct(s);
    WriteAllHolds(m, e);
    WriteAllAgrees(m, e);
    forall t | t in s
      ensures TeamKey(t.id) in WriteList(m, s) && WriteList(m, s)[TeamKey(t.id)] == Str(t, ListExpiry)
    {
      var i :| 0 <= i < |s| && s[i] == t;
      assert e[i].0 == TeamKey(t.id);
    }
  }

  /** Writing the per-team keys keeps the store well formed and leaves the
      sorted set alone. */
  lemma WriteListKeepsCache(m: Store, s: seq<Team>)
    requires DistinctIds(s)
    requires forall k :: k in m ==> WellFormed(m[k])
    ensures forall k :: k in WriteList(m, s) ==> WellFormed(WriteList(m, s)[k])
    ensures SortedSetKey in WriteList(m, s) <==> SortedSetKey in m
    ensures SortedSetKey in m ==> WriteList(m, s)[SortedSetKey] == m[SortedSetKey]
  {
    var w := WriteList(m, s);
    WriteListSpec(m, s);
    forall k | k in w
      ensures WellFormed(w[k])
    {
      if k in ListKeys(s) {
        var t :| t in s && k == TeamKey(t.id);
      }
    }
    TeamKeys(0, 0);
    forall t | t in s
      ensures TeamKey(t.id) != SortedSetKey
    {
      TeamKeys(t.id, t.id);
    }
  }

  /** Taking one team out of a list with distinct IDs takes out exactly the
      team with that ID and keeps the other IDs distinct. */
  lemma RemovingOne(s: seq<Team>, k: nat)
    requires k < |s| && DistinctIds(s)
    ensures var r := s[..k] + s[k + 1..];
      && |r| == |s| - 1
      && (forall t :: t in r <==> t in s && t.id != s[k].id)
      && DistinctIds(r)
  {
    var r := s[..k] + s[k + 1..];
    assert forall j :: 0 <= j < |r| ==> r[j] == s[if j < k then j else j + 1];
    forall t
      ensures t in r <==> t in s && t.id != s[k].id
    {
      if t in s && t.id != s[k].id {
        var j :| 0 <= j < |s| && s[j] == t;
        assert r[if j < k then j else j - 1] == t;
      }
    }
  }

  /** `teams` is what a top-five read of the teams `pool` gives: min(5, n)
      of them, each once, most wins first, and none of `pool` left out with
      more wins than one returned. */
  predicate TopFiveOf(teams: seq<Team>, pool: seq<Team>) {
    && |teams| == (if |pool| < TopCount then |pool| else TopCount)
    && SortedByWinsDesc(teams)
    && Distinct(teams)
    && (forall t :: t in teams ==> t in pool)
    && (forall t, u :: t in teams && u in pool && u !in teams ==> u.wins <= t.wins)
  }

  /** The actions of a page request that invalidate the cache. */
  predicate Invalidates(actionType: string) {
    actionType == "playGames" || actionType == "clearCache" || actionType == "rebuildDB"
  }

  /** The cache after the action of a page request: all `team*` keys gone
      when the action invalidates, otherwise as it was. */
  function AfterAction(actionType: string, m: Store): Store {
    if Invalidates(actionType) then RemoveMatching(m, TeamPattern) else m
  }

  /** What the read of a page request returns and leaves in the cache,
      starting from the cache `m` and the table `db` and ending with the
      cache `m'`: for each result type, its hit and its miss. */
  ghost predicate ReadOutcome(resultType: string, m: Store, db: seq<Team>, teams: seq<Team>, m': Store) {
    if resultType == "teamsSortedSet" then
      if SortedSetKey in m then teams == Members(CachedRanking(m)) && m' == m
      else
        && teams == OrderByWinsDescending(db)
        && ZPairs(m', SortedSetKey) == WinsPairs(db)
        && AgreeOutside(m, m', {SortedSetKey})
    else if resultType == "teamsSortedSetTop5" then
      if SortedSetKey in m then m' == m && TopFiveOf(teams, Members(CachedRanking(m)))
      else
        && TopFiveOf(teams, db)
        && ZPairs(m', SortedSetKey) == WinsPairs(db)
        && AgreeOutside(m, m', {SortedSetKey})
    else if resultType == "teamsList" then
      if HoldsValues(m, TeamPattern) then
        && m' == m
        && (forall t :: t in teams <==> HeldUnder(m, TeamPattern, t))
        && (forall t :: multiset(teams)[t] == |KeysHolding(m, TeamPattern, t)|)
        && |teams| == |HeldKeys(m, TeamPattern)|
      else teams == OrderByWinsDescending(db) && m' == WriteList(m, teams)
    else teams == OrderByWinsDescending(db) && m' == m
  }

  /** How a form post ends: a redirect to the index page, the form shown
      again, or an exception out of the data layer. */
  datatype Response = RedirectToIndex | RedisplayForm | ArgumentNullError | LookupError

  /** The position of the team with ID `id`, if any. */
  function FindById(s: seq<Team>, id: int): (r: Option<nat>)
    ensures r.Some? ==> r.value < |s| && s[r.value].id == id
    ensures r.None? <==> forall t :: t in s ==> t.id != id
  {
    if s == [] then None
    else if s[0].id == id then Some(0)
    else
      var rest := FindById(s[1..], id);
      assert forall t :: t in s ==> t == s[0] || t in s[1..];
      if rest.Some? then Some(rest.value + 1) else None
  }

  class HomeController {
    /** The database's team table, in storage order. */
    var db: seq<Team>
    /** The rows the database is rebuilt with (its seed data). */
    const seed: seq<Team>
    const cache: RedisCacheService

    ghost predicate Valid()
      reads this, cache
    {
      && cache.Valid()
      && DistinctIds(db) && DistinctIds(seed)
      && ScoredByWins(cache.store)
    }

    constructor (db: seq<Team>, seed: seq<Team>, cache: RedisCacheService)
      requires cache.Valid() && ScoredByWins(cache.store)
      requires DistinctIds(db) && DistinctIds(seed)
      ensures Valid()
      ensures this.db == db && this.seed == seed && this.cache == cache
    {
      this.db := db;
      this.seed := seed;
      this.cache := cache;
    }

    /** The teams straight from the database, most wins first. */
    function GetFromDB(): (r: seq<Team>)
      reads this
      ensures SortedByWinsDesc(r)
      ensures multiset(r) == multiset(db)
    {
      OrderByWinsDescending(db)
    }

    /** Deletes every key under "team*": the sorted set and every per-team
        key. */
    method InvalidateCache()
      requires Valid()
      modifies cache
      ensures Valid()
      ensures cache.store == RemoveMatching(old(cache.store), TeamPattern)
      ensures SortedSetKey !in cache.store && !HoldsValues(cache.store, TeamPattern)
    {
      cache.RemoveByKeyMatch(TeamPattern);
      InvalidationEmptiesEveryView(old(cache.store));
    }

    /** The full sorted set. A hit returns the cached members in ascending
        score order and leaves the cache alone. A miss (the read comes back
        empty, which is what a missing key gives) reads the database, adds
        every team with its wins as score, and returns the database order. */
    method GetFromSortedSet() returns (teams: seq<Team>)
      requires Valid()
      modifies cache
      ensures Valid()
      ensures SortedSetKey in old(cache.store) ==>
                teams == Members(CachedRanking(old(cache.store))) && cache.store == old(cache.store)
      ensures SortedSetKey !in old(cache.store) ==>
                && teams == OrderByWinsDescending(db)
                && ZPairs(cache.store, SortedSetKey) == WinsPairs(db)
                && (SortedSetKey in cache.store <==> db != [])
                && AgreeOutside(old(cache.store), cache.store, {SortedSetKey})
                && cache.SortedSetRangeByRankWithScores(SortedSetKey).Success?
                && multiset(cache.SortedSetRangeByRankWithScores(SortedSetKey).value) == multiset(teams)
    {
      var cached := cache.SortedSetRangeByRankWithScores(SortedSetKey);
      if cached.value != [] {
        teams := cached.value;
        return;
      }
      teams := GetFromDB();
      OrderingKeepsIds(db);
      for i := 0 to |teams|
        invariant cache.Valid() && ScoredByWins(cache.store)
        invariant ZPairs(cache.store, SortedSetKey) == WinsPairs(teams[..i])
        invariant SortedSetKey in cache.store <==> i > 0
        invariant AgreeOutside(old(cache.store), cache.store, {SortedSetKey})
      {
        WinsPairsStep(teams, i);
        var _ := cache.SortedSetAdd(SortedSetKey, teams[i], teams[i].wins);
      }
      assert teams[..|teams|] == teams;
      assert WinsPairs(teams) == WinsPairs(db);
      PopulatedSetReadsBack(cache, db);
    }

    /** The five teams with the most wins, from the sorted set. An empty
        answer triggers a full population of the set (the call above) and a
        second read, so the answer is empty only when the database is. */
    method GetFromSortedSetTop5() returns (teams: seq<Team>)
      requires Valid()
      modifies cache
      ensures Valid()
      ensures TopFiveOf(teams, Members(CachedRanking(cache.store)))
      ensures SortedSetKey in old(cache.store) ==> cache.store == old(cache.store)
      ensures SortedSetKey !in old(cache.store) ==>
                && ZPairs(cache.store, SortedSetKey) == WinsPairs(db)
                && AgreeOutside(old(cache.store), cache.store, {SortedSetKey})
                && TopFiveOf(teams, db)
      ensures teams == [] <==> SortedSetKey !in old(cache.store) && db == []
    {
      var top := cache.SortedSetRangeByRankWithScores(SortedSetKey, stop := TopCount - 1, order := Descending);
      if |top.value| == 0 {
        var _ := GetFromSortedSet();
        top := cache.SortedSetRangeByRankWithScores(SortedSetKey, stop := TopCount - 1, order := Descending);
      }
      teams := top.value;
      var z := CachedRanking(cache.store);
      assert forall p :: p in z ==> p.score == p.member.wins by {
        assert forall p :: p in z ==> p in ZPairs(cache.store, SortedSetKey);
      }
      assert SortedSetKey in cache.store ==> WellFormed(cache.store[SortedSetKey]);
      TopFiveSorted(z);
      TopFiveHighest(z);
      if SortedSetKey !in old(cache.store) {
        assert Pairs(z) == ZPairs(cache.store, SortedSetKey);
        TopFiveOfTeams(z, db);
      }
    }

    /** The teams from one cache key per team. A hit returns the values of
        all keys under "team*" (the sorted set under that pattern reads as
        nil and drops out) in no particular order. A miss reads the
        database and writes every team under "team-<ID>" with a five-minute
        expiry, and returns the database order. */
    method GetFromList() returns (teams: seq<Team>)
      requires Valid()
      modifies cache
      ensures Valid()
      ensures HoldsValues(old(cache.store), TeamPattern) ==>
                && cache.store == old(cache.store)
                && (forall t :: t in teams <==> HeldUnder(cache.store, TeamPattern, t))
                && (forall t :: multiset(teams)[t] == |KeysHolding(cache.store, TeamPattern, t)|)
                && |teams| == |HeldKeys(cache.store, TeamPattern)|
      ensures !HoldsValues(old(cache.store), TeamPattern) ==>
                && teams == OrderByWinsDescending(db)
                && cache.store == WriteList(old(cache.store), teams)
                && (forall t :: t in db ==> cache.Get(TeamKey(t.id)) == Success(Some(t)))
                && (forall t :: t in db ==> cache.store[TeamKey(t.id)] == Str(t, ListExpiry))
                && AgreeOutside(old(cache.store), cache.store, ListKeys(db))
    {
      var cached := cache.GetByKeyMatch(TeamPattern);
      if cached != [] {
        teams := cached;
        return;
      }
      teams := GetFromDB();
      WriteTeams(teams);
      OrderingKeepsIds(db);
      WriteListSpec(old(cache.store), teams);
      WriteListKeepsCache(old(cache.store), teams);
      assert ListKeys(teams) == ListKeys(db);
    }

    /** The write loop of a list miss: every team, in order, under its own
        key with the five-minute expiry. */
    method WriteTeams(teams: seq<Team>)
      requires cache.Valid()
      modifies cache
      ensures cache.Valid()
      ensures cache.store == WriteList(old(cache.store), teams)
    {
      var writes := ListEntries(teams);
      for i := 0 to |writes|
        invariant cache.Valid()
        invariant cache.store == WriteAll(old(cache.store), writes[..i])
      {
        assert writes[..i + 1][..i] == writes[..i];
        var _ := cache.AddOrUpdate(writes[i].0, writes[i].1, Some(ListExpiry));
      }
      assert writes[..|writes|] == writes;
    }

    /** Plays a season over every team of the database, saves, and
        invalidates the cache. */
    method PlayGames()
      requires Valid()
      modifies this, cache
      ensures Valid()
      ensures Season(old(db), db)
      ensures cache.store == RemoveMatching(old(cache.store), TeamPattern)
    {
      var current := db;
      var table := new Team[|current|](i requires 0 <= i < |current| => current[i]);
      Teams.PlayGames(table);
      db := table[..];
      SeasonKeepsKeys(current, db);
      InvalidateCache();
    }

    /** Drops and recreates the database, which comes back with its seed
        rows, and invalidates the cache. */
    method RebuildDB()
      requires Valid()
      modifies this, cache
      ensures Valid()
      ensures db == seed
      ensures cache.store == RemoveMatching(old(cache.store), TeamPattern)
    {
      db := seed;
      InvalidateCache();
    }

    /** The create form's post. With a valid form it looks the posted team
        up instead of adding it, saves (nothing is pending) and invalidates
        the cache, so the database never gains the team. The lookup is given
        the whole team as its key; whether the data layer raises on that is
        outside this model and is the parameter `lookupRaises`, in which case
        nothing is saved or invalidated. */
    method Create(team: Team, formValid: bool, lookupRaises: bool) returns (response: Response)
      requires Valid()
      modifies cache
      ensures Valid()
      ensures db == old(db)
      ensures formValid && !lookupRaises ==>
                response == RedirectToIndex && cache.store == RemoveMatching(old(cache.store), TeamPattern)
      ensures formValid && lookupRaises ==> response == LookupError && cache.store == old(cache.store)
      ensures !formValid ==> response == RedisplayForm && cache.store == old(cache.store)
    {
      if !formValid {
        return RedisplayForm;
      }
      if lookupRaises {
        return LookupError;
      }
      InvalidateCache();
      response := RedirectToIndex;
    }

    /** The delete form's post: removes the team with ID `id` and invalidates
        the cache. With no such team the lookup yields null and removing it
        throws before anything is saved or invalidated. */
    method DeleteConfirmed(id: int) returns (response: Response)
      requires Valid()
      modifies this, cache
      ensures Valid()
      ensures response == RedirectToIndex <==> exists t :: t in old(db) && t.id == id
      ensures response == RedirectToIndex ==>
                && (forall t :: t in db <==> t in old(db) && t.id != id)
                && |db| == |old(db)| - 1
                && cache.store == RemoveMatching(old(cache.store), TeamPattern)
      ensures response != RedirectToIndex ==>
                response == ArgumentNullError && db == old(db) && cache.store == old(cache.store)
    {
      var found := FindById(db, id);
      if found.None? {
        return ArgumentNullError;
      }
      RemovingOne(db, found.value);
      db := db[..found.value] + db[found.value + 1..];
      InvalidateCache();
      response := RedirectToIndex;
    }

    /** The action of a page request: play a season, clear the cache or
        rebuild the database; anything else does nothing. */
    method ApplyAction(actionType: string)
      requires Valid()
      modifies this, cache
      ensures Valid()
      ensures actionType == "playGames" ==> Season(old(db), db)
      ensures actionType == "rebuildDB" ==> db == seed
      ensures actionType != "playGames" && actionType != "rebuildDB" ==> db == old(db)
      ensures cache.store == AfterAction(actionType, old(cache.store))
    {
      if actionType == "playGames" {
        PlayGames();
      } else if actionType == "clearCache" {
        InvalidateCache();
      } else if actionType == "rebuildDB" {
        RebuildDB();
      }
    }

    /** The read of a page request: the full sorted set, its top five, the
        per-team keys, or (for "fromDB" and anything unrecognised) the
        database. */
    method ReadTeams(resultType: string) returns (teams: seq<Team>)
      requires Valid()
      modifies cache
      ensures Valid()
      ensures ReadOutcome(resultType, old(cache.store), db, teams, cache.store)
    {
      if resultType == "teamsSortedSet" {
        teams := GetFromSortedSet();
      } else if resultType == "teamsSortedSetTop5" {
        teams := GetFromSortedSetTop5();
      } else if resultType == "teamsList" {
        teams := GetFromList();
      } else {
        teams := GetFromDB();
      }
    }

    /** One page request: apply `actionType` first, then read the teams the
        way `resultType` asks, from the cache the action left. After an
        invalidating action every cached read misses, so it returns what
        the database gives. */
    method Index(actionType: string, resultType: string) returns (teams: seq<Team>)
      requires Valid()
      modifies this, cache
      ensures Valid()
      ensures actionType == "playGames" ==> Season(old(db), db)
      ensures actionType == "rebuildDB" ==> db == seed
      ensures actionType != "playGames" && actionType != "rebuildDB" ==> db == old(db)
      ensures ReadOutcome(resultType, AfterAction(actionType, old(cache.store)), db, teams, cache.store)
      ensures Invalidates(actionType) && resultType != "teamsSortedSetTop5" ==> teams == OrderByWinsDescending(db)
      ensures Invalidates(actionType) && resultType == "teamsSortedSetTop5" ==> TopFiveOf(teams, db)
    {
      ApplyAction(actionType);
      if Invalidates(actionType) {
        InvalidationEmptiesEveryView(old(cache.store));
      }
      teams := ReadTeams(resultType);
    }
  }
}
