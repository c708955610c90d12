/** The team record that the database holds and the cache stores, and the
    "play a season" operation that rewrites every team's statistics. */
module Teams {

  /** One team. The cache stores serialised copies of every field, so two
      teams are the same cache member exactly when all five fields agree. */
  datatype Team = Team(id: int, name: string, wins: int, losses: int, ties: int)

  /** Upper bounds (exclusive) of the random statistics of one season. */
  const MaxWins := 33
  const MaxLosses := 33
  const MaxTies := 5

  /** `after` is `before` with freshly drawn statistics: same identity and
      name, wins and losses in [0, 33), ties in [0, 5). */
  predicate Replayed(before: Team, after: Team) {
    && after.id == before.id
    && after.name == before.name
    && 0 <= after.wins < MaxWins
    && 0 <= after.losses < MaxLosses
    && 0 <= after.ties < MaxTies
  }

  /** `after` is one possible outcome of a season played by `before`: same
      number and order of teams, every one of them replayed. */
  predicate Season(before: seq<Team>, after: seq<Team>) {
    |after| == |before| && forall i :: 0 <= i < |before| ==> Replayed(before[i], after[i])
  }

  /** No two teams share an ID (the database's primary key). */
  predicate DistinctIds(s: seq<Team>) {
    forall i, j :: 0 <= i < j < |s| ==> s[i].id != s[j].id
  }

  /** Plays a season: every team of `teams` gets new wins, losses and ties,
      each drawn from its range; the draws are left nondeterministic. */
  method PlayGames(teams: array<Team>)
    modifies teams
    ensures Season(old(teams[..]), teams[..])
  {
    for i := 0 to teams.Length
      invariant forall j :: 0 <= j < i ==> Replayed(old(teams[j]), teams[j])
      invariant forall j :: i <= j < teams.Length ==> teams[j] == old(teams[j])
    {
      var w :| 0 <= w < MaxWins;
      var l :| 0 <= l < MaxLosses;
      var t :| 0 <= t < MaxTies;
      teams[i] := teams[i].(wins := w, losses := l, ties := t);
    }
  }

  /** A season keeps each position's ID, so it keeps the IDs distinct and
      every statistic within its range. */
  lemma SeasonKeepsKeys(before: seq<Team>, after: seq<Team>)
    requires Season(before, after)
    ensures DistinctIds(before) <==> DistinctIds(after)
    ensures forall t :: t in after ==> 0 <= t.wins < MaxWins && 0 <= t.losses < MaxLosses && 0 <= t.ties < MaxTies
  {
    forall i, j | 0 <= i < j < |after|
      ensures after[i].id == before[i].id && after[j].id == before[j].id
    {
      assert Replayed(before[i], after[i]) && Replayed(before[j], after[j]);
    }
    forall t | t in after
      ensures 0 <= t.wins < MaxWins && 0 <= t.losses < MaxLosses && 0 <= t.ties < MaxTies
    {
      var i :| 0 <= i < |after| && after[i] == t;
      assert Replayed(before[i], after[i]);
    }
  }
}
