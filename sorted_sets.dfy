/** Redis sorted sets (ZADD, ZRANGE by rank with optional REV) over members
    that are whole `Team` values and integer scores. A sorted set is kept as
    its ranking: the members in ascending score order, each member once.
    Among equal scores the ranking order is whatever the set holds; nothing
    here depends on it. */
module SortedSets {
  import opened Teams
  import opened SeqFacts

  datatype Scored = Scored(member: Team, score: int)

  /** The `order` argument of a rank-range read. */
  datatype Order = Ascending | Descending

  predicate Ascend(z: seq<Scored>) {
    forall i, j :: 0 <= i < j < |z| ==> z[i].score <= z[j].score
  }

  predicate Descend(z: seq<Scored>) {
    forall i, j :: 0 <= i < j < |z| ==> z[i].score >= z[j].score
  }

  predicate DistinctMembers(z: seq<Scored>) {
    forall i, j :: 0 <= i < j < |z| ==> z[i].member != z[j].member
  }

  /** A well-formed ranking: ascending scores, no member twice. */
  predicate Ranked(z: seq<Scored>) {
    Ascend(z) && DistinctMembers(z)
  }

  /** The (member, score) pairs a ranking holds, forgetting the order. */
  function Pairs(z: seq<Scored>): set<Scored> {
    set p | p in z
  }

  /** The members of a ranking, in ranking order (scores dropped). */
  function Members(z: seq<Scored>): seq<Team> {
    seq(|z|, i requires 0 <= i < |z| => z[i].member)
  }

  /** A ranking without a repeated member lists each team once. */
  lemma MembersDistinct(z: seq<Scored>)
    requires DistinctMembers(z)
    ensures Distinct(Members(z))
  {
    var teams := Members(z);
    forall i, j | 0 <= i < j < |teams|
      ensures teams[i] != teams[j]
    {
      assert teams[i] == z[i].member && teams[j] == z[j].member;
    }
  }

  /** The ranking read from the highest score down. */
  function Reversed(z: seq<Scored>): seq<Scored> {
    seq(|z|, i requires 0 <= i < |z| => z[|z| - 1 - i])
  }

  /** The half-open window [lo, hi) of ranks that ZRANGE `start` `stop`
      selects in a set of `n` members: negative indices count from the end
      (-1 is the last rank), `stop` is inclusive, and a window that falls
      outside the set is empty. */
  function RankWindow(n: nat, start: int, stop: int): (w: (nat, nat))
    ensures w.0 <= w.1 <= n
    ensures start == 0 && stop == -1 ==> w == (0, n)
    ensures start == 0 && 0 <= stop ==> w == (0, if stop < n then stop + 1 else n)
    ensures 0 <= stop < start ==> w.0 == w.1
    ensures 0 <= n + start && start <= stop < 0 ==> w.0 == n + start && w.1 == n + stop + 1
  {
    var first := if start < 0 then n + start else start;
    var last := if stop < 0 then n + stop else stop;
    var lo := if first < 0 then 0 else first;
    if lo > last || lo >= n then (0, 0)
    else (lo, if last >= n then n else last + 1)
  }

  /** ZRANGE key start stop [REV] WITHSCORES: the ranks of the window, counted
      from the lowest score, or from the highest one when descending. */
  function ZRange(z: seq<Scored>, start: int, stop: int, order: Order): (r: seq<Scored>)
    ensures |r| <= |z|
    ensures forall p :: p in r ==> p in z
    ensures Ascend(z) && order == Ascending ==> Ascend(r)
    ensures Ascend(z) && order == Descending ==> Descend(r)
    ensures DistinctMembers(z) ==> DistinctMembers(r)
    ensures start == 0 && stop == -1 && order == Ascending ==> r == z
  {
    var w := RankWindow(|z|, start, stop);
    var ranks := if order == Ascending then z else Reversed(z);
    assert forall p :: p in ranks ==> p in z by {
      forall p | p in ranks ensures p in z {
        var i :| 0 <= i < |ranks| && ranks[i] == p;
        assert order == Descending ==> p == z[|z| - 1 - i];
      }
    }
    ranks[w.0..w.1]
  }

  /** The top-k read (`start` 0, `stop` k-1, descending): min(k, n) members
      in descending score order, and no member left out scores higher than
      one that was returned. */
  lemma TopRanks(z: seq<Scored>, k: nat)
    requires Ascend(z) && 0 < k
    ensures var r := ZRange(z, 0, k - 1, Descending);
      && |r| == (if k < |z| then k else |z|)
      && Descend(r)
      && forall p, q :: p in r && q in z && q !in r ==> q.score <= p.score
  {
    var r := ZRange(z, 0, k - 1, Descending);
    var h := if k < |z| then k else |z|;
    assert r == Reversed(z)[0..h];
    assert forall j :: |z| - h <= j < |z| ==> z[j] == r[|z| - 1 - j];
    forall p, q | p in r && q in z && q !in r
      ensures q.score <= p.score
    {
      var i :| 0 <= i < |r| && r[i] == p;
      var j :| 0 <= j < |z| && z[j] == q;
      assert p == z[|z| - 1 - i];
    }
  }

  /** The members of a non-empty ranking are returned by a full read, so a
      non-empty set never reads as empty. */
  lemma NonEmptyReadsNonEmpty(z: seq<Scored>, k: nat)
    requires |z| > 0 && 0 < k
    ensures |ZRange(z, 0, -1, Ascending)| > 0
    ensures |ZRange(z, 0, k - 1, Descending)| > 0
  {
  }

  /** The ranking with `m` removed (ZADD first takes out the old score). */
  function Without(z: seq<Scored>, m: Team): (w: seq<Scored>)
    ensures forall p :: p in w <==> p in z && p.member != m
  {
    if z == [] then []
    else
      assert forall p :: p in z <==> p == z[0] || p in z[1..] by {
        assert z == [z[0]] + z[1..];
      }
      if z[0].member == m then Without(z[1..], m) else [z[0]] + Without(z[1..], m)
  }

  /** Taking a member out keeps a ranking well formed. */
  lemma {:induction false} WithoutKeepsRanking(z: seq<Scored>, m: Team)
    requires Ranked(z)
    ensures Ranked(Without(z, m))
  {
    if z != [] {
      var rest := z[1..];
      assert forall j :: 0 <= j < |rest| ==> rest[j] == z[j + 1];
      WithoutKeepsRanking(rest, m);
      if z[0].member != m {
        var w := Without(rest, m);
        forall q | q in w
          ensures z[0].score <= q.score && z[0].member != q.member
        {
          var j :| 0 <= j < |rest| && rest[j] == q;
        }
        var v := [z[0]] + w;
        forall i, j | 0 <= i < j < |v|
          ensures v[i].score <= v[j].score && v[i].member != v[j].member
        {
          assert v[j] == w[j - 1] && v[j] in w;
          if i > 0 {
            assert v[i] == w[i - 1];
          }
        }
      }
    }
  }

  /** Score `s` may go at rank `i` of `w` without breaking the ascending order. */
  predicate FitsAt(w: seq<Scored>, i: nat, s: int)
    requires i <= |w|
  {
    && (forall j :: 0 <= j < i ==> w[j].score <= s)
    && (forall j :: i <= j < |w| ==> s <= w[j].score)
  }

  /** The lowest rank where score `s` fits: one witness that a place exists. */
  function LowestSlot(w: seq<Scored>, s: int): (i: nat)
    requires Ascend(w)
    ensures i <= |w| && FitsAt(w, i, s)
  {
    if w == [] || s <= w[0].score then 0
    else
      var i := LowestSlot(w[1..], s);
      assert forall j :: 1 <= j <= i ==> w[j].score <= s by {
        forall j | 1 <= j <= i ensures w[j].score <= s {
          assert w[1..][j - 1] == w[j];
        }
      }
      assert forall j :: i + 1 <= j < |w| ==> s <= w[j].score by {
        forall j | i + 1 <= j < |w| ensures s <= w[j].score {
          assert w[1..][j - 1] == w[j];
        }
      }
      i + 1
  }

  /** Inserting a new member where its score fits keeps the ranking well
      formed and adds exactly that pair. */
  lemma InsertKeepsRanking(w: seq<Scored>, i: nat, x: Scored)
    requires Ranked(w) && i <= |w| && FitsAt(w, i, x.score)
    requires forall p :: p in w ==> p.member != x.member
    ensures Ranked(w[..i] + [x] + w[i..])
    ensures Pairs(w[..i] + [x] + w[i..]) == Pairs(w) + {x}
  {
    var v := w[..i] + [x] + w[i..];
    assert |v| == |w| + 1 && v[i] == x;
    assert forall k :: 0 <= k < i ==> v[k] == w[k];
    assert forall k :: i < k < |v| ==> v[k] == w[k - 1];
    forall a, b | 0 <= a < b < |v|
      ensures v[a].score <= v[b].score && v[a].member != v[b].member
    {
      if b < i {
        assert v[a] == w[a] && v[b] == w[b];
      } else if b == i {
        assert v[a] == w[a] && w[a] in w;
      } else if a < i {
        assert v[a] == w[a] && v[b] == w[b - 1];
      } else if a == i {
        assert v[b] == w[b - 1] && w[b - 1] in w;
      } else {
        assert v[a] == w[a - 1] && v[b] == w[b - 1];
      }
    }
    assert Pairs(v) == Pairs(w) + {x} by {
      assert w == w[..i] + w[i..];
    }
  }

  /** The pairs a population writes for `s`: every team scored by its wins. */
  function WinsPairs(s: seq<Team>): set<Scored> {
    set t | t in s :: Scored(t, t.wins)
  }

  /** A ranking that holds exactly the teams of `s`, each scored by its
      wins, lists a permutation of `s`: the same teams with the same
      multiplicities, whatever the order. */
  lemma {:induction false} RankingOfTeams(z: seq<Scored>, s: seq<Team>)
    requires DistinctMembers(z) && Distinct(s)
    requires Pairs(z) == WinsPairs(s)
    ensures forall t :: t in Members(z) <==> t in s
    ensures multiset(Members(z)) == multiset(s)
    ensures |z| == |s|
  {
    var ms := Members(z);
    assert Distinct(ms);
    forall t
      ensures t in ms <==> t in s
    {
      if t in ms {
        var i :| 0 <= i < |ms| && ms[i] == t;
        assert z[i] in Pairs(z);
      }
      if t in s {
        assert Scored(t, t.wins) in Pairs(z);
        var i :| 0 <= i < |z| && z[i] == Scored(t, t.wins);
        assert ms[i] == t;
      }
    }
    SameElementsSameMultiset(ms, s);
    assert |multiset(ms)| == |multiset(s)|;
  }
}
