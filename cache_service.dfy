/** The cache client: a key/value and sorted-set store (Redis) reached
    through the handful of commands the application uses — SET with an
    expiry, GET, DEL, SCAN with MATCH, MGET, ZADD and ZRANGE by rank. The
    remote store is the map `store` of a `RedisCacheService` object; each
    command is one atomic step on it. */
module Cache {
  import opened Teams
  import opened SortedSets
  import opened KeyPatterns
  import opened SeqFacts

  datatype Option<T> = None | Some(value: T)

  /** What one key holds: a plain value (a serialised team and the expiry it
      was written with, in milliseconds) or a sorted set. Expiry is recorded,
      never counted down. */
  datatype Entry = Str(value: Team, expiresIn: int) | ZSet(ranking: seq<Scored>)

  /** The failures a call can end in. */
  datatype CacheError =
    | NullExpiry         // reading the value of a missing optional expiry
    | InvalidExpireTime  // SET refuses an expiry that is not positive
    | WrongType          // a command on a key holding the other kind of value (a sorted-set
                         // command on a plain value, GET on a sorted set)

  datatype Outcome = Pass | Fail(error: CacheError)

  datatype Result<T> = Success(value: T) | Failure(error: CacheError)

  type Store = map<string, Entry>

  /** Redis never keeps an empty sorted set. */
  predicate WellFormed(e: Entry) {
    e.ZSet? ==> |e.ranking| > 0 && Ranked(e.ranking)
  }

  /** MGET's answer for one key: its value, or nil when the key is missing or
      does not hold a plain value. */
  function Lookup(m: Store, key: string): (r: Option<Team>)
    ensures r.Some? ==> key in m && m[key].Str? && m[key].value == r.value
    ensures r.None? ==> key !in m || m[key].ZSet?
  {
    if key in m && m[key].Str? then Some(m[key].value) else None
  }

  /** MGET of `keys`: each key with its value or nil, in the order asked. */
  function MGet(m: Store, keys: seq<string>): (r: seq<(string, Option<Team>)>)
    ensures |r| == |keys|
    ensures forall i :: 0 <= i < |r| ==> r[i].0 == keys[i]
    ensures forall i :: 0 <= i < |r| ==>
      (r[i].1.Some? <==> keys[i] in m && m[keys[i]].Str?)
    ensures forall i :: 0 <= i < |r| && r[i].1.Some? ==> r[i].1.value == m[keys[i]].value
  {
    seq(|keys|, i requires 0 <= i < |keys| => (keys[i], Lookup(m, keys[i])))
  }

  /** The answers of an MGET reply, keys dropped. */
  function Answers(results: seq<(string, Option<Team>)>): seq<Option<Team>> {
    seq(|results|, i requires 0 <= i < |results| => results[i].1)
  }

  /** An MGET reply's answers are its first answer, then the rest. */
  lemma AnswersCons(results: seq<(string, Option<Team>)>)
    requires results != []
    ensures Answers(results) == [results[0].1] + Answers(results[1..])
  {
  }

  /** One step of the filter: a value answered first is kept in front of
      the rest, a nil is dropped; either way the counts carry over. */
  lemma FilterStep(head: Option<Team>, answers: seq<Option<Team>>, rest: seq<Team>, r: seq<Team>)
    requires forall t :: t in rest <==> Some(t) in answers
    requires forall t :: multiset(rest)[t] == multiset(answers)[Some(t)]
    requires |rest| == |answers| - multiset(answers)[None]
    requires r == if head.Some? then [head.value] + rest else rest
    ensures forall t :: t in r <==> Some(t) in [head] + answers
    ensures forall t :: multiset(r)[t] == multiset([head] + answers)[Some(t)]
    ensures |r| == |[head] + answers| - multiset([head] + answers)[None]
  {
  }

  /** The filter and projection over MGET's answer: keep the values that are
      not nil, in order, and drop their keys. Each value is kept as often as
      it was answered, and only the nils are dropped. */
  function NonNull(results: seq<(string, Option<Team>)>): (r: seq<Team>)
    ensures |r| <= |results|
    ensures forall t :: t in r <==> Some(t) in Answers(results)
    ensures forall t :: multiset(r)[t] == multiset(Answers(results))[Some(t)]
    ensures |r| == |results| - multiset(Answers(results))[None]
  {
    if results == [] then []
    else
      var rest := NonNull(results[1..]);
      assert forall i :: 1 <= i < |results| ==> results[i] == results[1..][i - 1];
      var r := if results[0].1.Some? then [results[0].1.value] + rest else rest;
      AnswersCons(results);
      FilterStep(results[0].1, Answers(results[1..]), rest, r);
      r
  }

  /** The keys of `m` that match `pattern`. */
  function MatchingKeys(m: Store, pattern: string): set<string> {
    set k | k in m && Matches(pattern, k)
  }

  /** The keys matching `pattern` that hold a plain value. */
  function HeldKeys(m: Store, pattern: string): set<string> {
    set k | k in m && Matches(pattern, k) && m[k].Str?
  }

  /** The keys matching `pattern` that hold the plain value `t`. */
  function KeysHolding(m: Store, pattern: string, t: Team): set<string> {
    set k | k in m && Matches(pattern, k) && m[k].Str? && m[k].value == t
  }

  /** MGET's answers are the first key's lookup, then the answers for the
      other keys. */
  lemma AnswersOfMGet(m: Store, keys: seq<string>)
    requires keys != []
    ensures Answers(MGet(m, keys)) == [Lookup(m, keys[0])] + Answers(MGet(m, keys[1..]))
  {
  }

  /** The keys whose lookup gives `a`: the first key if it does, plus those
      among the others. */
  lemma KeysAnsweringSplit(m: Store, keys: seq<string>, a: Option<Team>)
    requires keys != [] && keys[0] !in keys[1..]
    ensures |set k | k in keys && Lookup(m, k) == a|
         == (if Lookup(m, keys[0]) == a then 1 else 0) + |set k | k in keys[1..] && Lookup(m, k) == a|
  {
    var here, later := set k | k in keys && Lookup(m, k) == a, set k | k in keys[1..] && Lookup(m, k) == a;
    assert forall k :: k in keys <==> k == keys[0] || k in keys[1..] by {
      assert keys == [keys[0]] + keys[1..];
    }
    if Lookup(m, keys[0]) == a {
      assert here == {keys[0]} + later;
    } else {
      assert here == later;
    }
  }

  /** MGET over keys without repeats answers `a` once per key whose
      lookup gives `a`. */
  lemma {:induction false} AnswerCount(m: Store, keys: seq<string>, a: Option<Team>)
    requires Distinct(keys)
    ensures multiset(Answers(MGet(m, keys)))[a] == |set k | k in keys && Lookup(m, k) == a|
  {
    if keys != [] {
      DistinctTail(keys);
      AnswerCount(m, keys[1..], a);
      AnswersOfMGet(m, keys);
      KeysAnsweringSplit(m, keys, a);
    }
  }

  /** Team `t` is the plain value of some key matching `pattern`. */
  ghost predicate HeldUnder(m: Store, pattern: string, t: Team) {
    exists k :: k in m && Matches(pattern, k) && Lookup(m, k) == Some(t)
  }

  /** Some key matching `pattern` holds a plain value. */
  ghost predicate HoldsValues(m: Store, pattern: string) {
    exists k :: k in m && Matches(pattern, k) && m[k].Str?
  }

  /** The store after deleting every key that matches `pattern`. */
  function RemoveMatching(m: Store, pattern: string): (r: Store)
    ensures forall k :: k in r <==> k in m && !Matches(pattern, k)
    ensures forall k :: k in r ==> r[k] == m[k]
  {
    map k | k in m && !Matches(pattern, k) :: m[k]
  }

  /** The pairs of the sorted set at `key`; none when the key is missing or
      holds a plain value. */
  function ZPairs(m: Store, key: string): set<Scored> {
    if key in m && m[key].ZSet? then Pairs(m[key].ranking) else {}
  }

  /** `m1` and `m2` differ at most at `keys`. */
  ghost predicate AgreeOutside(m1: Store, m2: Store, keys: set<string>) {
    forall k :: k in m1 || k in m2 ==> k in keys || (k in m1 && k in m2 && m1[k] == m2[k])
  }

  /** Deleting the keys that match a pattern leaves none that match and keeps
      every other key with its entry; with nothing matching it changes
      nothing; and deleting a second time changes nothing more. */
  lemma RemoveMatchingSpec(m: Store, pattern: string)
    ensures MatchingKeys(RemoveMatching(m, pattern), pattern) == {}
    ensures AgreeOutside(m, RemoveMatching(m, pattern), MatchingKeys(m, pattern))
    ensures MatchingKeys(m, pattern) == {} ==> RemoveMatching(m, pattern) == m
    ensures RemoveMatching(RemoveMatching(m, pattern), pattern) == RemoveMatching(m, pattern)
  {
    if MatchingKeys(m, pattern) == {} {
      assert forall k :: k in m ==> k !in MatchingKeys(m, pattern);
    }
  }

  /** With no key matching, a pattern read finds no value. */
  lemma NothingHeldAfterRemoval(m: Store, pattern: string)
    ensures !HoldsValues(RemoveMatching(m, pattern), pattern)
    ensures forall t :: !HeldUnder(RemoveMatching(m, pattern), pattern, t)
  {
  }

  /** Filtering MGET's reply over the matching keys keeps exactly the
      values held under them. */
  lemma FilteredMembers(m: Store, pattern: string, keys: seq<string>)
    requires forall k :: k in keys <==> k in m && Matches(pattern, k)
    ensures forall t :: t in NonNull(MGet(m, keys)) <==> HeldUnder(m, pattern, t)
  {
    var results := MGet(m, keys);
    forall t
      ensures t in NonNull(results) <==> HeldUnder(m, pattern, t)
    {
      if t in NonNull(results) {
        var i :| 0 <= i < |results| && Answers(results)[i] == Some(t);
        assert keys[i] in keys;
      }
      if HeldUnder(m, pattern, t) {
        var k :| k in m && Matches(pattern, k) && Lookup(m, k) == Some(t);
        var i :| 0 <= i < |keys| && keys[i] == k;
        assert Answers(results)[i] == Some(t);
      }
    }
  }

  /** Filtering MGET's reply over the matching keys, each listed once, keeps
      one value per key holding one: each team as often as keys hold it. */
  lemma FilteredCounts(m: Store, pattern: string, keys: seq<string>)
    requires Distinct(keys)
    requires forall k :: k in keys <==> k in m && Matches(pattern, k)
    ensures forall t :: multiset(NonNull(MGet(m, keys)))[t] == |KeysHolding(m, pattern, t)|
    ensures |NonNull(MGet(m, keys))| == |HeldKeys(m, pattern)|
  {
    var r := NonNull(MGet(m, keys));
    forall t
      ensures multiset(r)[t] == |KeysHolding(m, pattern, t)|
    {
      AnswerCount(m, keys, Some(t));
      assert (set k | k in keys && Lookup(m, k) == Some(t)) == KeysHolding(m, pattern, t);
    }
    AnswerCount(m, keys, None);
    DistinctCardinality(keys);
    var nils := set k | k in keys && Lookup(m, k) == None;
    assert (set x | x in keys) == HeldKeys(m, pattern) + nils;
    assert HeldKeys(m, pattern) * nils == {};
  }

  /** Filtering MGET's reply over the matching keys, each listed once,
      gives no more values than matching keys, and some value exactly when
      some matching key holds one. */
  lemma FilteredBounds(m: Store, pattern: string, keys: seq<string>)
    requires Distinct(keys)
    requires forall k :: k in keys <==> k in m && Matches(pattern, k)
    ensures |NonNull(MGet(m, keys))| <= |MatchingKeys(m, pattern)|
    ensures NonNull(MGet(m, keys)) != [] <==> HoldsValues(m, pattern)
  {
    var r := NonNull(MGet(m, keys));
    FilteredMembers(m, pattern, keys);
    if HoldsValues(m, pattern) {
      var k :| k in m && Matches(pattern, k) && m[k].Str?;
      assert HeldUnder(m, pattern, m[k].value);
    }
    if r != [] {
      assert HeldUnder(m, pattern, r[0]);
    }
    DistinctCardinality(keys);
    assert (set x | x in keys) == MatchingKeys(m, pattern);
  }

  class RedisCacheService {
    var store: Store

    ghost predicate Valid()
      reads this
    {
      forall k :: k in store ==> WellFormed(store[k])
    }

    constructor ()
      ensures Valid() && store == map[]
    {
      store := map[];
    }

    /** GET: the plain value under `key`, nil when the key is missing;
        a sorted set under `key` is a type error. */
    function Get(key: string): (r: Result<Option<Team>>)
      reads this
      ensures r.Failure? <==> key in store && store[key].ZSet?
      ensures r.Success? ==> r.value == Lookup(store, key)
    {
      if key in store && store[key].ZSet? then Failure(WrongType) else Success(Lookup(store, key))
    }

    /** SET `key` `value` with the expiry: overwrites whatever the key held.
        The optional expiry is read unconditionally, so omitting it fails
        before the store is touched. */
    method AddOrUpdate(key: string, value: Team, expiresIn: Option<int>) returns (r: Outcome)
      requires Valid()
      modifies this
      ensures Valid()
      ensures expiresIn.None? ==> r == Fail(NullExpiry) && store == old(store)
      ensures expiresIn.Some? && expiresIn.value <= 0 ==> r == Fail(InvalidExpireTime) && store == old(store)
      ensures expiresIn.Some? && expiresIn.value > 0 ==>
                r == Pass && store == old(store)[key := Str(value, expiresIn.value)]
    {
      if expiresIn.None? {
        return Fail(NullExpiry);
      }
      var ttl := expiresIn.value;
      if ttl <= 0 {
        return Fail(InvalidExpireTime);
      }
      store := store[key := Str(value, ttl)];
      r := Pass;
    }

    /** DEL `key`. */
    method Remove(key: string)
      requires Valid()
      modifies this
      ensures Valid()
      ensures store == old(store) - {key}
    {
      store := store - {key};
    }

    /** SCAN with MATCH, cursor by cursor until the whole key space has been
        visited: every matching key, each once, in no particular order. */
    method SearchKeys(pattern: string) returns (keys: seq<string>)
      ensures forall k :: k in keys <==> k in store && Matches(pattern, k)
      ensures Distinct(keys)
    {
      keys := [];
      var unvisited := store.Keys;
      while unvisited != {}
        invariant unvisited <= store.Keys
        invariant forall k :: k in keys <==> k in store && k !in unvisited && Matches(pattern, k)
        invariant Distinct(keys)
        decreases unvisited
      {
        var k :| k in unvisited;
        if Matches(pattern, k) {
          keys := keys + [k];
        }
        unvisited := unvisited - {k};
      }
    }

    /** SCAN for the matching keys, then DEL them in one batch; no match is
        not an error. */
    method RemoveByKeyMatch(pattern: string)
      requires Valid()
      modifies this
      ensures Valid()
      ensures store == RemoveMatching(old(store), pattern)
    {
      var keys := SearchKeys(pattern);
      store := map k | k in store && k !in keys :: store[k];
    }

    /** SCAN for the matching keys, MGET them, and keep the values that are
        not nil: keys that vanished or hold a sorted set drop out silently. */
    method GetByKeyMatch(pattern: string) returns (r: seq<Team>)
      ensures forall t :: t in r <==> HeldUnder(store, pattern, t)
      ensures |r| <= |MatchingKeys(store, pattern)|
      ensures r != [] <==> HoldsValues(store, pattern)
      ensures |r| == |HeldKeys(store, pattern)|
      ensures forall t :: multiset(r)[t] == |KeysHolding(store, pattern, t)|
    {
      var keys := SearchKeys(pattern);
      var results := MGet(store, keys);
      r := NonNull(results);
      FilteredMembers(store, pattern, keys);
      FilteredCounts(store, pattern, keys);
      FilteredBounds(store, pattern, keys);
    }

    /** ZADD `key` `score` `entry`: creates the set if the key is missing,
        replaces the member's old score if it is already there, and places it
        among the members of equal score in no particular order. */
    method SortedSetAdd(key: string, entry: Team, score: int) returns (r: Outcome)
      requires Valid()
      modifies this
      ensures Valid()
      ensures key in old(store) && old(store)[key].Str? ==> r == Fail(WrongType) && store == old(store)
      ensures !(key in old(store) && old(store)[key].Str?) ==>
                && r == Pass
                && key in store && store[key].ZSet?
                && ZPairs(store, key) == (set p | p in ZPairs(old(store), key) && p.member != entry) + {Scored(entry, score)}
                && AgreeOutside(old(store), store, {key})
    {
      if key in store && store[key].Str? {
        return Fail(WrongType);
      }
      var ranking := if key in store then store[key].ranking else [];
      var w := Without(ranking, entry);
      WithoutKeepsRanking(ranking, entry);
      assert FitsAt(w, LowestSlot(w, score), score);
      var i :| 0 <= i <= |w| && FitsAt(w, i, score);
      InsertKeepsRanking(w, i, Scored(entry, score));
      store := store[key := ZSet(w[..i] + [Scored(entry, score)] + w[i..])];
      r := Pass;
    }

    /** ZRANGE `key` `start` `stop` [REV] WITHSCORES, keeping the members and
        dropping the scores. A missing key reads as an empty set. With the
        default window (or any window starting at rank 0) the answer is
        empty exactly when the key is missing, since Redis keeps no empty
        sorted set. */
    function SortedSetRangeByRankWithScores(key: string, start: int := 0, stop: int := -1,
                                            order: Order := Ascending): (r: Result<seq<Team>>)
      reads this
      ensures r.Failure? <==> key in store && store[key].Str?
      ensures Valid() && start == 0 && (stop == -1 || stop >= 0) ==> (r == Success([]) <==> key !in store)
    {
      if key !in store then Success([])
      else match store[key]
        case Str(_, _) => Failure(WrongType)
        case ZSet(z) =>
          assert Valid() && start == 0 && (stop == -1 || stop >= 0) ==> |ZRange(z, start, stop, order)| > 0 by {
            if Valid() && start == 0 && (stop == -1 || stop >= 0) {
              assert WellFormed(store[key]);
              NonEmptyReadsNonEmpty(z, if stop == -1 then 1 else stop + 1);
            }
          }
          Success(Members(ZRange(z, start, stop, order)))
    }
  }
}
