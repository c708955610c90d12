/** The glob patterns that SCAN ... MATCH accepts, restricted to the two
    wildcards `*` (any run of characters) and `?` (any one character). */
module KeyPatterns {

  /** Does `key` match the glob `pattern`? A pattern without wildcards
      matches exactly the key equal to it. */
  function Matches(pattern: string, key: string): (r: bool)
    ensures Literal(pattern) ==> (r <==> key == pattern)
    decreases |pattern| + |key|
  {
    if pattern == [] then key == []
    else if pattern[0] == '*' then
      Matches(pattern[1..], key) || (key != [] && Matches(pattern, key[1..]))
    else if key == [] then false
    else (pattern[0] == '?' || pattern[0] == key[0]) && Matches(pattern[1..], key[1..])
  }

  /** A pattern without any glob metacharacter matches only itself. */
  predicate Literal(p: string) {
    forall i :: 0 <= i < |p| ==> p[i] !in "*?[]\\"
  }

  /** A lone `*` matches every key. */
  lemma {:induction false} StarMatchesEverything(key: string)
    ensures Matches("*", key)
  {
    if key != [] {
      StarMatchesEverything(key[1..]);
    }
  }

  /** `prefix*` matches exactly the keys that start with `prefix`. */
  lemma {:induction false} PrefixStar(prefix: string, key: string)
    requires Literal(prefix)
    ensures Matches(prefix + "*", key) <==> prefix <= key
  {
    if prefix == [] {
      assert prefix + "*" == "*";
      StarMatchesEverything(key);
    } else {
      var p := prefix + "*";
      assert p[0] == prefix[0] && p[0] !in "*?[]\\";
      assert p[1..] == prefix[1..] + "*";
      if key != [] {
        PrefixStar(prefix[1..], key[1..]);
        assert prefix <= key <==> prefix[0] == key[0] && prefix[1..] <= key[1..];
      }
    }
  }
}
