/** Counting how often each key occurs. */
module Tally {
  function Count(m: map<string, nat>, key: string): map<string, nat> {
    m[key := (if key in m then m[key] else 0) + 1]
  }

  /** `m` counts how often each key occurs, and has no other keys. */
  ghost predicate Tallies(m: map<string, nat>, keys: seq<string>) {
    (forall k :: k in m <==> k in keys) && (forall k :: k in m ==> m[k] == multiset(keys)[k])
  }

  lemma {:induction false} NothingTallied()
    ensures Tallies(map[], []) && SumCounts(map[]) == 0
  {
  }

  lemma {:induction false} TallyOneMore(m: map<string, nat>, keys: seq<string>, key: string)
    requires Tallies(m, keys)
    ensures Tallies(Count(m, key), keys + [key]) && SumCounts(Count(m, key)) == SumCounts(m) + 1
  {
    SumOfOneMore(m, key);
    assert multiset(keys + [key]) == multiset(keys) + multiset{key};
    assert key !in keys ==> multiset(keys)[key] == 0;
  }

  ghost function SumCounts(m: map<string, nat>): nat {
    if m == map[] then 0 else var k :| k in m; m[k] + SumCounts(m - {k})
  }

  lemma {:induction false} SumCountsWithout(m: map<string, nat>, k: string)
    requires k in m
    ensures SumCounts(m) == m[k] + SumCounts(m - {k})
    decreases |m|
  {
    var first :| first in m && SumCounts(m) == m[first] + SumCounts(m - {first});
    if first != k {
      SumCountsWithout(m - {first}, k);
      SumCountsWithout(m - {k}, first);
      assert m - {first} - {k} == m - {k} - {first};
    }
  }

  lemma {:induction false} SumOfOneMore(m: map<string, nat>, key: string)
    ensures SumCounts(Count(m, key)) == SumCounts(m) + 1
  {
    var n := Count(m, key);
    SumCountsWithout(n, key);
    if key in m {
      SumCountsWithout(m, key);
      assert n - {key} == m - {key};
    } else {
      assert n - {key} == m;
    }
  }
}
