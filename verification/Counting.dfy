/** Count maps (the exporter's map[string]int64) and the bags of keys they stand for. */
module Counting {
  import opened Prelude

  type CountMap = map<string, int>

  function Get(counts: CountMap, key: string): int {
    if key in counts then counts[key] else 0
  }

  /** counts[key]++, where no key means no update. */
  function Bump(counts: CountMap, key: Option<string>): CountMap {
    match key
    case None => counts
    case Some(k) => counts[k := Get(counts, k) + 1]
  }

  /** counts[k] += v for every pair of delta. */
  function Merge(counts: CountMap, delta: CountMap): CountMap {
    map k | k in counts.Keys + delta.Keys :: Get(counts, k) + Get(delta, k)
  }

  lemma MergeBump(counts: CountMap, delta: CountMap, key: Option<string>)
    ensures Merge(counts, Bump(delta, key)) == Bump(Merge(counts, delta), key)
  {
    var l, r := Merge(counts, Bump(delta, key)), Bump(Merge(counts, delta), key);
    assert l.Keys == r.Keys;
    assert forall k | k in l :: l[k] == r[k];
  }

  lemma MergeNothing(counts: CountMap)
    ensures Merge(counts, map[]) == counts
  {
    assert Merge(counts, map[]).Keys == counts.Keys;
  }

  /** Adding a batch's counts key by key, in whatever order ranging over its map visits the keys. */
  method MergeInto(counts: CountMap, delta: CountMap) returns (r: CountMap)
    ensures r == Merge(counts, delta)
  {
    r := counts;
    var rest := delta.Keys;
    while rest != {}
      invariant rest <= delta.Keys
      invariant r.Keys == counts.Keys + (delta.Keys - rest)
      invariant forall k | k in r :: r[k] == Get(counts, k) + (if k in rest then 0 else Get(delta, k))
      decreases rest
    {
      var k :| k in rest;
      r := r[k := Get(r, k) + delta[k]];
      rest := rest - {k};
    }
    assert r.Keys == counts.Keys + delta.Keys;
  }

  /** `counts` is exactly the histogram of `bag`: no key missing, none invented, none zero. */
  ghost predicate Tallies(counts: CountMap, bag: multiset<string>) {
    && (forall k :: k in counts <==> k in bag)
    && (forall k | k in counts :: counts[k] == bag[k])
  }

  /** `counts` tracks some keys of `bag`, each with a positive count it never overstates. */
  ghost predicate Understates(counts: CountMap, bag: multiset<string>) {
    forall k | k in counts :: 0 < counts[k] <= bag[k]
  }

  function BagOf(key: Option<string>): multiset<string> {
    match key
    case None => multiset{}
    case Some(k) => multiset{k}
  }

  ghost function Total(counts: CountMap): int {
    if counts == map[] then 0 else
      var k :| k in counts;
      counts[k] + Total(counts - {k})
  }

  lemma {:induction false} TotalWithout(counts: CountMap, k: string)
    requires k in counts
    ensures Total(counts) == counts[k] + Total(counts - {k})
    decreases |counts|
  {
    var c :| c in counts && Total(counts) == counts[c] + Total(counts - {c});
    if c != k {
      TotalWithout(counts - {c}, k);
      TotalWithout(counts - {k}, c);
      assert counts - {c} - {k} == counts - {k} - {c};
    }
  }

  lemma TotalBump(counts: CountMap, key: Option<string>)
    ensures Total(Bump(counts, key)) == Total(counts) + |BagOf(key)|
  {
    if key.Some? {
      var k := key.value;
      TotalWithout(Bump(counts, key), k);
      assert Bump(counts, key) - {k} == counts - {k};
      if k in counts {
        TotalWithout(counts, k);
      } else {
        assert counts - {k} == counts;
      }
    }
  }

  lemma {:induction false} TotalPositive(counts: CountMap)
    requires forall k | k in counts :: 0 < counts[k]
    ensures 0 <= Total(counts) && (Total(counts) == 0 <==> counts == map[])
    decreases |counts|
  {
    if counts != map[] {
      var k :| k in counts;
      TotalWithout(counts, k);
      TotalPositive(counts - {k});
    }
  }

  lemma SizeWithout(bag: multiset<string>, k: string)
    ensures |bag| == bag[k] + |bag[k := 0]|
  {
    assert bag == bag[k := 0] + multiset{}[k := bag[k]];
  }

  /** Understating counts that add up to the whole bag are its histogram. */
  lemma {:induction false} TotalIsAllIff(counts: CountMap, bag: multiset<string>)
    requires Understates(counts, bag)
    ensures Total(counts) <= |bag| && (Total(counts) == |bag| <==> Tallies(counts, bag))
    decreases |counts|
  {
    if counts == map[] {
      assert |bag| == 0 <==> bag == multiset{};
    } else {
      var k :| k in counts;
      var counts', bag' := counts - {k}, bag[k := 0];
      TotalWithout(counts, k);
      SizeWithout(bag, k);
      TotalIsAllIff(counts', bag');
      TalliesWithout(counts, bag, k);
    }
  }

  lemma TalliesWithout(counts: CountMap, bag: multiset<string>, k: string)
    requires k in counts && 0 < counts[k]
    ensures Tallies(counts, bag) <==> counts[k] == bag[k] && Tallies(counts - {k}, bag[k := 0])
  {
    var counts', bag' := counts - {k}, bag[k := 0];
    if Tallies(counts', bag') && counts[k] == bag[k] {
      forall j ensures j in counts <==> j in bag {
        assert j != k ==> (j in counts <==> j in counts') && (j in bag <==> j in bag');
      }
      forall j | j in counts ensures counts[j] == bag[j] {
        assert j != k ==> j in counts' && counts'[j] == bag'[j];
      }
    }
    if Tallies(counts, bag) {
      forall j ensures j in counts' <==> j in bag' {
        assert j in counts' <==> j in counts && j != k;
        assert j in bag' <==> j in bag && j != k;
      }
    }
  }
}
