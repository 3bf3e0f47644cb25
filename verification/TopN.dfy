/** The two cardinality cuts: the parser's keepTopN and the exporter's topN. */
module TopN {
  import opened Prelude
  import opened Counting

  datatype CountEntry = CountEntry(key: string, count: int)

  /** `r` keeps the n best entries of `counts`; which of several equal counts stay is left open. */
  ghost predicate IsTopN(counts: CountMap, n: nat, r: CountMap) {
    && r.Keys <= counts.Keys
    && (forall k | k in r :: r[k] == counts[k])
    && |r| == Min(n, |counts|)
    && (forall k, j | k in r && j in counts && j !in r :: counts[j] <= counts[k])
  }

  predicate ByCountDescending(a: CountEntry, b: CountEntry) {
    b.count <= a.count
  }

  /** Every entry of `counts` once, in any order. */
  ghost predicate Lists(entries: seq<CountEntry>, counts: CountMap) {
    && |entries| == |counts|
    && (forall i | 0 <= i < |entries| :: entries[i].key in counts && entries[i].count == counts[entries[i].key])
    && (forall i, j | 0 <= i < j < |entries| :: entries[i].key != entries[j].key)
  }

  lemma ListingsAreComplete(entries: seq<CountEntry>, counts: CountMap, k: string)
    requires Lists(entries, counts) && k in counts
    ensures CountEntry(k, counts[k]) in entries
  {
    var found := DistinctKeys(entries);
    SubsetOfSameSize(found, counts.Keys);
    var i :| 0 <= i < |entries| && entries[i].key == k;
    assert entries[i] == CountEntry(k, counts[k]);
  }

  ghost function KeysOf(entries: seq<CountEntry>): set<string> {
    set i | 0 <= i < |entries| :: entries[i].key
  }

  lemma {:induction false} DistinctKeys(entries: seq<CountEntry>) returns (found: set<string>)
    requires forall i, j | 0 <= i < j < |entries| :: entries[i].key != entries[j].key
    ensures found == KeysOf(entries) && |found| == |entries|
  {
    if entries == [] {
      found := {};
    } else {
      var last := |entries| - 1;
      var before := DistinctKeys(entries[..last]);
      found := before + {entries[last].key};
      assert entries[last].key !in before;
      assert forall i | 0 <= i < last :: entries[..last][i] == entries[i];
    }
  }

  lemma SubsetOfSameSize<T>(a: set<T>, b: set<T>)
    requires a <= b && |a| >= |b|
    ensures a == b
  {
    assert b == a + (b - a);
    assert |b| == |a| + |b - a|;
  }

  /** Ranging over a map and appending: the order is the iterator's business. */
  method Entries(counts: CountMap) returns (entries: seq<CountEntry>)
    ensures Lists(entries, counts)
  {
    entries := [];
    var rest := counts.Keys;
    while rest != {}
      invariant rest <= counts.Keys
      invariant |entries| + |rest| == |counts|
      invariant forall i | 0 <= i < |entries| ::
          entries[i].key in counts && entries[i].key !in rest && entries[i].count == counts[entries[i].key]
      invariant forall i, j | 0 <= i < j < |entries| :: entries[i].key != entries[j].key
      decreases rest
    {
      var k :| k in rest;
      entries := entries + [CountEntry(k, counts[k])];
      rest := rest - {k};
    }
  }

  lemma SortKeepsListing(entries: seq<CountEntry>, sorted: seq<CountEntry>, counts: CountMap)
    requires Lists(entries, counts) && multiset(sorted) == multiset(entries)
    ensures Lists(sorted, counts)
  {
    SameElements(entries, sorted);
    forall i | 0 <= i < |sorted|
      ensures sorted[i].key in counts && sorted[i].count == counts[sorted[i].key]
    {
      assert sorted[i] in entries;
    }
    PermutationKeepsDistinct(entries, sorted);
  }

  lemma PrefixIsTopN(entries: seq<CountEntry>, counts: CountMap, n: nat, r: CountMap)
    requires Lists(entries, counts) && SortedBy(ByCountDescending, entries)
    requires n <= |entries|
    requires r.Keys == KeysOf(entries[..n])
    requires forall i | 0 <= i < n :: entries[i].key in r ==> r[entries[i].key] == entries[i].count
    ensures IsTopN(counts, n, r)
  {
    var kept := DistinctKeys(entries[..n]);
    assert forall i | 0 <= i < n :: entries[..n][i].key in r;
    forall k, j | k in r && j in counts && j !in r ensures counts[j] <= counts[k] {
      ListingsAreComplete(entries, counts, j);
      var a :| 0 <= a < n && entries[..n][a].key == k;
      var b :| 0 <= b < |entries| && entries[b] == CountEntry(j, counts[j]);
      assert ByCountDescending(entries[a], entries[b]);
    }
  }

  /** keepTopN: a map within the limit is returned as is, otherwise the n highest counts survive. */
  method KeepTopN(counts: CountMap, n: nat) returns (r: CountMap)
    ensures IsTopN(counts, n, r)
    ensures |counts| <= n ==> r == counts
  {
    if |counts| <= n {
      return counts;
    }
    var listed := Entries(counts);
    var entries := Sort(listed, ByCountDescending);
    SortKeepsListing(listed, entries, counts);
    r := map[];
    for i := 0 to n
      invariant r.Keys == KeysOf(entries[..i])
      invariant forall j | 0 <= j < i :: entries[j].key in r && r[entries[j].key] == entries[j].count
    {
      assert entries[..i + 1] == entries[..i] + [entries[i]];
      assert KeysOf(entries[..i + 1]) == KeysOf(entries[..i]) + {entries[i].key} by {
        assert forall j | 0 <= j < i :: entries[..i + 1][j] == entries[..i][j];
      }
      r := r[entries[i].key := entries[i].count];
    }
    PrefixIsTopN(entries, counts, n, r);
  }

  /** What the exporter publishes: n entries, best first, ahead of everything left out. */
  ghost predicate IsExport(counts: CountMap, n: nat, out: seq<CountEntry>) {
    && |out| == Min(n, |counts|)
    && SortedBy(ByCountDescending, out)
    && (forall i | 0 <= i < |out| :: out[i].key in counts && out[i].count == counts[out[i].key])
    && (forall i, j | 0 <= i < j < |out| :: out[i].key != out[j].key)
    && (forall i, k | 0 <= i < |out| && k in counts && k !in KeysOf(out) :: counts[k] <= out[i].count)
  }

  method TopEntries(counts: CountMap, n: nat) returns (out: seq<CountEntry>)
    ensures IsExport(counts, n, out)
  {
    var listed := Entries(counts);
    var entries := Sort(listed, ByCountDescending);
    SortKeepsListing(listed, entries, counts);
    out := entries[..Min(n, |entries|)];
    assert forall i | 0 <= i < |out| :: out[i].key in KeysOf(out);
    forall i, k | 0 <= i < |out| && k in counts && k !in KeysOf(out) ensures counts[k] <= out[i].count {
      ListingsAreComplete(entries, counts, k);
      var b :| 0 <= b < |entries| && entries[b] == CountEntry(k, counts[k]);
      assert ByCountDescending(entries[i], entries[b]);
    }
  }

  /** Exporting a trimmed map is exporting the full one: the two sorts may break ties differently. */
  lemma TrimThenExport(counts: CountMap, n: nat, trimmed: CountMap, out: seq<CountEntry>)
    requires IsTopN(counts, n, trimmed) && IsExport(trimmed, n, out)
    ensures IsExport(counts, n, out)
    ensures KeysOf(out) == trimmed.Keys
  {
    var exported := DistinctKeys(out);
    SubsetOfSameSize(exported, trimmed.Keys);
    forall i, k | 0 <= i < |out| && k in counts && k !in KeysOf(out) ensures counts[k] <= out[i].count {
      assert out[i].key in trimmed && k !in trimmed;
    }
  }

  /** The keys that can compete with `k` for a place: everyone else counted at least as often. */
  ghost function Rivals(bag: multiset<string>, k: string): set<string> {
    set j | j in bag && j != k && bag[k] <= bag[j]
  }

  /** The cardinality argument: a fully tracked key with fewer than n rivals survives any top-n cut. */
  lemma FewRivalsSurvive(counts: CountMap, n: nat, r: CountMap, bag: multiset<string>, k: string)
    requires Understates(counts, bag) && IsTopN(counts, n, r)
    requires k in counts && counts[k] == bag[k]
    requires |Rivals(bag, k)| < n
    ensures k in r && r[k] == bag[k]
  {
    if k !in r {
      SizeOfMap(r);
      forall j | j in r ensures j in Rivals(bag, k) {
        assert counts[k] <= counts[j] <= bag[j];
      }
      if |counts| <= n {
        SubsetOfSameSize(r.Keys, counts.Keys);
      } else {
        SubsetSize(r.Keys, Rivals(bag, k));
      }
      assert false;
    }
  }

  lemma SizeOfMap(m: CountMap)
    ensures |m| == |m.Keys|
  {}

  lemma SubsetSize<T>(a: set<T>, b: set<T>)
    requires a <= b
    ensures |a| <= |b|
  {
    assert b == a + (b - a);
  }
}
