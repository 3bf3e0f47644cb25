/** Shared vocabulary: optional values and sorting by an arbitrary total preorder. */
module Prelude {

  datatype Option<+T> = None | Some(value: T)

  function Min(a: int, b: int): int {
    if a <= b then a else b
  }

  lemma MulAtLeast(k: int, b: int)
    requires 0 < b
    ensures 1 <= k ==> b <= k * b
    ensures k <= -1 ==> k * b <= -b
  {}

  /** A comparison a library sort may be called with: ties are allowed. */
  ghost predicate TotalPreorder<T(!new)>(le: (T, T) -> bool) {
    && (forall x, y :: le(x, y) || le(y, x))
    && (forall x, y, z :: le(x, y) && le(y, z) ==> le(x, z))
  }

  ghost predicate SortedBy<T(!new)>(le: (T, T) -> bool, s: seq<T>) {
    forall i, j | 0 <= i < j < |s| :: le(s[i], s[j])
  }

  /** `r` is what some (not necessarily stable) sort may return for `s`. */
  ghost predicate SortedPermutation<T(!new)>(le: (T, T) -> bool, s: seq<T>, r: seq<T>) {
    multiset(r) == multiset(s) && SortedBy(le, r)
  }

  /** Stands for the library sorts; callers learn nothing about the order of ties. */
  method Sort<T(!new)>(s: seq<T>, le: (T, T) -> bool) returns (r: seq<T>)
    requires TotalPreorder(le)
    ensures SortedPermutation(le, s, r)
  {
    r := [];
    for i := 0 to |s|
      invariant SortedPermutation(le, s[..i], r)
    {
      r := Insert(r, s[i], le);
      assert s[..i + 1] == s[..i] + [s[i]];
    }
    assert s[..|s|] == s;
  }

  method Insert<T(!new)>(s: seq<T>, x: T, le: (T, T) -> bool) returns (r: seq<T>)
    requires TotalPreorder(le) && SortedBy(le, s)
    ensures multiset(r) == multiset(s) + multiset{x} && SortedBy(le, r)
  {
    var k := 0;
    while k < |s| && le(s[k], x)
      invariant 0 <= k <= |s|
      invariant forall j | 0 <= j < k :: le(s[j], x)
    {
      k := k + 1;
    }
    assert s == s[..k] + s[k..];
    forall j | k <= j < |s| ensures le(x, s[j]) {
      assert le(x, s[k]);
      assert k < j ==> le(s[k], s[j]);
    }
    r := s[..k] + [x] + s[k..];
    InsertedInOrder(s, k, x, le);
  }

  lemma InsertedInOrder<T(!new)>(s: seq<T>, k: nat, x: T, le: (T, T) -> bool)
    requires k <= |s| && SortedBy(le, s)
    requires forall j | 0 <= j < k :: le(s[j], x)
    requires forall j | k <= j < |s| :: le(x, s[j])
    ensures SortedBy(le, s[..k] + [x] + s[k..])
  {
    var r := s[..k] + [x] + s[k..];
    forall i, j | 0 <= i < j < |r| ensures le(r[i], r[j]) {
      assert r[i] == if i < k then s[i] else if i == k then x else s[i - 1];
      assert r[j] == if j < k then s[j] else if j == k then x else s[j - 1];
    }
  }

  lemma SameElements<T>(s: seq<T>, r: seq<T>)
    requires multiset(s) == multiset(r)
    ensures |s| == |r|
    ensures forall x :: x in s <==> x in r
  {
    assert |multiset(s)| == |multiset(r)|;
    forall x ensures x in s <==> x in r {
      assert x in s <==> x in multiset(s);
      assert x in r <==> x in multiset(r);
    }
  }

  ghost predicate Distinct<T>(s: seq<T>) {
    forall i, j | 0 <= i < j < |s| :: s[i] != s[j]
  }

  /** A sequence whose elements occur once each has no repeated index. */
  lemma SingletonsAreDistinct<T>(s: seq<T>, i: nat, j: nat)
    requires i < j < |s|
    requires multiset(s)[s[i]] <= 1
    ensures s[i] != s[j]
  {
    assert s == s[..j] + [s[j]] + s[j + 1..];
    assert s[i] == s[..j][i] && s[i] in multiset(s[..j]);
  }

  lemma {:induction false} DistinctOccurOnce<T>(s: seq<T>, x: T)
    requires Distinct(s)
    ensures multiset(s)[x] <= 1
  {
    if s != [] {
      var last := |s| - 1;
      DistinctOccurOnce(s[..last], x);
      assert s == s[..last] + [s[last]];
      assert s[last] !in s[..last];
    }
  }

  lemma PermutationKeepsDistinct<T>(s: seq<T>, r: seq<T>)
    requires Distinct(s) && multiset(s) == multiset(r)
    ensures Distinct(r)
  {
    forall i, j | 0 <= i < j < |r| ensures r[i] != r[j] {
      DistinctOccurOnce(s, r[i]);
      SingletonsAreDistinct(r, i, j);
    }
  }
}
