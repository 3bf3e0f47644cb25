/** The connection window as a bounded deque, oldest first, and the counting laws behind it. */
module ConnectionWindow {
  import opened Prelude

  /** Remember one more connection, forgetting the oldest when full. */
  function Push(window: seq<int>, ts: int, cap: nat): seq<int>
    requires 0 < cap
  {
    (if |window| < cap then window else window[1..]) + [ts]
  }

  function PushAll(window: seq<int>, stamps: seq<int>, cap: nat): seq<int>
    requires 0 < cap
  {
    if stamps == [] then window else
      Push(PushAll(window, stamps[..|stamps| - 1], cap), stamps[|stamps| - 1], cap)
  }

  /** Forget the longest prefix of connections that are not after the cutoff. */
  function Expire(window: seq<int>, cutoff: int): seq<int> {
    if window == [] || cutoff < window[0] then window else Expire(window[1..], cutoff)
  }

  /** What is left is a suffix, nothing before it was after the cutoff, and it starts after the cutoff. */
  lemma {:induction false} ExpireCutsStalePrefix(window: seq<int>, cutoff: int)
    ensures var r := Expire(window, cutoff);
      && |r| <= |window| && r == window[|window| - |r|..]
      && (forall i | 0 <= i < |window| - |r| :: window[i] <= cutoff)
      && (r != [] ==> cutoff < r[0])
  {
    if window != [] && window[0] <= cutoff {
      var rest := window[1..];
      ExpireCutsStalePrefix(rest, cutoff);
      assert forall i | 0 < i < |window| :: window[i] == rest[i - 1];
    }
  }

  lemma ExpireOne(window: seq<int>, cutoff: int)
    requires window != []
    ensures Expire(window, cutoff) == if cutoff < window[0] then window else Expire(window[1..], cutoff)
  {}

  function CountAfter(stamps: seq<int>, cutoff: int): nat {
    if stamps == [] then 0 else
      CountAfter(stamps[..|stamps| - 1], cutoff) + (if cutoff < stamps[|stamps| - 1] then 1 else 0)
  }

  ghost predicate Chronological(stamps: seq<int>) {
    forall i, j | 0 <= i < j < |stamps| :: stamps[i] <= stamps[j]
  }

  lemma {:induction false} CountAfterConcat(a: seq<int>, b: seq<int>, cutoff: int)
    ensures CountAfter(a + b, cutoff) == CountAfter(a, cutoff) + CountAfter(b, cutoff)
  {
    if b == [] {
      assert a + b == a;
    } else {
      assert (a + b)[..|a + b| - 1] == a + b[..|b| - 1];
      CountAfterConcat(a, b[..|b| - 1], cutoff);
    }
  }

  lemma {:induction false} CountAfterBounds(s: seq<int>, cutoff: int)
    ensures CountAfter(s, cutoff) <= |s|
    ensures CountAfter(s, cutoff) == |s| <==> forall i | 0 <= i < |s| :: cutoff < s[i]
    ensures CountAfter(s, cutoff) == 0 <==> forall i | 0 <= i < |s| :: s[i] <= cutoff
  {
    if s != [] {
      CountAfterBounds(s[..|s| - 1], cutoff);
      assert forall i | 0 <= i < |s| - 1 :: s[..|s| - 1][i] == s[i];
    }
  }

  /** Expiring at one cutoff changes no count taken at that cutoff or a later one. */
  lemma ExpireKeepsCounts(window: seq<int>, cutoff: int, later: int)
    requires cutoff <= later
    ensures CountAfter(Expire(window, cutoff), later) == CountAfter(window, later)
  {
    ExpireCutsStalePrefix(window, cutoff);
    var r := Expire(window, cutoff);
    var gone := window[..|window| - |r|];
    assert window == gone + r;
    CountAfterConcat(gone, r, later);
    CountAfterBounds(gone, later);
  }

  /** Nothing stale waits behind something fresh. */
  ghost predicate FreshLast(window: seq<int>, cutoff: int) {
    forall i, j | 0 <= i < j < |window| && cutoff < window[i] :: cutoff < window[j]
  }

  /** Walking only the expired end counts correctly precisely when no stale entry hides behind a fresh one. */
  lemma ExpireIsExactIff(window: seq<int>, cutoff: int)
    ensures |Expire(window, cutoff)| == CountAfter(window, cutoff) <==> FreshLast(window, cutoff)
  {
    ExpireCutsStalePrefix(window, cutoff);
    var r := Expire(window, cutoff);
    ExpireKeepsCounts(window, cutoff, cutoff);
    CountAfterBounds(r, cutoff);
    if FreshLast(window, cutoff) && r != [] {
      var d := |window| - |r|;
      forall i | 0 <= i < |r| ensures cutoff < r[i] {
        assert r[i] == window[d + i] && r[0] == window[d];
      }
    }
    if forall i | 0 <= i < |r| :: cutoff < r[i] {
      StaleThenFresh(window, r, cutoff);
    }
  }

  lemma StaleThenFresh(window: seq<int>, r: seq<int>, cutoff: int)
    requires |r| <= |window| && r == window[|window| - |r|..]
    requires forall i | 0 <= i < |window| - |r| :: window[i] <= cutoff
    requires forall i | 0 <= i < |r| :: cutoff < r[i]
    ensures FreshLast(window, cutoff)
  {
    var d := |window| - |r|;
    forall i, j | 0 <= i < j < |window| && cutoff < window[i] ensures cutoff < window[j] {
      assert d <= i;
      assert window[j] == r[j - d];
    }
  }

  /** One chronological arrival keeps "window count = min(capacity, full count)" at every cutoff. */
  lemma PushCounts(window: seq<int>, full: seq<int>, ts: int, cap: nat, cutoff: int)
    requires 0 < cap && |window| <= cap
    requires Chronological(window)
    requires forall i | 0 <= i < |window| :: window[i] <= ts
    requires forall i | 0 <= i < |full| :: full[i] <= ts
    requires CountAfter(window, cutoff) == Min(cap, CountAfter(full, cutoff))
    ensures CountAfter(Push(window, ts, cap), cutoff) == Min(cap, CountAfter(full + [ts], cutoff))
  {
    CountAfterOne(full, ts, cutoff);
    CountAfterBounds(window, cutoff);
    CountAfterBounds(full, cutoff);
    if |window| < cap {
      CountAfterOne(window, ts, cutoff);
    } else {
      DropOldest(window, cutoff);
      CountAfterOne(window[1..], ts, cutoff);
    }
  }

  lemma CountAfterOne(s: seq<int>, ts: int, cutoff: int)
    ensures CountAfter(s + [ts], cutoff) == CountAfter(s, cutoff) + if cutoff < ts then 1 else 0
  {
    assert (s + [ts])[..|s|] == s;
  }

  lemma DropOldest(window: seq<int>, cutoff: int)
    requires window != []
    ensures CountAfter(window, cutoff) == CountAfter(window[1..], cutoff) + if cutoff < window[0] then 1 else 0
  {
    assert window == [window[0]] + window[1..];
    CountAfterConcat([window[0]], window[1..], cutoff);
    CountAfterOne([], window[0], cutoff);
    assert [] + [window[0]] == [window[0]];
  }

  // ---------- what expiry leaves, counted ----------

  /** Stale entries that a fresh one ahead of them keeps from being expired. */
  function HiddenStale(s: seq<int>, cutoff: int): nat {
    if s == [] then 0 else
      HiddenStale(s[..|s| - 1], cutoff) +
      (if s[|s| - 1] <= cutoff && CountAfter(s[..|s| - 1], cutoff) > 0 then 1 else 0)
  }

  lemma {:induction false} ExpireAppend(s: seq<int>, x: int, cutoff: int)
    ensures var r := Expire(s, cutoff);
      Expire(s + [x], cutoff) == if r != [] || cutoff < x then r + [x] else []
  {
    if s == [] {
      assert [x][1..] == [];
    } else if s[0] <= cutoff {
      ExpireAppend(s[1..], x, cutoff);
      assert (s + [x])[1..] == s[1..] + [x];
    }
  }

  /** What is left are the fresh entries and those stale ones that hide behind them. */
  lemma {:induction false} ExpireSize(s: seq<int>, cutoff: int)
    ensures |Expire(s, cutoff)| == CountAfter(s, cutoff) + HiddenStale(s, cutoff)
    ensures Expire(s, cutoff) == [] <==> CountAfter(s, cutoff) == 0
  {
    if s != [] {
      var n := |s| - 1;
      ExpireSize(s[..n], cutoff);
      ExpireAppend(s[..n], s[n], cutoff);
      assert s == s[..n] + [s[n]];
    }
  }

  lemma {:induction false} ExpireSkipsStale(gone: seq<int>, window: seq<int>, cutoff: int)
    requires forall k | 0 <= k < |gone| :: gone[k] <= cutoff
    ensures Expire(gone + window, cutoff) == Expire(window, cutoff)
  {
    if gone == [] {
      assert gone + window == window;
    } else {
      ExpireSkipsStale(gone[1..], window, cutoff);
      assert (gone + window)[1..] == gone[1..] + window;
    }
  }

  /** The last `cap` entries. */
  function Latest(stamps: seq<int>, cap: nat): seq<int> {
    if |stamps| <= cap then stamps else stamps[|stamps| - cap..]
  }

  /** How many fresh entries have been overwritten by later ones. */
  function Overwritten(stamps: seq<int>, cap: nat, cutoff: int): nat {
    if |stamps| <= cap then 0 else CountAfter(stamps[..|stamps| - cap], cutoff)
  }

  lemma LatestCounts(stamps: seq<int>, cap: nat, cutoff: int)
    ensures CountAfter(stamps, cutoff) == CountAfter(Latest(stamps, cap), cutoff) + Overwritten(stamps, cap, cutoff)
  {
    if |stamps| > cap {
      var d := |stamps| - cap;
      assert stamps == stamps[..d] + stamps[d..];
      CountAfterConcat(stamps[..d], stamps[d..], cutoff);
    }
  }

  predicate StartsFresh(window: seq<int>, cutoff: int) {
    window != [] && cutoff < window[0]
  }

  lemma KeptWholeIff(window: seq<int>, cutoff: int)
    ensures |Expire(window, cutoff)| <= |window|
    ensures |Expire(window, cutoff)| == |window| <==> window == [] || StartsFresh(window, cutoff)
  {
    ExpireCutsStalePrefix(window, cutoff);
    if window != [] && window[0] <= cutoff {
      ExpireCutsStalePrefix(window[1..], cutoff);
    }
  }

  /** For arrivals in any order: expiring the last `cap` of them leaves min(capacity, fresh ones) entries if and only if
      as many stale ones hide as fresh ones were overwritten, or the whole buffer is kept and more were overwritten. */
  lemma ExpireIsRightIff(stamps: seq<int>, cap: nat, cutoff: int)
    requires 0 < cap
    ensures var latest := Latest(stamps, cap);
      var hidden, lost := HiddenStale(latest, cutoff), Overwritten(stamps, cap, cutoff);
      (|Expire(latest, cutoff)| == Min(cap, CountAfter(stamps, cutoff)))
      <==> (hidden == lost || (hidden < lost && StartsFresh(latest, cutoff)))
  {
    var latest := Latest(stamps, cap);
    var hidden, lost := HiddenStale(latest, cutoff), Overwritten(stamps, cap, cutoff);
    LatestCounts(stamps, cap, cutoff);
    ExpireSize(latest, cutoff);
    KeptWholeIff(latest, cutoff);
    assert lost > 0 ==> |latest| == cap;
    MinIff(CountAfter(latest, cutoff), hidden, lost, cap);
  }

  lemma MinIff(kept: nat, hidden: nat, lost: nat, cap: nat)
    requires kept + hidden <= cap
    ensures kept + hidden == Min(cap, kept + lost) <==> hidden == lost || (hidden < lost && kept + hidden == cap)
  {}
}
