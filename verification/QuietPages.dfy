/** Following NextCursor while nothing is saved: the pages rebuild the range, except for what ties cut off. */
module QuietPages {
  import opened Prelude
  import opened SnapshotStore
  import opened Pagination

  function Later(items: seq<Snapshot>, t: int): seq<Snapshot> {
    if items == [] then [] else
      Later(items[..|items| - 1], t) + (if t < items[|items| - 1].collectedAt then [items[|items| - 1]] else [])
  }

  lemma {:induction false} NothingLater(items: seq<Snapshot>, t: int)
    requires forall i | 0 <= i < |items| :: items[i].collectedAt <= t
    ensures Later(items, t) == []
  {
    if items != [] {
      NothingLater(items[..|items| - 1], t);
    }
  }

  lemma {:induction false} AllLater(items: seq<Snapshot>, t: int)
    requires forall i | 0 <= i < |items| :: t < items[i].collectedAt
    ensures Later(items, t) == items
  {
    if items != [] {
      AllLater(items[..|items| - 1], t);
    }
  }

  lemma Regroup<T>(a: seq<T>, b: seq<T>, c: seq<T>)
    ensures a + b + c == a + (b + c)
  {}

  lemma {:induction false} LaterConcat(a: seq<Snapshot>, b: seq<Snapshot>, t: int)
    ensures Later(a + b, t) == Later(a, t) + Later(b, t)
  {
    if b == [] {
      assert a + b == a;
    } else {
      var n := |b| - 1;
      LaterConcat(a, b[..n], t);
      assert (a + b)[..|a + b| - 1] == a + b[..n] && (a + b)[|a + b| - 1] == b[n];
      Regroup(Later(a, t), Later(b[..n], t), if t < b[n].collectedAt then [b[n]] else []);
    }
  }

  /** Where the later ones begin. */
  function Boundary(items: seq<Snapshot>, t: int): (d: nat)
    ensures d <= |items|
    ensures d < |items| ==> t < items[d].collectedAt
    ensures forall i | 0 <= i < d :: items[i].collectedAt <= t
  {
    if items == [] || t < items[0].collectedAt then 0 else 1 + Boundary(items[1..], t)
  }

  /** In order, what is later than t is a suffix. */
  lemma LaterIsSuffix(items: seq<Snapshot>, t: int)
    requires InOrder(items)
    ensures var d := Boundary(items, t);
      && Later(items, t) == items[d..]
      && (forall i | d <= i < |items| :: t < items[i].collectedAt)
  {
    var d := Boundary(items, t);
    forall i | d <= i < |items| ensures t < items[i].collectedAt {
      assert d < i ==> ByTime(items[d], items[i]);
    }
    LaterSplits(items, d, t);
  }

  lemma LaterSplits(items: seq<Snapshot>, d: nat, t: int)
    requires d <= |items|
    requires forall i | 0 <= i < d :: items[i].collectedAt <= t
    requires forall i | d <= i < |items| :: t < items[i].collectedAt
    ensures Later(items, t) == items[d..]
  {
    var stale, later := items[..d], items[d..];
    assert items == stale + later;
    NothingLater(stale, t);
    AllLater(later, t);
    LaterConcat(stale, later, t);
  }

  /** A later cursor selects what is later among the eligible. */
  lemma {:induction false} LaterCursor(items: seq<Snapshot>, since: int, until: int, cursor: Option<int>, t: int)
    requires cursor.Some? ==> cursor.value <= t
    ensures Eligible(items, since, until, Some(t)) == Later(Eligible(items, since, until, cursor), t)
  {
    if items != [] {
      var n := |items| - 1;
      var before, x := Eligible(items[..n], since, until, cursor), items[n];
      LaterCursor(items[..n], since, until, cursor, t);
      if IsEligible(x, since, until, cursor) {
        LaterAppend(before, x, t);
      } else {
        assert Eligible(items, since, until, cursor) == before;
        assert !IsEligible(x, since, until, Some(t));
      }
    }
  }

  lemma LaterAppend(items: seq<Snapshot>, x: Snapshot, t: int)
    ensures Later(items + [x], t) == Later(items, t) + (if t < x.collectedAt then [x] else [])
  {
    assert (items + [x])[..|items|] == items;
  }

  // ---------- one visit ----------

  /** A page as received, and the eligible snapshots its limit cut off between its end and the next cursor. */
  datatype Visit = Visit(page: WindowPage, lost: seq<Snapshot>)

  function Visiting(eligible: seq<Snapshot>, limit: int): Visit {
    var page := PageFrom(eligible, limit);
    Visit(page, if page.snapshots == [] then [] else TiedAfter(eligible, |page.snapshots|, LastTime(page)))
  }

  /** The run of eligible snapshots from m on that are not later than t. */
  function TiedAfter(eligible: seq<Snapshot>, m: nat, t: int): seq<Snapshot> {
    var d := Boundary(eligible, t);
    if m <= d then eligible[m..d] else []
  }

  function VisitOf(items: seq<Snapshot>, since: int, until: int, limit: int, cursor: Option<int>): Visit {
    Visiting(Eligible(items, since, until, CursorOf(cursor)), ClampLimit(limit))
  }

  lemma VisitIsRequest(items: seq<Snapshot>, since: int, until: int, limit: int, cursor: Option<int>)
    ensures VisitOf(items, since, until, limit, cursor).page == Request(items, since, until, limit, cursor)
  {}

  /** Page, losses and what is later partition the eligible snapshots, in order. */
  lemma VisitingPartitions(eligible: seq<Snapshot>, limit: int)
    requires InOrder(eligible) && eligible != [] && 1 <= limit
    ensures var v := Visiting(eligible, limit);
      && |v.page.snapshots| == Min(limit, |eligible|) && v.page.snapshots == eligible[..|v.page.snapshots|]
      && v.page.snapshots + v.lost + Later(eligible, LastTime(v.page)) == eligible
      && (v.page.hasMore <==> Later(eligible, LastTime(v.page)) != [])
      && (v.page.hasMore ==> v.page.nextCursor == Some(LastTime(v.page)))
      && (forall y | y in v.lost :: y.collectedAt == LastTime(v.page))
  {
    var m := Min(limit, |eligible|);
    var last := eligible[m - 1].collectedAt;
    LaterIsSuffix(eligible, last);
    TiesUpTo(eligible, m, Boundary(eligible, last));
    MoreIffLater(eligible, last);
    VisitingParts(eligible, limit, m, Boundary(eligible, last));
  }

  lemma VisitingParts(eligible: seq<Snapshot>, limit: int, m: nat, d: nat)
    requires 1 <= limit && 0 < m == Min(limit, |eligible|) <= d <= |eligible|
    requires d == Boundary(eligible, eligible[m - 1].collectedAt)
    requires Later(eligible, eligible[m - 1].collectedAt) == eligible[d..]
    requires SomeAfter(eligible, eligible[m - 1].collectedAt) <==> eligible[d..] != []
    ensures var v := Visiting(eligible, limit);
      && v.page.snapshots == eligible[..m] && v.lost == eligible[m..d]
      && LastTime(v.page) == eligible[m - 1].collectedAt
      && v.page.snapshots + v.lost + Later(eligible, LastTime(v.page)) == eligible
      && (v.page.hasMore <==> Later(eligible, LastTime(v.page)) != [])
      && (v.page.hasMore ==> v.page.nextCursor == Some(LastTime(v.page)))
  {
    PageEnd(eligible, limit);
    ThreeParts(eligible, m, d);
  }

  lemma PageEnd(eligible: seq<Snapshot>, limit: int)
    requires 1 <= limit && eligible != []
    ensures var m, page := Min(limit, |eligible|), PageFrom(eligible, limit);
      && page.snapshots == eligible[..m] && LastTime(page) == eligible[m - 1].collectedAt
      && (page.hasMore <==> SomeAfter(eligible, LastTime(page)))
      && (page.hasMore ==> page.nextCursor == Some(LastTime(page)))
  {}

  lemma ThreeParts<T>(s: seq<T>, m: nat, d: nat)
    requires m <= d <= |s|
    ensures s[..m] + s[m..d] + s[d..] == s
  {}

  lemma TiesUpTo(eligible: seq<Snapshot>, m: nat, d: nat)
    requires InOrder(eligible) && 0 < m <= |eligible| && d == Boundary(eligible, eligible[m - 1].collectedAt)
    ensures m <= d && forall y | y in eligible[m..d] :: y.collectedAt == eligible[m - 1].collectedAt
  {
    forall i | m <= i < d ensures eligible[i].collectedAt == eligible[m - 1].collectedAt {
      assert ByTime(eligible[m - 1], eligible[i]);
    }
    assert d < |eligible| ==> eligible[m - 1].collectedAt < eligible[d].collectedAt;
    assert d < m - 1 ==> ByTime(eligible[d], eligible[m - 1]);
  }

  lemma MoreIffLater(eligible: seq<Snapshot>, t: int)
    requires InOrder(eligible)
    ensures SomeAfter(eligible, t) <==> Later(eligible, t) != []
  {
    LaterIsSuffix(eligible, t);
  }

  /** The same for the request itself, whose cursor makes what is later the stock of the next request. */
  lemma VisitPartitions(items: seq<Snapshot>, since: int, until: int, limit: int, cursor: Option<int>)
    requires InOrder(items)
    ensures var v := VisitOf(items, since, until, limit, cursor);
      var eligible := Eligible(items, since, until, CursorOf(cursor));
      && (forall y | y in v.lost :: v.page.snapshots != [] && y.collectedAt == LastTime(v.page))
      && (v.page.hasMore ==>
            var rest := Eligible(items, since, until, Some(LastTime(v.page)));
            && v.page.snapshots != [] && v.page.nextCursor == Some(LastTime(v.page))
            && rest != [] && v.page.snapshots + v.lost + rest == eligible)
      && (!v.page.hasMore ==> v.page.snapshots + v.lost == eligible)
  {
    var eligible := Eligible(items, since, until, CursorOf(cursor));
    if eligible != [] {
      EligibleInOrder(items, since, until, CursorOf(cursor));
      VisitingPartitions(eligible, ClampLimit(limit));
      NextStock(items, since, until, limit, cursor);
    }
  }

  lemma NextStock(items: seq<Snapshot>, since: int, until: int, limit: int, cursor: Option<int>)
    requires Eligible(items, since, until, CursorOf(cursor)) != []
    ensures var page := VisitOf(items, since, until, limit, cursor).page;
      && page.snapshots != []
      && Eligible(items, since, until, Some(LastTime(page)))
         == Later(Eligible(items, since, until, CursorOf(cursor)), LastTime(page))
  {
    var eligible := Eligible(items, since, until, CursorOf(cursor));
    PageEnd(eligible, ClampLimit(limit));
    StockAfter(items, since, until, cursor, eligible, Min(ClampLimit(limit), |eligible|) - 1);
  }

  lemma StockAfter(items: seq<Snapshot>, since: int, until: int, cursor: Option<int>, eligible: seq<Snapshot>, i: nat)
    requires eligible == Eligible(items, since, until, CursorOf(cursor)) && i < |eligible|
    ensures Eligible(items, since, until, Some(eligible[i].collectedAt)) == Later(eligible, eligible[i].collectedAt)
  {
    LastIsEligible(items, since, until, cursor, eligible, i);
    LaterCursor(items, since, until, CursorOf(cursor), eligible[i].collectedAt);
  }

  lemma LastIsEligible(items: seq<Snapshot>, since: int, until: int, cursor: Option<int>, eligible: seq<Snapshot>,
                       i: nat)
    requires eligible == Eligible(items, since, until, CursorOf(cursor)) && i < |eligible|
    ensures IsEligible(eligible[i], since, until, CursorOf(cursor))
  {
    EligibleMembers(items, since, until, CursorOf(cursor), eligible[i]);
  }

  // ---------- sessions that end ----------

  /** No page that promises more ends on the zero time, the one timestamp that does not survive as a cursor. */
  predicate AvoidsZero(eligible: seq<Snapshot>, limit: nat)
    requires 1 <= limit
    decreases |eligible|
  {
    |eligible| <= limit ||
    var last := eligible[limit - 1].collectedAt;
    LaterShrinks(eligible, last, limit - 1);
    Later(eligible, last) == [] || (last != ZERO_TIME && AvoidsZero(Later(eligible, last), limit))
  }

  lemma {:induction false} LaterShrinks(items: seq<Snapshot>, t: int, i: nat)
    requires i < |items| && items[i].collectedAt <= t
    ensures |Later(items, t)| < |items|
  {
    var n := |items| - 1;
    if i < n {
      LaterShrinks(items[..n], t, i);
    } else {
      LaterIsNoLonger(items[..n], t);
    }
  }

  lemma {:induction false} LaterIsNoLonger(items: seq<Snapshot>, t: int)
    ensures |Later(items, t)| <= |items|
  {
    if items != [] {
      LaterIsNoLonger(items[..|items| - 1], t);
    }
  }

  /** The page that answers a request, and the stock of the request its cursor makes. */
  lemma PageAndRest(items: seq<Snapshot>, since: int, until: int, limit: int, cursor: Option<int>)
    requires InOrder(items)
    ensures var page, n := Request(items, since, until, limit, cursor), ClampLimit(limit);
      var eligible := Eligible(items, since, until, CursorOf(cursor));
      && (page.hasMore <==> |eligible| > n && Later(eligible, eligible[n - 1].collectedAt) != [])
      && (page.hasMore ==>
            && page.snapshots != [] && LastTime(page) == eligible[n - 1].collectedAt
            && page.nextCursor == Some(LastTime(page))
            && Eligible(items, since, until, Some(LastTime(page))) == Later(eligible, LastTime(page)))
  {
    var eligible := Eligible(items, since, until, CursorOf(cursor));
    VisitIsRequest(items, since, until, limit, cursor);
    if eligible != [] {
      EligibleInOrder(items, since, until, CursorOf(cursor));
      VisitingPartitions(eligible, ClampLimit(limit));
      PageEnd(eligible, ClampLimit(limit));
      NextStock(items, since, until, limit, cursor);
    }
  }

  /** What the k-th request of a client answers that follows NextCursor as long as there is more. */
  function NthPage(items: seq<Snapshot>, since: int, until: int, limit: int, cursor: Option<int>, k: nat): WindowPage
    decreases k
  {
    var page := Request(items, since, until, limit, cursor);
    if k == 0 || !page.hasMore then page else NthPage(items, since, until, limit, page.nextCursor, k - 1)
  }

  function StockOf(items: seq<Snapshot>, since: int, until: int, cursor: Option<int>): seq<Snapshot> {
    Eligible(items, since, until, CursorOf(cursor))
  }

  lemma MoreToCome(items: seq<Snapshot>, since: int, until: int, limit: int, cursor: Option<int>)
    requires InOrder(items) && !AvoidsZero(StockOf(items, since, until, cursor), ClampLimit(limit))
    ensures var page := Request(items, since, until, limit, cursor);
      page.hasMore && (CursorOf(page.nextCursor) == None
        || !AvoidsZero(StockOf(items, since, until, page.nextCursor), ClampLimit(limit)))
  {
    PageAndRest(items, since, until, limit, cursor);
  }

  lemma {:induction false} AlwaysMore(items: seq<Snapshot>, since: int, until: int, limit: int, cursor: Option<int>,
                                      k: nat)
    requires InOrder(items)
    requires !AvoidsZero(StockOf(items, since, until, None), ClampLimit(limit))
    requires !AvoidsZero(StockOf(items, since, until, cursor), ClampLimit(limit))
    ensures NthPage(items, since, until, limit, cursor, k).hasMore
    decreases k
  {
    MoreToCome(items, since, until, limit, cursor);
    if k > 0 {
      var next := Request(items, since, until, limit, cursor).nextCursor;
      assert CursorOf(next) == None ==> StockOf(items, since, until, next) == StockOf(items, since, until, None);
      AlwaysMore(items, since, until, limit, next, k - 1);
    }
  }

  lemma {:induction false} EventuallyDone(items: seq<Snapshot>, since: int, until: int, limit: int, cursor: Option<int>)
    returns (k: nat)
    requires InOrder(items) && AvoidsZero(StockOf(items, since, until, cursor), ClampLimit(limit))
    ensures !NthPage(items, since, until, limit, cursor, k).hasMore
    decreases |StockOf(items, since, until, cursor)|
  {
    var page := Request(items, since, until, limit, cursor);
    PageAndRest(items, since, until, limit, cursor);
    k := 0;
    if page.hasMore {
      LaterShrinks(StockOf(items, since, until, cursor), LastTime(page), ClampLimit(limit) - 1);
      k := EventuallyDone(items, since, until, limit, page.nextCursor);
      k := k + 1;
    }
  }

  /** A client that follows NextCursor on a quiet store comes to an end exactly when no page that promises more ends on
      the zero time; otherwise it is sent round and round for ever. */
  lemma SessionEndsIff(items: seq<Snapshot>, since: int, until: int, limit: int)
    requires InOrder(items)
    ensures (exists k: nat :: !NthPage(items, since, until, limit, None, k).hasMore)
       <==> AvoidsZero(Eligible(items, since, until, None), ClampLimit(limit))
  {
    if AvoidsZero(Eligible(items, since, until, None), ClampLimit(limit)) {
      var k := EventuallyDone(items, since, until, limit, None);
    } else {
      forall k: nat ensures NthPage(items, since, until, limit, None, k).hasMore {
        AlwaysMore(items, since, until, limit, None, k);
      }
    }
  }

  /** Whatever page it is on, the cursor starts the session over exactly when that page ends on the zero time. */
  lemma StartsOverIff(items: seq<Snapshot>, since: int, until: int, limit: int, cursor: Option<int>)
    requires InOrder(items) && Request(items, since, until, limit, cursor).hasMore
    ensures var page := Request(items, since, until, limit, cursor);
      && page.snapshots != []
      && (Request(items, since, until, limit, page.nextCursor) == Request(items, since, until, limit, None)
          <==> LastTime(page) == ZERO_TIME)
  {
    var page, first := Request(items, since, until, limit, cursor), Request(items, since, until, limit, None);
    PageAndRest(items, since, until, limit, cursor);
    if LastTime(page) != ZERO_TIME {
      var x := page.snapshots[|page.snapshots| - 1];
      RequestCovers(items, since, until, limit, cursor);
      assert x in SliceOf(page).got;
      FirstIsNotLater(items, since, until, limit, x);
      NotBeforeCursor(items, since, until, limit, LastTime(page), first.snapshots[0]);
      assert first.snapshots[0] in first.snapshots;
    }
  }

  /** The first page starts no later than anything in range. */
  lemma FirstIsNotLater(items: seq<Snapshot>, since: int, until: int, limit: int, x: Snapshot)
    requires InOrder(items) && x in items && since <= x.collectedAt <= until
    ensures var first := Request(items, since, until, limit, None);
      first.snapshots != [] && first.snapshots[0].collectedAt <= x.collectedAt
  {
    var eligible := Eligible(items, since, until, None);
    EligibleMembers(items, since, until, None, x);
    EligibleInOrder(items, since, until, None);
    PageEnd(eligible, ClampLimit(limit));
    var i :| 0 <= i < |eligible| && eligible[i] == x;
    assert i > 0 ==> ByTime(eligible[0], eligible[i]);
  }

  /** A request with a cursor answers with nothing at or before it. */
  lemma NotBeforeCursor(items: seq<Snapshot>, since: int, until: int, limit: int, t: int, x: Snapshot)
    requires InOrder(items) && t != ZERO_TIME && x.collectedAt <= t
    ensures x !in Request(items, since, until, limit, Some(t)).snapshots
  {
    PageSplitsEligible(items, since, until, ClampLimit(limit), Some(t), x);
  }

  /** Two snapshots, the first at the zero time, asked for one by one: the second is never reached. */
  lemma ZeroTimeTraps(a: Snapshot, b: Snapshot, since: int, until: int, k: nat)
    requires a.collectedAt == ZERO_TIME < b.collectedAt && since <= a.collectedAt && b.collectedAt <= until
    ensures NthPage([a, b], since, until, 1, None, k).snapshots == [a]
    ensures NthPage([a, b], since, until, 1, None, k).hasMore
  {
    BothEligible(a, b, since, until);
    var page := Request([a, b], since, until, 1, None);
    assert SomeAfter([a, b], ZERO_TIME) by {
      assert [a, b][1] == b;
    }
    assert page.snapshots == [a] && page.hasMore && page.nextCursor == Some(ZERO_TIME);
    SamePageAgain([a, b], since, until, 1, page.nextCursor, k);
  }

  lemma {:induction false} SamePageAgain(items: seq<Snapshot>, since: int, until: int, limit: int, cursor: Option<int>,
                                         k: nat)
    requires var page := Request(items, since, until, limit, None);
      page.hasMore && page.nextCursor == cursor && CursorOf(cursor) == None
    ensures NthPage(items, since, until, limit, None, k) == Request(items, since, until, limit, None)
    ensures NthPage(items, since, until, limit, cursor, k) == Request(items, since, until, limit, None)
    decreases k
  {
    if k > 0 {
      SamePageAgain(items, since, until, limit, cursor, k - 1);
    }
  }

  // ---------- whole sessions ----------

  /** All visits of a client that follows NextCursor until HasMore is false. */
  function Follow(items: seq<Snapshot>, since: int, until: int, limit: int, cursor: Option<int>): (visits: seq<Visit>)
    requires InOrder(items) && AvoidsZero(StockOf(items, since, until, cursor), ClampLimit(limit))
    ensures visits != []
    decreases |StockOf(items, since, until, cursor)|
  {
    var v := VisitOf(items, since, until, limit, cursor);
    if !v.page.hasMore then [v] else
      StockShrinks(items, since, until, limit, cursor);
      [v] + Follow(items, since, until, limit, v.page.nextCursor)
  }

  lemma StockShrinks(items: seq<Snapshot>, since: int, until: int, limit: int, cursor: Option<int>)
    requires InOrder(items) && AvoidsZero(StockOf(items, since, until, cursor), ClampLimit(limit))
    ensures var page := VisitOf(items, since, until, limit, cursor).page; page.hasMore ==>
      && page.nextCursor == Some(LastTime(page)) && LastTime(page) != ZERO_TIME
      && StockOf(items, since, until, page.nextCursor) == Later(StockOf(items, since, until, cursor), LastTime(page))
      && |StockOf(items, since, until, page.nextCursor)| < |StockOf(items, since, until, cursor)|
      && AvoidsZero(StockOf(items, since, until, page.nextCursor), ClampLimit(limit))
  {
    var eligible, n := StockOf(items, since, until, cursor), ClampLimit(limit);
    PageAndRest(items, since, until, limit, cursor);
    VisitIsRequest(items, since, until, limit, cursor);
    if VisitOf(items, since, until, limit, cursor).page.hasMore {
      LaterShrinks(eligible, eligible[n - 1].collectedAt, n - 1);
    }
  }

  lemma FollowUnfold(items: seq<Snapshot>, since: int, until: int, limit: int, cursor: Option<int>)
    requires InOrder(items) && AvoidsZero(StockOf(items, since, until, cursor), ClampLimit(limit))
    ensures var v := VisitOf(items, since, until, limit, cursor);
      && (!v.page.hasMore ==> Follow(items, since, until, limit, cursor) == [v])
      && (v.page.hasMore ==>
            && AvoidsZero(StockOf(items, since, until, v.page.nextCursor), ClampLimit(limit))
            && Follow(items, since, until, limit, cursor)
               == [v] + Follow(items, since, until, limit, v.page.nextCursor))
  {
    StockShrinks(items, since, until, limit, cursor);
  }

  function Rebuilt(visits: seq<Visit>): seq<Snapshot> {
    if visits == [] then [] else visits[0].page.snapshots + visits[0].lost + Rebuilt(visits[1..])
  }

  function Delivered(visits: seq<Visit>): seq<Snapshot> {
    if visits == [] then [] else visits[0].page.snapshots + Delivered(visits[1..])
  }

  /** Delivered and lost together are these snapshots in order, and everything lost ties with the end of its page. */
  ghost predicate Rebuilds(visits: seq<Visit>, eligible: seq<Snapshot>) {
    && Rebuilt(visits) == eligible
    && (forall i | 0 <= i < |visits| :: LosesTies(visits[i]))
  }

  ghost predicate LosesTies(v: Visit) {
    forall y | y in v.lost :: v.page.snapshots != [] && y.collectedAt == LastTime(v.page)
  }

  lemma OneMoreRebuilt(v: Visit, rest: seq<Visit>, eligible: seq<Snapshot>, later: seq<Snapshot>)
    requires Rebuilds(rest, later) && LosesTies(v) && v.page.snapshots + v.lost + later == eligible
    ensures Rebuilds([v] + rest, eligible)
  {
    RebuiltCons(v, rest);
  }

  /** The pages and their losses rebuild the range. */
  lemma {:induction false} PagesRebuildRange(items: seq<Snapshot>, since: int, until: int, limit: int,
                                             cursor: Option<int>)
    requires InOrder(items) && AvoidsZero(StockOf(items, since, until, cursor), ClampLimit(limit))
    ensures Rebuilds(Follow(items, since, until, limit, cursor), StockOf(items, since, until, cursor))
    decreases |StockOf(items, since, until, cursor)|
  {
    var v := VisitOf(items, since, until, limit, cursor);
    VisitRebuilds(items, since, until, limit, cursor, v);
    FollowUnfold(items, since, until, limit, cursor);
    if v.page.hasMore {
      var next := v.page.nextCursor;
      PagesRebuildRange(items, since, until, limit, next);
      OneMoreRebuilt(v, Follow(items, since, until, limit, next), StockOf(items, since, until, cursor),
                     StockOf(items, since, until, next));
    } else {
      OneMoreRebuilt(v, [], StockOf(items, since, until, cursor), []);
      assert [v] + [] == [v];
    }
  }

  lemma VisitRebuilds(items: seq<Snapshot>, since: int, until: int, limit: int, cursor: Option<int>, v: Visit)
    requires InOrder(items) && AvoidsZero(StockOf(items, since, until, cursor), ClampLimit(limit))
    requires v == VisitOf(items, since, until, limit, cursor)
    ensures LosesTies(v)
    ensures v.page.hasMore ==>
      && |StockOf(items, since, until, v.page.nextCursor)| < |StockOf(items, since, until, cursor)|
      && v.page.snapshots + v.lost + StockOf(items, since, until, v.page.nextCursor)
         == StockOf(items, since, until, cursor)
    ensures !v.page.hasMore ==> v.page.snapshots + v.lost + [] == StockOf(items, since, until, cursor)
  {
    VisitPartitions(items, since, until, limit, cursor);
    StockShrinks(items, since, until, limit, cursor);
    assert v.page.snapshots + v.lost + [] == v.page.snapshots + v.lost;
  }

  lemma RebuiltCons(v: Visit, rest: seq<Visit>)
    ensures Rebuilt([v] + rest) == v.page.snapshots + v.lost + Rebuilt(rest)
    ensures Delivered([v] + rest) == v.page.snapshots + Delivered(rest)
  {
    assert ([v] + rest)[1..] == rest;
  }

  // ---------- when nothing is lost ----------

  /** Cut into runs of `limit`, the range nowhere cuts through equal timestamps; ties inside a page are harmless. */
  predicate NoTieAtCuts(eligible: seq<Snapshot>, limit: nat)
    requires 1 <= limit
    decreases |eligible|
  {
    |eligible| <= limit ||
    (eligible[limit - 1].collectedAt < eligible[limit].collectedAt && NoTieAtCuts(eligible[limit..], limit))
  }

  /** How many full pages it takes, the last one perhaps partial or empty. */
  function PagesNeeded(n: nat, limit: nat): nat
    requires 1 <= limit
  {
    if n <= limit then 1 else 1 + PagesNeeded(n - limit, limit)
  }

  function Ceil(n: nat, limit: nat): nat
    requires 1 <= limit
  {
    (n + limit - 1) / limit
  }

  lemma {:induction false} PagesNeededIsCeil(n: nat, limit: nat)
    requires 1 <= limit
    ensures PagesNeeded(n, limit) == if n == 0 then 1 else Ceil(n, limit)
  {
    if 0 < n <= limit {
      DivShift(n - 1, limit);
      DivSmall(n - 1, limit);
    } else if limit < n {
      PagesNeededIsCeil(n - limit, limit);
      DivShift(n - 1, limit);
    }
  }

  lemma DivShift(a: int, b: int)
    requires 0 < b
    ensures (a + b) / b == a / b + 1
  {
    assert a == (a / b) * b + a % b;
    var k := (a + b) / b - a / b - 1;
    assert k * b == a % b - (a + b) % b by {
      assert a + b == ((a + b) / b) * b + (a + b) % b;
      assert k * b == ((a + b) / b) * b - (a / b) * b - b;
    }
    MulAtLeast(k, b);
  }

  lemma DivSmall(a: int, b: int)
    requires 0 <= a < b
    ensures a / b == 0
  {}

  /** The cut after m goes through a tie, or what is later is what comes after the cut. */
  lemma CutAt(eligible: seq<Snapshot>, m: nat)
    requires InOrder(eligible) && 0 < m < |eligible|
    ensures var later := Later(eligible, eligible[m - 1].collectedAt);
      && (eligible[m - 1].collectedAt < eligible[m].collectedAt ==> later == eligible[m..])
      && (!(eligible[m - 1].collectedAt < eligible[m].collectedAt) ==> |later| < |eligible| - m)
  {
    var t := eligible[m - 1].collectedAt;
    LaterIsSuffix(eligible, t);
    TiesUpTo(eligible, m, Boundary(eligible, t));
  }

  /** A page, what is later than its end, and whether the cut between them goes through a tie. */
  ghost predicate Cuts(page: WindowPage, eligible: seq<Snapshot>, later: seq<Snapshot>, n: nat)
    requires 1 <= n
  {
    if |eligible| <= n then page.snapshots == eligible && !page.hasMore else
      && page.snapshots == eligible[..n] && (page.hasMore <==> later != [])
      && (if eligible[n - 1].collectedAt < eligible[n].collectedAt then later == eligible[n..]
          else |later| < |eligible| - n)
  }

  lemma VisitCuts(items: seq<Snapshot>, since: int, until: int, limit: int, cursor: Option<int>)
    returns (later: seq<Snapshot>)
    requires InOrder(items)
    ensures var page := VisitOf(items, since, until, limit, cursor).page;
      && Cuts(page, StockOf(items, since, until, cursor), later, ClampLimit(limit))
      && (page.hasMore ==> page.snapshots != [] && later == Later(StockOf(items, since, until, cursor), LastTime(page)))
  {
    var eligible, n := StockOf(items, since, until, cursor), ClampLimit(limit);
    PageAndRest(items, since, until, limit, cursor);
    VisitIsRequest(items, since, until, limit, cursor);
    later := [];
    if eligible != [] {
      PageEnd(eligible, n);
      if |eligible| > n {
        later := Later(eligible, eligible[n - 1].collectedAt);
        EligibleInOrder(items, since, until, CursorOf(cursor));
        CutAt(eligible, n);
      } else {
        assert eligible[..|eligible|] == eligible;
      }
    }
  }

  /** Some pages deliver these snapshots, all of them exactly when no cut goes through a tie. */
  ghost predicate Delivers(visits: seq<Visit>, eligible: seq<Snapshot>, n: nat)
    requires 1 <= n
  {
    && |Delivered(visits)| <= |eligible|
    && (Delivered(visits) == eligible <==> NoTieAtCuts(eligible, n))
    && (NoTieAtCuts(eligible, n) ==> |visits| == PagesNeeded(|eligible|, n))
  }

  lemma LastPage(v: Visit, eligible: seq<Snapshot>, later: seq<Snapshot>, n: nat)
    requires 1 <= n && Cuts(v.page, eligible, later, n) && !v.page.hasMore
    ensures Delivers([v], eligible, n)
  {
    RebuiltCons(v, []);
    assert [v] + [] == [v] && v.page.snapshots + [] == v.page.snapshots;
  }

  lemma PageThenRest(v: Visit, rest: seq<Visit>, eligible: seq<Snapshot>, later: seq<Snapshot>, n: nat)
    requires 1 <= n && Cuts(v.page, eligible, later, n) && v.page.hasMore && Delivers(rest, later, n)
    ensures Delivers([v] + rest, eligible, n)
  {
    RebuiltCons(v, rest);
    assert (eligible[..n] + Delivered(rest))[n..] == Delivered(rest);
    assert eligible[..n] + eligible[n..] == eligible;
  }

  /** The pages of a session are exactly the range if and only if no cut goes through a tie, which the range and the
      limit decide; then it takes as few requests as the limit allows. */
  lemma {:induction false} DeliversAllIff(items: seq<Snapshot>, since: int, until: int, limit: int, cursor: Option<int>)
    requires InOrder(items) && AvoidsZero(StockOf(items, since, until, cursor), ClampLimit(limit))
    ensures var visits := Follow(items, since, until, limit, cursor);
      Delivers(visits, StockOf(items, since, until, cursor), ClampLimit(limit))
    decreases |StockOf(items, since, until, cursor)|
  {
    var v := VisitOf(items, since, until, limit, cursor);
    var eligible, n := StockOf(items, since, until, cursor), ClampLimit(limit);
    var later := VisitCuts(items, since, until, limit, cursor);
    StockShrinks(items, since, until, limit, cursor);
    FollowUnfold(items, since, until, limit, cursor);
    if v.page.hasMore {
      DeliversAllIff(items, since, until, limit, v.page.nextCursor);
      PageThenRest(v, Follow(items, since, until, limit, v.page.nextCursor), eligible, later, n);
    } else {
      LastPage(v, eligible, later, n);
    }
  }

  ghost predicate StrictOrder(items: seq<Snapshot>) {
    forall i, j | 0 <= i < j < |items| :: items[i].collectedAt < items[j].collectedAt
  }

  lemma {:induction false} StrictHasNoTies(eligible: seq<Snapshot>, n: nat)
    requires 1 <= n && StrictOrder(eligible)
    ensures NoTieAtCuts(eligible, n)
    decreases |eligible|
  {
    if |eligible| > n {
      StrictHasNoTies(eligible[n..], n);
    }
  }

  /** In particular with distinct timestamps. */
  lemma DistinctPagesAreTheRange(items: seq<Snapshot>, since: int, until: int, limit: int, cursor: Option<int>)
    requires InOrder(items) && AvoidsZero(StockOf(items, since, until, cursor), ClampLimit(limit))
    requires StrictOrder(StockOf(items, since, until, cursor))
    ensures var visits := Follow(items, since, until, limit, cursor);
      var eligible := StockOf(items, since, until, cursor);
      Delivered(visits) == eligible && |visits| == PagesNeeded(|eligible|, ClampLimit(limit))
  {
    StrictHasNoTies(StockOf(items, since, until, cursor), ClampLimit(limit));
    DeliversAllIff(items, since, until, limit, cursor);
  }

  /** Two different snapshots at one time, asked for one by one: the first page is the last, and one of them is lost. */
  lemma TieLosesOne(a: Snapshot, b: Snapshot, since: int, until: int)
    requires a != b && since <= a.collectedAt == b.collectedAt <= until
    ensures var page := Request([a, b], since, until, 1, None);
      page.snapshots == [a] && !page.hasMore && b !in page.snapshots
    ensures InOrder([a, b]) && !NoTieAtCuts(Eligible([a, b], since, until, None), 1)
  {
    BothEligible(a, b, since, until);
  }

  // ---------- a quiet session is a session ----------

  function Pages(visits: seq<Visit>): (r: seq<WindowPage>)
    ensures |r| == |visits|
  {
    seq(|visits|, i requires 0 <= i < |visits| => visits[i].page)
  }

  function Constantly<T>(n: nat, x: T): (r: seq<T>)
    ensures |r| == n && forall i | 0 <= i < n :: r[i] == x
  {
    seq(n, i requires 0 <= i < n => x)
  }

  /** Page i of a session that starts at `cursor`, and its place in it. */
  ghost predicate IsFollowed(items: seq<Snapshot>, since: int, until: int, limit: int, cursor: Option<int>,
                             visits: seq<Visit>, i: nat)
    requires i < |visits|
  {
    && visits[i].page == Request(items, since, until, limit, if i == 0 then cursor else visits[i - 1].page.nextCursor)
    && (visits[i].page.hasMore <==> i < |visits| - 1)
    && (visits[i].page.hasMore ==> visits[i].page.nextCursor != Some(ZERO_TIME))
  }

  ghost predicate IsFollowing(items: seq<Snapshot>, since: int, until: int, limit: int, cursor: Option<int>,
                              visits: seq<Visit>)
    decreases |visits|
  {
    && visits != [] && visits[0].page == Request(items, since, until, limit, cursor)
    && (visits[0].page.hasMore <==> |visits| > 1)
    && (visits[0].page.hasMore ==>
          var next := visits[0].page.nextCursor;
          next != Some(ZERO_TIME) && IsFollowing(items, since, until, limit, next, visits[1..]))
  }

  lemma {:induction false} FollowFollows(items: seq<Snapshot>, since: int, until: int, limit: int, cursor: Option<int>)
    requires InOrder(items) && AvoidsZero(StockOf(items, since, until, cursor), ClampLimit(limit))
    ensures IsFollowing(items, since, until, limit, cursor, Follow(items, since, until, limit, cursor))
    decreases |StockOf(items, since, until, cursor)|
  {
    var v := VisitOf(items, since, until, limit, cursor);
    FollowUnfold(items, since, until, limit, cursor);
    VisitIsRequest(items, since, until, limit, cursor);
    StockShrinks(items, since, until, limit, cursor);
    if v.page.hasMore {
      FollowFollows(items, since, until, limit, v.page.nextCursor);
      OneMoreFollowed(items, since, until, limit, cursor, v, Follow(items, since, until, limit, v.page.nextCursor));
    }
  }

  lemma OneMoreFollowed(items: seq<Snapshot>, since: int, until: int, limit: int, cursor: Option<int>,
                        v: Visit, rest: seq<Visit>)
    requires v.page == Request(items, since, until, limit, cursor) && v.page.hasMore
    requires v.page.nextCursor != Some(ZERO_TIME) && IsFollowing(items, since, until, limit, v.page.nextCursor, rest)
    ensures IsFollowing(items, since, until, limit, cursor, [v] + rest)
  {
    assert ([v] + rest)[1..] == rest;
  }

  lemma {:induction false} FollowingAt(items: seq<Snapshot>, since: int, until: int, limit: int, cursor: Option<int>,
                                       visits: seq<Visit>, i: nat)
    requires i < |visits| && IsFollowing(items, since, until, limit, cursor, visits)
    ensures IsFollowed(items, since, until, limit, cursor, visits, i)
    decreases i
  {
    if i > 0 {
      FollowingAt(items, since, until, limit, visits[0].page.nextCursor, visits[1..], i - 1);
      assert visits[1..][i - 1] == visits[i] && (i > 1 ==> visits[1..][i - 2] == visits[i - 1]);
    }
  }

  lemma QuietRequest(items: seq<Snapshot>, since: int, until: int, limit: int, visits: seq<Visit>, i: nat)
    requires i < |visits| && IsFollowing(items, since, until, limit, None, visits)
    ensures IsRequest(Constantly(|visits|, items), Constantly(|visits|, Range(since, until)),
                        Constantly(|visits|, limit), Pages(visits), i)
    ensures i < |visits| - 1 ==> Pages(visits)[i].nextCursor != Some(ZERO_TIME)
    ensures i == |visits| - 1 ==> !Pages(visits)[i].hasMore
  {
    FollowingAt(items, since, until, limit, None, visits, i);
    assert Pages(visits)[i] == visits[i].page;
    if i > 0 {
      FollowingAt(items, since, until, limit, None, visits, i - 1);
      assert Pages(visits)[i - 1] == visits[i - 1].page;
    }
  }

  lemma FollowingIsPaging(items: seq<Snapshot>, since: int, until: int, limit: int, visits: seq<Visit>)
    requires InOrder(items) && IsFollowing(items, since, until, limit, None, visits)
    ensures var pages := Pages(visits);
      && IsPaging(Constantly(|visits|, items), Constantly(|visits|, Range(since, until)),
                  Constantly(|visits|, limit), pages)
      && CursorsSurvive(pages) && !pages[|pages| - 1].hasMore
  {
    forall i | 0 <= i < |visits|
      ensures IsRequest(Constantly(|visits|, items), Constantly(|visits|, Range(since, until)),
                        Constantly(|visits|, limit), Pages(visits), i)
      ensures i < |visits| - 1 ==> Pages(visits)[i].nextCursor != Some(ZERO_TIME)
    {
      QuietRequest(items, since, until, limit, visits, i);
    }
    QuietRequest(items, since, until, limit, visits, |visits| - 1);
  }

  /** Following cursors on a quiet store is one of the sessions the theorems on concurrent saves speak of. */
  lemma QuietIsPaging(items: seq<Snapshot>, since: int, until: int, limit: int, visits: seq<Visit>)
    requires InOrder(items) && AvoidsZero(Eligible(items, since, until, None), ClampLimit(limit))
    requires visits == Follow(items, since, until, limit, None)
    ensures var pages := Pages(visits);
      && IsPaging(Constantly(|visits|, items), Constantly(|visits|, Range(since, until)),
                  Constantly(|visits|, limit), pages)
      && CursorsSurvive(pages) && !pages[|pages| - 1].hasMore
  {
    FollowFollows(items, since, until, limit, None);
    FollowingIsPaging(items, since, until, limit, visits);
  }

  lemma {:induction false} OnSomePage(visits: seq<Visit>, x: Snapshot)
    ensures x in Delivered(visits) <==> exists i :: 0 <= i < |visits| && x in visits[i].page.snapshots
  {
    if visits != [] {
      OnSomePage(visits[1..], x);
      assert forall i | 0 <= i < |visits| - 1 :: visits[1..][i] == visits[i + 1];
    }
  }

  /** In particular: a snapshot in range is never delivered if and only if some page ends on its timestamp without
      it. */
  lemma MissedIffCutOff(items: seq<Snapshot>, since: int, until: int, limit: int, x: Snapshot, visits: seq<Visit>)
    requires InOrder(items) && AvoidsZero(Eligible(items, since, until, None), ClampLimit(limit))
    requires x in items && since <= x.collectedAt <= until && visits == Follow(items, since, until, limit, None)
    ensures x !in Delivered(visits) <==> exists k | 0 <= k < |visits| :: CutOff(x, visits[k].page)
  {
    QuietIsPaging(items, since, until, limit, visits);
    OnSomePage(visits, x);
    var states, limits := Constantly(|visits|, items), Constantly(|visits|, limit);
    Pagination.MissedIffCutOff(states, Constantly(|visits|, Range(since, until)), limits, Pages(visits), x);
    assert forall k | 0 <= k < |visits| :: Pages(visits)[k] == visits[k].page;
  }
}
