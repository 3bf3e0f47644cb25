/** Following NextCursor: on a quiet store, and while writers keep saving. */
module Pagination {
  import opened Prelude
  import opened SnapshotStore
  import opened Retention

  /** Go's zero time, which a request's cursor cannot express. */
  const ZERO_TIME := 0

  /** The HTTP handler's clamp. */
  function ClampLimit(limit: int): (r: int)
    ensures 1 <= r <= 1000 && (1 <= limit <= 1000 ==> r == limit)
  {
    if limit <= 0 || limit > 1000 then 1000 else limit
  }

  /** A cursor that parses to the zero time is treated as absent. */
  function CursorOf(param: Option<int>): Option<int> {
    if param == Some(ZERO_TIME) then None else param
  }

  function Request(items: seq<Snapshot>, since: int, until: int, limit: int, cursor: Option<int>): WindowPage {
    PageOf(items, since, until, ClampLimit(limit), CursorOf(cursor))
  }

  // ---------- facts about one page ----------

  lemma {:induction false} EligibleMembers(items: seq<Snapshot>, since: int, until: int, cursor: Option<int>,
                                           x: Snapshot)
    ensures x in Eligible(items, since, until, cursor) <==> x in items && IsEligible(x, since, until, cursor)
  {
    if items != [] {
      var n := |items| - 1;
      EligibleMembers(items[..n], since, until, cursor, x);
      assert items == items[..n] + [items[n]];
    }
  }

  lemma {:induction false} EligibleInOrder(items: seq<Snapshot>, since: int, until: int, cursor: Option<int>)
    requires InOrder(items)
    ensures InOrder(Eligible(items, since, until, cursor))
  {
    if items != [] {
      var n := |items| - 1;
      var before, last := Eligible(items[..n], since, until, cursor), items[n];
      EligibleInOrder(items[..n], since, until, cursor);
      forall i | 0 <= i < |before| ensures ByTime(before[i], last) {
        EligibleMembers(items[..n], since, until, cursor, before[i]);
        var j :| 0 <= j < n && items[..n][j] == before[i];
        assert ByTime(items[j], items[n]);
      }
    }
  }

  lemma {:induction false} EligibleCounts(items: seq<Snapshot>, since: int, until: int, cursor: Option<int>,
                                          x: Snapshot)
    ensures multiset(Eligible(items, since, until, cursor))[x]
         == if since <= x.collectedAt <= until && (cursor.None? || cursor.value < x.collectedAt)
            then multiset(items)[x] else 0
  {
    if items != [] {
      var n := |items| - 1;
      EligibleCounts(items[..n], since, until, cursor, x);
      assert items == items[..n] + [items[n]];
    }
  }

  /** How large a page is: as large as asked for between 1 and 1000, and 1000 otherwise. It is headed by the node and
      environment of its first snapshot. */
  lemma PageSize(items: seq<Snapshot>, since: int, until: int, limit: int, cursor: Option<int>)
    requires InOrder(items)
    ensures var eligible := Eligible(items, since, until, CursorOf(cursor));
      var page := Request(items, since, until, limit, cursor);
      && (limit <= 0 || 1000 < limit ==>
            if |eligible| <= 1000 then page.snapshots == eligible && !page.hasMore
            else page.snapshots == eligible[..1000])
      && (1 <= limit <= 1000 ==> page.snapshots == eligible[..Min(limit, |eligible|)])
      && (if page.snapshots == [] then page.nodeID == page.env == "" else
            page.nodeID == eligible[0].nodeID && page.env == eligible[0].env)
  {
    var eligible := Eligible(items, since, until, CursorOf(cursor));
    EligibleInOrder(items, since, until, CursorOf(cursor));
    assert eligible[..|eligible|] == eligible;
    if eligible != [] {
      forall i | 0 <= i < |eligible| ensures eligible[i].collectedAt <= eligible[|eligible| - 1].collectedAt {
        assert i < |eligible| - 1 ==> ByTime(eligible[i], eligible[|eligible| - 1]);
      }
    }
  }

  /** The last timestamp delivered so far, as the next request must carry it. */
  function LastTime(page: WindowPage): int
    requires page.snapshots != []
  {
    page.snapshots[|page.snapshots| - 1].collectedAt
  }

  /** Eligible but pushed off the page by the limit although no later cursor will reach it. */
  ghost predicate CutOff(x: Snapshot, page: WindowPage) {
    page.snapshots != [] && x !in page.snapshots && x.collectedAt == LastTime(page)
  }

  /** An eligible snapshot is on the page, or cut off at its last timestamp, or left for the next cursor. */
  lemma PageSplitsEligible(items: seq<Snapshot>, since: int, until: int, limit: int, cursor: Option<int>, x: Snapshot)
    requires InOrder(items) && 1 <= limit
    ensures var page := PageOf(items, since, until, limit, cursor);
      && (x in page.snapshots ==> x in items && IsEligible(x, since, until, cursor))
      && (x in items && IsEligible(x, since, until, cursor) ==>
            x in page.snapshots || CutOff(x, page) || (page.hasMore && LastTime(page) < x.collectedAt))
      && (page.hasMore ==> page.snapshots != [] && page.nextCursor == Some(LastTime(page)))
      && (forall y | y in page.snapshots :: y.collectedAt <= LastTime(page))
  {
    var eligible := Eligible(items, since, until, cursor);
    var page := PageOf(items, since, until, limit, cursor);
    EligibleMembers(items, since, until, cursor, x);
    EligibleInOrder(items, since, until, cursor);
    forall y | y in page.snapshots ensures y.collectedAt <= LastTime(page) {
      var i :| 0 <= i < |page.snapshots| && page.snapshots[i] == y;
      assert i < |page.snapshots| - 1 ==> ByTime(eligible[i], eligible[|page.snapshots| - 1]);
    }
    if x in eligible && x !in page.snapshots {
      var j :| 0 <= j < |eligible| && eligible[j] == x;
      assert j >= |page.snapshots| by {
        assert forall i | 0 <= i < |page.snapshots| :: page.snapshots[i] == eligible[i];
      }
      assert ByTime(eligible[|page.snapshots| - 1], eligible[j]);
    }
  }

  // ---------- pages interleaved with saves ----------

  function CursorBefore(pages: seq<WindowPage>, i: nat): Option<int>
    requires i <= |pages|
  {
    if i == 0 then None else pages[i - 1].nextCursor
  }

  datatype Range = Range(since: int, until: int) {
    predicate Has(t: int) {
      since <= t <= until
    }
  }

  /** A client following cursors; at each request the store may be anything, and limit and range may be others: a range
      left to the handler's defaults moves with the clock. */
  ghost predicate IsPaging(states: seq<seq<Snapshot>>, ranges: seq<Range>, limits: seq<int>,
                           pages: seq<WindowPage>) {
    && |states| == |ranges| == |limits| == |pages| > 0
    && (forall i | 0 <= i < |states| :: InOrder(states[i]))
    && (forall i | 0 <= i < |pages| :: IsRequest(states, ranges, limits, pages, i))
  }

  /** Request i continues from the page before, which promised more. */
  ghost predicate IsRequest(states: seq<seq<Snapshot>>, ranges: seq<Range>, limits: seq<int>,
                            pages: seq<WindowPage>, i: nat)
    requires |states| == |ranges| == |limits| == |pages| && i < |pages|
  {
    && pages[i] == Request(states[i], ranges[i].since, ranges[i].until, limits[i], CursorBefore(pages, i))
    && (0 < i ==> pages[i - 1].hasMore)
  }

  /** No cursor that was followed is the one timestamp that does not survive as a cursor. */
  predicate CursorsSurvive(pages: seq<WindowPage>) {
    forall i | 0 <= i < |pages| - 1 :: pages[i].nextCursor != Some(ZERO_TIME)
  }

  /** A page reduced to what was delivered, where it ended, and whether it promised more. */
  datatype Slice = Slice(got: set<Snapshot>, last: Option<int>, hasMore: bool)

  function SliceOf(page: WindowPage): Slice {
    Slice(set x | x in page.snapshots, if page.snapshots == [] then None else Some(LastTime(page)), page.hasMore)
  }

  ghost predicate MissedTie(x: Snapshot, slice: Slice) {
    x !in slice.got && slice.last == Some(x.collectedAt)
  }

  /** A slice of the eligible stock: a prefix in time, except for ties at its end. */
  ghost predicate SliceCovers(stock: set<Snapshot>, since: int, until: int, after: Option<int>, slice: Slice) {
    && (slice.hasMore ==> slice.last.Some?)
    && (forall y | y in slice.got ::
          y in stock && IsEligible(y, since, until, after) && slice.last.Some? && y.collectedAt <= slice.last.value)
    && (slice.last.Some? ==> exists y :: y in slice.got && y.collectedAt == slice.last.value)
    && (forall x | x in stock && IsEligible(x, since, until, after) ::
          x in slice.got || MissedTie(x, slice) || (slice.hasMore && slice.last.value < x.collectedAt))
  }

  function Stock(items: seq<Snapshot>): set<Snapshot> {
    set x | x in items
  }

  lemma RequestCovers(items: seq<Snapshot>, since: int, until: int, limit: int, cursor: Option<int>)
    requires InOrder(items)
    ensures var page := Request(items, since, until, limit, cursor);
      && SliceCovers(Stock(items), since, until, CursorOf(cursor), SliceOf(page))
      && (page.hasMore ==> page.nextCursor == SliceOf(page).last)
  {
    var page := Request(items, since, until, limit, cursor);
    forall x ensures
      && (x in page.snapshots ==>
            x in items && IsEligible(x, since, until, CursorOf(cursor)) && x.collectedAt <= LastTime(page))
      && (x in items && IsEligible(x, since, until, CursorOf(cursor)) ==>
            x in page.snapshots || CutOff(x, page) || (page.hasMore && LastTime(page) < x.collectedAt))
      && (page.hasMore ==> page.snapshots != [] && page.nextCursor == Some(LastTime(page))) {
      PageSplitsEligible(items, since, until, ClampLimit(limit), CursorOf(cursor), x);
    }
    if page.snapshots != [] {
      var last := page.snapshots[|page.snapshots| - 1];
      assert last in page.snapshots && last in SliceOf(page).got;
    }
  }

  function EndBefore(slices: seq<Slice>, i: nat): Option<int>
    requires i <= |slices|
  {
    if i == 0 then None else slices[i - 1].last
  }

  /** A whole session told by timestamps: each slice picks up after the end of the one before. */
  ghost predicate Covers(stocks: seq<set<Snapshot>>, ranges: seq<Range>, slices: seq<Slice>) {
    && |stocks| == |ranges| == |slices| > 0
    && (forall i | 0 <= i < |slices| :: CoversAt(stocks, ranges, slices, i))
  }

  ghost predicate CoversAt(stocks: seq<set<Snapshot>>, ranges: seq<Range>, slices: seq<Slice>, i: nat)
    requires |stocks| == |ranges| == |slices| && i < |slices|
  {
    && SliceCovers(stocks[i], ranges[i].since, ranges[i].until, EndBefore(slices, i), slices[i])
    && (0 < i ==> slices[i - 1].hasMore)
  }

  function Stocks(states: seq<seq<Snapshot>>): (r: seq<set<Snapshot>>)
    ensures |r| == |states|
  {
    seq(|states|, i requires 0 <= i < |states| => Stock(states[i]))
  }

  function Slices(pages: seq<WindowPage>): (r: seq<Slice>)
    ensures |r| == |pages|
  {
    seq(|pages|, i requires 0 <= i < |pages| => SliceOf(pages[i]))
  }

  /** A cursor that survives is the end of the page before. */
  lemma CursorIsEnd(states: seq<seq<Snapshot>>, ranges: seq<Range>, limits: seq<int>, pages: seq<WindowPage>,
                    i: nat)
    requires IsPaging(states, ranges, limits, pages) && CursorsSurvive(pages) && i < |pages|
    ensures CursorOf(CursorBefore(pages, i)) == EndBefore(Slices(pages), i)
  {
    if i > 0 {
      assert IsRequest(states, ranges, limits, pages, i) && IsRequest(states, ranges, limits, pages, i - 1);
      RequestCovers(states[i - 1], ranges[i - 1].since, ranges[i - 1].until, limits[i - 1], CursorBefore(pages, i - 1));
    }
  }

  lemma SessionCovers(states: seq<seq<Snapshot>>, ranges: seq<Range>, limits: seq<int>, pages: seq<WindowPage>)
    requires IsPaging(states, ranges, limits, pages) && CursorsSurvive(pages)
    ensures Covers(Stocks(states), ranges, Slices(pages))
  {
    forall i | 0 <= i < |pages| ensures CoversAt(Stocks(states), ranges, Slices(pages), i) {
      assert IsRequest(states, ranges, limits, pages, i);
      CursorIsEnd(states, ranges, limits, pages, i);
      RequestCovers(states[i], ranges[i].since, ranges[i].until, limits[i], CursorBefore(pages, i));
    }
  }

  lemma {:induction false} CoversAdvances(stocks: seq<set<Snapshot>>, ranges: seq<Range>, slices: seq<Slice>,
                                          i: nat, j: nat, y: Snapshot)
    requires Covers(stocks, ranges, slices) && i < j < |slices| && y in slices[j].got
    ensures slices[i].last.Some? && slices[i].last.value < y.collectedAt
    decreases j
  {
    assert CoversAt(stocks, ranges, slices, j) && CoversAt(stocks, ranges, slices, j - 1);
    if i < j - 1 {
      var z :| z in slices[j - 1].got && z.collectedAt == slices[j - 1].last.value;
      CoversAdvances(stocks, ranges, slices, i, j - 1, z);
    }
  }

  /** Later pages start strictly after everything delivered before, so nothing is delivered twice. */
  lemma DeliveryStrictlyAdvances(states: seq<seq<Snapshot>>, ranges: seq<Range>, limits: seq<int>,
                                 pages: seq<WindowPage>,
                                 i: nat, j: nat, x: Snapshot, y: Snapshot)
    requires IsPaging(states, ranges, limits, pages) && CursorsSurvive(pages)
    requires i < j < |pages| && x in pages[i].snapshots && y in pages[j].snapshots
    ensures x.collectedAt < y.collectedAt
  {
    var stocks, slices := Stocks(states), Slices(pages);
    SessionCovers(states, ranges, limits, pages);
    CoversAdvances(stocks, ranges, slices, i, j, y);
    assert CoversAt(stocks, ranges, slices, i);
    assert x in slices[i].got;
  }

  ghost predicate GotOrMissed(slices: seq<Slice>, x: Snapshot, n: nat)
    requires n <= |slices|
  {
    exists k | 0 <= k < n :: x in slices[k].got || MissedTie(x, slices[k])
  }

  /** What stays in stock throughout is delivered so far, or missed as a tie on the way, or still ahead. */
  lemma {:induction false} GotOrAhead(stocks: seq<set<Snapshot>>, ranges: seq<Range>, slices: seq<Slice>,
                                      x: Snapshot, i: nat)
    requires Covers(stocks, ranges, slices) && i < |slices|
    requires forall k | 0 <= k < |stocks| :: x in stocks[k] && ranges[k].Has(x.collectedAt)
    ensures GotOrMissed(slices, x, i + 1)
         || (slices[i].hasMore && slices[i].last.Some? && slices[i].last.value < x.collectedAt)
  {
    assert CoversAt(stocks, ranges, slices, i);
    if i > 0 {
      GotOrAhead(stocks, ranges, slices, x, i - 1);
      if GotOrMissed(slices, x, i) {
        var k :| 0 <= k < i && (x in slices[k].got || MissedTie(x, slices[k]));
      }
    }
  }

  /** When the last page says there is no more, everything that stayed was delivered, or cut off by a tie. */
  lemma CompleteUpToTies(states: seq<seq<Snapshot>>, ranges: seq<Range>, limits: seq<int>, pages: seq<WindowPage>,
                         x: Snapshot)
    returns (k: nat)
    requires IsPaging(states, ranges, limits, pages) && CursorsSurvive(pages)
    requires !pages[|pages| - 1].hasMore
    requires forall i | 0 <= i < |states| :: ranges[i].Has(x.collectedAt) && x in states[i]
    ensures k < |pages| && (x in pages[k].snapshots || CutOff(x, pages[k]))
  {
    var stocks, slices := Stocks(states), Slices(pages);
    SessionCovers(states, ranges, limits, pages);
    assert forall i | 0 <= i < |stocks| :: stocks[i] == Stock(states[i]);
    GotOrAhead(stocks, ranges, slices, x, |slices| - 1);
    k :| 0 <= k < |slices| && (x in slices[k].got || MissedTie(x, slices[k]));
    assert slices[k] == SliceOf(pages[k]);
  }

  /** The page promises more and ends before x, so x is left for a later request. */
  predicate Ahead(page: WindowPage, x: Snapshot) {
    page.hasMore && page.snapshots != [] && LastTime(page) < x.collectedAt
  }

  /** The page on which it is decided whether x is delivered: the first that does not leave it for later. */
  ghost predicate Decides(pages: seq<WindowPage>, x: Snapshot, k: nat) {
    k < |pages| && !Ahead(pages[k], x) && forall i | 0 <= i < k :: Ahead(pages[i], x)
  }

  lemma {:induction false} SomePageDecides(pages: seq<WindowPage>, x: Snapshot, n: nat) returns (k: nat)
    requires n < |pages| && !pages[|pages| - 1].hasMore && forall i | 0 <= i < n :: Ahead(pages[i], x)
    ensures Decides(pages, x, k)
    decreases |pages| - n
  {
    if Ahead(pages[n], x) {
      k := SomePageDecides(pages, x, n + 1);
    } else {
      k := n;
    }
  }

  /** What page k says about x when all pages before left it for later. */
  lemma DecidingPage(states: seq<seq<Snapshot>>, ranges: seq<Range>, limits: seq<int>, pages: seq<WindowPage>,
                     x: Snapshot, k: nat)
    requires IsPaging(states, ranges, limits, pages) && CursorsSurvive(pages) && Decides(pages, x, k)
    ensures x in pages[k].snapshots <==> x in states[k] && ranges[k].Has(x.collectedAt) && !CutOff(x, pages[k])
  {
    var stocks, slices := Stocks(states), Slices(pages);
    SessionCovers(states, ranges, limits, pages);
    assert CoversAt(stocks, ranges, slices, k);
    assert k > 0 ==> slices[k - 1] == SliceOf(pages[k - 1]) && Ahead(pages[k - 1], x);
    assert IsEligible(x, ranges[k].since, ranges[k].until, EndBefore(slices, k)) <==> ranges[k].Has(x.collectedAt);
    assert x in slices[k].got <==> x in pages[k].snapshots;
  }

  lemma OnlyThere(states: seq<seq<Snapshot>>, ranges: seq<Range>, limits: seq<int>, pages: seq<WindowPage>,
                  x: Snapshot, k: nat, j: nat)
    requires IsPaging(states, ranges, limits, pages) && CursorsSurvive(pages) && Decides(pages, x, k)
    requires j < |pages| && x in pages[j].snapshots
    ensures j == k
  {
    var stocks, slices := Stocks(states), Slices(pages);
    SessionCovers(states, ranges, limits, pages);
    assert CoversAt(stocks, ranges, slices, j) && x in slices[j].got;
    assert !Ahead(pages[j], x);
    if k < j {
      assert CoversAt(stocks, ranges, slices, k + 1);
      CoversAdvances(stocks, ranges, slices, k, j, x);
    }
  }

  /** Any session, any snapshot, without assumptions on either: it is delivered if and only if the deciding request
      finds it in the store and in its range, and the page does not end on its timestamp without it. */
  lemma DeliveredIff(states: seq<seq<Snapshot>>, ranges: seq<Range>, limits: seq<int>, pages: seq<WindowPage>,
                     x: Snapshot)
    returns (k: nat)
    requires IsPaging(states, ranges, limits, pages) && CursorsSurvive(pages) && !pages[|pages| - 1].hasMore
    ensures Decides(pages, x, k)
    ensures (exists j | 0 <= j < |pages| :: x in pages[j].snapshots)
       <==> x in states[k] && ranges[k].Has(x.collectedAt) && !CutOff(x, pages[k])
  {
    k := SomePageDecides(pages, x, 0);
    DecidingPage(states, ranges, limits, pages, x, k);
    forall j | 0 <= j < |pages| && x in pages[j].snapshots ensures j == k {
      OnlyThere(states, ranges, limits, pages, x, k, j);
    }
  }

  /** A range that moves on between two requests: a later snapshot is never delivered although the store kept it and no
      page ends on its timestamp. */
  lemma MovingRangeMisses(a: Snapshot, b: Snapshot, since: int, until: int, moved: int) returns (pages: seq<WindowPage>)
    requires a.collectedAt != ZERO_TIME && since <= a.collectedAt < b.collectedAt <= until && b.collectedAt < moved
    ensures IsPaging([[a, b], [a, b]], [Range(since, until), Range(moved, until)], [1, 1], pages)
    ensures CursorsSurvive(pages) && !pages[|pages| - 1].hasMore
    ensures forall k | 0 <= k < |pages| :: b !in pages[k].snapshots && !CutOff(b, pages[k])
  {
    var items, cursor := [a, b], Some(a.collectedAt);
    var first, second := Request(items, since, until, 1, None), Request(items, moved, until, 1, cursor);
    FirstOfTwo(a, b, since, until);
    NoneOfTwo(a, b, moved, until, cursor);
    pages := [first, second];
    var states, ranges := [items, items], [Range(since, until), Range(moved, until)];
    assert IsRequest(states, ranges, [1, 1], pages, 0) && IsRequest(states, ranges, [1, 1], pages, 1);
  }

  lemma BothEligible(a: Snapshot, b: Snapshot, since: int, until: int)
    requires since <= a.collectedAt <= until && since <= b.collectedAt <= until
    ensures Eligible([a, b], since, until, None) == [a, b]
  {
    assert [a, b][..1] == [a] && [a][..0] == [];
    assert Eligible([a], since, until, None) == [a];
  }

  lemma OneOfTwo(a: Snapshot, b: Snapshot)
    requires a.collectedAt < b.collectedAt
    ensures var first := PageFrom([a, b], 1);
      first.snapshots == [a] && first.hasMore && first.nextCursor == Some(a.collectedAt)
  {
    assert FirstOf([a, b], 1) == [a];
    assert [a, b][1] == b;
    assert SomeAfter([a, b], a.collectedAt);
  }

  lemma FirstOfTwo(a: Snapshot, b: Snapshot, since: int, until: int)
    requires since <= a.collectedAt < b.collectedAt <= until
    ensures var first := Request([a, b], since, until, 1, None);
      first.snapshots == [a] && first.hasMore && first.nextCursor == Some(a.collectedAt)
  {
    BothEligible(a, b, since, until);
    OneOfTwo(a, b);
  }

  lemma NoneOfTwo(a: Snapshot, b: Snapshot, since: int, until: int, cursor: Option<int>)
    requires a.collectedAt < since && b.collectedAt < since
    ensures var page := Request([a, b], since, until, 1, cursor); page.snapshots == [] && !page.hasMore
  {
    assert [a, b][..1] == [a] && [a][..0] == [];
    assert Eligible([a], since, until, CursorOf(cursor)) == [];
    assert Eligible([a, b], since, until, CursorOf(cursor)) == [];
  }

  /** What stays in the store throughout a session is missed if and only if some page ends on its timestamp without
      it. */
  lemma MissedIffCutOff(states: seq<seq<Snapshot>>, ranges: seq<Range>, limits: seq<int>, pages: seq<WindowPage>,
                        x: Snapshot)
    requires IsPaging(states, ranges, limits, pages) && CursorsSurvive(pages) && !pages[|pages| - 1].hasMore
    requires forall i | 0 <= i < |states| :: ranges[i].Has(x.collectedAt) && x in states[i]
    ensures (forall j | 0 <= j < |pages| :: x !in pages[j].snapshots)
       <==> exists k | 0 <= k < |pages| :: CutOff(x, pages[k])
  {
    if forall j | 0 <= j < |pages| :: x !in pages[j].snapshots {
      var k := CompleteUpToTies(states, ranges, limits, pages, x);
    } else {
      var j :| 0 <= j < |pages| && x in pages[j].snapshots;
      forall k | 0 <= k < |pages| ensures !CutOff(x, pages[k]) {
        NotBoth(states, ranges, limits, pages, j, k, x);
      }
    }
  }

  lemma NotBoth(states: seq<seq<Snapshot>>, ranges: seq<Range>, limits: seq<int>, pages: seq<WindowPage>,
                j: nat, k: nat, x: Snapshot)
    requires IsPaging(states, ranges, limits, pages) && CursorsSurvive(pages)
    requires j < |pages| && k < |pages| && x in pages[j].snapshots
    ensures !CutOff(x, pages[k])
  {
    if pages[k].snapshots != [] {
      var last := pages[k].snapshots[|pages[k].snapshots| - 1];
      assert last in pages[k].snapshots;
      if j < k {
        DeliveryStrictlyAdvances(states, ranges, limits, pages, j, k, x, last);
      } else if k < j {
        DeliveryStrictlyAdvances(states, ranges, limits, pages, k, j, last, x);
      }
    }
  }

  ghost predicate DistinctTimes(items: seq<Snapshot>) {
    forall x, y | x in items && y in items && x.collectedAt == y.collectedAt :: x == y
  }

  /** With distinct timestamps nothing is cut off: what stayed was delivered. */
  lemma CompleteWhenDistinct(states: seq<seq<Snapshot>>, ranges: seq<Range>, limits: seq<int>,
                             pages: seq<WindowPage>, x: Snapshot)
    returns (k: nat)
    requires IsPaging(states, ranges, limits, pages) && CursorsSurvive(pages)
    requires !pages[|pages| - 1].hasMore
    requires forall i | 0 <= i < |states| :: ranges[i].Has(x.collectedAt) && x in states[i] && DistinctTimes(states[i])
    ensures k < |pages| && x in pages[k].snapshots
  {
    k := CompleteUpToTies(states, ranges, limits, pages, x);
    if x !in pages[k].snapshots {
      TieIsNotDistinct(states, ranges, limits, pages, x, k);
    }
  }

  lemma TieIsNotDistinct(states: seq<seq<Snapshot>>, ranges: seq<Range>, limits: seq<int>, pages: seq<WindowPage>,
                         x: Snapshot, k: nat)
    requires IsPaging(states, ranges, limits, pages) && k < |pages| && x in states[k] && DistinctTimes(states[k])
    ensures !CutOff(x, pages[k])
  {
    assert IsRequest(states, ranges, limits, pages, k);
    var page := pages[k];
    RequestCovers(states[k], ranges[k].since, ranges[k].until, limits[k], CursorBefore(pages, k));
    forall y | y in page.snapshots ensures y in states[k] {
      assert y in SliceOf(page).got;
    }
    DistinctHasNoTies(states[k], page, x);
  }

  lemma DistinctHasNoTies(items: seq<Snapshot>, page: WindowPage, x: Snapshot)
    requires DistinctTimes(items) && x in items
    requires forall y | y in page.snapshots :: y in items
    ensures !CutOff(x, page)
  {
    if page.snapshots != [] {
      var last := page.snapshots[|page.snapshots| - 1];
      assert last in page.snapshots;
    }
  }

  /** The requests of one session fall between the saves of one run, at positions `at`. */
  ghost predicate FallsBetween(run: seq<seq<Snapshot>>, at: seq<nat>, states: seq<seq<Snapshot>>) {
    |at| == |states| > 0 && forall i | 0 <= i < |at| :: at[0] <= at[i] < |run| && states[i] == run[at[i]]
  }

  /** The same told from the saves: what no save up to the last request outdates is delivered. */
  lemma CompleteUnderSaves(retention: int, base: seq<Snapshot>, run: seq<seq<Snapshot>>, saves: seq<Snapshot>,
                           at: seq<nat>,
                           states: seq<seq<Snapshot>>, ranges: seq<Range>, limits: seq<int>,
                           pages: seq<WindowPage>, x: Snapshot)
    returns (k: nat)
    requires IsStoreRun(retention, base, run, saves) && FallsBetween(run, at, states)
    requires IsPaging(states, ranges, limits, pages) && CursorsSurvive(pages) && !pages[|pages| - 1].hasMore
    requires x in run[at[0]]
    requires forall i, j | 0 <= i < |at| && at[0] <= j < at[i] :: Stays(x, retention, saves[j].collectedAt - retention)
    requires forall i | 0 <= i < |states| :: ranges[i].Has(x.collectedAt) && DistinctTimes(states[i])
    ensures k < |pages| && x in pages[k].snapshots
  {
    forall i | 0 <= i < |states| ensures x in states[i] {
      assert x in multiset(run[at[0]]);
      StaysThrough(retention, base, run, saves, x, at[0], at[i]);
      assert x in multiset(run[at[i]]);
    }
    k := CompleteWhenDistinct(states, ranges, limits, pages, x);
  }
}
