/** One billing sample per account: exact totals, nothing lost, and no dependence on the order of the counters. */
module Normalize {
  import opened Prelude
  import opened Words
  import opened SnapshotStore
  import opened Billing

  // ---------- int64 ----------

  const TWO_63 := 0x8000_0000_0000_0000
  const TWO_64 := 0x1_0000_0000_0000_0000

  predicate FitsInt64(x: int) {
    -TWO_63 <= x < TWO_63
  }

  function Overshoot(x: int): nat {
    if x < -TWO_63 then -x else if x < TWO_63 then 0 else x
  }

  /** What an int64 holds after arithmetic that may overflow. */
  function Wrap64(x: int): int
    decreases Overshoot(x)
  {
    if FitsInt64(x) then x else if x < 0 then Wrap64(x + TWO_64) else Wrap64(x - TWO_64)
  }

  lemma {:induction false} WrapFits(x: int)
    ensures FitsInt64(Wrap64(x))
    decreases Overshoot(x)
  {
    if !FitsInt64(x) {
      WrapFits(if x < 0 then x + TWO_64 else x - TWO_64);
    }
  }

  lemma {:induction false} WrapPeriodic(x: int)
    ensures Wrap64(x + TWO_64) == Wrap64(x)
    decreases Overshoot(x)
  {
    if x < -TWO_63 {
      WrapPeriodic(x + TWO_64);
    }
  }

  /** Two's complement: the representative of x modulo 2^64 that fits. */
  lemma {:induction false} WrapIsModular(x: int)
    ensures Wrap64(x) == (x + TWO_63) % TWO_64 - TWO_63
    decreases Overshoot(x)
  {
    if !FitsInt64(x) {
      WrapIsModular(if x < 0 then x + TWO_64 else x - TWO_64);
    }
  }

  /** Wrapping on the way changes nothing in the end. */
  lemma {:induction false} WrapAbsorbs(a: int, b: int)
    ensures Wrap64(Wrap64(a) + b) == Wrap64(a + b)
    decreases Overshoot(a)
  {
    if !FitsInt64(a) {
      if a < 0 {
        WrapAbsorbs(a + TWO_64, b);
        WrapPeriodic(a + b);
      } else {
        WrapAbsorbs(a - TWO_64, b);
        WrapPeriodic(a - TWO_64 + b);
      }
    }
  }

  // ---------- sums over counters ----------

  function SumBy(counters: seq<RawCounter>, f: RawCounter -> int): int {
    if counters == [] then 0 else SumBy(counters[..|counters| - 1], f) + f(counters[|counters| - 1])
  }

  lemma SumByAppend(counters: seq<RawCounter>, c: RawCounter, f: RawCounter -> int)
    ensures SumBy(counters + [c], f) == SumBy(counters, f) + f(c)
  {
    assert (counters + [c])[..|counters|] == counters;
  }

  lemma {:induction false} SumByConcat(a: seq<RawCounter>, b: seq<RawCounter>, f: RawCounter -> int)
    ensures SumBy(a + b, f) == SumBy(a, f) + SumBy(b, f)
  {
    if b == [] {
      assert a + b == a;
    } else {
      var n := |b| - 1;
      SumByConcat(a, b[..n], f);
      assert a + b == a + b[..n] + [b[n]];
      SumByAppend(a + b[..n], b[n], f);
    }
  }

  lemma RemoveOne<T>(a: seq<T>, b: seq<T>, j: nat)
    requires multiset(a) == multiset(b) && a != [] && j < |b| && b[j] == a[|a| - 1]
    ensures multiset(a[..|a| - 1]) == multiset(b[..j] + b[j + 1..])
  {
    RemovedOnce(a, |a| - 1);
    RemovedOnce(b, j);
    assert a[..|a| - 1] + a[|a|..] == a[..|a| - 1];
  }

  lemma RemovedOnce<T>(s: seq<T>, i: nat)
    requires i < |s|
    ensures multiset(s[..i] + s[i + 1..]) == multiset(s) - multiset{s[i]}
  {
    assert s == s[..i] + [s[i]] + s[i + 1..];
  }

  lemma {:induction false} SumByPermutation(a: seq<RawCounter>, b: seq<RawCounter>, f: RawCounter -> int)
    requires multiset(a) == multiset(b)
    ensures SumBy(a, f) == SumBy(b, f)
  {
    SameElements(a, b);
    if a != [] {
      var n := |a| - 1;
      var x := a[n];
      assert x in b;
      var j :| 0 <= j < |b| && b[j] == x;
      var front, back := b[..j], b[j + 1..];
      RemoveOne(a, b, j);
      assert b == front + [x] + back;
      SumByPermutation(a[..n], front + back, f);
      SumByConcat(front, back, f);
      SumByConcat(front + [x], back, f);
      SumByAppend(front, x, f);
    }
  }

  // ---------- what normalisation has to produce ----------

  const UPLINK := "uplink"
  const DOWNLINK := "downlink"

  predicate BillsTo(lc: CaseTable, index: Index, c: RawCounter, uuid: string) {
    Resolve(lc, index, c).Some? && Resolve(lc, index, c).value.uuid == uuid
  }

  function Amount(c: RawCounter, direction: string): int {
    if TrimSpace(c.direction) == direction then c.value else 0
  }

  /** What a counter adds to one account in one direction. */
  function Share(lc: CaseTable, index: Index, uuid: string, direction: string): RawCounter -> int {
    c => if BillsTo(lc, index, c, uuid) then Amount(c, direction) else 0
  }

  /** What a counter adds to the bill of anyone at all. */
  function Kept(lc: CaseTable, index: Index, direction: string): RawCounter -> int {
    c => if Resolve(lc, index, c).Some? then Amount(c, direction) else 0
  }

  function Total(lc: CaseTable, index: Index, counters: seq<RawCounter>, uuid: string, direction: string): int {
    SumBy(counters, Share(lc, index, uuid, direction))
  }

  ghost predicate IsBilled(lc: CaseTable, index: Index, counters: seq<RawCounter>, uuid: string) {
    exists i | 0 <= i < |counters| :: BillsTo(lc, index, counters[i], uuid)
  }

  /** The email of the first counter billed to the account. */
  function FirstEmail(lc: CaseTable, index: Index, counters: seq<RawCounter>, uuid: string): Option<string> {
    if counters == [] then None else
      var before := FirstEmail(lc, index, counters[..|counters| - 1], uuid);
      if before.Some? then before
      else if BillsTo(lc, index, counters[|counters| - 1], uuid)
        then Some(Resolve(lc, index, counters[|counters| - 1]).value.email) else None
  }

  function Uuids(samples: seq<Sample>): (r: seq<string>)
    ensures |r| == |samples|
  {
    seq(|samples|, i requires 0 <= i < |samples| => samples[i].uuid)
  }

  /** Ascending by UUID, exactly the billed accounts, exact (wrapping) totals, no inbound dimension. */
  ghost predicate IsNormalized(lc: CaseTable, index: Index, counters: seq<RawCounter>, samples: seq<Sample>) {
    && Ascending(Uuids(samples))
    && (forall uuid :: uuid in Uuids(samples) <==> IsBilled(lc, index, counters, uuid))
    && (forall i | 0 <= i < |samples| :: IsSampleOf(lc, index, counters, samples[i]))
  }

  ghost predicate IsSampleOf(lc: CaseTable, index: Index, counters: seq<RawCounter>, s: Sample) {
    && s.uplink == Wrap64(Total(lc, index, counters, s.uuid, UPLINK))
    && s.downlink == Wrap64(Total(lc, index, counters, s.uuid, DOWNLINK))
    && FirstEmail(lc, index, counters, s.uuid) == Some(s.email)
    && s.inboundTag == ""
  }

  // ---------- the aggregation ----------

  class Aggregate {
    const uuid: string
    const email: string
    var uplink: int
    var downlink: int

    constructor (uuid: string, email: string)
      ensures this.uuid == uuid && this.email == email && uplink == 0 && downlink == 0
    {
      this.uuid, this.email, uplink, downlink := uuid, email, 0, 0;
    }
  }

  /** The figures an account has to show after some counters. */
  ghost predicate Shows(lc: CaseTable, index: Index, counters: seq<RawCounter>, uuid: string, email: string,
                        uplink: int, downlink: int) {
    && FirstEmail(lc, index, counters, uuid) == Some(email)
    && uplink == Wrap64(Total(lc, index, counters, uuid, UPLINK))
    && downlink == Wrap64(Total(lc, index, counters, uuid, DOWNLINK))
  }

  ghost predicate Covers(lc: CaseTable, index: Index, counters: seq<RawCounter>, uuids: set<string>) {
    forall uuid :: uuid in uuids <==> FirstEmail(lc, index, counters, uuid).Some?
  }

  lemma CoversOneMore(lc: CaseTable, index: Index, counters: seq<RawCounter>, c: RawCounter, uuids: set<string>)
    requires Covers(lc, index, counters, uuids)
    ensures var billed := if Resolve(lc, index, c).Some? then {Resolve(lc, index, c).value.uuid} else {};
      Covers(lc, index, counters + [c], uuids + billed)
  {
    forall uuid {
      OneMoreCounter(lc, index, counters, c, uuid);
    }
  }

  /** The aggregates of the counters seen so far. */
  ghost predicate Aggregated(lc: CaseTable, index: Index, counters: seq<RawCounter>, aggregates: map<string, Aggregate>)
    reads aggregates.Values
  {
    && Covers(lc, index, counters, aggregates.Keys)
    && (forall uuid | uuid in aggregates ::
          var entry := aggregates[uuid];
          entry.uuid == uuid && Shows(lc, index, counters, uuid, entry.email, entry.uplink, entry.downlink))
  }

  lemma BilledOneMore(lc: CaseTable, index: Index, counters: seq<RawCounter>, uuid: string)
    requires counters != []
    ensures IsBilled(lc, index, counters, uuid)
       <==> IsBilled(lc, index, counters[..|counters| - 1], uuid) || BillsTo(lc, index, counters[|counters| - 1], uuid)
  {
    var before := counters[..|counters| - 1];
    assert forall i | 0 <= i < |before| :: before[i] == counters[i];
  }

  lemma {:induction false} BilledIffEmail(lc: CaseTable, index: Index, counters: seq<RawCounter>, uuid: string)
    ensures FirstEmail(lc, index, counters, uuid).Some? <==> IsBilled(lc, index, counters, uuid)
  {
    if counters != [] {
      BilledIffEmail(lc, index, counters[..|counters| - 1], uuid);
      BilledOneMore(lc, index, counters, uuid);
    }
  }

  /** One more counter changes the account it bills to and no other. */
  lemma OneMoreCounter(lc: CaseTable, index: Index, counters: seq<RawCounter>, c: RawCounter, uuid: string)
    ensures var more := counters + [c];
      var bills := BillsTo(lc, index, c, uuid);
      && (forall d :: Total(lc, index, more, uuid, d)
                   == Total(lc, index, counters, uuid, d) + if bills then Amount(c, d) else 0)
      && FirstEmail(lc, index, more, uuid) == (
           var before := FirstEmail(lc, index, counters, uuid);
           if before.Some? then before else if bills then Some(Resolve(lc, index, c).value.email) else None)
  {
    forall d ensures Total(lc, index, counters + [c], uuid, d)
                  == Total(lc, index, counters, uuid, d) + if BillsTo(lc, index, c, uuid) then Amount(c, d) else 0 {
      SumByAppend(counters, c, Share(lc, index, uuid, d));
    }
    assert (counters + [c])[..|counters|] == counters;
  }

  /** The identity lookup of normalize, branch by branch. */
  method ResolveCounter(lc: CaseTable, index: Index, counter: RawCounter) returns (account: Option<Account>)
    ensures account == Resolve(lc, index, counter)
  {
    var identifier := TrimSpace(counter.identifier);
    if identifier == "" {
      return None;
    }
    var key := ToLower(lc, identifier);
    var ok := key in index;
    if !ok && '@' in identifier {
      return None;
    }
    var uuid, email := identifier, "";
    if ok {
      if index[key].accountUUID != "" {
        uuid := index[key].accountUUID;
      } else if index[key].proxyUUID != "" {
        uuid := index[key].proxyUUID;
      }
      email := index[key].email;
    }
    account := Some(Account(uuid, email, ok));
  }

  /** A counter leaves the figures of every account it does not bill to alone. */
  lemma OthersUnaffected(lc: CaseTable, index: Index, counters: seq<RawCounter>, c: RawCounter)
    ensures forall u | !BillsTo(lc, index, c, u) ::
      && FirstEmail(lc, index, counters + [c], u) == FirstEmail(lc, index, counters, u)
      && Total(lc, index, counters + [c], u, UPLINK) == Total(lc, index, counters, u, UPLINK)
      && Total(lc, index, counters + [c], u, DOWNLINK) == Total(lc, index, counters, u, DOWNLINK)
  {
    forall u | !BillsTo(lc, index, c, u)
      ensures FirstEmail(lc, index, counters + [c], u) == FirstEmail(lc, index, counters, u)
      ensures Total(lc, index, counters + [c], u, UPLINK) == Total(lc, index, counters, u, UPLINK)
      ensures Total(lc, index, counters + [c], u, DOWNLINK) == Total(lc, index, counters, u, DOWNLINK)
    {
      OneMoreCounter(lc, index, counters, c, u);
    }
  }

  lemma OwnFigures(lc: CaseTable, index: Index, counters: seq<RawCounter>, c: RawCounter, email: string, up: int,
                   down: int)
    requires Resolve(lc, index, c).Some?
    requires var uuid := Resolve(lc, index, c).value.uuid;
      || Shows(lc, index, counters, uuid, email, up, down)
      || (FirstEmail(lc, index, counters, uuid).None? && email == Resolve(lc, index, c).value.email && up == down == 0)
    ensures Shows(lc, index, counters + [c], Resolve(lc, index, c).value.uuid, email,
                  Wrap64(up + Amount(c, UPLINK)), Wrap64(down + Amount(c, DOWNLINK)))
  {
    var uuid := Resolve(lc, index, c).value.uuid;
    OneMoreCounter(lc, index, counters, c, uuid);
    if FirstEmail(lc, index, counters, uuid).None? {
      UnbilledIsZero(lc, index, counters, uuid, UPLINK);
      UnbilledIsZero(lc, index, counters, uuid, DOWNLINK);
      assert up == Wrap64(Total(lc, index, counters, uuid, UPLINK));
      assert down == Wrap64(Total(lc, index, counters, uuid, DOWNLINK));
    }
    WrapAbsorbs(Total(lc, index, counters, uuid, UPLINK), Amount(c, UPLINK));
    WrapAbsorbs(Total(lc, index, counters, uuid, DOWNLINK), Amount(c, DOWNLINK));
  }

  lemma {:induction false} UnbilledIsZero(lc: CaseTable, index: Index, counters: seq<RawCounter>, uuid: string,
                                          d: string)
    requires FirstEmail(lc, index, counters, uuid).None?
    ensures Total(lc, index, counters, uuid, d) == 0
  {
    if counters != [] {
      UnbilledIsZero(lc, index, counters[..|counters| - 1], uuid, d);
    }
  }

  method AddAmount(entry: Aggregate, counter: RawCounter)
    requires FitsInt64(entry.uplink) && FitsInt64(entry.downlink)
    modifies entry
    ensures entry.uplink == Wrap64(old(entry.uplink) + Amount(counter, UPLINK))
    ensures entry.downlink == Wrap64(old(entry.downlink) + Amount(counter, DOWNLINK))
  {
    var direction := TrimSpace(counter.direction);
    if direction == UPLINK {
      entry.uplink := Wrap64(entry.uplink + counter.value);
    } else if direction == DOWNLINK {
      entry.downlink := Wrap64(entry.downlink + counter.value);
    }
  }

  /** Add one counter to the aggregate of its account, creating it on first use. */
  method Accumulate(lc: CaseTable, index: Index, ghost before: seq<RawCounter>, counter: RawCounter,
                    aggregates: map<string, Aggregate>) returns (after: map<string, Aggregate>)
    requires Aggregated(lc, index, before, aggregates)
    modifies aggregates.Values
    ensures Aggregated(lc, index, before + [counter], after)
    ensures fresh(after.Values - aggregates.Values)
  {
    var account := ResolveCounter(lc, index, counter);
    if account.None? {
      NobodysCounter(lc, index, before, counter, aggregates);
      after := aggregates;
    } else if account.value.uuid in aggregates {
      after := aggregates;
      UpdateEntry(lc, index, before, counter, account.value, aggregates);
    } else {
      after := CreateEntry(lc, index, before, counter, account.value, aggregates);
    }
  }

  lemma NobodysCounter(lc: CaseTable, index: Index, before: seq<RawCounter>, counter: RawCounter,
                       aggregates: map<string, Aggregate>)
    requires Aggregated(lc, index, before, aggregates) && Resolve(lc, index, counter).None?
    ensures Aggregated(lc, index, before + [counter], aggregates)
  {
    OthersUnaffected(lc, index, before, counter);
    CoversOneMore(lc, index, before, counter, aggregates.Keys);
    assert aggregates.Keys + {} == aggregates.Keys;
  }

  method UpdateEntry(lc: CaseTable, index: Index, ghost before: seq<RawCounter>, counter: RawCounter, account: Account,
                     aggregates: map<string, Aggregate>)
    requires Aggregated(lc, index, before, aggregates)
    requires Resolve(lc, index, counter) == Some(account) && account.uuid in aggregates
    modifies aggregates.Values
    ensures Aggregated(lc, index, before + [counter], aggregates)
  {
    var entry := aggregates[account.uuid];
    OwnFigures(lc, index, before, counter, entry.email, entry.uplink, entry.downlink);
    WrapFits(Total(lc, index, before, account.uuid, UPLINK));
    WrapFits(Total(lc, index, before, account.uuid, DOWNLINK));
    OthersUnaffected(lc, index, before, counter);
    CoversOneMore(lc, index, before, counter, aggregates.Keys);
    assert aggregates.Keys + {account.uuid} == aggregates.Keys;
    AddAmount(entry, counter);
  }

  method CreateEntry(lc: CaseTable, index: Index, ghost before: seq<RawCounter>, counter: RawCounter, account: Account,
                     aggregates: map<string, Aggregate>) returns (after: map<string, Aggregate>)
    requires Aggregated(lc, index, before, aggregates)
    requires Resolve(lc, index, counter) == Some(account) && account.uuid !in aggregates
    ensures Aggregated(lc, index, before + [counter], after)
    ensures fresh(after.Values - aggregates.Values)
  {
    var entry := new Aggregate(account.uuid, account.email);
    OwnFigures(lc, index, before, counter, entry.email, 0, 0);
    OthersUnaffected(lc, index, before, counter);
    CoversOneMore(lc, index, before, counter, aggregates.Keys);
    AddAmount(entry, counter);
    after := aggregates[account.uuid := entry];
    assert after.Keys == aggregates.Keys + {account.uuid};
  }

  /** The loop over the counters. */
  method Aggregates(lc: CaseTable, index: Index, counters: seq<RawCounter>) returns (aggregates: map<string, Aggregate>)
    ensures Aggregated(lc, index, counters, aggregates) && fresh(aggregates.Values)
  {
    aggregates := map[];
    for i := 0 to |counters|
      invariant fresh(aggregates.Values)
      invariant Aggregated(lc, index, counters[..i], aggregates)
    {
      aggregates := Accumulate(lc, index, counters[..i], counters[i], aggregates);
      assert counters[..i + 1] == counters[..i] + [counters[i]];
    }
    assert counters[..|counters|] == counters;
  }

  /** Ranging over the map and sorting what the iterator happened to list. */
  method SortedKeys(keys: set<string>) returns (sorted: seq<string>)
    ensures Ascending(sorted) && forall x :: x in sorted <==> x in keys
  {
    var listed: seq<string> := [];
    var rest := keys;
    while rest != {}
      invariant rest <= keys && Distinct(listed)
      invariant forall x :: x in listed <==> x in keys && x !in rest
      decreases rest
    {
      var key :| key in rest;
      listed := listed + [key];
      rest := rest - {key};
    }
    sorted := SortStrings(listed);
    SameElements(listed, sorted);
  }

  method NormalizeCounters(lc: CaseTable, index: Index, counters: seq<RawCounter>) returns (samples: seq<Sample>)
    ensures IsNormalized(lc, index, counters, samples)
  {
    var aggregates := Aggregates(lc, index, counters);
    var keys := SortedKeys(aggregates.Keys);
    samples := [];
    for i := 0 to |keys|
      invariant Uuids(samples) == keys[..i]
      invariant forall j | 0 <= j < |samples| :: IsSampleOf(lc, index, counters, samples[j])
    {
      assert keys[i] in keys;
      var entry := aggregates[keys[i]];
      samples := samples + [Sample(entry.uuid, entry.email, "", entry.uplink, entry.downlink)];
      assert keys[..i + 1] == keys[..i] + [keys[i]];
    }
    assert keys[..|keys|] == keys;
    forall uuid ensures uuid in Uuids(samples) <==> IsBilled(lc, index, counters, uuid) {
      BilledIffEmail(lc, index, counters, uuid);
    }
  }

  // ---------- what the figures are worth ----------

  lemma {:induction false} BilledRespectsPermutation(lc: CaseTable, index: Index, a: seq<RawCounter>,
                                                     b: seq<RawCounter>, uuid: string)
    requires multiset(a) == multiset(b) && IsBilled(lc, index, a, uuid)
    ensures IsBilled(lc, index, b, uuid)
  {
    SameElements(a, b);
    var i :| 0 <= i < |a| && BillsTo(lc, index, a[i], uuid);
    assert a[i] in b;
    var j :| 0 <= j < |b| && b[j] == a[i];
    assert BillsTo(lc, index, b[j], uuid);
  }

  /** Counters billed to one account carry one email. */
  ghost predicate EmailsAgree(lc: CaseTable, index: Index, counters: seq<RawCounter>) {
    forall i, j | 0 <= i < |counters| && 0 <= j < |counters|
        && Resolve(lc, index, counters[i]).Some? && Resolve(lc, index, counters[j]).Some?
        && Resolve(lc, index, counters[i]).value.uuid == Resolve(lc, index, counters[j]).value.uuid ::
      Resolve(lc, index, counters[i]).value.email == Resolve(lc, index, counters[j]).value.email
  }

  lemma {:induction false} FirstEmailIsSomeones(lc: CaseTable, index: Index, counters: seq<RawCounter>, uuid: string)
    returns (i: nat)
    requires FirstEmail(lc, index, counters, uuid).Some?
    ensures i < |counters| && BillsTo(lc, index, counters[i], uuid)
    ensures FirstEmail(lc, index, counters, uuid).value == Resolve(lc, index, counters[i]).value.email
  {
    var n := |counters| - 1;
    if FirstEmail(lc, index, counters[..n], uuid).Some? {
      i := FirstEmailIsSomeones(lc, index, counters[..n], uuid);
    } else {
      i := n;
    }
  }

  /** The order in which the counters arrive decides nothing but, between disagreeing identities, the email. */
  lemma OrderIsIrrelevant(lc: CaseTable, index: Index, a: seq<RawCounter>, b: seq<RawCounter>, sa: seq<Sample>,
                          sb: seq<Sample>)
    requires multiset(a) == multiset(b)
    requires IsNormalized(lc, index, a, sa) && IsNormalized(lc, index, b, sb)
    ensures |sa| == |sb|
    ensures forall i | 0 <= i < |sa| :: sa[i].(email := "") == sb[i].(email := "")
    ensures EmailsAgree(lc, index, a) ==> sa == sb
  {
    forall uuid ensures uuid in Uuids(sa) <==> uuid in Uuids(sb) {
      if IsBilled(lc, index, a, uuid) {
        BilledRespectsPermutation(lc, index, a, b, uuid);
      }
      if IsBilled(lc, index, b, uuid) {
        BilledRespectsPermutation(lc, index, b, a, uuid);
      }
    }
    AscendingIsUnique(Uuids(sa), Uuids(sb));
    assert |Uuids(sa)| == |sa| && |Uuids(sb)| == |sb|;
    forall i | 0 <= i < |sa|
      ensures sa[i].(email := "") == sb[i].(email := "")
      ensures EmailsAgree(lc, index, a) ==> sa[i] == sb[i]
    {
      assert Uuids(sa)[i] == Uuids(sb)[i];
      SameSample(lc, index, a, b, sa[i], sb[i]);
    }
  }

  lemma SameSample(lc: CaseTable, index: Index, a: seq<RawCounter>, b: seq<RawCounter>, s: Sample, t: Sample)
    requires multiset(a) == multiset(b) && s.uuid == t.uuid
    requires IsSampleOf(lc, index, a, s) && IsSampleOf(lc, index, b, t)
    ensures s.(email := "") == t.(email := "")
    ensures EmailsAgree(lc, index, a) ==> s == t
  {
    SumByPermutation(a, b, Share(lc, index, s.uuid, UPLINK));
    SumByPermutation(a, b, Share(lc, index, s.uuid, DOWNLINK));
    var i := FirstEmailIsSomeones(lc, index, a, s.uuid);
    var j := FirstEmailIsSomeones(lc, index, b, s.uuid);
    SameElements(a, b);
    assert b[j] in a;
    var k :| 0 <= k < |a| && a[k] == b[j];
  }

  // ---------- conservation ----------

  function TotalOver(lc: CaseTable, index: Index, counters: seq<RawCounter>, uuids: seq<string>,
                     direction: string): int {
    if uuids == [] then 0 else
      Total(lc, index, counters, uuids[0], direction) + TotalOver(lc, index, counters, uuids[1..], direction)
  }

  function Figure(s: Sample, direction: string): int {
    if direction == UPLINK then s.uplink else s.downlink
  }

  function GrandTotal(samples: seq<Sample>, direction: string): int {
    if samples == [] then 0 else Figure(samples[0], direction) + GrandTotal(samples[1..], direction)
  }

  lemma {:induction false} TotalOverAppend(lc: CaseTable, index: Index, counters: seq<RawCounter>, c: RawCounter,
                                           uuids: seq<string>, d: string)
    requires Distinct(uuids)
    ensures TotalOver(lc, index, counters + [c], uuids, d) == TotalOver(lc, index, counters, uuids, d)
      + if Resolve(lc, index, c).Some? && Resolve(lc, index, c).value.uuid in uuids then Amount(c, d) else 0
  {
    if uuids != [] {
      TotalOverAppend(lc, index, counters, c, uuids[1..], d);
      OneMoreCounter(lc, index, counters, c, uuids[0]);
      assert uuids[0] !in uuids[1..];
    }
  }

  lemma {:induction false} NothingOverNothing(lc: CaseTable, index: Index, uuids: seq<string>, d: string)
    ensures TotalOver(lc, index, [], uuids, d) == 0
  {
    if uuids != [] {
      NothingOverNothing(lc, index, uuids[1..], d);
    }
  }

  /** Summed over the accounts, the totals are what all kept counters amount to. */
  lemma {:induction false} TotalsConserve(lc: CaseTable, index: Index, counters: seq<RawCounter>, uuids: seq<string>,
                                          d: string)
    requires Distinct(uuids)
    requires forall i | 0 <= i < |counters| && Resolve(lc, index, counters[i]).Some? ::
      Resolve(lc, index, counters[i]).value.uuid in uuids
    ensures TotalOver(lc, index, counters, uuids, d) == SumBy(counters, Kept(lc, index, d))
  {
    if counters == [] {
      NothingOverNothing(lc, index, uuids, d);
    } else {
      var n := |counters| - 1;
      TotalsConserve(lc, index, counters[..n], uuids, d);
      TotalOverAppend(lc, index, counters[..n], counters[n], uuids, d);
      assert counters == counters[..n] + [counters[n]];
    }
  }

  lemma {:induction false} GrandTotalWraps(lc: CaseTable, index: Index, counters: seq<RawCounter>,
                                           samples: seq<Sample>, d: string)
    requires d == UPLINK || d == DOWNLINK
    requires forall i | 0 <= i < |samples| :: IsSampleOf(lc, index, counters, samples[i])
    ensures Wrap64(GrandTotal(samples, d)) == Wrap64(TotalOver(lc, index, counters, Uuids(samples), d))
    ensures (forall i | 0 <= i < |samples| :: FitsInt64(Total(lc, index, counters, samples[i].uuid, d)))
      ==> GrandTotal(samples, d) == TotalOver(lc, index, counters, Uuids(samples), d)
  {
    if samples != [] {
      var rest := samples[1..];
      GrandTotalWraps(lc, index, counters, rest, d);
      assert Uuids(samples)[1..] == Uuids(rest);
      var t := Total(lc, index, counters, samples[0].uuid, d);
      assert Figure(samples[0], d) == Wrap64(t);
      WrapSum(t, GrandTotal(rest, d), TotalOver(lc, index, counters, Uuids(rest), d));
    }
  }

  lemma WrapSum(a: int, b: int, c: int)
    requires Wrap64(b) == Wrap64(c)
    ensures Wrap64(Wrap64(a) + b) == Wrap64(a + c)
  {
    WrapAbsorbs(a, b);
    WrapAbsorbs(b, a);
    WrapAbsorbs(c, a);
  }

  /** No traffic is lost or invented: per direction the samples add up to the kept counters, modulo 2^64 always,
      and exactly when every account's total fits an int64. */
  lemma TrafficConserved(lc: CaseTable, index: Index, counters: seq<RawCounter>, samples: seq<Sample>, d: string)
    requires d == UPLINK || d == DOWNLINK
    requires IsNormalized(lc, index, counters, samples)
    ensures Wrap64(GrandTotal(samples, d)) == Wrap64(SumBy(counters, Kept(lc, index, d)))
    ensures (forall i | 0 <= i < |samples| :: FitsInt64(Total(lc, index, counters, samples[i].uuid, d)))
      ==> GrandTotal(samples, d) == SumBy(counters, Kept(lc, index, d))
  {
    GrandTotalWraps(lc, index, counters, samples, d);
    forall i | 0 <= i < |counters| && Resolve(lc, index, counters[i]).Some?
      ensures Resolve(lc, index, counters[i]).value.uuid in Uuids(samples)
    {
      assert BillsTo(lc, index, counters[i], Resolve(lc, index, counters[i]).value.uuid);
    }
    TotalsConserve(lc, index, counters, Uuids(samples), d);
  }

  // ---------- resolved and unresolved traffic ----------

  /** No sample combines a counter that matched an identity with one that did not; a sample with an email is made of
      matched counters alone; and with UUIDs for all identities no sample names an email address as its UUID. */
  lemma SamplesNeverMix(lc: CaseTable, payload: seq<Identity>, index: Index, counters: seq<RawCounter>,
                        samples: seq<Sample>, s: Sample)
    returns (matched: bool)
    requires IsIndex(lc, payload, index) && IsNormalized(lc, index, counters, samples) && s in samples
    ensures forall c | c in counters && BillsTo(lc, index, c, s.uuid) :: Resolve(lc, index, c).value.matched == matched
    ensures s.email != "" ==> matched
    ensures IsCaseTable(lc) && (forall key | key in index :: EntryIsSafe(index, key)) ==> '@' !in s.uuid
  {
    var k :| 0 <= k < |samples| && samples[k] == s;
    assert IsSampleOf(lc, index, counters, samples[k]);
    var i := FirstEmailIsSomeones(lc, index, counters, s.uuid);
    matched := Resolve(lc, index, counters[i]).value.matched;
    forall c | c in counters && BillsTo(lc, index, c, s.uuid) ensures Resolve(lc, index, c).value.matched == matched {
      ResolvedNeverMixes(lc, payload, index, c, counters[i]);
    }
    if IsCaseTable(lc) {
      EmailProofIff(lc, payload, index);
    }
  }
}
