/** Who is billed for a counter, told by the fields of the payload. */
module Accounts {
  import opened Prelude
  import opened Words
  import opened SnapshotStore
  import opened Billing
  import opened Normalize

  // ---------- who claims a name ----------

  /** Equal up to case. */
  predicate Alike(lc: CaseTable, a: string, b: string) {
    |a| == |b| && forall k | 0 <= k < |a| :: lc(a[k]) == lc(b[k])
  }

  /** `lower` is `s` in lower case. */
  predicate IsLowered(lc: CaseTable, s: string, lower: string) {
    |lower| == |s| && forall k | 0 <= k < |s| :: lower[k] == lc(s[k])
  }

  /** A name is claimed by the identity whose proxy UUID, account UUID or email it is, up to case and blanks. */
  predicate Claims(lc: CaseTable, id: Identity, name: string)
    requires name != ""
  {
    || Alike(lc, TrimSpace(id.proxyUUID), name)
    || Alike(lc, TrimSpace(id.accountUUID), name)
    || (|TrimSpace(id.email)| == |name| &&
        forall k | 0 <= k < |name| :: lc(lc(TrimSpace(id.email)[k])) == lc(name[k]))
  }

  predicate Unclaimed(lc: CaseTable, payload: seq<Identity>, name: string)
    requires name != ""
  {
    forall j | 0 <= j < |payload| :: !Claims(lc, payload[j], name)
  }

  /** Identity i is the last of the payload to claim the name. */
  predicate ClaimsLast(lc: CaseTable, payload: seq<Identity>, i: nat, name: string)
    requires name != ""
  {
    i < |payload| && Claims(lc, payload[i], name) && forall j | i < j < |payload| :: !Claims(lc, payload[j], name)
  }

  lemma LowerIsLowered(lc: CaseTable, s: string)
    ensures IsLowered(lc, s, ToLower(lc, s))
  {}

  lemma AlikeIff(lc: CaseTable, a: string, b: string)
    ensures Alike(lc, a, b) <==> ToLower(lc, a) == ToLower(lc, b)
  {
    var la, lb := ToLower(lc, a), ToLower(lc, b);
    LowerIsLowered(lc, a);
    LowerIsLowered(lc, b);
    if la == lb {
      forall k | 0 <= k < |a| ensures lc(a[k]) == lc(b[k]) {
        assert la[k] == lb[k];
      }
    }
  }

  lemma ClaimsIff(lc: CaseTable, id: Identity, name: string)
    requires name != ""
    ensures Claims(lc, id, name) <==> Answers(lc, Clean(lc, id), ToLower(lc, name))
  {
    AlikeIff(lc, TrimSpace(id.proxyUUID), name);
    AlikeIff(lc, TrimSpace(id.accountUUID), name);
    AlikeIff(lc, ToLower(lc, TrimSpace(id.email)), name);
  }

  lemma {:induction false} LastClaimHolds(lc: CaseTable, payload: seq<Identity>, i: nat, name: string)
    requires name != "" && ClaimsLast(lc, payload, i, name)
    ensures Holder(lc, payload, ToLower(lc, name)) == Some(Clean(lc, payload[i]))
  {
    var n := |payload| - 1;
    ClaimsIff(lc, payload[n], name);
    if i < n {
      LastClaimHolds(lc, payload[..n], i, name);
    }
  }

  lemma {:induction false} UnclaimedIsNot(lc: CaseTable, payload: seq<Identity>, name: string)
    requires name != "" && Unclaimed(lc, payload, name)
    ensures Holder(lc, payload, ToLower(lc, name)).None?
  {
    if payload != [] {
      var n := |payload| - 1;
      ClaimsIff(lc, payload[n], name);
      UnclaimedIsNot(lc, payload[..n], name);
    }
  }

  lemma {:induction false} LastClaimer(lc: CaseTable, payload: seq<Identity>, name: string, n: nat) returns (i: nat)
    requires name != "" && !Unclaimed(lc, payload, name)
    requires n <= |payload| && forall j | n <= j < |payload| :: !Claims(lc, payload[j], name)
    ensures ClaimsLast(lc, payload, i, name)
  {
    assert n > 0;
    i := n - 1;
    if !Claims(lc, payload[i], name) {
      i := LastClaimer(lc, payload, name, i);
    }
  }

  // ---------- where a counter goes ----------

  /** What the identity is billed as: its account, else its proxy, else the name it was found by. */
  function BilledAs(id: Identity, name: string): string {
    if TrimSpace(id.accountUUID) != "" then TrimSpace(id.accountUUID)
    else if TrimSpace(id.proxyUUID) != "" then TrimSpace(id.proxyUUID)
    else name
  }

  /** A blank name goes nowhere. Who claims it last decides; if nobody does, it is its own UUID unless it looks like an
      email address. */
  predicate GoesTo(lc: CaseTable, payload: seq<Identity>, c: RawCounter, uuid: string) {
    var name := TrimSpace(c.identifier);
    name != "" && (
      || (Unclaimed(lc, payload, name) && '@' !in name && uuid == name)
      || (exists i | 0 <= i < |payload| :: ClaimsLast(lc, payload, i, name) && uuid == BilledAs(payload[i], name)))
  }

  lemma IndexServes(lc: CaseTable, payload: seq<Identity>, index: Index, key: string)
    requires IsIndex(lc, payload, index)
    ensures key in index <==> Holder(lc, payload, key).Some?
    ensures key in index ==> index[key] == Holder(lc, payload, key).value
  {
    assert Holder(lc, payload, key) == if key in index then Some(index[key]) else None;
  }

  lemma ClaimResolves(lc: CaseTable, payload: seq<Identity>, index: Index, c: RawCounter, i: nat)
    requires IsIndex(lc, payload, index) && TrimSpace(c.identifier) != ""
    requires ClaimsLast(lc, payload, i, TrimSpace(c.identifier))
    ensures Resolve(lc, index, c)
         == Some(Account(BilledAs(payload[i], TrimSpace(c.identifier)), ToLower(lc, TrimSpace(payload[i].email)), true))
  {
    var key := ToLower(lc, TrimSpace(c.identifier));
    LastClaimHolds(lc, payload, i, TrimSpace(c.identifier));
    IndexServes(lc, payload, index, key);
  }

  lemma NoClaimResolves(lc: CaseTable, payload: seq<Identity>, index: Index, c: RawCounter)
    requires IsIndex(lc, payload, index) && TrimSpace(c.identifier) != ""
    requires Unclaimed(lc, payload, TrimSpace(c.identifier))
    ensures var name := TrimSpace(c.identifier);
      Resolve(lc, index, c) == if '@' in name then None else Some(Account(name, "", false))
  {
    var key := ToLower(lc, TrimSpace(c.identifier));
    UnclaimedIsNot(lc, payload, TrimSpace(c.identifier));
    IndexServes(lc, payload, index, key);
  }

  lemma SameClaimer(lc: CaseTable, payload: seq<Identity>, i: nat, j: nat, name: string)
    requires name != "" && ClaimsLast(lc, payload, i, name) && ClaimsLast(lc, payload, j, name)
    ensures i == j
  {}

  /** The cases, one by one. */
  lemma WhereItGoes(lc: CaseTable, payload: seq<Identity>, c: RawCounter, i: nat, uuid: string)
    ensures var name := TrimSpace(c.identifier);
      if name == "" then !GoesTo(lc, payload, c, uuid)
      else if Unclaimed(lc, payload, name) then GoesTo(lc, payload, c, uuid) <==> '@' !in name && uuid == name
      else ClaimsLast(lc, payload, i, name) ==>
        if TrimSpace(payload[i].accountUUID) != ""
          then GoesTo(lc, payload, c, uuid) <==> uuid == TrimSpace(payload[i].accountUUID)
        else if TrimSpace(payload[i].proxyUUID) != ""
          then GoesTo(lc, payload, c, uuid) <==> uuid == TrimSpace(payload[i].proxyUUID)
        else GoesTo(lc, payload, c, uuid) <==> uuid == name
  {
    var name := TrimSpace(c.identifier);
    if name != "" && ClaimsLast(lc, payload, i, name) && GoesTo(lc, payload, c, uuid) {
      var j :| 0 <= j < |payload| && ClaimsLast(lc, payload, j, name) && uuid == BilledAs(payload[j], name);
      SameClaimer(lc, payload, i, j, name);
    }
  }

  lemma GoesIffBills(lc: CaseTable, payload: seq<Identity>, index: Index, c: RawCounter, uuid: string)
    requires IsIndex(lc, payload, index)
    ensures GoesTo(lc, payload, c, uuid) <==> BillsTo(lc, index, c, uuid)
  {
    var name := TrimSpace(c.identifier);
    if name != "" {
      if Unclaimed(lc, payload, name) {
        NoClaimResolves(lc, payload, index, c);
      } else {
        var i := LastClaimer(lc, payload, name, |payload|);
        ClaimResolves(lc, payload, index, c, i);
        WhereItGoes(lc, payload, c, i, uuid);
      }
    }
  }

  // ---------- the samples ----------

  /** What a counter adds to the sample of a UUID in one direction. */
  ghost function Part(lc: CaseTable, payload: seq<Identity>, uuid: string, direction: string): RawCounter -> int {
    c => if GoesTo(lc, payload, c, uuid) && TrimSpace(c.direction) == direction then c.value else 0
  }

  /** What a counter shows in one direction. */
  function InDirection(direction: string): RawCounter -> int {
    (c: RawCounter) => if TrimSpace(c.direction) == direction then c.value else 0
  }

  lemma {:induction false} SumOfEqual(counters: seq<RawCounter>, f: RawCounter -> int, g: RawCounter -> int)
    requires forall c | c in counters :: f(c) == g(c)
    ensures SumBy(counters, f) == SumBy(counters, g)
  {
    if counters != [] {
      SumOfEqual(counters[..|counters| - 1], f, g);
    }
  }

  /** There is a sample for a UUID exactly if some counter goes there, and it shows the sum of the counters that do. */
  lemma SamplesFollowPayload(lc: CaseTable, payload: seq<Identity>, index: Index, counters: seq<RawCounter>,
                             samples: seq<Sample>)
    requires IsIndex(lc, payload, index) && IsNormalized(lc, index, counters, samples)
    ensures forall uuid :: uuid in Uuids(samples) <==> exists c :: c in counters && GoesTo(lc, payload, c, uuid)
    ensures forall s | s in samples ::
      && s.uplink == Wrap64(SumBy(counters, Part(lc, payload, s.uuid, "uplink")))
      && s.downlink == Wrap64(SumBy(counters, Part(lc, payload, s.uuid, "downlink")))
      && s.inboundTag == ""
  {
    forall uuid ensures uuid in Uuids(samples) <==> exists c :: c in counters && GoesTo(lc, payload, c, uuid) {
      BilledIffGoes(lc, payload, index, counters, uuid);
    }
    forall s | s in samples
      ensures s.uplink == Wrap64(SumBy(counters, Part(lc, payload, s.uuid, "uplink")))
      ensures s.downlink == Wrap64(SumBy(counters, Part(lc, payload, s.uuid, "downlink"))) && s.inboundTag == ""
    {
      var i :| 0 <= i < |samples| && samples[i] == s;
      assert IsSampleOf(lc, index, counters, samples[i]);
      TotalIsSum(lc, payload, index, counters, s.uuid, "uplink");
      TotalIsSum(lc, payload, index, counters, s.uuid, "downlink");
    }
  }

  lemma BilledIffGoes(lc: CaseTable, payload: seq<Identity>, index: Index, counters: seq<RawCounter>, uuid: string)
    requires IsIndex(lc, payload, index)
    ensures IsBilled(lc, index, counters, uuid) <==> exists c :: c in counters && GoesTo(lc, payload, c, uuid)
  {
    forall c ensures GoesTo(lc, payload, c, uuid) <==> BillsTo(lc, index, c, uuid) {
      GoesIffBills(lc, payload, index, c, uuid);
    }
  }

  lemma TotalIsSum(lc: CaseTable, payload: seq<Identity>, index: Index, counters: seq<RawCounter>, uuid: string,
                   direction: string)
    requires IsIndex(lc, payload, index)
    ensures Total(lc, index, counters, uuid, direction) == SumBy(counters, Part(lc, payload, uuid, direction))
  {
    forall c ensures Share(lc, index, uuid, direction)(c) == Part(lc, payload, uuid, direction)(c) {
      GoesIffBills(lc, payload, index, c, uuid);
    }
    SumOfEqual(counters, Share(lc, index, uuid, direction), Part(lc, payload, uuid, direction));
  }

  /** A sample's email is the lower-case one of whoever claims the first counter that goes there; nobody, no email. */
  lemma EmailOfFirst(lc: CaseTable, payload: seq<Identity>, index: Index, counters: seq<RawCounter>,
                     samples: seq<Sample>, s: Sample, j: nat)
    requires IsIndex(lc, payload, index) && IsNormalized(lc, index, counters, samples) && s in samples
    requires j < |counters| && GoesTo(lc, payload, counters[j], s.uuid)
    requires forall k | 0 <= k < j :: !GoesTo(lc, payload, counters[k], s.uuid)
    ensures var name := TrimSpace(counters[j].identifier);
      && (Unclaimed(lc, payload, name) ==> s.email == "")
      && forall i | 0 <= i < |payload| && ClaimsLast(lc, payload, i, name) ::
           IsLowered(lc, TrimSpace(payload[i].email), s.email)
  {
    var name := TrimSpace(counters[j].identifier);
    var at :| 0 <= at < |samples| && samples[at] == s;
    assert IsSampleOf(lc, index, counters, samples[at]);
    GoesIffBills(lc, payload, index, counters[j], s.uuid);
    forall k | 0 <= k < j ensures !BillsTo(lc, index, counters[k], s.uuid) {
      GoesIffBills(lc, payload, index, counters[k], s.uuid);
    }
    FirstEmailAt(lc, index, counters, s.uuid, j);
    if Unclaimed(lc, payload, name) {
      NoClaimResolves(lc, payload, index, counters[j]);
    }
    forall i | 0 <= i < |payload| && ClaimsLast(lc, payload, i, name)
      ensures IsLowered(lc, TrimSpace(payload[i].email), s.email)
    {
      ClaimResolves(lc, payload, index, counters[j], i);
      LowerIsLowered(lc, TrimSpace(payload[i].email));
    }
  }

  lemma {:induction false} FirstEmailAt(lc: CaseTable, index: Index, counters: seq<RawCounter>, uuid: string, j: nat)
    requires j < |counters| && BillsTo(lc, index, counters[j], uuid)
    requires forall k | 0 <= k < j :: !BillsTo(lc, index, counters[k], uuid)
    ensures FirstEmail(lc, index, counters, uuid) == Some(Resolve(lc, index, counters[j]).value.email)
  {
    var n := |counters| - 1;
    if j < n {
      FirstEmailAt(lc, index, counters[..n], uuid, j);
    } else {
      NoEmailYet(lc, index, counters[..n], uuid);
    }
  }

  lemma {:induction false} NoEmailYet(lc: CaseTable, index: Index, counters: seq<RawCounter>, uuid: string)
    requires forall k | 0 <= k < |counters| :: !BillsTo(lc, index, counters[k], uuid)
    ensures FirstEmail(lc, index, counters, uuid).None?
  {
    if counters != [] {
      NoEmailYet(lc, index, counters[..|counters| - 1], uuid);
    }
  }

  // ---------- one account, one sample ----------

  /** The counter's name is claimed last by an identity of the account. */
  predicate OfAccount(lc: CaseTable, payload: seq<Identity>, c: RawCounter, account: string) {
    var name := TrimSpace(c.identifier);
    name != "" && exists i | 0 <= i < |payload| ::
      ClaimsLast(lc, payload, i, name) && TrimSpace(payload[i].accountUUID) == account
  }

  /** Whatever proxies of an account the counters come from, they go to the account and nowhere else. */
  lemma AccountCollects(lc: CaseTable, payload: seq<Identity>, c: RawCounter, account: string, uuid: string)
    requires account != "" && OfAccount(lc, payload, c, account)
    ensures GoesTo(lc, payload, c, uuid) <==> uuid == account
  {
    var name := TrimSpace(c.identifier);
    var i :| 0 <= i < |payload| && ClaimsLast(lc, payload, i, name) && TrimSpace(payload[i].accountUUID) == account;
    WhereItGoes(lc, payload, c, i, uuid);
  }

  /** Counters of all proxies of one account are one sample: the account's UUID, and all they show. */
  lemma OneAccountOneSample(lc: CaseTable, payload: seq<Identity>, index: Index, counters: seq<RawCounter>,
                            samples: seq<Sample>, account: string)
    requires IsIndex(lc, payload, index) && IsNormalized(lc, index, counters, samples)
    requires account != "" && counters != [] && forall c | c in counters :: OfAccount(lc, payload, c, account)
    ensures |samples| == 1 && samples[0].uuid == account
    ensures samples[0].uplink
         == Wrap64(SumBy(counters, InDirection("uplink")))
    ensures samples[0].downlink
         == Wrap64(SumBy(counters, InDirection("downlink")))
  {
    SamplesFollowPayload(lc, payload, index, counters, samples);
    forall uuid ensures uuid in Uuids(samples) <==> uuid == account {
      OnlyAccount(lc, payload, counters, account, uuid);
    }
    OnlyOne(Uuids(samples), account);
    assert samples[0] in samples && Uuids(samples)[0] == samples[0].uuid;
    AllOfIt(lc, payload, counters, account, "uplink");
    AllOfIt(lc, payload, counters, account, "downlink");
  }

  lemma OnlyAccount(lc: CaseTable, payload: seq<Identity>, counters: seq<RawCounter>, account: string, uuid: string)
    requires account != "" && counters != [] && forall c | c in counters :: OfAccount(lc, payload, c, account)
    ensures (exists c :: c in counters && GoesTo(lc, payload, c, uuid)) <==> uuid == account
  {
    assert counters[0] in counters;
    forall c | c in counters ensures GoesTo(lc, payload, c, uuid) <==> uuid == account {
      AccountCollects(lc, payload, c, account, uuid);
    }
  }

  lemma AllOfIt(lc: CaseTable, payload: seq<Identity>, counters: seq<RawCounter>, account: string, direction: string)
    requires account != "" && forall c | c in counters :: OfAccount(lc, payload, c, account)
    ensures SumBy(counters, Part(lc, payload, account, direction))
         == SumBy(counters, InDirection(direction))
  {
    forall c | c in counters ensures GoesTo(lc, payload, c, account) {
      AccountCollects(lc, payload, c, account, account);
    }
    SumOfEqual(counters, Part(lc, payload, account, direction), InDirection(direction));
  }

  lemma OnlyOne(s: seq<string>, x: string)
    requires Ascending(s) && forall y :: y in s <==> y == x
    ensures s == [x]
  {
    assert x in s;
    assert forall i | 0 <= i < |s| :: s[i] in s;
    assert |s| > 1 ==> LexLess(s[0], s[1]);
  }
}
