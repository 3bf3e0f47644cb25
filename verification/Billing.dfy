/** Billing normalisation: the identity index, and one sample per account from many counters. */
module Billing {
  import opened Prelude
  import opened Words

  datatype RawCounter = RawCounter(identifier: string, inboundTag: string, direction: string, value: int)

  datatype Identity = Identity(proxyUUID: string, email: string, accountUUID: string)

  type Index = map<string, Identity>

  // ---------- the identity index ----------

  function Clean(lc: CaseTable, id: Identity): Identity {
    Identity(TrimSpace(id.proxyUUID), ToLower(lc, TrimSpace(id.email)), TrimSpace(id.accountUUID))
  }

  /** The (already cleaned) identity is to be found under `key`. */
  predicate Answers(lc: CaseTable, id: Identity, key: string) {
    || (id.proxyUUID != "" && key == ToLower(lc, id.proxyUUID))
    || (id.accountUUID != "" && key == ToLower(lc, id.accountUUID))
    || (id.email != "" && key == ToLower(lc, id.email))
  }

  /** The last identity of the payload that is to be found under `key`. */
  function Holder(lc: CaseTable, payload: seq<Identity>, key: string): Option<Identity> {
    if payload == [] then None else
      var last := Clean(lc, payload[|payload| - 1]);
      if Answers(lc, last, key) then Some(last) else Holder(lc, payload[..|payload| - 1], key)
  }

  /** Every key of every identity, and under each key the last identity that claims it. */
  ghost predicate IsIndex(lc: CaseTable, payload: seq<Identity>, index: Index) {
    forall key :: Holder(lc, payload, key) == if key in index then Some(index[key]) else None
  }

  lemma {:induction false} HolderIsServed(lc: CaseTable, payload: seq<Identity>, key: string) returns (i: nat)
    requires Holder(lc, payload, key).Some?
    ensures i < |payload| && Holder(lc, payload, key).value == Clean(lc, payload[i])
    ensures Answers(lc, Clean(lc, payload[i]), key)
  {
    i := |payload| - 1;
    if !Answers(lc, Clean(lc, payload[i]), key) {
      i := HolderIsServed(lc, payload[..i], key);
    }
  }

  /** Nobody who claims a key goes unanswered. */
  lemma {:induction false} ClaimIsHeld(lc: CaseTable, payload: seq<Identity>, key: string, i: nat)
    requires i < |payload| && Answers(lc, Clean(lc, payload[i]), key)
    ensures Holder(lc, payload, key).Some?
  {
    if i < |payload| - 1 {
      ClaimIsHeld(lc, payload[..|payload| - 1], key, i);
    }
  }

  function Claim(lc: CaseTable, index: Index, key: string, id: Identity): Index {
    if key == "" then index else index[ToLower(lc, key) := id]
  }

  lemma ClaimAll(lc: CaseTable, index: Index, id: Identity)
    ensures var r := Claim(lc, Claim(lc, Claim(lc, index, id.proxyUUID, id), id.accountUUID, id), id.email, id);
      forall key ::
        && (key in r <==> key in index || Answers(lc, id, key))
        && (key in r ==> r[key] == if Answers(lc, id, key) then id else index[key])
  {}

  lemma IndexOneMore(lc: CaseTable, payload: seq<Identity>, index: Index, more: Identity, index': Index)
    requires IsIndex(lc, payload, index)
    requires forall key ::
      && (key in index' <==> key in index || Answers(lc, Clean(lc, more), key))
      && (key in index' ==> index'[key] == if Answers(lc, Clean(lc, more), key) then Clean(lc, more) else index[key])
    ensures IsIndex(lc, payload + [more], index')
  {
    var all := payload + [more];
    assert all[..|all| - 1] == payload && all[|all| - 1] == more;
    forall key ensures Holder(lc, all, key) == if key in index' then Some(index'[key]) else None {
      assert Holder(lc, payload, key) == if key in index then Some(index[key]) else None;
    }
  }

  /** The indexing loop of FetchIdentities. */
  method BuildIndex(lc: CaseTable, payload: seq<Identity>) returns (index: Index)
    ensures IsIndex(lc, payload, index)
  {
    index := map[];
    for i := 0 to |payload|
      invariant IsIndex(lc, payload[..i], index)
    {
      var identity := Clean(lc, payload[i]);
      ghost var before := index;
      ClaimAll(lc, before, identity);
      var keys := [identity.proxyUUID, identity.accountUUID, identity.email];
      index := Claim(lc, index, keys[0], identity);
      index := Claim(lc, index, keys[1], identity);
      index := Claim(lc, index, keys[2], identity);
      IndexOneMore(lc, payload[..i], before, payload[i], index);
      assert payload[..i + 1] == payload[..i] + [payload[i]];
    }
    assert payload[..|payload|] == payload;
  }

  // ---------- resolving one counter ----------

  datatype Account = Account(uuid: string, email: string, matched: bool)

  /** The UUID a known identity bills to, if it has one. */
  function Canonical(id: Identity): string {
    if id.accountUUID != "" then id.accountUUID else id.proxyUUID
  }

  function Resolve(lc: CaseTable, index: Index, counter: RawCounter): Option<Account> {
    var identifier := TrimSpace(counter.identifier);
    if identifier == "" then None else
    var key := ToLower(lc, identifier);
    if key !in index then
      if '@' in identifier then None else Some(Account(identifier, "", false))
    else
      var identity := index[key];
      Some(Account(if Canonical(identity) != "" then Canonical(identity) else identifier, identity.email, true))
  }

  /** A matched and an unmatched counter never bill to the same UUID. */
  lemma ResolvedNeverMixes(lc: CaseTable, payload: seq<Identity>, index: Index, a: RawCounter, b: RawCounter)
    requires IsIndex(lc, payload, index)
    requires Resolve(lc, index, a).Some? && Resolve(lc, index, b).Some?
    requires Resolve(lc, index, a).value.uuid == Resolve(lc, index, b).value.uuid
    ensures Resolve(lc, index, a).value.matched == Resolve(lc, index, b).value.matched
  {
    MatchedIffKey(lc, payload, index, a);
    MatchedIffKey(lc, payload, index, b);
  }

  /** A counter is matched exactly when the UUID it bills to is itself a key. */
  lemma MatchedIffKey(lc: CaseTable, payload: seq<Identity>, index: Index, counter: RawCounter)
    requires IsIndex(lc, payload, index) && Resolve(lc, index, counter).Some?
    ensures var account := Resolve(lc, index, counter).value;
      account.matched <==> ToLower(lc, account.uuid) in index
  {
    var key := ToLower(lc, TrimSpace(counter.identifier));
    if key in index && Canonical(index[key]) != "" {
      CanonicalIsKey(lc, payload, index, key);
    }
  }

  lemma CanonicalIsKey(lc: CaseTable, payload: seq<Identity>, index: Index, key: string)
    requires IsIndex(lc, payload, index) && key in index && Canonical(index[key]) != ""
    ensures ToLower(lc, Canonical(index[key])) in index
  {
    assert Holder(lc, payload, key) == Some(index[key]);
    var i := HolderIsServed(lc, payload, key);
    var name := ToLower(lc, Canonical(index[key]));
    ClaimIsHeld(lc, payload, name, i);
    assert Holder(lc, payload, name) == if name in index then Some(index[name]) else None;
  }

  /** No counter whatsoever can put an email address where Billing expects a UUID. */
  ghost predicate EmailProof(lc: CaseTable, index: Index) {
    forall counter: RawCounter :: Resolve(lc, index, counter).Some? ==> '@' !in Resolve(lc, index, counter).value.uuid
  }

  /** Each entry bills to a UUID free of "@", or has no UUID and is only known by a name free of "@". */
  predicate EntryIsSafe(index: Index, key: string)
    requires key in index
  {
    if Canonical(index[key]) != "" then '@' !in Canonical(index[key]) else '@' !in key
  }

  /** Exactly when the index keeps email addresses out of the UUIDs. */
  lemma EmailProofIff(lc: CaseTable, payload: seq<Identity>, index: Index)
    requires IsCaseTable(lc) && IsIndex(lc, payload, index)
    ensures EmailProof(lc, index) <==> forall key | key in index :: EntryIsSafe(index, key)
  {
    if forall key | key in index :: EntryIsSafe(index, key) {
      forall counter: RawCounter | Resolve(lc, index, counter).Some?
        ensures '@' !in Resolve(lc, index, counter).value.uuid
      {
        var identifier := TrimSpace(counter.identifier);
        LowerFacts(lc, identifier);
        if ToLower(lc, identifier) in index {
          assert EntryIsSafe(index, ToLower(lc, identifier));
        }
      }
    }
    if EmailProof(lc, index) {
      forall key | key in index ensures EntryIsSafe(index, key) {
        KeyIsReachable(lc, payload, index, key);
        var counter := RawCounter(key, "", "", 0);
        assert Resolve(lc, index, counter).Some?;
      }
    }
  }

  /** Every key is found by a counter that carries the key itself as its identifier. */
  lemma KeyIsReachable(lc: CaseTable, payload: seq<Identity>, index: Index, key: string)
    requires IsCaseTable(lc) && IsIndex(lc, payload, index) && key in index
    ensures key != "" && TrimSpace(key) == key && ToLower(lc, key) == key
  {
    assert Holder(lc, payload, key) == Some(index[key]);
    var i := HolderIsServed(lc, payload, key);
    var id := payload[i];
    TrimSpaceTrims(id.proxyUUID);
    TrimSpaceTrims(id.accountUUID);
    TrimSpaceTrims(id.email);
    LowerFacts(lc, TrimSpace(id.proxyUUID));
    LowerFacts(lc, TrimSpace(id.accountUUID));
    LowerFacts(lc, TrimSpace(id.email));
    LowerFacts(lc, ToLower(lc, TrimSpace(id.email)));
    TrimSpaceTrims(key);
  }

  /** In particular when every identity served has a UUID free of "@". */
  lemma UuidsKeepEmailsOut(lc: CaseTable, payload: seq<Identity>, index: Index)
    requires IsCaseTable(lc) && IsIndex(lc, payload, index)
    requires forall i | 0 <= i < |payload| ::
      Canonical(Clean(lc, payload[i])) != "" && '@' !in Canonical(Clean(lc, payload[i]))
    ensures EmailProof(lc, index)
  {
    forall key | key in index ensures EntryIsSafe(index, key) {
      assert Holder(lc, payload, key) == Some(index[key]);
      var i := HolderIsServed(lc, payload, key);
    }
    EmailProofIff(lc, payload, index);
  }

  /** An identity without any UUID does let its email through. */
  lemma EmailOnlyIdentityLeaks()
    ensures exists lc: CaseTable, payload, index ::
      IsCaseTable(lc) && IsIndex(lc, payload, index) && !EmailProof(lc, index)
  {
    var payload := [EMAIL_ONLY];
    var index := map["a@b" := EMAIL_ONLY];
    AsciiIsCaseTable();
    EmailOnlyIsClean();
    forall key ensures Holder(AsciiLower, payload, key) == if key in index then Some(index[key]) else None {
      assert Holder(AsciiLower, payload[..0], key) == None;
    }
    assert !EntryIsSafe(index, "a@b");
    EmailProofIff(AsciiLower, payload, index);
  }

  const EMAIL_ONLY := Identity("", "a@b", "")

  lemma EmailOnlyIsClean()
    ensures Clean(AsciiLower, EMAIL_ONLY) == EMAIL_ONLY
    ensures forall key :: Answers(AsciiLower, EMAIL_ONLY, key) <==> key == "a@b"
  {
    TrimSpaceTrims("a@b");
    TrimSpaceTrims("");
    LowerAlready("a@b");
    LowerAlready("");
  }
}
