/** Retention over whole runs of saves, clock steps backwards included. */
module Retention {
  import opened Prelude
  import opened SnapshotStore

  /** From loaded contents `base`, each save re-sorts what it retains; ties may come out in any order. */
  ghost predicate IsStoreRun(retention: int, base: seq<Snapshot>, states: seq<seq<Snapshot>>, saves: seq<Snapshot>) {
    && |states| == |saves| + 1
    && SortedPermutation(ByTime, base, states[0])
    && forall i | 0 <= i < |saves| :: IsSave(retention, states, saves, i)
  }

  ghost predicate IsSave(retention: int, states: seq<seq<Snapshot>>, saves: seq<Snapshot>, i: nat)
    requires |states| == |saves| + 1 && i < |saves|
  {
    SortedPermutation(ByTime, AfterSave(states[i], saves[i], retention), states[i + 1])
  }

  /** Entry i of the log outlives every same-or-later save; the first `base` entries were loaded, not saved. */
  ghost predicate Survives(log: seq<Snapshot>, base: nat, retention: int, i: nat)
    requires i < |log|
  {
    retention <= 0 ||
    forall j | i <= j < |log| && base <= j :: log[j].collectedAt - retention <= log[i].collectedAt
  }

  function If(b: bool, x: Snapshot): seq<Snapshot> {
    if b then [x] else []
  }

  ghost function Survivors(log: seq<Snapshot>, base: nat, retention: int, n: nat): seq<Snapshot>
    requires n <= |log|
  {
    if n == 0 then [] else
      Survivors(log, base, retention, n - 1) + If(Survives(log, base, retention, n - 1), log[n - 1])
  }

  lemma {:induction false} RetainCounts(items: seq<Snapshot>, retention: int, cutoff: int, x: Snapshot)
    ensures multiset(Retain(items, retention, cutoff))[x]
         == if Stays(x, retention, cutoff) then multiset(items)[x] else 0
  {
    if items != [] {
      var n := |items| - 1;
      RetainCounts(items[..n], retention, cutoff, x);
      assert items == items[..n] + [items[n]];
    }
  }

  lemma RetainRespectsPermutation(a: seq<Snapshot>, b: seq<Snapshot>, retention: int, cutoff: int)
    requires multiset(a) == multiset(b)
    ensures multiset(Retain(a, retention, cutoff)) == multiset(Retain(b, retention, cutoff))
  {
    forall x ensures multiset(Retain(a, retention, cutoff))[x] == multiset(Retain(b, retention, cutoff))[x] {
      RetainCounts(a, retention, cutoff, x);
      RetainCounts(b, retention, cutoff, x);
    }
  }

  lemma SurvivesOneMore(log: seq<Snapshot>, base: nat, retention: int, saved: Snapshot, i: nat)
    requires base <= |log| && i < |log|
    ensures Survives(log + [saved], base, retention, i)
       <==> Survives(log, base, retention, i) && Stays(log[i], retention, saved.collectedAt - retention)
  {
    var more := log + [saved];
    assert more[|log|] == saved && more[i] == log[i];
    assert forall j | 0 <= j < |log| :: more[j] == log[j];
  }

  lemma RetainIf(items: seq<Snapshot>, b: bool, x: Snapshot, retention: int, cutoff: int)
    ensures Retain(items + If(b, x), retention, cutoff)
         == Retain(items, retention, cutoff) + If(b && Stays(x, retention, cutoff), x)
  {
    if b {
      assert (items + [x])[..|items|] == items;
    } else {
      assert items + [] == items;
    }
  }

  /** One more save retains exactly those that also outlive it. */
  lemma {:induction false} SurvivorsOneMore(log: seq<Snapshot>, base: nat, retention: int, saved: Snapshot, n: nat)
    requires base <= |log| && n <= |log|
    ensures Survivors(log + [saved], base, retention, n)
         == Retain(Survivors(log, base, retention, n), retention, saved.collectedAt - retention)
  {
    if n > 0 {
      var x, cutoff := log[n - 1], saved.collectedAt - retention;
      assert (log + [saved])[n - 1] == x;
      SurvivorsOneMore(log, base, retention, saved, n - 1);
      SurvivesOneMore(log, base, retention, saved, n - 1);
      RetainIf(Survivors(log, base, retention, n - 1), Survives(log, base, retention, n - 1), x, retention, cutoff);
    }
  }

  lemma {:induction false} AllLoaded(base: seq<Snapshot>, retention: int, n: nat)
    requires n <= |base|
    ensures Survivors(base, |base|, retention, n) == base[..n]
  {
    if n > 0 {
      AllLoaded(base, retention, n - 1);
      assert Survives(base, |base|, retention, n - 1);
      assert base[..n] == base[..n - 1] + [base[n - 1]];
    }
  }

  lemma SaveSurvives(log: seq<Snapshot>, base: nat, retention: int, saved: Snapshot)
    requires base <= |log|
    ensures Survives(log + [saved], base, retention, |log|)
  {
    assert (log + [saved])[|log|] == saved;
  }

  /** The loaded and saved snapshots that no same-or-later save among the first i has outdated. */
  ghost function Current(retention: int, base: seq<Snapshot>, saves: seq<Snapshot>, i: nat): seq<Snapshot>
    requires i <= |saves|
  {
    Survivors(base + saves[..i], |base|, retention, |base| + i)
  }

  /** After any saves the store holds, in time order, exactly the snapshots no same-or-later save has outdated. */
  lemma {:induction false} RetentionExact(retention: int, base: seq<Snapshot>, states: seq<seq<Snapshot>>,
                                          saves: seq<Snapshot>, i: nat)
    requires IsStoreRun(retention, base, states, saves) && i < |states|
    ensures InOrder(states[i])
    ensures multiset(states[i]) == multiset(Current(retention, base, saves, i))
  {
    if i == 0 {
      JustLoaded(retention, base, saves);
    } else {
      RetentionExact(retention, base, states, saves, i - 1);
      assert IsSave(retention, states, saves, i - 1);
      OneMoreSave(retention, base, saves, i, states[i - 1]);
    }
  }

  lemma OneMoreSave(retention: int, base: seq<Snapshot>, saves: seq<Snapshot>, i: nat, items: seq<Snapshot>)
    requires 0 < i <= |saves| && multiset(items) == multiset(Current(retention, base, saves, i - 1))
    ensures multiset(AfterSave(items, saves[i - 1], retention)) == multiset(Current(retention, base, saves, i))
  {
    LogOneMore(base, saves, i);
    SaveSurvivors(base + saves[..i - 1], |base|, retention, items, saves[i - 1]);
  }

  lemma JustLoaded(retention: int, base: seq<Snapshot>, saves: seq<Snapshot>)
    ensures Current(retention, base, saves, 0) == base
  {
    assert base + saves[..0] == base;
    AllLoaded(base, retention, |base|);
    assert base[..|base|] == base;
  }

  lemma LogOneMore(base: seq<Snapshot>, saves: seq<Snapshot>, i: nat)
    requires 0 < i <= |saves|
    ensures base + saves[..i] == base + saves[..i - 1] + [saves[i - 1]]
  {}

  lemma SaveSurvivors(log: seq<Snapshot>, base: nat, retention: int, items: seq<Snapshot>, saved: Snapshot)
    requires base <= |log| && multiset(items) == multiset(Survivors(log, base, retention, |log|))
    ensures multiset(AfterSave(items, saved, retention))
         == multiset(Survivors(log + [saved], base, retention, |log| + 1))
  {
    var kept := Survivors(log, base, retention, |log|);
    SavePermuted(items, kept, saved, retention);
    LastSurvivor(log, base, retention, saved);
  }

  lemma SavePermuted(items: seq<Snapshot>, kept: seq<Snapshot>, saved: Snapshot, retention: int)
    requires multiset(items) == multiset(kept)
    ensures multiset(AfterSave(items, saved, retention))
         == multiset(Retain(kept, retention, saved.collectedAt - retention) + [saved])
  {
    SameBagSaved(items, kept, saved, retention);
    AfterSaveIs(kept, saved, retention);
  }

  lemma SameBagSaved(items: seq<Snapshot>, kept: seq<Snapshot>, saved: Snapshot, retention: int)
    requires multiset(items) == multiset(kept)
    ensures multiset(AfterSave(items, saved, retention)) == multiset(AfterSave(kept, saved, retention))
  {
    SameBagAppend(items, kept, saved);
    RetainRespectsPermutation(items + [saved], kept + [saved], retention, saved.collectedAt - retention);
  }

  /** A save never outdates its own snapshot. */
  lemma AfterSaveIs(items: seq<Snapshot>, saved: Snapshot, retention: int)
    ensures AfterSave(items, saved, retention) == Retain(items, retention, saved.collectedAt - retention) + [saved]
  {
    var more := items + [saved];
    assert more[..|items|] == items && more[|more| - 1] == saved;
  }

  lemma SameBagAppend(a: seq<Snapshot>, b: seq<Snapshot>, x: Snapshot)
    requires multiset(a) == multiset(b)
    ensures multiset(a + [x]) == multiset(b + [x])
  {}

  lemma LastSurvivor(log: seq<Snapshot>, base: nat, retention: int, saved: Snapshot)
    requires base <= |log|
    ensures Survivors(log + [saved], base, retention, |log| + 1)
         == Retain(Survivors(log, base, retention, |log|), retention, saved.collectedAt - retention) + [saved]
  {
    SurvivorsOneMore(log, base, retention, saved, |log|);
    SaveSurvives(log, base, retention, saved);
    assert (log + [saved])[|log|] == saved;
  }

  /** A stored snapshot that no save in between outdates is still stored. */
  lemma {:induction false} StaysThrough(retention: int, base: seq<Snapshot>, states: seq<seq<Snapshot>>,
                                        saves: seq<Snapshot>,
                                        x: Snapshot, i: nat, k: nat)
    requires IsStoreRun(retention, base, states, saves) && i <= k < |states|
    requires x in multiset(states[i])
    requires forall j | i <= j < k :: Stays(x, retention, saves[j].collectedAt - retention)
    ensures x in multiset(states[k])
    decreases k
  {
    if i < k {
      StaysThrough(retention, base, states, saves, x, i, k - 1);
      StaysOnce(retention, states[k - 1], saves[k - 1], x);
      assert IsSave(retention, states, saves, k - 1);
    }
  }

  lemma StaysOnce(retention: int, items: seq<Snapshot>, saved: Snapshot, x: Snapshot)
    requires x in multiset(items) && Stays(x, retention, saved.collectedAt - retention)
    ensures x in multiset(AfterSave(items, saved, retention))
  {
    InLonger(items, saved, x);
    StillRetained(items + [saved], retention, saved.collectedAt - retention, x, AfterSave(items, saved, retention));
  }

  lemma StillRetained(items: seq<Snapshot>, retention: int, cutoff: int, x: Snapshot, kept: seq<Snapshot>)
    requires x in multiset(items) && Stays(x, retention, cutoff) && kept == Retain(items, retention, cutoff)
    ensures x in multiset(kept)
  {
    RetainCounts(items, retention, cutoff, x);
  }

  lemma InLonger(items: seq<Snapshot>, saved: Snapshot, x: Snapshot)
    requires x in multiset(items)
    ensures x in multiset(items + [saved])
  {}

  // ---------- the store's own saves ----------

  lemma SaveOneMore(retention: int, base: seq<Snapshot>, states: seq<seq<Snapshot>>, saves: seq<Snapshot>,
                    saved: Snapshot, after: seq<Snapshot>)
    requires IsStoreRun(retention, base, states, saves)
    requires SortedPermutation(ByTime, AfterSave(states[|saves|], saved, retention), after)
    ensures IsStoreRun(retention, base, states + [after], saves + [saved])
  {
    var longer, more := states + [after], saves + [saved];
    forall i | 0 <= i < |more| ensures IsSave(retention, longer, more, i) {
      assert i < |saves| ==> IsSave(retention, states, saves, i);
    }
  }

  method SaveNext(store: Store, ghost base: seq<Snapshot>, ghost saves: seq<Snapshot>,
                  ghost states: seq<seq<Snapshot>>, saved: Snapshot, diskWorks: bool)
    returns (ghost longer: seq<seq<Snapshot>>)
    requires store.Valid() && IsStoreRun(store.retention, base, states, saves)
    requires store.Contents() == states[|saves|]
    modifies store, store.items
    ensures store.Valid() && (store.items == old(store.items) || fresh(store.items))
    ensures IsStoreRun(store.retention, base, longer, saves + [saved])
    ensures store.Contents() == longer[|saves| + 1]
  {
    var ok := store.Save(saved, diskWorks);
    SaveOneMore(store.retention, base, states, saves, saved, store.Contents());
    longer := states + [store.Contents()];
  }

  /** Any number of saves on one store, whether or not the disk works: its contents go through a run, and end up as
      exactly the snapshots that no same-or-later save has outdated. */
  method SaveAll(store: Store, saves: seq<Snapshot>, diskWorks: seq<bool>) returns (ghost states: seq<seq<Snapshot>>)
    requires store.Valid() && |diskWorks| == |saves|
    modifies store, store.items
    ensures store.Valid() && IsStoreRun(store.retention, old(store.Contents()), states, saves)
    ensures store.Contents() == states[|saves|]
    ensures multiset(store.Contents())
         == multiset(Current(store.retention, old(store.Contents()), saves, |saves|))
  {
    ghost var base := store.Contents();
    states := [base];
    for i := 0 to |saves|
      invariant store.Valid() && (store.items == old(store.items) || fresh(store.items))
      invariant IsStoreRun(store.retention, base, states, saves[..i]) && store.Contents() == states[i]
    {
      assert saves[..i + 1] == saves[..i] + [saves[i]];
      states := SaveNext(store, base, saves[..i], states, saves[i], diskWorks[i]);
    }
    assert saves[..|saves|] == saves;
    RetentionExact(store.retention, base, states, saves, |saves|);
  }
}
