/** The snapshot store: saving with retention over an aliased slice, sorting, and reading one window page. */
module SnapshotStore {
  import opened Prelude

  datatype Sample = Sample(uuid: string, email: string, inboundTag: string, uplink: int, downlink: int)

  datatype Snapshot = Snapshot(collectedAt: int, nodeID: string, env: string, samples: seq<Sample>)

  predicate ByTime(a: Snapshot, b: Snapshot) {
    a.collectedAt <= b.collectedAt
  }

  ghost predicate InOrder(items: seq<Snapshot>) {
    SortedBy(ByTime, items)
  }

  // ---------- saving ----------

  /** What a save with this cutoff lets stay. */
  predicate Stays(item: Snapshot, retention: int, cutoff: int) {
    retention <= 0 || !(item.collectedAt < cutoff)
  }

  function Retain(items: seq<Snapshot>, retention: int, cutoff: int): seq<Snapshot> {
    if items == [] then [] else
      var last := items[|items| - 1];
      Retain(items[..|items| - 1], retention, cutoff) + (if Stays(last, retention, cutoff) then [last] else [])
  }

  function AfterSave(items: seq<Snapshot>, saved: Snapshot, retention: int): seq<Snapshot> {
    Retain(items + [saved], retention, saved.collectedAt - retention)
  }

  // ---------- one page ----------

  datatype WindowPage = WindowPage(
    nodeID: string, env: string, snapshots: seq<Snapshot>, hasMore: bool, nextCursor: Option<int>)

  predicate IsEligible(item: Snapshot, since: int, until: int, cursor: Option<int>) {
    && !(item.collectedAt < since || until < item.collectedAt)
    && !(cursor.Some? && item.collectedAt <= cursor.value)
  }

  function Eligible(items: seq<Snapshot>, since: int, until: int, cursor: Option<int>): seq<Snapshot> {
    if items == [] then [] else
      var last := items[|items| - 1];
      Eligible(items[..|items| - 1], since, until, cursor) +
      (if IsEligible(last, since, until, cursor) then [last] else [])
  }

  function FirstOf(eligible: seq<Snapshot>, limit: int): seq<Snapshot> {
    if limit <= 0 || |eligible| <= limit then eligible else eligible[..limit]
  }

  predicate SomeAfter(items: seq<Snapshot>, t: int) {
    exists i | 0 <= i < |items| :: t < items[i].collectedAt
  }

  function PageOf(items: seq<Snapshot>, since: int, until: int, limit: int, cursor: Option<int>): WindowPage {
    PageFrom(Eligible(items, since, until, cursor), limit)
  }

  function PageFrom(eligible: seq<Snapshot>, limit: int): WindowPage {
    var got := FirstOf(eligible, limit);
    if got == [] then WindowPage("", "", [], false, None) else
      var last := got[|got| - 1].collectedAt;
      var more := 0 < limit && SomeAfter(eligible, last);
      WindowPage(got[0].nodeID, got[0].env, got, more, if more then Some(last) else None)
  }

  class Store {
    const retention: int
    const persistent: bool           // whether a path was configured
    var items: array<Snapshot>       // the slice's backing array
    var len: nat                     // and its length
    var disk: seq<Snapshot>          // the image last put in place by a rename

    ghost predicate Valid()
      reads this, items
    {
      len <= items.Length && InOrder(items[..len])
    }

    ghost function Contents(): seq<Snapshot>
      requires len <= items.Length
      reads this, items
    {
      items[..len]
    }

    /** Start from the image found on disk, in whatever order it lists its snapshots. */
    constructor (retention: int, persistent: bool, image: seq<Snapshot>)
      ensures Valid() && this.retention == retention && this.persistent == persistent && disk == image
      ensures SortedPermutation(ByTime, if persistent then image else [], Contents())
    {
      this.retention, this.persistent, this.disk := retention, persistent, image;
      var sorted := [];
      if persistent {
        sorted := Sort(image, ByTime);
      }
      items := new Snapshot[|sorted|](i requires 0 <= i < |sorted| => sorted[i]);
      len := |sorted|;
      new;
      assert items[..len] == sorted;
    }

    /** The in-memory items change even when persisting fails. */
    method Save(snapshot: Snapshot, diskWorks: bool) returns (ok: bool)
      requires Valid()
      modifies this, items
      ensures Valid()
      ensures multiset(Contents()) == multiset(AfterSave(old(Contents()), snapshot, retention))
      ensures ok <==> !persistent || diskWorks
      ensures disk == if persistent && diskWorks then Contents() else old(disk)
      ensures items == old(items) || fresh(items)
    {
      Update(snapshot);
      ok := !persistent || diskWorks;
      if persistent && diskWorks {
        disk := items[..len];
      }
    }

    method Update(snapshot: Snapshot)
      requires len <= items.Length
      modifies this`items, this`len, items
      ensures Valid() && (items == old(items) || fresh(items))
      ensures multiset(Contents()) == multiset(AfterSave(old(Contents()), snapshot, retention))
    {
      ghost var after := AfterSave(Contents(), snapshot, retention);
      Append(snapshot);
      CompactAndSort(snapshot.collectedAt - retention, after);
    }

    method CompactAndSort(cutoff: int, ghost kept: seq<Snapshot>)
      requires len <= items.Length && kept == Retain(Contents(), retention, cutoff)
      modifies this`len, items
      ensures Valid() && multiset(Contents()) == multiset(kept)
    {
      Compact(cutoff);
      SortItems();
    }

    /** append: reuse the backing array while it has room, otherwise move to a larger one. */
    method Append(snapshot: Snapshot)
      requires len <= items.Length
      modifies this`items, this`len, items
      ensures len <= items.Length && Contents() == old(Contents()) + [snapshot]
      ensures items == old(items) || fresh(items)
    {
      if len == items.Length {
        var previous := items;
        items := new Snapshot[2 * len + 1];
        forall i | 0 <= i < len {
          items[i] := previous[i];
        }
      }
      items[len] := snapshot;
      len := len + 1;
    }

    /** The slice of kept items shares the array being read: writing never overtakes the reading. */
    method Compact(cutoff: int)
      requires len <= items.Length
      modifies this`len, items
      ensures len <= items.Length && Contents() == Retain(old(Contents()), retention, cutoff)
    {
      ghost var was := items[..len];
      var kept := 0;
      for i := 0 to len
        invariant kept <= i && len == |was| <= items.Length
        invariant forall j | i <= j < len :: items[j] == was[j]
        invariant items[..kept] == Retain(was[..i], retention, cutoff)
      {
        ghost var before := items[..kept];
        var item := items[i];
        RetainOneMore(was, i, retention, cutoff);
        if Stays(item, retention, cutoff) {
          items[kept] := item;
          assert items[..kept + 1] == before + [item];
          kept := kept + 1;
        } else {
          assert before + [] == before;
        }
      }
      assert was[..len] == was;
      len := kept;
    }

    method SortItems()
      requires len <= items.Length
      modifies items
      ensures Valid() && multiset(Contents()) == multiset(old(Contents()))
    {
      var sorted := Sort(items[..len], ByTime);
      SameElements(items[..len], sorted);
      forall i | 0 <= i < len {
        items[i] := sorted[i];
      }
      assert items[..len] == sorted;
    }

    /** The most recent snapshot, if there is any. */
    method Latest() returns (latest: Option<Snapshot>)
      requires Valid()
      ensures latest.None? <==> Contents() == []
      ensures latest.Some? ==>
        && latest.value in Contents()
        && forall x | x in Contents() :: x.collectedAt <= latest.value.collectedAt
    {
      if len == 0 {
        return None;
      }
      latest := Some(items[len - 1]);
      forall x | x in Contents() ensures x.collectedAt <= latest.value.collectedAt {
        var i :| 0 <= i < len && Contents()[i] == x;
        assert i < len - 1 ==> ByTime(Contents()[i], Contents()[len - 1]);
      }
    }

    /** The page: at most `limit` eligible snapshots in order, and whether something later is left. */
    method Window(since: int, until: int, limit: int, cursor: Option<int>) returns (page: WindowPage)
      requires Valid()
      ensures page == PageOf(Contents(), since, until, limit, cursor)
    {
      var got := Collect(since, until, limit, cursor);
      if got == [] {
        return WindowPage("", "", [], false, None);
      }
      var last := got[|got| - 1].collectedAt;
      var more := false;
      if limit > 0 {
        more := AnyLater(since, until, cursor, last);
      }
      page := WindowPage(got[0].nodeID, got[0].env, got, more, if more then Some(last) else None);
    }

    method Collect(since: int, until: int, limit: int, cursor: Option<int>) returns (got: seq<Snapshot>)
      requires Valid()
      ensures got == FirstOf(Eligible(Contents(), since, until, cursor), limit)
    {
      got := [];
      ghost var all := Contents();
      for i := 0 to len
        invariant got == Eligible(all[..i], since, until, cursor)
        invariant limit > 0 ==> |got| < limit
      {
        assert items[i] == all[i];
        EligibleOneMore(all, i, since, until, cursor);
        if !IsEligible(items[i], since, until, cursor) {
          continue;
        }
        got := got + [items[i]];
        if limit > 0 && |got| == limit {
          EligiblePrefix(all, i + 1, since, until, cursor);
          PrefixIsFirst(got, Eligible(all, since, until, cursor), limit);
          return;
        }
      }
      assert all[..len] == all;
    }

    method AnyLater(since: int, until: int, cursor: Option<int>, last: int) returns (more: bool)
      requires Valid()
      ensures more == SomeAfter(Eligible(Contents(), since, until, cursor), last)
    {
      ghost var all := Contents();
      for i := 0 to len
        invariant !SomeAfter(Eligible(all[..i], since, until, cursor), last)
      {
        assert items[i] == all[i];
        EligibleOneMore(all, i, since, until, cursor);
        if !IsEligible(items[i], since, until, cursor) {
          continue;
        }
        if items[i].collectedAt > last {
          LaterFound(all, i, since, until, cursor, last);
          return true;
        }
      }
      assert all[..len] == all;
      more := false;
    }
  }

  lemma PrefixIsFirst(got: seq<Snapshot>, eligible: seq<Snapshot>, limit: int)
    requires got <= eligible && 0 < |got| == limit
    ensures FirstOf(eligible, limit) == got
  {}

  lemma LaterFound(items: seq<Snapshot>, i: nat, since: int, until: int, cursor: Option<int>, last: int)
    requires i < |items| && IsEligible(items[i], since, until, cursor) && last < items[i].collectedAt
    ensures SomeAfter(Eligible(items, since, until, cursor), last)
  {
    EligibleOneMore(items, i, since, until, cursor);
    EligiblePrefix(items, i + 1, since, until, cursor);
    var at := |Eligible(items[..i], since, until, cursor)|;
    assert Eligible(items[..i + 1], since, until, cursor)[at] == items[i];
  }

  lemma RetainOneMore(items: seq<Snapshot>, i: nat, retention: int, cutoff: int)
    requires i < |items|
    ensures Retain(items[..i + 1], retention, cutoff)
         == Retain(items[..i], retention, cutoff) + (if Stays(items[i], retention, cutoff) then [items[i]] else [])
  {
    assert items[..i + 1][..i] == items[..i];
  }

  lemma EligibleOneMore(items: seq<Snapshot>, i: nat, since: int, until: int, cursor: Option<int>)
    requires i < |items|
    ensures Eligible(items[..i + 1], since, until, cursor)
         == Eligible(items[..i], since, until, cursor) +
            (if IsEligible(items[i], since, until, cursor) then [items[i]] else [])
  {
    assert items[..i + 1][..i] == items[..i];
  }

  lemma {:induction false} EligiblePrefix(items: seq<Snapshot>, i: nat, since: int, until: int, cursor: Option<int>)
    requires i <= |items|
    ensures Eligible(items[..i], since, until, cursor) <= Eligible(items, since, until, cursor)
    decreases |items| - i
  {
    if i == |items| {
      assert items[..i] == items;
    } else {
      EligibleOneMore(items, i, since, until, cursor);
      EligiblePrefix(items, i + 1, since, until, cursor);
    }
  }
}
