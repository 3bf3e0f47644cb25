/** The address filter's objects: container/list as linked elements, the lookup map, and the two critical sections. */
module IpFilter {
  import opened Prelude
  import opened Recency

  class Element {
    const ip: string
    var result: bool
    var next: Element
    var prev: Element

    constructor (ip: string, result: bool)
      ensures this.ip == ip && this.result == result && next == this && prev == this
    {
      this.ip, this.result := ip, result;
      next, prev := this, this;
    }
  }

  function RemoveAt<T>(s: seq<T>, i: nat): (r: seq<T>)
    requires i < |s|
  {
    s[..i] + s[i + 1..]
  }

  lemma RemoveFacts<T>(s: seq<T>, i: nat)
    requires i < |s| && Distinct(s)
    ensures var r := RemoveAt(s, i);
      && Distinct(r)
      && (forall k | 0 <= k < |r| :: r[k] == s[if k < i then k else k + 1])
  {}

  /** Which old position a new one came from. */
  function Origin(i: nat, k: nat): nat {
    if k == 0 then i else if k <= i then k - 1 else k
  }

  function ToFront<T>(s: seq<T>, i: nat): (r: seq<T>)
    requires i < |s|
    ensures |r| == |s|
  {
    seq(|s|, k requires 0 <= k < |s| => s[Origin(i, k)])
  }

  lemma ToFrontIs<T>(s: seq<T>, i: nat)
    requires i < |s|
    ensures ToFront(s, i) == [s[i]] + RemoveAt(s, i)
  {}

  /** A doubly linked ring through a sentinel; `nodes` are the elements from front to back. */
  class List {
    const root: Element
    ghost var nodes: seq<Element>
    ghost var elements: set<Element>
    var len: nat

    ghost predicate Valid()
      reads this, root, elements
    {
      && len == |nodes|
      && root in elements
      && (forall i | 0 <= i < |nodes| :: nodes[i] in elements)
      && Linked(root, nodes)
    }

    constructor ()
      ensures Valid() && nodes == [] && elements == {root} && fresh(root)
    {
      root := new Element("", false);
      nodes := [];
      elements := {root};
      len := 0;
    }

    method Back() returns (last: Element)
      requires Valid() && nodes != []
      ensures last == nodes[|nodes| - 1]
    {
      last := root.prev;
    }

    method Remove(e: Element, ghost i: nat)
      requires Valid() && i < |nodes| && nodes[i] == e
      modifies this, elements`next, elements`prev
      ensures Valid() && nodes == RemoveAt(old(nodes), i) && elements == old(elements) - {e}
    {
      StepOver(e, i);
      Unlinked(root, nodes, i);
      nodes, elements, len := RemoveAt(nodes, i), elements - {e}, len - 1;
    }

    /** The neighbours of e are linked to each other. */
    method StepOver(e: Element, ghost i: nat)
      requires Valid() && i < |nodes| && nodes[i] == e
      modifies elements`next, elements`prev
      ensures SteppedOver(root, nodes, i)
    {
      var before, after := e.prev, e.next;
      assert LinkedAt(root, nodes, i);
      before.next := after;
      after.prev := before;
      forall k | 0 <= k < |nodes| && k != i ensures SteppedAt(root, nodes, i, k) {
        assert old(LinkedAt(root, nodes, k)) && nodes[k] != e;
        assert nodes[k] == before ==> k == i - 1;
        assert nodes[k] == after ==> k == i + 1;
      }
    }

    method InsertFront(e: Element)
      requires Valid() && e !in elements
      modifies this, elements`next, elements`prev, e`next, e`prev
      ensures Valid() && nodes == [e] + old(nodes) && elements == old(elements) + {e}
    {
      e.prev := root;
      e.next := root.next;
      e.prev.next := e;
      e.next.prev := e;
      ghost var all := nodes;
      nodes, elements, len := [e] + all, elements + {e}, len + 1;
      forall k | 0 <= k < |nodes| ensures LinkedAt(root, nodes, k) {
        assert k > 0 ==> old(LinkedAt(root, nodes, k - 1)) && nodes[k] == all[k - 1];
      }
    }

    method MoveToFront(e: Element, ghost i: nat)
      requires Valid() && i < |nodes| && nodes[i] == e
      modifies this, elements`next, elements`prev
      ensures Valid() && nodes == ToFront(old(nodes), i) && elements == old(elements)
    {
      ToFrontIs(nodes, i);
      if root.next == e {
        assert i == 0;
      } else {
        Reinsert(e, i);
      }
    }

    method Reinsert(e: Element, ghost i: nat)
      requires Valid() && i < |nodes| && nodes[i] == e
      modifies this, elements`next, elements`prev
      ensures Valid() && nodes == [e] + RemoveAt(old(nodes), i) && elements == old(elements)
    {
      Remove(e, i);
      InsertFront(e);
    }
  }

  ghost function After(root: Element, nodes: seq<Element>, i: int): Element
    requires -1 <= i < |nodes|
  {
    if i + 1 < |nodes| then nodes[i + 1] else root
  }

  ghost function Before(root: Element, nodes: seq<Element>, i: int): Element
    requires 0 <= i <= |nodes|
  {
    if 0 < i then nodes[i - 1] else root
  }

  ghost predicate LinkedAt(root: Element, nodes: seq<Element>, i: nat)
    requires i < |nodes|
    reads nodes
  {
    nodes[i].next == After(root, nodes, i) && nodes[i].prev == Before(root, nodes, i)
  }

  /** Following next from the sentinel visits `nodes` in order and returns; prev goes back. */
  ghost predicate Linked(root: Element, nodes: seq<Element>)
    reads root, nodes
  {
    && (forall i | 0 <= i < |nodes| :: nodes[i] != root)
    && Distinct(nodes)
    && (forall i | 0 <= i < |nodes| :: LinkedAt(root, nodes, i))
    && root.next == After(root, nodes, -1) && root.prev == Before(root, nodes, |nodes|)
  }

  /** Only the links that led to element i are changed, to lead past it. */
  ghost predicate SteppedOver(root: Element, all: seq<Element>, i: nat)
    requires i < |all|
    reads root, all
  {
    && (forall k | 0 <= k < |all| && k != i :: SteppedAt(root, all, i, k))
    && root.next == (if i == 0 then After(root, all, i) else After(root, all, -1))
    && root.prev == (if i == |all| - 1 then Before(root, all, i) else Before(root, all, |all|))
  }

  ghost predicate SteppedAt(root: Element, all: seq<Element>, i: nat, k: nat)
    requires i < |all| && k < |all|
    reads all
  {
    && all[k].next == (if k == i - 1 then After(root, all, i) else After(root, all, k))
    && all[k].prev == (if k == i + 1 then Before(root, all, i) else Before(root, all, k))
  }

  /** Then the others are well linked. */
  lemma Unlinked(root: Element, all: seq<Element>, i: nat)
    requires i < |all| && Distinct(all) && forall k | 0 <= k < |all| :: all[k] != root
    requires SteppedOver(root, all, i)
    ensures Linked(root, RemoveAt(all, i))
  {
    var rest := RemoveAt(all, i);
    RemoveFacts(all, i);
    forall k | 0 <= k < |rest| ensures LinkedAt(root, rest, k) {
      var j := if k < i then k else k + 1;
      assert SteppedAt(root, all, i, j) && rest[k] == all[j];
    }
  }

  /** Exact addresses and parsed networks to exclude; parsing and network membership are foreign. */
  datatype AddressRules = AddressRules(
    systemIPs: set<string>, dnsServers: set<string>,
    parse: string -> Option<string>, privateNets: seq<string -> bool>)
  {
    predicate Excludes(ip: string) {
      || ip in systemIPs
      || ip in dnsServers
      || parse(ip).None?
      || exists i | 0 <= i < |privateNets| :: privateNets[i](parse(ip).value)
    }
  }

  ghost function IpSet(items: seq<CacheItem>): set<string> {
    set i | 0 <= i < |items| :: items[i].ip
  }

  lemma {:induction false} FindIff(items: seq<CacheItem>, ip: string)
    ensures Find(items, ip).Some? <==> ip in IpSet(items)
  {
    var found := Find(items, ip);
    if found.Some? {
      var i :| 0 <= i < |items| && items[i] == found.value;
      assert items[i].ip in IpSet(items);
    }
  }

  /** The elements hold `items`, and the map leads from each of their addresses, and no other, to its own element. */
  ghost predicate Mirrors(cache: map<string, Element>, nodes: seq<Element>, items: seq<CacheItem>)
    reads nodes`result
  {
    && |nodes| == |items|
    && (forall i | 0 <= i < |items| :: nodes[i].ip == items[i].ip && nodes[i].result == items[i].result)
    && (forall i | 0 <= i < |items| :: items[i].ip in cache && cache[items[i].ip] == nodes[i])
    && cache.Keys == IpSet(items)
  }

  lemma MirrorsToFront(cache: map<string, Element>, nodes: seq<Element>, items: seq<CacheItem>, i: nat)
    requires Mirrors(cache, nodes, items) && i < |items|
    ensures Mirrors(cache, ToFront(nodes, i), ToFront(items, i))
  {
    SameIps(items, i);
  }

  lemma TruthfulToFront(excluded: string -> bool, items: seq<CacheItem>, i: nat)
    requires Truthful(excluded, items) && i < |items|
    ensures Truthful(excluded, ToFront(items, i))
  {}

  class IPFilter {
    const rules: AddressRules
    const maxCacheSize: nat
    var cache: map<string, Element>
    const lru: List
    ghost var items: seq<CacheItem>   // what the list holds, front to back

    /** The map and the list hold the same elements, and every element holds the uncached answer. */
    ghost predicate Valid()
      reads this, lru, lru.root, lru.elements
    {
      && lru.Valid()
      && |items| <= maxCacheSize
      && Mirrors(cache, lru.nodes, items)
      && Truthful(rules.Excludes, items)
    }

    constructor (rules: AddressRules, maxCacheSize: nat)
      ensures Valid() && this.rules == rules && this.maxCacheSize == maxCacheSize && items == []
    {
      this.rules, this.maxCacheSize := rules, maxCacheSize;
      cache := map[];
      lru := new List();
      items := [];
    }

    /** The filtering logic without the cache. */
    method ShouldFilterInternal(ip: string) returns (result: bool)
      ensures result == rules.Excludes(ip)
      ensures !result <==>
        && ip !in rules.systemIPs && ip !in rules.dnsServers && rules.parse(ip).Some?
        && forall n | 0 <= n < |rules.privateNets| :: !rules.privateNets[n](rules.parse(ip).value)
    {
      if ip in rules.systemIPs {
        return true;
      }
      if ip in rules.dnsServers {
        return true;
      }
      var parsed := rules.parse(ip);
      if parsed.None? {
        return true;
      }
      for i := 0 to |rules.privateNets|
        invariant forall j | 0 <= j < i :: !rules.privateNets[j](parsed.value)
      {
        if rules.privateNets[i](parsed.value) {
          return true;
        }
      }
      return false;
    }

    lemma Position(ip: string) returns (i: nat)
      requires Valid() && ip in cache
      ensures i < |items| && items[i].ip == ip && lru.nodes[i] == cache[ip]
      ensures items[i].result == cache[ip].result == rules.Excludes(ip)
    {
      i :| 0 <= i < |items| && items[i].ip == ip;
    }

    lemma OnlyItem(i: nat)
      requires Valid() && i < |items|
      ensures forall j | 0 <= j < |items| && j != i :: items[j].ip != items[i].ip
    {
      forall j | 0 <= j < |items| && j != i ensures items[j].ip != items[i].ip {
        assert lru.nodes[j] != lru.nodes[i];
      }
    }

    /** A hit in the map is a hit in the recency list. */
    lemma CachedIffFound(ip: string)
      requires Valid()
      ensures ip in cache <==> Find(items, ip).Some?
    {
      FindIff(items, ip);
    }

    /** First critical section: a hit refreshes the entry and answers, a miss leaves everything alone. */
    method LookupCached(ip: string) returns (answer: Option<bool>)
      requires Valid()
      modifies this`items, lru, lru.elements`next, lru.elements`prev
      ensures Valid() && lru.elements == old(lru.elements)
      ensures answer == if ip in cache then Some(rules.Excludes(ip)) else None
      ensures items == if ip in cache then Touch(old(items), ip, rules.Excludes(ip), maxCacheSize) else old(items)
    {
      if ip in cache {
        var el := cache[ip];
        ghost var i := Position(ip);
        Refresh(el, i);
        answer := Some(el.result);
      } else {
        answer := None;
      }
    }

    /** MoveToFront on an element of the map. */
    method Refresh(el: Element, ghost i: nat)
      requires Valid() && i < |lru.nodes| && lru.nodes[i] == el
      modifies this`items, lru, lru.elements`next, lru.elements`prev
      ensures Valid() && lru.elements == old(lru.elements)
      ensures items == Touch(old(items), el.ip, el.result, maxCacheSize) && el.result == old(el.result)
    {
      ghost var was, all := items, lru.nodes;
      OnlyItem(i);
      TouchMoves(was, i, el.result, maxCacheSize);
      lru.MoveToFront(el, i);
      MirrorsToFront(cache, all, was, i);
      TruthfulToFront(rules.Excludes, was, i);
      items := ToFront(was, i);
    }

    /** Second critical section: refresh an entry a concurrent caller inserted meanwhile, or insert and evict. */
    method InsertResult(ip: string, result: bool)
      requires Valid() && result == rules.Excludes(ip)
      modifies this, lru, lru.elements`next, lru.elements`prev, lru.elements`result
      ensures Valid()
      ensures items == Touch(old(items), ip, result, maxCacheSize)
      ensures fresh(lru.elements - old(lru.elements))
    {
      if ip in cache {
        var el := cache[ip];
        ghost var i := Position(ip);
        Refresh(el, i);
        Overwrite(el, result);
      } else {
        PushNew(ip, result);
        if lru.len > maxCacheSize {
          EvictOldest();
        }
      }
    }

    /** The stored answer is overwritten with a recomputed, hence equal, one. */
    method Overwrite(el: Element, result: bool)
      requires Valid() && el in cache.Values && result == rules.Excludes(el.ip)
      modifies el`result
      ensures Valid() && el.result == old(el.result)
    {
      ghost var ip :| ip in cache && cache[ip] == el;
      ghost var i := Position(ip);
      el.result := result;
    }

    /** Valid, except that one entry too many may be held. */
    ghost predicate Overfull()
      reads this, lru, lru.root, lru.elements
    {
      && lru.Valid()
      && |items| <= maxCacheSize + 1
      && Mirrors(cache, lru.nodes, items)
      && Truthful(rules.Excludes, items)
    }

    method PushNew(ip: string, result: bool)
      requires Valid() && ip !in cache && result == rules.Excludes(ip)
      modifies this`items, this`cache, lru, lru.elements`next, lru.elements`prev
      ensures Overfull() && items == [CacheItem(ip, result)] + old(items)
      ensures Take(items, maxCacheSize) == Touch(old(items), ip, result, maxCacheSize)
      ensures fresh(lru.elements - old(lru.elements))
    {
      TouchAbsent(cache, lru.nodes, items, CacheItem(ip, result), maxCacheSize);
      var el := new Element(ip, result);
      Link(el);
    }

    /** A new element, put in front of the list and into the map. */
    method Link(el: Element)
      requires Valid() && el.ip !in cache && el !in lru.elements && el.result == rules.Excludes(el.ip)
      modifies this`items, this`cache, lru, lru.elements`next, lru.elements`prev, el`next, el`prev
      ensures Overfull() && items == [CacheItem(el.ip, el.result)] + old(items)
      ensures el.result == old(el.result) && lru.elements == old(lru.elements) + {el}
    {
      MirrorsPush(cache, lru.nodes, items, el, CacheItem(el.ip, el.result));
      lru.InsertFront(el);
      cache := cache[el.ip := el];
      items := [CacheItem(el.ip, el.result)] + items;
    }

    method EvictOldest()
      requires Overfull() && |items| == maxCacheSize + 1
      modifies this`items, this`cache, lru, lru.elements`next, lru.elements`prev
      ensures Valid() && items == Take(old(items), maxCacheSize)
      ensures lru.elements <= old(lru.elements)
    {
      ghost var was, all, last := items, lru.nodes, |items| - 1;
      var oldest := lru.Back();
      MirrorsDistinct(cache, all, was);
      MirrorsDropLast(cache, all, was);
      RemoveLast(all);
      assert oldest.ip == was[last].ip;
      lru.Remove(oldest, last);
      cache := cache - {oldest.ip};
      items := was[..last];
      assert Mirrors(cache, lru.nodes, items);
    }

    /** The whole call, when no other comes in between. */
    method ShouldFilter(ip: string) returns (result: bool)
      requires Valid()
      modifies this, lru, lru.elements`next, lru.elements`prev, lru.elements`result
      ensures Valid() && result == rules.Excludes(ip)
      ensures items == Touch(old(items), ip, rules.Excludes(ip), maxCacheSize)
    {
      var cached := LookupCached(ip);
      if cached.Some? {
        return cached.value;
      }
      result := ShouldFilterInternal(ip);
      InsertResult(ip, result);
    }

    /** One critical section of one of many calls; `pending` are the calls between their two sections. */
    method TakeStep(step: CallStep, pending: map<nat, string>, answers: seq<CacheItem>, ghost s: FilterSystem)
      returns (pending': map<nat, string>, answers': seq<CacheItem>)
      requires Valid() && s.items == items && s.pending == pending && s.answers == answers && CanStep(s, step)
      modifies this, lru, lru.elements`next, lru.elements`prev, lru.elements`result
      ensures Valid() && fresh(lru.elements - old(lru.elements))
      ensures var t := Step(rules.Excludes, maxCacheSize, s, step);
        items == t.items && pending' == t.pending && answers' == t.answers
    {
      match step {
        case Lookup(call, ip) =>
          CachedIffFound(ip);
          FoundIsTruthful(rules.Excludes, items, ip);
          var answer := LookupCached(ip);
          if answer.Some? {
            pending', answers' := pending, answers + [CacheItem(ip, answer.value)];
          } else {
            pending', answers' := pending[call := ip], answers;
          }
        case Insert(call) =>
          var ip := pending[call];
          var result := ShouldFilterInternal(ip);
          InsertResult(ip, result);
          pending', answers' := pending - {call}, answers + [CacheItem(ip, result)];
      }
    }

    /** Many concurrent calls on one new filter, their critical sections in any order at all: list and answers are those
        of the interleaving model, so the list holds the most recently used addresses and every answer is the uncached
        one. */
    method RunSchedule(schedule: seq<CallStep>) returns (pending: map<nat, string>, answers: seq<CacheItem>)
      requires Valid() && items == []
      modifies this, lru, lru.elements`next, lru.elements`prev, lru.elements`result
      ensures Valid()
      ensures var t := AfterSchedule(rules.Excludes, maxCacheSize, schedule);
        && items == t.items && pending == t.pending && answers == t.answers
        && Ips(items) == Take(Recent(t.uses), maxCacheSize)
      ensures Truthful(rules.Excludes, answers)
      ensures forall k | 0 <= k < |answers| :: !answers[k].result <==>
        var ip := answers[k].ip;
        && ip !in rules.systemIPs && ip !in rules.dnsServers && rules.parse(ip).Some?
        && forall n | 0 <= n < |rules.privateNets| :: !rules.privateNets[n](rules.parse(ip).value)
    {
      pending, answers := map[], [];
      ghost var s := NO_CALLS;
      for i := 0 to |schedule|
        invariant Valid() && fresh(lru.elements - old(lru.elements))
        invariant s == AfterSchedule(rules.Excludes, maxCacheSize, schedule[..i])
        invariant s.items == items && s.pending == pending && s.answers == answers
      {
        var step := schedule[i];
        assert schedule[..i + 1][..i] == schedule[..i];
        if if step.Lookup? then step.call !in pending else step.call in pending {
          ghost var before := s;
          s := Step(rules.Excludes, maxCacheSize, s, step);
          pending, answers := TakeStep(step, pending, answers, before);
        }
      }
      assert schedule[..|schedule|] == schedule;
      ScheduleIsMostRecent(rules.Excludes, maxCacheSize, schedule);
      forall k | 0 <= k < |answers| {
        PassesIff(rules, answers[k].ip);
      }
    }
  }

  /** An address passes exactly when it is a real user's: in neither list, well-formed, and in no private network. */
  lemma PassesIff(rules: AddressRules, ip: string)
    ensures !rules.Excludes(ip) <==>
      && ip !in rules.systemIPs && ip !in rules.dnsServers && rules.parse(ip).Some?
      && forall n | 0 <= n < |rules.privateNets| :: !rules.privateNets[n](rules.parse(ip).value)
  {}

  lemma TouchAbsent(cache: map<string, Element>, nodes: seq<Element>, items: seq<CacheItem>, item: CacheItem, max: nat)
    requires Mirrors(cache, nodes, items) && item.ip !in cache
    ensures Touch(items, item.ip, item.result, max) == Take([item] + items, max)
  {
    forall j | 0 <= j < |items| ensures items[j].ip != item.ip {
      assert items[j].ip in IpSet(items);
    }
    WithoutAbsent(items, item.ip);
  }

  lemma MirrorsPush(cache: map<string, Element>, nodes: seq<Element>, items: seq<CacheItem>, el: Element,
                    item: CacheItem)
    requires Mirrors(cache, nodes, items) && item.ip !in cache && el.ip == item.ip && el.result == item.result
    ensures Mirrors(cache[item.ip := el], [el] + nodes, [item] + items)
  {
    var more := [item] + items;
    assert more[0] == item;
    forall ip | ip in IpSet(items) ensures ip in IpSet(more) {
      var j :| 0 <= j < |items| && items[j].ip == ip;
      assert more[j + 1].ip == ip;
    }
    assert IpSet(more) == IpSet(items) + {item.ip};
  }

  lemma MirrorsDistinct(cache: map<string, Element>, nodes: seq<Element>, items: seq<CacheItem>)
    requires Mirrors(cache, nodes, items) && Distinct(nodes) && items != []
    ensures forall j | 0 <= j < |items| - 1 :: items[j].ip != items[|items| - 1].ip
  {
    forall j | 0 <= j < |items| - 1 ensures items[j].ip != items[|items| - 1].ip {
      assert nodes[j] != nodes[|items| - 1];
    }
  }

  lemma RemoveLast<T>(s: seq<T>)
    requires s != []
    ensures RemoveAt(s, |s| - 1) == s[..|s| - 1]
  {}

  lemma MirrorsDropLast(cache: map<string, Element>, nodes: seq<Element>, items: seq<CacheItem>)
    requires Mirrors(cache, nodes, items) && items != []
    requires forall j | 0 <= j < |items| - 1 :: items[j].ip != items[|items| - 1].ip
    ensures Mirrors(cache - {items[|items| - 1].ip}, nodes[..|items| - 1], items[..|items| - 1])
  {
    var last := |items| - 1;
    var fewer := items[..last];
    forall ip | ip in IpSet(items) && ip != items[last].ip ensures ip in IpSet(fewer) {
      var j :| 0 <= j < |items| && items[j].ip == ip;
      assert fewer[j].ip == ip;
    }
    assert IpSet(fewer) == IpSet(items) - {items[last].ip};
  }

  lemma SameIps(items: seq<CacheItem>, i: nat)
    requires i < |items|
    ensures IpSet(ToFront(items, i)) == IpSet(items)
  {
    var moved := ToFront(items, i);
    forall ip | ip in IpSet(items) ensures ip in IpSet(moved) {
      var j :| 0 <= j < |items| && items[j].ip == ip;
      assert moved[if j == i then 0 else if j < i then j + 1 else j].ip == ip;
    }
  }

  lemma {:induction false} WithoutAt(items: seq<CacheItem>, i: nat)
    requires i < |items|
    requires forall j | 0 <= j < |items| && j != i :: items[j].ip != items[i].ip
    ensures WithoutIp(items, items[i].ip) == RemoveAt(items, i)
  {
    var rest := items[1..];
    if i == 0 {
      WithoutAbsent(rest, items[0].ip);
      assert RemoveAt(items, 0) == rest;
    } else {
      WithoutAt(rest, i - 1);
      assert items[..i] == [items[0]] + rest[..i - 1] && items[i + 1..] == rest[i..];
    }
  }

  lemma {:induction false} WithoutAbsent(items: seq<CacheItem>, ip: string)
    requires forall j | 0 <= j < |items| :: items[j].ip != ip
    ensures WithoutIp(items, ip) == items
  {
    if items != [] {
      WithoutAbsent(items[1..], ip);
    }
  }

  lemma TouchMoves(items: seq<CacheItem>, i: nat, result: bool, max: nat)
    requires i < |items| <= max
    requires forall j | 0 <= j < |items| && j != i :: items[j].ip != items[i].ip
    ensures Touch(items, items[i].ip, result, max) == [CacheItem(items[i].ip, result)] + RemoveAt(items, i)
    ensures items[i].result == result ==> Touch(items, items[i].ip, result, max) == ToFront(items, i)
  {
    WithoutAt(items, i);
    ToFrontIs(items, i);
  }
}
