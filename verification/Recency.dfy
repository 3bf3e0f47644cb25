/** The address cache as a value: a recency list, and what concurrent callers can make of it. */
module Recency {
  import opened Prelude

  datatype CacheItem = CacheItem(ip: string, result: bool)

  function Ips(items: seq<CacheItem>): (r: seq<string>)
    ensures |r| == |items|
  {
    seq(|items|, i requires 0 <= i < |items| => items[i].ip)
  }

  function WithoutIp(items: seq<CacheItem>, ip: string): seq<CacheItem> {
    if items == [] then []
    else (if items[0].ip == ip then [] else [items[0]]) + WithoutIp(items[1..], ip)
  }

  function Without(s: seq<string>, x: string): seq<string> {
    if s == [] then [] else (if s[0] == x then [] else [s[0]]) + Without(s[1..], x)
  }

  function Take<T>(s: seq<T>, n: nat): seq<T> {
    if |s| <= n then s else s[..n]
  }

  /** Using an address brings it to the front; the last entry goes when there are too many. */
  function Touch(items: seq<CacheItem>, ip: string, result: bool, max: nat): seq<CacheItem> {
    Take([CacheItem(ip, result)] + WithoutIp(items, ip), max)
  }

  /** The addresses of a use history, most recent first, each once. */
  function Recent(uses: seq<string>): seq<string> {
    if uses == [] then [] else
      [uses[|uses| - 1]] + Without(Recent(uses[..|uses| - 1]), uses[|uses| - 1])
  }

  lemma {:induction false} WithoutFacts(s: seq<string>, x: string)
    ensures x !in Without(s, x)
    ensures forall y :: y in Without(s, x) <==> y in s && y != x
    ensures Distinct(s) ==> Distinct(Without(s, x))
    ensures x !in s ==> Without(s, x) == s
  {
    if s != [] {
      WithoutFacts(s[1..], x);
      assert forall y :: y in s <==> y == s[0] || y in s[1..];
      if Distinct(s) {
        assert s[0] !in s[1..];
        assert Distinct(s[1..]);
      }
    }
  }

  lemma {:induction false} RecentIsDistinct(uses: seq<string>)
    ensures Distinct(Recent(uses))
  {
    if uses != [] {
      RecentIsDistinct(uses[..|uses| - 1]);
      WithoutFacts(Recent(uses[..|uses| - 1]), uses[|uses| - 1]);
    }
  }

  function LastUse(uses: seq<string>, x: string): (r: int)
    ensures -1 <= r < |uses|
  {
    if uses == [] then -1
    else if uses[|uses| - 1] == x then |uses| - 1
    else LastUse(uses[..|uses| - 1], x)
  }

  lemma {:induction false} LastUseIsLast(uses: seq<string>, x: string)
    ensures var r := LastUse(uses, x);
      && (r == -1 <==> x !in uses)
      && (0 <= r ==> uses[r] == x && forall k | r < k < |uses| :: uses[k] != x)
  {
    if uses != [] {
      var n := |uses| - 1;
      LastUseIsLast(uses[..n], x);
      assert uses == uses[..n] + [uses[n]];
    }
  }

  lemma LastUseOneMore(before: seq<string>, x: string, y: string)
    ensures LastUse(before + [x], y) == if y == x then |before| else LastUse(before, y)
  {
    assert (before + [x])[..|before|] == before;
  }

  ghost predicate ByLastUse(s: seq<string>, uses: seq<string>) {
    forall i, j | 0 <= i < j < |s| :: LastUse(uses, s[j]) < LastUse(uses, s[i])
  }

  lemma {:induction false} WithoutKeepsOrder(s: seq<string>, x: string, uses: seq<string>)
    requires ByLastUse(s, uses)
    ensures ByLastUse(Without(s, x), uses)
  {
    if s != [] {
      WithoutKeepsOrder(s[1..], x, uses);
      WithoutFacts(s[1..], x);
      var r := Without(s[1..], x);
      forall j | 0 <= j < |r| ensures LastUse(uses, r[j]) < LastUse(uses, s[0]) {
        assert r[j] in s[1..];
      }
    }
  }

  /** Recent lists the used addresses, each once, latest last use first. */
  lemma {:induction false} RecentIsByLastUse(uses: seq<string>)
    ensures forall x :: x in Recent(uses) <==> x in uses
    ensures ByLastUse(Recent(uses), uses)
  {
    if uses != [] {
      var before, x := uses[..|uses| - 1], uses[|uses| - 1];
      assert uses == before + [x];
      RecentIsByLastUse(before);
      RecentOneMore(before, x);
    }
  }

  lemma RecentOneMore(before: seq<string>, x: string)
    requires forall y :: y in Recent(before) <==> y in before
    requires ByLastUse(Recent(before), before)
    ensures var r := [x] + Without(Recent(before), x);
      (forall y :: y in r <==> y in before + [x]) && ByLastUse(r, before + [x])
  {
    WithoutFacts(Recent(before), x);
    WithoutKeepsOrder(Recent(before), x, before);
    UseOneMore(Without(Recent(before), x), before, x);
  }

  lemma UseOneMore(s: seq<string>, before: seq<string>, x: string)
    requires x !in s && ByLastUse(s, before)
    ensures ByLastUse([x] + s, before + [x])
  {
    var uses, r := before + [x], [x] + s;
    forall i, j | 0 <= i < j < |r| ensures LastUse(uses, r[j]) < LastUse(uses, r[i]) {
      assert r[j] == s[j - 1] && (i > 0 ==> r[i] == s[i - 1]);
      LastUseOneMore(before, x, r[i]);
      LastUseOneMore(before, x, r[j]);
    }
  }

  lemma {:induction false} IpsWithout(items: seq<CacheItem>, ip: string)
    ensures Ips(WithoutIp(items, ip)) == Without(Ips(items), ip)
  {
    if items != [] {
      IpsWithout(items[1..], ip);
      assert Ips(items)[1..] == Ips(items[1..]);
      assert Ips(items)[0] == items[0].ip;
    }
  }

  /** Dropping what the cut would drop anyway changes nothing after the next use. */
  lemma {:induction false} CutBeforeUse(recent: seq<string>, n: nat, x: string)
    requires Distinct(recent) && 0 < n
    ensures Take(Without(Take(recent, n), x), n - 1) == Take(Without(recent, x), n - 1)
  {
    if recent != [] && |recent| > n {
      var head, tail := recent[0], recent[1..];
      assert head !in tail && Distinct(tail);
      assert Take(recent, n) == [head] + Take(tail, n - 1);
      assert ([head] + Take(tail, n - 1))[1..] == Take(tail, n - 1);
      if head == x {
        WithoutFacts(tail, x);
        WithoutFacts(Take(tail, n - 1), x);
      } else if n > 1 {
        CutBeforeUse(tail, n - 1, x);
        TakeCons(head, Without(Take(tail, n - 1), x), n - 1);
        TakeCons(head, Without(tail, x), n - 1);
      }
    }
  }

  lemma TakeCons<T>(x: T, s: seq<T>, n: nat)
    requires 0 < n
    ensures Take([x] + s, n) == [x] + Take(s, n - 1)
  {}

  /** One more use, on the cache and on the ideal list. */
  lemma TouchIsUse(items: seq<CacheItem>, uses: seq<string>, ip: string, result: bool, max: nat)
    requires Ips(items) == Take(Recent(uses), max)
    ensures Ips(Touch(items, ip, result, max)) == Take(Recent(uses + [ip]), max)
  {
    var recent := Recent(uses);
    RecentIsDistinct(uses);
    assert (uses + [ip])[..|uses|] == uses;
    IpsWithout(items, ip);
    var moved := [CacheItem(ip, result)] + WithoutIp(items, ip);
    assert Ips(moved) == [ip] + Without(Take(recent, max), ip);
    assert Ips(Take(moved, max)) == Take(Ips(moved), max);
    if max > 0 {
      TakeCons(ip, Without(Take(recent, max), ip), max);
      TakeCons(ip, Without(recent, ip), max);
      CutBeforeUse(recent, max, ip);
    }
  }

  // ---------- concurrent callers ----------

  /** `pending` are the calls between their two critical sections; `answers` what finished calls returned. */
  datatype FilterSystem = FilterSystem(
    items: seq<CacheItem>, pending: map<nat, string>, uses: seq<string>, answers: seq<CacheItem>)

  datatype CallStep =
    | Lookup(call: nat, ip: string)
    | Insert(call: nat)

  function Find(items: seq<CacheItem>, ip: string): (r: Option<CacheItem>)
    ensures r.Some? ==> r.value in items && r.value.ip == ip
    ensures r.None? ==> forall item | item in items :: item.ip != ip
  {
    if items == [] then None else if items[0].ip == ip then Some(items[0]) else Find(items[1..], ip)
  }

  predicate CanStep(s: FilterSystem, e: CallStep) {
    match e
    case Lookup(call, ip) => call !in s.pending
    case Insert(call) => call in s.pending
  }

  /** The computation between the critical sections happens without the lock, so any calls may come in between. */
  function Step(excluded: string -> bool, max: nat, s: FilterSystem, e: CallStep): FilterSystem
    requires CanStep(s, e)
  {
    match e
    case Lookup(call, ip) =>
      (match Find(s.items, ip)
       case Some(item) =>
         s.(items := Touch(s.items, ip, item.result, max), uses := s.uses + [ip], answers := s.answers + [item])
       case None => s.(pending := s.pending[call := ip]))
    case Insert(call) =>
      var ip := s.pending[call];
      s.(items := Touch(s.items, ip, excluded(ip), max), pending := s.pending - {call},
         uses := s.uses + [ip], answers := s.answers + [CacheItem(ip, excluded(ip))])
  }

  const NO_CALLS := FilterSystem([], map[], [], [])

  /** Any schedule at all, passing over the steps no call can take. */
  function AfterSchedule(excluded: string -> bool, max: nat, schedule: seq<CallStep>): FilterSystem {
    if schedule == [] then NO_CALLS else
      var s, step := AfterSchedule(excluded, max, schedule[..|schedule| - 1]), schedule[|schedule| - 1];
      if CanStep(s, step) then Step(excluded, max, s, step) else s
  }

  ghost predicate IsFilterRun(excluded: string -> bool, max: nat, states: seq<FilterSystem>, steps: seq<CallStep>) {
    && |states| == |steps| + 1
    && states[0] == NO_CALLS
    && forall i | 0 <= i < |steps| :: IsStep(excluded, max, states, steps, i)
  }

  ghost predicate IsStep(excluded: string -> bool, max: nat, states: seq<FilterSystem>, steps: seq<CallStep>, i: nat)
    requires |states| == |steps| + 1 && i < |steps|
  {
    CanStep(states[i], steps[i]) && states[i + 1] == Step(excluded, max, states[i], steps[i])
  }

  ghost predicate Truthful(excluded: string -> bool, items: seq<CacheItem>) {
    forall i | 0 <= i < |items| :: items[i].result == excluded(items[i].ip)
  }

  lemma {:induction false} WithoutIpTruthful(excluded: string -> bool, items: seq<CacheItem>, ip: string)
    requires Truthful(excluded, items)
    ensures Truthful(excluded, WithoutIp(items, ip))
  {
    if items != [] {
      WithoutIpTruthful(excluded, items[1..], ip);
    }
  }

  ghost predicate FilterInvariant(excluded: string -> bool, max: nat, s: FilterSystem) {
    && Truthful(excluded, s.items)
    && Truthful(excluded, s.answers)
    && Ips(s.items) == Take(Recent(s.uses), max)
  }

  lemma UseKeepsInvariant(excluded: string -> bool, max: nat, items: seq<CacheItem>, uses: seq<string>, ip: string)
    requires Truthful(excluded, items) && Ips(items) == Take(Recent(uses), max)
    ensures var after := Touch(items, ip, excluded(ip), max);
      Truthful(excluded, after) && Ips(after) == Take(Recent(uses + [ip]), max)
  {
    TouchIsUse(items, uses, ip, excluded(ip), max);
    WithoutIpTruthful(excluded, items, ip);
  }

  lemma FoundIsTruthful(excluded: string -> bool, items: seq<CacheItem>, ip: string)
    requires Truthful(excluded, items)
    ensures Find(items, ip).Some? ==> Find(items, ip).value.result == excluded(ip)
  {}

  lemma StepKeepsInvariant(excluded: string -> bool, max: nat, s: FilterSystem, e: CallStep)
    requires FilterInvariant(excluded, max, s) && CanStep(s, e)
    ensures FilterInvariant(excluded, max, Step(excluded, max, s, e))
  {
    var ip := if e.Lookup? then e.ip else s.pending[e.call];
    FoundIsTruthful(excluded, s.items, ip);
    UseKeepsInvariant(excluded, max, s.items, s.uses, ip);
  }

  /** In every interleaving: the list is the most recently used addresses and nothing else, it never exceeds its size
      between critical sections, and every answer, cached or not, is the uncached one. */
  lemma {:induction false} CacheIsMostRecent(excluded: string -> bool, max: nat, states: seq<FilterSystem>,
                                             steps: seq<CallStep>, i: nat)
    requires IsFilterRun(excluded, max, states, steps) && i < |states|
    ensures FilterInvariant(excluded, max, states[i])
    ensures |states[i].items| <= max && Distinct(Ips(states[i].items))
  {
    if i > 0 {
      CacheIsMostRecent(excluded, max, states, steps, i - 1);
      assert IsStep(excluded, max, states, steps, i - 1);
      StepKeepsInvariant(excluded, max, states[i - 1], steps[i - 1]);
    }
    RecentIsDistinct(states[i].uses);
    assert |Ips(states[i].items)| <= max;
  }

  lemma OneMoreStep(excluded: string -> bool, max: nat, states: seq<FilterSystem>, steps: seq<CallStep>, step: CallStep)
    requires IsFilterRun(excluded, max, states, steps) && CanStep(states[|steps|], step)
    ensures IsFilterRun(excluded, max, states + [Step(excluded, max, states[|steps|], step)], steps + [step])
  {
    var longer, more := states + [Step(excluded, max, states[|steps|], step)], steps + [step];
    forall i | 0 <= i < |more| ensures IsStep(excluded, max, longer, more, i) {
      assert i < |steps| ==> IsStep(excluded, max, states, steps, i);
    }
  }

  lemma {:induction false} ScheduleIsRun(excluded: string -> bool, max: nat, schedule: seq<CallStep>)
    returns (states: seq<FilterSystem>, steps: seq<CallStep>)
    ensures IsFilterRun(excluded, max, states, steps)
    ensures states[|steps|] == AfterSchedule(excluded, max, schedule)
  {
    if schedule == [] {
      states, steps := [NO_CALLS], [];
    } else {
      var step := schedule[|schedule| - 1];
      states, steps := ScheduleIsRun(excluded, max, schedule[..|schedule| - 1]);
      if CanStep(states[|steps|], step) {
        OneMoreStep(excluded, max, states, steps, step);
        states, steps := states + [Step(excluded, max, states[|steps|], step)], steps + [step];
      }
    }
  }

  /** So any schedule leaves the most recently used addresses, and has answered truthfully. */
  lemma ScheduleIsMostRecent(excluded: string -> bool, max: nat, schedule: seq<CallStep>)
    ensures FilterInvariant(excluded, max, AfterSchedule(excluded, max, schedule))
  {
    var states, steps := ScheduleIsRun(excluded, max, schedule);
    CacheIsMostRecent(excluded, max, states, steps, |steps|);
  }
}
