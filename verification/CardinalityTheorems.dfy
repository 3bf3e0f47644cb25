/** How many keys the exporter can follow exactly: what the limits of 10 outbounds and 20 of everything else, and the
    thresholds of a parse tick, mean for whole runs and for any ticks of the loop. */
module CardinalityTheorems {
  import opened Counting
  import opened Traffic
  import opened TopN
  import opened LogSystem
  import opened LogTheorems
  import opened Parser
  import opened LoopTheorems

  // ---------- what a tick trims ----------

  /** A parse tick leaves what its pass left unless some map has outgrown its threshold; then it cuts all six. */
  lemma ParseTickTrims(cfg: Config, s: Stage, found: OpenResult, upTo: nat, now: int, t: Stage)
    requires TickDone(cfg, s, ParseTick(found, upTo, now), t)
    ensures var passed := AfterPass(cfg, s, found, upTo, now);
      var c := passed.metrics.counts;
      if |c.domains| <= 100 && |c.ips| <= 40 && |c.outbounds| <= 20
         && |c.asns| <= 100 && |c.countries| <= 100 && |c.cities| <= 100
      then t == passed
      else AreCut(c, t.metrics.counts) && t == passed.(metrics := passed.metrics.(counts := t.metrics.counts))
  {
    var passed := AfterPass(cfg, s, found, upTo, now);
    WithinIff(passed.metrics.counts);
    if !Within(passed.metrics.counts) {
      CutIsTrim(passed, t);
    }
  }

  /** A cleanup tick cuts all six, however small they are, and touches nothing else. */
  lemma CleanupTickTrims(cfg: Config, s: Stage, t: Stage)
    requires TickDone(cfg, s, CleanupTick, t)
    ensures AreCut(s.metrics.counts, t.metrics.counts) && t == s.(metrics := s.metrics.(counts := t.metrics.counts))
  {
    CutIsTrim(s, t);
  }

  lemma WithinIff(c: CountMaps)
    ensures Within(c) <==>
      && |c.domains| <= 100 && |c.ips| <= 40 && |c.outbounds| <= 20
      && |c.asns| <= 100 && |c.countries| <= 100 && |c.cities| <= 100
  {
    assert c.Of(Domains) == c.domains && c.Of(DirectIPs) == c.ips && c.Of(Outbounds) == c.outbounds;
    assert c.Of(ASNs) == c.asns && c.Of(Countries) == c.countries && c.Of(Cities) == c.cities;
  }

  // ---------- few keys are all counted ----------

  ghost function Names(bag: multiset<string>): set<string> {
    set k | k in bag
  }

  /** The history names at most n different keys in the category. */
  ghost predicate NamesAtMost(rd: Reader, cat: Category, history: seq<Seen>, n: nat) {
    |Names(Bag(rd, cat, history))| <= n
  }

  /** In every run that never saw more than 10 outbounds, or 20 keys of another kind, by the time of a trim, the counts
      are the whole histogram. */
  lemma FewKeysAreExact(cfg: Config, states: seq<System>, events: seq<Event>, cat: Category, i: nat,
                          n: nat)
    requires IsRun(cfg, states, events) && i < |states| && n == if cat.Outbounds? then 10 else 20
    requires forall j | 0 <= j < i && events[j].Trim? :: NamesAtMost(cfg.reader, cat, states[j].history, n)
    ensures Tallies(states[i].metrics.counts.Of(cat), Bag(cfg.reader, cat, states[i].history))
  {
    forall j | 0 <= j < i && j < |events| ensures CutsNothing(states[j], events[j], cat) {
      var counts, bag := states[j].metrics.counts.Of(cat), Bag(cfg.reader, cat, states[j].history);
      CountsSound(cfg, states, events, cat, j);
      NoMoreThanNamed(counts, bag);
    }
    CountsConserved(cfg, states, events, cat, i);
  }

  lemma NoMoreThanNamed(counts: CountMap, bag: multiset<string>)
    requires Understates(counts, bag)
    ensures |counts| <= |Names(bag)|
  {
    SizeOfMap(counts);
    SubsetSize(counts.Keys, Names(bag));
  }

  ghost predicate FewNamesAtTrim(cfg: Config, ticks: seq<Tick>, trace: seq<Stage>, cat: Category, i: nat, n: nat)
    requires i < |ticks| < |trace|
  {
    TickTrims(cfg, trace[i], ticks[i]) ==>
      NamesAtMost(cfg.reader, cat, LoopHistory(cfg, ticks, trace, i + 1), n)
  }

  /** The same over any ticks of the loop, whatever they found of the file. */
  lemma LoopIsExactForFewKeys(cfg: Config, ticks: seq<Tick>, trace: seq<Stage>, cat: Category, n: nat)
    requires IsLoopTrace(cfg, ticks, trace) && n == if cat.Outbounds? then 10 else 20
    requires forall i | 0 <= i < |ticks| :: FewNamesAtTrim(cfg, ticks, trace, cat, i, n)
    ensures Tallies(trace[|ticks|].metrics.counts.Of(cat),
                    Bag(cfg.reader, cat, LoopHistory(cfg, ticks, trace, |ticks|)))
  {
    var states, events := LoopIsARun(cfg, File(1, ""), ticks, trace, |ticks|);
    forall j | 0 <= j < |events| && events[j].Trim?
      ensures NamesAtMost(cfg.reader, cat, states[j].history, n)
    {
      var i := WhichTick(cfg, ticks, trace, states, events, j);
      assert FewNamesAtTrim(cfg, ticks, trace, cat, i, n);
    }
    FewKeysAreExact(cfg, states, events, cat, |events|, n);
  }

  // ---------- among many keys the heavy ones are ----------

  ghost predicate RivalsBelow(rd: Reader, cat: Category, history: seq<Seen>, k: string, n: nat) {
    var bag := Bag(rd, cat, history);
    k in bag ==> |Rivals(bag, k)| < n
  }

  /** An outbound with fewer than 10 rivals at every trim, or another key with fewer than 20, is counted exactly. */
  lemma HeavyKeysAreExact(cfg: Config, states: seq<System>, events: seq<Event>, cat: Category, k: string,
                            i: nat, n: nat)
    requires IsRun(cfg, states, events) && i < |states| && n == if cat.Outbounds? then 10 else 20
    requires forall j | 0 <= j < i && events[j].Trim? :: RivalsBelow(cfg.reader, cat, states[j].history, k, n)
    ensures Get(states[i].metrics.counts.Of(cat), k) == Bag(cfg.reader, cat, states[i].history)[k]
  {
    forall j | 0 <= j < i && j < |events| ensures FewRivalsAt(cfg, states[j], events[j], cat, k) {
    }
    HeavyHittersExact(cfg, states, events, cat, k, i);
  }

  ghost predicate FewRivalsAtTrim(cfg: Config, ticks: seq<Tick>, trace: seq<Stage>, cat: Category, k: string,
                                  i: nat, n: nat)
    requires i < |ticks| < |trace|
  {
    TickTrims(cfg, trace[i], ticks[i]) ==>
      RivalsBelow(cfg.reader, cat, LoopHistory(cfg, ticks, trace, i + 1), k, n)
  }

  /** The same over any ticks of the loop; with as few rivals at the end, the key is exported with that count. */
  lemma LoopIsExactForHeavyKeys(cfg: Config, ticks: seq<Tick>, trace: seq<Stage>, cat: Category, k: string,
                                out: seq<CountEntry>, n: nat)
    requires IsLoopTrace(cfg, ticks, trace) && n == if cat.Outbounds? then 10 else 20
    requires forall i | 0 <= i < |ticks| :: FewRivalsAtTrim(cfg, ticks, trace, cat, k, i, n)
    requires IsExport(trace[|ticks|].metrics.counts.Of(cat), n, out)
    ensures var history := LoopHistory(cfg, ticks, trace, |ticks|);
      var bag := Bag(cfg.reader, cat, history);
      && Get(trace[|ticks|].metrics.counts.Of(cat), k) == bag[k]
      && (k in bag && |Rivals(bag, k)| < n ==> CountEntry(k, bag[k]) in out)
  {
    var counts := trace[|ticks|].metrics.counts.Of(cat);
    var bag := Bag(cfg.reader, cat, LoopHistory(cfg, ticks, trace, |ticks|));
    forall i | 0 <= i < |ticks| ensures FewRivalsAfter(cfg, ticks, trace, cat, k, i) {
      assert FewRivalsAtTrim(cfg, ticks, trace, cat, k, i, n);
    }
    LoopCounts(cfg, ticks, trace, cat, k);
    if k in bag && |Rivals(bag, k)| < n {
      ExportsHeavy(counts, n, bag, k, out);
    }
  }
}
