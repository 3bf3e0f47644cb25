/** What a scrape may rely on, for every interleaving of writer, parser and scrapers. */
module LogTheorems {
  import opened Prelude
  import opened Counting
  import opened LogText
  import opened Traffic
  import opened TopN
  import opened LogSystem

  // ---------- one category at a time ----------

  function Tally(rd: Reader, cat: Category, counts: CountMap, batch: seq<Seen>): CountMap {
    if batch == [] then counts else
      Bump(Tally(rd, cat, counts, batch[..|batch| - 1]), rd.key(cat, batch[|batch| - 1]))
  }

  lemma {:induction false} AbsorbIsTally(rd: Reader, m: Metrics, batch: seq<Seen>, cap: nat, cat: Category)
    requires 0 < cap
    ensures Absorb(rd, m, batch, cap).counts.Of(cat) == Tally(rd, cat, m.counts.Of(cat), batch)
  {
    if batch != [] {
      AbsorbIsTally(rd, m, batch[..|batch| - 1], cap, cat);
    }
  }

  lemma BagOneMore(rd: Reader, cat: Category, history: seq<Seen>, batch: seq<Seen>)
    requires batch != []
    ensures Bag(rd, cat, history + batch)
         == Bag(rd, cat, history + batch[..|batch| - 1]) + BagOf(rd.key(cat, batch[|batch| - 1]))
  {
    assert (history + batch)[..|history + batch| - 1] == history + batch[..|batch| - 1];
  }

  /** What is known of one category's tracked counts against everything that was counted. */
  ghost predicate Sound(counts: CountMap, bag: multiset<string>, discarded: int) {
    Understates(counts, bag) && Total(counts) + discarded == |bag|
  }

  /** What more increments leave true of a count map and of the bag it stands for. */
  ghost predicate Follows(counts: CountMap, bag: multiset<string>, after: CountMap, bag': multiset<string>,
                          discarded: int, k: string) {
    && Sound(after, bag', discarded)
    && (Get(counts, k) == bag[k] ==> Get(after, k) == bag'[k])
  }

  lemma BumpKeeps(counts: CountMap, bag: multiset<string>, key: Option<string>, discarded: int, k: string)
    requires Sound(counts, bag, discarded)
    ensures Follows(counts, bag, Bump(counts, key), bag + BagOf(key), discarded, k)
  {
    TotalBump(counts, key);
  }

  lemma {:induction false} TallyKeeps(rd: Reader, cat: Category, counts: CountMap, history: seq<Seen>,
                                      batch: seq<Seen>,
                                      discarded: int, k: string)
    requires Sound(counts, Bag(rd, cat, history), discarded)
    ensures Follows(counts, Bag(rd, cat, history),
                    Tally(rd, cat, counts, batch), Bag(rd, cat, history + batch), discarded, k)
  {
    if batch == [] {
      assert history + batch == history;
    } else {
      var n := |batch| - 1;
      TallyKeeps(rd, cat, counts, history, batch[..n], discarded, k);
      BagOneMore(rd, cat, history, batch);
      BumpKeeps(Tally(rd, cat, counts, batch[..n]), Bag(rd, cat, history + batch[..n]),
                rd.key(cat, batch[n]), discarded, k);
    }
  }

  lemma MergeKeeps(cfg: Config, s: System, t: System, cat: Category, discarded: int, k: string)
    requires Effect(cfg, s, Merge, t) && Sound(s.metrics.counts.Of(cat), Bag(cfg.reader, cat, s.history), discarded)
    ensures Follows(s.metrics.counts.Of(cat), Bag(cfg.reader, cat, s.history),
                    t.metrics.counts.Of(cat), Bag(cfg.reader, cat, t.history), discarded, k)
  {
    AbsorbIsTally(cfg.reader, s.metrics, s.control.batch, cfg.cap, cat);
    TallyKeeps(cfg.reader, cat, s.metrics.counts.Of(cat), s.history, s.control.batch, discarded, k);
  }

  // ---------- conservation and understatement ----------

  /** The counts thrown away by the trims among the first i events. */
  ghost function Discarded(states: seq<System>, events: seq<Event>, cat: Category, i: nat): int
    requires i <= |events| < |states|
  {
    if i == 0 then 0 else
      Discarded(states, events, cat, i - 1) +
      (if !events[i - 1].Trim? then 0 else
         Total(states[i - 1].metrics.counts.Of(cat) - events[i - 1].after.Of(cat).Keys))
  }

  lemma {:induction false} TotalSplits(counts: CountMap, kept: CountMap)
    requires kept.Keys <= counts.Keys && forall k | k in kept :: kept[k] == counts[k]
    ensures Total(counts) == Total(kept) + Total(counts - kept.Keys)
    decreases kept.Keys
  {
    if kept.Keys == {} {
      assert kept == map[];
      assert counts - kept.Keys == counts;
    } else {
      var k :| k in kept.Keys;
      var counts', kept' := counts - {k}, kept - {k};
      assert kept'.Keys == kept.Keys - {k};
      TotalSplits(counts', kept');
      MoveKey(counts, kept, k);
    }
  }

  lemma MoveKey(counts: CountMap, kept: CountMap, k: string)
    requires k in kept && k in counts && kept[k] == counts[k]
    ensures Total(counts) == counts[k] + Total(counts - {k})
    ensures Total(kept) == counts[k] + Total(kept - {k})
    ensures counts - {k} - (kept - {k}).Keys == counts - kept.Keys
  {
    TotalWithout(kept, k);
    TotalWithout(counts, k);
    assert (kept - {k}).Keys == kept.Keys - {k};
  }

  /** Every trim among the first i events found the map within its limit, and so removed nothing. */
  ghost predicate NothingCut(states: seq<System>, events: seq<Event>, cat: Category, i: nat)
    requires |states| == |events| + 1
  {
    forall j | 0 <= j < i && j < |events| :: CutsNothing(states[j], events[j], cat)
  }

  predicate CutsNothing(s: System, e: Event, cat: Category) {
    e.Trim? ==> |s.metrics.counts.Of(cat)| <= Limit(cat)
  }

  lemma {:induction false} CountsSound(cfg: Config, states: seq<System>, events: seq<Event>, cat: Category, i: nat)
    requires IsRun(cfg, states, events) && i < |states|
    ensures Sound(states[i].metrics.counts.Of(cat), Bag(cfg.reader, cat, states[i].history),
                  Discarded(states, events, cat, i))
  {
    if i > 0 {
      CountsSound(cfg, states, events, cat, i - 1);
      StepEffect(cfg, states, events, i - 1);
      SoundStep(cfg, states[i - 1], events[i - 1], states[i], cat, Discarded(states, events, cat, i - 1));
    } else {
      assert NO_COUNTS.Of(cat) == map[];
    }
  }

  lemma SoundStep(cfg: Config, s: System, e: Event, t: System, cat: Category, discarded: int)
    requires Effect(cfg, s, e, t) && Sound(s.metrics.counts.Of(cat), Bag(cfg.reader, cat, s.history), discarded)
    ensures Sound(t.metrics.counts.Of(cat), Bag(cfg.reader, cat, t.history),
                  discarded + if e.Trim? then Total(s.metrics.counts.Of(cat) - e.after.Of(cat).Keys) else 0)
  {
    if e.Merge? {
      MergeKeeps(cfg, s, t, cat, discarded, "");
    } else if e.Trim? {
      TotalSplits(s.metrics.counts.Of(cat), e.after.Of(cat));
    }
  }

  /** A top-n cut of positive counts removes something exactly if there are more than n of them. */
  lemma CutRemoves(counts: CountMap, n: nat, kept: CountMap)
    requires IsTopN(counts, n, kept) && forall k | k in counts :: 0 < counts[k]
    ensures 0 <= Total(counts - kept.Keys) && (Total(counts - kept.Keys) == 0 <==> |counts| <= n)
  {
    var gone := counts - kept.Keys;
    TotalPositive(gone);
    assert |kept| == |kept.Keys| && |counts| == |counts.Keys|;
    if |counts| <= n {
      SubsetOfSameSize(kept.Keys, counts.Keys);
      assert gone.Keys == {};
    } else {
      assert kept.Keys != counts.Keys;
      var k :| k in counts.Keys && k !in kept.Keys;
      assert k in gone;
    }
  }

  lemma {:induction false} DiscardedIff(cfg: Config, states: seq<System>, events: seq<Event>, cat: Category, i: nat)
    requires IsRun(cfg, states, events) && i < |states|
    ensures 0 <= Discarded(states, events, cat, i)
    ensures Discarded(states, events, cat, i) == 0 <==> NothingCut(states, events, cat, i)
  {
    if i > 0 {
      var s, e := states[i - 1], events[i - 1];
      DiscardedIff(cfg, states, events, cat, i - 1);
      CountsSound(cfg, states, events, cat, i - 1);
      StepEffect(cfg, states, events, i - 1);
      NothingCutOneMore(states, events, cat, i);
      if e.Trim? {
        CutRemoves(s.metrics.counts.Of(cat), Limit(cat), e.after.Of(cat));
      }
    }
  }

  lemma NothingCutOneMore(states: seq<System>, events: seq<Event>, cat: Category, i: nat)
    requires |states| == |events| + 1 && 0 < i <= |events|
    ensures NothingCut(states, events, cat, i)
       <==> NothingCut(states, events, cat, i - 1) && CutsNothing(states[i - 1], events[i - 1], cat)
  {}

  /** In every run: a tracked count is positive and never overstated, tracked plus discarded is all that happened, and
      the counts are the whole histogram exactly as long as no trim has found more entries than it keeps. */
  lemma CountsConserved(cfg: Config, states: seq<System>, events: seq<Event>, cat: Category, i: nat)
    requires IsRun(cfg, states, events) && i < |states|
    ensures var s := states[i];
      && Sound(s.metrics.counts.Of(cat), Bag(cfg.reader, cat, s.history), Discarded(states, events, cat, i))
      && (NothingCut(states, events, cat, i) <==> Tallies(s.metrics.counts.Of(cat), Bag(cfg.reader, cat, s.history)))
  {
    CountsSound(cfg, states, events, cat, i);
    DiscardedIff(cfg, states, events, cat, i);
    TotalIsAllIff(states[i].metrics.counts.Of(cat), Bag(cfg.reader, cat, states[i].history));
  }

  // ---------- heavy hitters ----------

  /** Before every trim that could hurt it, key k had fewer rivals than there are places. */
  ghost predicate AlwaysFewRivals(cfg: Config, states: seq<System>, events: seq<Event>, cat: Category, k: string,
                                  i: nat)
    requires |states| == |events| + 1
  {
    forall j | 0 <= j < i && j < |events| :: FewRivalsAt(cfg, states[j], events[j], cat, k)
  }

  /** If this is a trim, k has fewer rivals than there are places. */
  ghost predicate FewRivalsAt(cfg: Config, s: System, e: Event, cat: Category, k: string) {
    var bag := Bag(cfg.reader, cat, s.history);
    e.Trim? && k in bag ==> |Rivals(bag, k)| < Limit(cat)
  }

  /** A heavy hitter is counted exactly, whatever the trims do with ties. */
  lemma {:induction false} HeavyHittersExact(cfg: Config, states: seq<System>, events: seq<Event>, cat: Category,
                                             k: string, i: nat)
    requires IsRun(cfg, states, events) && i < |states|
    requires AlwaysFewRivals(cfg, states, events, cat, k, i)
    ensures Get(states[i].metrics.counts.Of(cat), k) == Bag(cfg.reader, cat, states[i].history)[k]
  {
    if i > 0 {
      HeavyHittersExact(cfg, states, events, cat, k, i - 1);
      CountsSound(cfg, states, events, cat, i - 1);
      StepEffect(cfg, states, events, i - 1);
      assert FewRivalsAt(cfg, states[i - 1], events[i - 1], cat, k);
      HeavyHitterStep(cfg, states[i - 1], events[i - 1], states[i], cat, k, Discarded(states, events, cat, i - 1));
    } else {
      assert NO_COUNTS.Of(cat) == map[];
    }
  }

  lemma HeavyHitterStep(cfg: Config, s: System, e: Event, t: System, cat: Category, k: string, discarded: int)
    requires Effect(cfg, s, e, t) && Sound(s.metrics.counts.Of(cat), Bag(cfg.reader, cat, s.history), discarded)
    requires Get(s.metrics.counts.Of(cat), k) == Bag(cfg.reader, cat, s.history)[k]
    requires FewRivalsAt(cfg, s, e, cat, k)
    ensures Get(t.metrics.counts.Of(cat), k) == Bag(cfg.reader, cat, t.history)[k]
  {
    if e.Merge? {
      MergeKeeps(cfg, s, t, cat, discarded, k);
    } else if e.Trim? {
      var counts, bag := s.metrics.counts.Of(cat), Bag(cfg.reader, cat, s.history);
      if k in bag {
        FewRivalsSurvive(counts, Limit(cat), e.after.Of(cat), bag, k);
      }
    }
  }

  /** ... and while it has few rivals at the scrape too, the exporter publishes that exact count. */
  lemma HeavyHittersExported(cfg: Config, states: seq<System>, events: seq<Event>, cat: Category, k: string, i: nat,
                             out: seq<CountEntry>)
    requires IsRun(cfg, states, events) && i < |states|
    requires AlwaysFewRivals(cfg, states, events, cat, k, i)
    requires var bag := Bag(cfg.reader, cat, states[i].history); k in bag && |Rivals(bag, k)| < Limit(cat)
    requires IsExport(states[i].metrics.counts.Of(cat), Limit(cat), out)
    ensures CountEntry(k, Bag(cfg.reader, cat, states[i].history)[k]) in out
  {
    var counts, bag := states[i].metrics.counts.Of(cat), Bag(cfg.reader, cat, states[i].history);
    HeavyHittersExact(cfg, states, events, cat, k, i);
    CountsSound(cfg, states, events, cat, i);
    ExportsHeavy(counts, Limit(cat), bag, k, out);
  }

  lemma ExportsHeavy(counts: CountMap, n: nat, bag: multiset<string>, k: string, out: seq<CountEntry>)
    requires Understates(counts, bag) && IsExport(counts, n, out)
    requires k in bag && Get(counts, k) == bag[k] && |Rivals(bag, k)| < n
    ensures CountEntry(k, bag[k]) in out
  {
    var keys := DistinctKeys(out);
    var r := map j | j in keys && j in counts :: counts[j];
    assert r.Keys == keys;
    FewRivalsSurvive(counts, n, r, bag, k);
    var j :| 0 <= j < |out| && out[j].key == k;
    assert out[j] == CountEntry(k, bag[k]);
  }

  // ---------- while nothing is cut: exact histograms, batch by batch ----------

  /** The lines merged but not yet covered by the saved position: none, or one whole batch. */
  function Uncommitted(s: System): seq<Seen> {
    if s.control.Merged? then s.control.batch else []
  }

  /** Whatever a getter copies, and whenever: whole batches only, at most one ahead of the saved position. */
  lemma BatchesAreAtomic(cfg: Config, states: seq<System>, events: seq<Event>, cat: Category, i: nat)
    requires IsRun(cfg, states, events) && i < |states|
    requires NothingCut(states, events, cat, i) && AllRecognisable(states, events, i)
    ensures var s := states[i];
      && ExactlyOnce(s)
      && Tallies(s.metrics.counts.Of(cat), Bag(cfg.reader, cat, s.history))
      && Lines(s.history) == ConsumedLines(s.files, s.merged[s.gen := s.lastPos]) + Lines(Uncommitted(s))
  {
    var s := states[i];
    ExactlyOnceThroughout(cfg, states, events, i);
    CountsConserved(cfg, states, events, cat, i);
    if s.control.Merged? {
      var saved := s.merged[s.gen := s.lastPos];
      AdvanceConsumes(s.files, saved, s.gen, s.control.newPos);
      assert saved[s.gen := s.control.newPos] == s.merged;
    } else {
      assert s.merged[s.gen := s.lastPos] == s.merged;
    }
  }

  lemma LastLine(a: seq<Seen>, b: seq<Seen>)
    requires Lines(a) == Lines(b) && a != []
    ensures |a| == |b| && a[|a| - 1].line == b[|a| - 1].line
    ensures Lines(a[..|a| - 1]) == Lines(b[..|a| - 1])
  {
    var n := |a| - 1;
    assert |a| == |Lines(a)| == |b|;
    assert Lines(a)[n] == Lines(b)[n];
    assert Lines(a[..n]) == Lines(a)[..n] && Lines(b[..n]) == Lines(b)[..n];
  }

  /** A history's keys depend only on its lines, in the categories that ignore age. */
  lemma {:induction false} BagOfLines(rd: Reader, cat: Category, a: seq<Seen>, b: seq<Seen>)
    requires IgnoresAge(rd, cat)
    requires Lines(a) == Lines(b)
    ensures Bag(rd, cat, a) == Bag(rd, cat, b)
  {
    if a == [] {
      assert |b| == |Lines(b)| == |Lines(a)|;
    } else {
      var n := |a| - 1;
      LastLine(a, b);
      assert a[n] == Seen(a[n].line, a[n].cutoff) && b[n] == Seen(b[n].line, b[n].cutoff);
      BagOfLines(rd, cat, a[..n], b[..n]);
    }
  }

  /** End to end: however an append-only file arrived and however the passes cut it, between passes the counts are the
      histogram of the complete lines before the saved position, and of all complete lines once the parser has
      caught up. */
  lemma TailedFileCountedOnce(cfg: Config, states: seq<System>, events: seq<Event>, cat: Category, i: nat)
    requires IsRun(cfg, states, events) && i < |states| && states[i].control.Idle?
    requires NothingCut(states, events, cat, i) && NeverReplaced(events, i)
    requires IgnoresAge(cfg.reader, cat)
    ensures |states[i].files| == 1
    ensures var content, p := states[i].files[0].content, states[i].lastPos;
      && IsBoundary(content, p)
      && Tallies(states[i].metrics.counts.Of(cat), Bag(cfg.reader, cat, BatchOf(content[..p], 0)))
      && ('\n' !in content[p..] ==>
            Tallies(states[i].metrics.counts.Of(cat), Bag(cfg.reader, cat, BatchOf(content, 0))))
  {
    AlwaysOneFile(cfg, states, events, i);
    ExactlyOnceThroughout(cfg, states, events, i);
    CountsConserved(cfg, states, events, cat, i);
    OneFileCounted(cfg.reader, states[i], cat);
  }

  /** The same as a matter of one state. */
  lemma OneFileCounted(rd: Reader, s: System, cat: Category)
    requires |s.files| == 1 && s.gen == 0 && s.control.Idle? && ExactlyOnce(s)
    requires Tallies(s.metrics.counts.Of(cat), Bag(rd, cat, s.history))
    requires IgnoresAge(rd, cat)
    ensures var content, p := s.files[0].content, s.lastPos;
      && IsBoundary(content, p)
      && Tallies(s.metrics.counts.Of(cat), Bag(rd, cat, BatchOf(content[..p], 0)))
      && ('\n' !in content[p..] ==> Tallies(s.metrics.counts.Of(cat), Bag(rd, cat, BatchOf(content, 0))))
  {
    var content, p := s.files[0].content, s.lastPos;
    assert s.files == [s.files[0]] && s.merged == [p];
    OneFilesLines(s.files[0], p);
    LinesOfMark(TrimAll(RawLines(content[..p])), 0);
    BagOfLines(rd, cat, s.history, BatchOf(content[..p], 0));
    if '\n' !in content[p..] {
      AllLinesBefore(content, p);
    }
  }

  lemma AllLinesBefore(content: string, p: nat)
    requires IsBoundary(content, p) && '\n' !in content[p..]
    ensures RawLines(content) == RawLines(content[..p])
  {
    LinesSplit(content, p);
    NoNewline(content[p..]);
  }

  /** No rotation or truncation among the first i events. */
  predicate NeverReplaced(events: seq<Event>, i: nat) {
    forall j | 0 <= j < i && j < |events| :: !events[j].Rotate? && !events[j].Truncate?
  }

  lemma AlwaysOneFile(cfg: Config, states: seq<System>, events: seq<Event>, i: nat)
    requires IsRun(cfg, states, events) && i < |states| && NeverReplaced(events, i)
    ensures AllRecognisable(states, events, i)
    ensures |states[i].files| == 1 && states[i].gen == 0
  {
    forall j | 0 <= j <= i ensures |states[j].files| == 1 && states[j].gen == 0 {
      OneFile(cfg, states, events, j);
    }
  }

  lemma OneFilesLines(f: File, p: nat)
    requires p <= |f.content|
    ensures ConsumedLines([f], [p]) == LinesUpTo(f, p)
  {
    FlattenOne(LinesUpTo(f, p));
    assert LinesPerFile([f], [p]) == [LinesUpTo(f, p)];
  }

  lemma {:induction false} OneFile(cfg: Config, states: seq<System>, events: seq<Event>, i: nat)
    requires IsRun(cfg, states, events) && i < |states| && NeverReplaced(events, i)
    ensures |states[i].files| == 1 && states[i].gen == 0
  {
    if i > 0 {
      OneFile(cfg, states, events, i - 1);
      assert IsStep(cfg, states, events, i - 1);
    }
  }

  /** What Detectable is worth: a replacement file is read whole exactly when its identity or its size betrays it,
      or there was nothing to skip, or there is nothing to read yet. */
  lemma ReplacementReadWholeIff(lastInode: nat, lastPos: nat, f: File)
    ensures var start := StartPosition(lastInode, lastPos, f.inode, |f.content|);
      (start <= |f.content| && RawLines(f.content[start..]) == RawLines(f.content))
      <==>
      || (lastInode != 0 && (f.inode != lastInode || lastPos > |f.content|))
      || lastPos == 0
      || (lastPos <= |f.content| && '\n' !in f.content)
  {
    var start := StartPosition(lastInode, lastPos, f.inode, |f.content|);
    if start <= |f.content| {
      SuffixHasAllLinesIff(f.content, start);
    }
  }
}
