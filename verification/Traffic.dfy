/** How the contributions of log lines accumulate in a batch and in the shared metrics. */
module Traffic {
  import opened Prelude
  import opened Counting
  import opened ConnectionWindow

  datatype LogEntry = LogEntry(timestamp: int, ip: string)

  /** A complete line together with the cutoff of the pass that read it. */
  datatype Seen = Seen(line: string, cutoff: int)

  datatype Category = Domains | DirectIPs | Outbounds | ASNs | Countries | Cities

  /** How lines are understood: the counter a line increments in each category, and the client whose activity it shows,
      whatever its age. Everything about accumulating lines holds for any reader. */
  datatype Reader = Reader(key: (Category, Seen) -> Option<string>, client: string -> Option<LogEntry>)

  /** The entry, unless the pass already considered it too old. */
  function Recent(entry: Option<LogEntry>, cutoff: int): Option<LogEntry> {
    match entry
    case Some(e) => if e.timestamp < cutoff then None else Some(e)
    case None => None
  }

  function ActiveClient(rd: Reader, seen: Seen): Option<LogEntry> {
    Recent(rd.client(seen.line), seen.cutoff)
  }

  /** A category in which a line counts the same in whatever pass it is read. */
  ghost predicate IgnoresAge(rd: Reader, cat: Category) {
    forall line: string, c: int, d: int :: rd.key(cat, Seen(line, c)) == rd.key(cat, Seen(line, d))
  }

  // ---------- history views ----------

  /** Every increment a history made in one category. */
  function Bag(rd: Reader, cat: Category, history: seq<Seen>): multiset<string> {
    if history == [] then multiset{} else
      Bag(rd, cat, history[..|history| - 1]) + BagOf(rd.key(cat, history[|history| - 1]))
  }

  /** All client entries of a history, in log order. */
  function Clients(rd: Reader, history: seq<Seen>): seq<LogEntry> {
    if history == [] then [] else
      Clients(rd, history[..|history| - 1]) + OneClient(rd.client(history[|history| - 1].line))
  }

  function OneClient(entry: Option<LogEntry>): seq<LogEntry> {
    match entry
    case None => []
    case Some(e) => [e]
  }

  function Stamps(entries: seq<LogEntry>): (r: seq<int>)
    ensures |r| == |entries|
  {
    seq(|entries|, i requires 0 <= i < |entries| => entries[i].timestamp)
  }

  // ---------- accumulated metrics ----------

  datatype CountMaps = CountMaps(
    domains: CountMap, ips: CountMap, outbounds: CountMap, asns: CountMap, countries: CountMap, cities: CountMap)
  {
    function Of(cat: Category): CountMap {
      match cat
      case Domains => domains
      case DirectIPs => ips
      case Outbounds => outbounds
      case ASNs => asns
      case Countries => countries
      case Cities => cities
    }
  }

  function Each(f: Category -> CountMap): (r: CountMaps)
    ensures forall cat :: r.Of(cat) == f(cat)
  {
    CountMaps(f(Domains), f(DirectIPs), f(Outbounds), f(ASNs), f(Countries), f(Cities))
  }

  const NO_COUNTS := CountMaps(map[], map[], map[], map[], map[], map[])

  lemma SameCounts(a: CountMaps, b: CountMaps)
    requires forall cat :: a.Of(cat) == b.Of(cat)
    ensures a == b
  {
    assert a.Of(Domains) == b.Of(Domains) && a.Of(DirectIPs) == b.Of(DirectIPs) && a.Of(Outbounds) == b.Of(Outbounds);
    assert a.Of(ASNs) == b.Of(ASNs) && a.Of(Countries) == b.Of(Countries) && a.Of(Cities) == b.Of(Cities);
  }

  /** A parsed batch, private to its pass. */
  datatype Delta = Delta(counts: CountMaps, users: map<string, int>, stamps: seq<int>)

  /** The shared metrics: counts, last-seen times, and the connection window. */
  datatype Metrics = Metrics(counts: CountMaps, users: map<string, int>, window: seq<int>)

  const EMPTY_DELTA := Delta(NO_COUNTS, map[], [])
  const EMPTY_METRICS := Metrics(NO_COUNTS, map[], [])

  function BumpAll(rd: Reader, counts: CountMaps, seen: Seen): CountMaps {
    Each(cat => Bump(counts.Of(cat), rd.key(cat, seen)))
  }

  function MergeAll(counts: CountMaps, delta: CountMaps): CountMaps {
    Each(cat => Merge(counts.Of(cat), delta.Of(cat)))
  }

  function Note(d: Delta, counts: CountMaps, client: Option<LogEntry>): Delta {
    match client
    case Some(e) => Delta(counts, d.users[e.ip := e.timestamp], d.stamps + [e.timestamp])
    case None => d.(counts := counts)
  }

  lemma MergeAllFields(c: CountMaps, d: CountMaps)
    ensures MergeAll(c, d) == CountMaps(
      Merge(c.domains, d.domains), Merge(c.ips, d.ips), Merge(c.outbounds, d.outbounds),
      Merge(c.asns, d.asns), Merge(c.countries, d.countries), Merge(c.cities, d.cities))
  {}

  lemma BumpAllFields(rd: Reader, c: CountMaps, seen: Seen)
    ensures BumpAll(rd, c, seen) == CountMaps(
      Bump(c.domains, rd.key(Domains, seen)), Bump(c.ips, rd.key(DirectIPs, seen)),
      Bump(c.outbounds, rd.key(Outbounds, seen)), Bump(c.asns, rd.key(ASNs, seen)),
      Bump(c.countries, rd.key(Countries, seen)), Bump(c.cities, rd.key(Cities, seen)))
  {}

  /** processLine on a batch. */
  function ApplyLine(rd: Reader, d: Delta, seen: Seen): Delta {
    Note(d, BumpAll(rd, d.counts, seen), ActiveClient(rd, seen))
  }

  function DeltaOf(rd: Reader, batch: seq<Seen>): Delta {
    if batch == [] then EMPTY_DELTA else
      ApplyLine(rd, DeltaOf(rd, batch[..|batch| - 1]), batch[|batch| - 1])
  }

  /** mergeDelta on the shared metrics. */
  function MergeDelta(m: Metrics, d: Delta, cap: nat): Metrics
    requires 0 < cap
  {
    Metrics(MergeAll(m.counts, d.counts), m.users + d.users, PushAll(m.window, d.stamps, cap))
  }

  // ---------- batching is invisible ----------

  function Record(m: Metrics, counts: CountMaps, client: Option<LogEntry>, cap: nat): Metrics
    requires 0 < cap
  {
    match client
    case Some(e) => Metrics(counts, m.users[e.ip := e.timestamp], Push(m.window, e.timestamp, cap))
    case None => m.(counts := counts)
  }

  /** The metrics as if each line were recorded under the lock by itself. */
  function AbsorbLine(rd: Reader, m: Metrics, seen: Seen, cap: nat): Metrics
    requires 0 < cap
  {
    Record(m, BumpAll(rd, m.counts, seen), ActiveClient(rd, seen), cap)
  }

  function Absorb(rd: Reader, m: Metrics, batch: seq<Seen>, cap: nat): Metrics
    requires 0 < cap
  {
    if batch == [] then m else
      AbsorbLine(rd, Absorb(rd, m, batch[..|batch| - 1], cap), batch[|batch| - 1], cap)
  }

  lemma MergeBumpAll(rd: Reader, counts: CountMaps, delta: CountMaps, seen: Seen)
    ensures MergeAll(counts, BumpAll(rd, delta, seen)) == BumpAll(rd, MergeAll(counts, delta), seen)
  {
    forall cat ensures MergeAll(counts, BumpAll(rd, delta, seen)).Of(cat)
                    == BumpAll(rd, MergeAll(counts, delta), seen).Of(cat) {
      MergeBump(counts.Of(cat), delta.Of(cat), rd.key(cat, seen));
    }
    SameCounts(MergeAll(counts, BumpAll(rd, delta, seen)), BumpAll(rd, MergeAll(counts, delta), seen));
  }

  lemma PushOneMore(window: seq<int>, stamps: seq<int>, ts: int, cap: nat)
    requires 0 < cap
    ensures PushAll(window, stamps + [ts], cap) == Push(PushAll(window, stamps, cap), ts, cap)
  {
    assert (stamps + [ts])[..|stamps|] == stamps;
  }

  lemma MergeNoted(m: Metrics, d: Delta, counts: CountMaps, client: Option<LogEntry>, cap: nat)
    requires 0 < cap
    ensures MergeDelta(m, Note(d, counts, client), cap)
         == Record(MergeDelta(m, d, cap), MergeAll(m.counts, counts), client, cap)
  {
    match client {
      case Some(e) =>
        assert m.users + d.users[e.ip := e.timestamp] == (m.users + d.users)[e.ip := e.timestamp];
        PushOneMore(m.window, d.stamps, e.timestamp, cap);
      case None =>
    }
  }

  lemma MergeOneMoreLine(rd: Reader, m: Metrics, d: Delta, seen: Seen, cap: nat)
    requires 0 < cap
    ensures MergeDelta(m, ApplyLine(rd, d, seen), cap) == AbsorbLine(rd, MergeDelta(m, d, cap), seen, cap)
  {
    MergeBumpAll(rd, m.counts, d.counts, seen);
    MergeNoted(m, d, BumpAll(rd, d.counts, seen), ActiveClient(rd, seen), cap);
  }

  /** Folding a private batch and merging it once equals recording its lines one by one. */
  lemma {:induction false} BatchingIsInvisible(rd: Reader, m: Metrics, batch: seq<Seen>, cap: nat)
    requires 0 < cap
    ensures MergeDelta(m, DeltaOf(rd, batch), cap) == Absorb(rd, m, batch, cap)
  {
    if batch == [] {
      forall cat ensures Merge(m.counts.Of(cat), map[]) == m.counts.Of(cat) {
        MergeNothing(m.counts.Of(cat));
      }
      assert forall cat :: NO_COUNTS.Of(cat) == map[];
      SameCounts(MergeAll(m.counts, NO_COUNTS), m.counts);
      assert m.users + map[] == m.users;
    } else {
      var n := |batch| - 1;
      BatchingIsInvisible(rd, m, batch[..n], cap);
      MergeOneMoreLine(rd, m, DeltaOf(rd, batch[..n]), batch[n], cap);
    }
  }
}
