/** The log parser's objects: shared metrics, private batch, and the methods that update them in place. */
module Parser {
  import opened Prelude
  import opened Counting
  import opened ConnectionWindow
  import opened LogText
  import opened Traffic
  import opened AccessLine
  import opened TopN
  import opened LogSystem
  import Ring

  /** metricsDelta: a batch being parsed without the metrics lock. */
  class MetricsDelta {
    var domainCounts: CountMap
    var ipCounts: CountMap
    var outboundCounts: CountMap
    var asnCounts: CountMap
    var countryCounts: CountMap
    var cityCounts: CountMap
    var uniqueIPs: map<string, int>
    var timestamps: seq<int>

    constructor ()
      ensures View() == EMPTY_DELTA
    {
      domainCounts, ipCounts, outboundCounts := map[], map[], map[];
      asnCounts, countryCounts, cityCounts := map[], map[], map[];
      uniqueIPs, timestamps := map[], [];
    }

    ghost function View(): Delta
      reads this
    {
      Delta(CountMaps(domainCounts, ipCounts, outboundCounts, asnCounts, countryCounts, cityCounts),
            uniqueIPs, timestamps)
    }
  }

  /** MetricsData: what the parser goroutine and the scrapers share. */
  class MetricsData {
    var uniqueIPs: map<string, int>
    var domainCounts: CountMap
    var ipCounts: CountMap
    var outboundCounts: CountMap
    var asnCounts: CountMap
    var countryCounts: CountMap
    var cityCounts: CountMap

    var connectionTimestamps: seq<int>
    var connectionsBufHead: int
    var connectionsBufSize: int
    const connectionsBufCap: Capacity

    var lastPos: nat
    var lastInode: nat

    constructor (bufferCap: Capacity)
      ensures Valid() && View() == EMPTY_METRICS
      ensures lastPos == 0 && lastInode == 0 && connectionsBufCap == bufferCap
    {
      uniqueIPs := map[];
      domainCounts, ipCounts, outboundCounts := map[], map[], map[];
      asnCounts, countryCounts, cityCounts := map[], map[], map[];
      connectionTimestamps, connectionsBufHead, connectionsBufSize, connectionsBufCap := [], 0, 0, bufferCap;
      lastPos, lastInode := 0, 0;
    }

    ghost predicate Valid()
      reads this
    {
      Ring.RingValid(connectionTimestamps, connectionsBufHead, connectionsBufSize, connectionsBufCap)
    }

    ghost function Counts(): CountMaps
      reads this
    {
      CountMaps(domainCounts, ipCounts, outboundCounts, asnCounts, countryCounts, cityCounts)
    }

    ghost function Window(): seq<int>
      requires Valid()
      reads this
    {
      Ring.Window(connectionTimestamps, connectionsBufHead, connectionsBufSize, connectionsBufCap)
    }

    ghost function View(): Metrics
      requires Valid()
      reads this
    {
      Metrics(Counts(), uniqueIPs, Window())
    }

    method AddConnectionTimestamp(ts: int)
      requires Valid()
      modifies `connectionTimestamps, `connectionsBufHead, `connectionsBufSize
      ensures Valid() && Window() == Push(old(Window()), ts, connectionsBufCap)
    {
      Ring.WriteIsPush(connectionTimestamps, connectionsBufHead, connectionsBufSize, connectionsBufCap, ts);
      Ring.NextIsMod(connectionsBufHead, connectionsBufCap);
      if connectionsBufHead == |connectionTimestamps| && |connectionTimestamps| < connectionsBufCap {
        connectionTimestamps := connectionTimestamps + [ts];
      } else {
        connectionTimestamps := connectionTimestamps[connectionsBufHead := ts];
      }
      connectionsBufHead := Ring.GoMod(connectionsBufHead + 1, connectionsBufCap);
      if connectionsBufSize < connectionsBufCap {
        connectionsBufSize := connectionsBufSize + 1;
      }
    }

    /** mergeDelta; the caller holds the metrics lock. */
    method MergeBatch(d: MetricsDelta)
      requires Valid()
      modifies this
      ensures Valid() && View() == MergeDelta(old(View()), d.View(), connectionsBufCap)
      ensures lastPos == old(lastPos) && lastInode == old(lastInode)
    {
      ghost var delta := d.View();
      MergeCounts(d);
      MergeUsers(d.uniqueIPs);
      MergeTimestamps(d.timestamps);
      assert d.View() == delta;
    }

    method MergeCounts(d: MetricsDelta)
      modifies `domainCounts, `ipCounts, `outboundCounts, `asnCounts, `countryCounts, `cityCounts
      ensures Counts() == MergeAll(old(Counts()), d.View().counts)
    {
      var domains := MergeInto(domainCounts, d.domainCounts);
      var ips := MergeInto(ipCounts, d.ipCounts);
      var outbounds := MergeInto(outboundCounts, d.outboundCounts);
      var asns := MergeInto(asnCounts, d.asnCounts);
      var countries := MergeInto(countryCounts, d.countryCounts);
      var cities := MergeInto(cityCounts, d.cityCounts);
      domainCounts, ipCounts, outboundCounts := domains, ips, outbounds;
      asnCounts, countryCounts, cityCounts := asns, countries, cities;
      MergeAllFields(old(Counts()), d.View().counts);
    }

    method MergeUsers(seen: map<string, int>)
      modifies `uniqueIPs
      ensures uniqueIPs == old(uniqueIPs) + seen
    {
      var rest := seen.Keys;
      while rest != {}
        invariant rest <= seen.Keys
        invariant uniqueIPs.Keys == old(uniqueIPs).Keys + (seen.Keys - rest)
        invariant forall ip | ip in seen && ip !in rest :: uniqueIPs[ip] == seen[ip]
        invariant forall ip | ip in old(uniqueIPs) && (ip !in seen || ip in rest) :: uniqueIPs[ip] == old(uniqueIPs)[ip]
        decreases rest
      {
        var ip :| ip in rest;
        uniqueIPs := uniqueIPs[ip := seen[ip]];
        rest := rest - {ip};
      }
      assert uniqueIPs.Keys == old(uniqueIPs).Keys + seen.Keys;
    }

    method MergeTimestamps(stamps: seq<int>)
      requires Valid()
      modifies `connectionTimestamps, `connectionsBufHead, `connectionsBufSize
      ensures Valid() && Window() == PushAll(old(Window()), stamps, connectionsBufCap)
    {
      for i := 0 to |stamps|
        invariant Valid() && Window() == PushAll(old(Window()), stamps[..i], connectionsBufCap)
      {
        AddConnectionTimestamp(stamps[i]);
        PushOneMore(old(Window()), stamps[..i], stamps[i], connectionsBufCap);
        assert stamps[..i + 1] == stamps[..i] + [stamps[i]];
      }
      assert stamps[..|stamps|] == stamps;
    }

    /** One scrape: the active users and the in-window connections, forgetting what has expired. */
    method GetMetrics(cutoff: int) returns (users: nat, connections: nat)
      requires Valid()
      modifies `uniqueIPs, `connectionsBufSize
      ensures Valid() && View() == Expired(old(View()), cutoff)
      ensures users == |View().users| && connections == |View().window|
    {
      users := ExpireUsers(cutoff);
      connections := ExpireConnections(cutoff);
    }

    method ExpireUsers(cutoff: int) returns (activeIPs: nat)
      modifies `uniqueIPs
      ensures uniqueIPs == Active(old(uniqueIPs), cutoff) && activeIPs == |uniqueIPs|
    {
      activeIPs := 0;
      var expiredIPs: set<string> := {};
      var rest := uniqueIPs.Keys;
      while rest != {}
        invariant rest <= uniqueIPs.Keys
        invariant expiredIPs == set ip | ip in uniqueIPs && ip !in rest && uniqueIPs[ip] <= cutoff
        invariant activeIPs + |expiredIPs| + |rest| == |uniqueIPs|
        decreases rest
      {
        var ip :| ip in rest;
        if uniqueIPs[ip] > cutoff {
          activeIPs := activeIPs + 1;
        } else {
          expiredIPs := expiredIPs + {ip};
        }
        rest := rest - {ip};
      }
      while expiredIPs != {}
        invariant expiredIPs <= uniqueIPs.Keys && activeIPs + |expiredIPs| == |uniqueIPs|
        invariant Active(uniqueIPs, cutoff) == Active(old(uniqueIPs), cutoff)
        invariant forall ip | ip in uniqueIPs :: uniqueIPs[ip] <= cutoff <==> ip in expiredIPs
        decreases expiredIPs
      {
        var ip :| ip in expiredIPs;
        uniqueIPs := uniqueIPs - {ip};
        expiredIPs := expiredIPs - {ip};
      }
      assert Active(uniqueIPs, cutoff) == uniqueIPs;
    }

    method Tail() returns (tail: int)
      requires Valid() && 0 < connectionsBufSize
      ensures 0 <= tail < |connectionTimestamps| && connectionTimestamps[tail] == Window()[0]
    {
      Ring.TailIsOldest(connectionsBufHead, connectionsBufSize, connectionsBufCap);
      Ring.SlotInRange(connectionTimestamps, connectionsBufHead, connectionsBufSize, connectionsBufCap, 0);
      tail := Ring.GoMod(
        Ring.GoMod(connectionsBufHead - connectionsBufSize, connectionsBufCap) + connectionsBufCap, connectionsBufCap);
    }

    method ExpireConnections(cutoff: int) returns (connections: nat)
      requires Valid()
      modifies `connectionsBufSize
      ensures Valid() && Window() == Expire(old(Window()), cutoff) && connections == |Window()|
    {
      ghost var target := Expire(Window(), cutoff);
      while connectionsBufSize > 0
        invariant Valid() && Expire(Window(), cutoff) == target
        decreases connectionsBufSize
      {
        var tail := Tail();
        ExpireOne(Window(), cutoff);
        if connectionTimestamps[tail] > cutoff {
          break;
        }
        Ring.ForgetIsTail(connectionTimestamps, connectionsBufHead, connectionsBufSize, connectionsBufCap);
        connectionsBufSize := connectionsBufSize - 1;
      }
      connections := connectionsBufSize;
    }

    /** One keepTopN cut per map. */
    method TrimToTopN()
      modifies `domainCounts, `ipCounts, `outboundCounts, `asnCounts, `countryCounts, `cityCounts
      ensures AreCut(old(Counts()), Counts())
    {
      var domains := KeepTopN(domainCounts, Limit(Domains));
      var ips := KeepTopN(ipCounts, Limit(DirectIPs));
      var outbounds := KeepTopN(outboundCounts, Limit(Outbounds));
      var asns := KeepTopN(asnCounts, Limit(ASNs));
      var countries := KeepTopN(countryCounts, Limit(Countries));
      var cities := KeepTopN(cityCounts, Limit(Cities));
      domainCounts, ipCounts, outboundCounts := domains, ips, outbounds;
      asnCounts, countryCounts, cityCounts := asns, countries, cities;
    }

    ghost predicate WithinThresholds()
      reads this
    {
      Within(Counts())
    }

    /** Trim only when some map has outgrown its threshold; either way none has when this returns. */
    method CheckEmergencyCleanup()
      modifies `domainCounts, `ipCounts, `outboundCounts, `asnCounts, `countryCounts, `cityCounts
      ensures WithinThresholds()
      ensures old(WithinThresholds()) ==> Counts() == old(Counts())
      ensures old(WithinThresholds()) <==>
        && |old(domainCounts)| <= 100 && |old(ipCounts)| <= 40 && |old(outboundCounts)| <= 20
        && |old(asnCounts)| <= 100 && |old(countryCounts)| <= 100 && |old(cityCounts)| <= 100
      ensures !old(WithinThresholds()) ==> AreCut(old(Counts()), Counts())
    {
      var needCleanup := |domainCounts| > Threshold(Domains) || |ipCounts| > Threshold(DirectIPs)
        || |outboundCounts| > Threshold(Outbounds) || |asnCounts| > Threshold(ASNs)
        || |countryCounts| > Threshold(Countries) || |cityCounts| > Threshold(Cities);
      assert needCleanup <==> !WithinThresholds() by {
        assert Counts().Of(Domains) == domainCounts && Counts().Of(DirectIPs) == ipCounts;
        assert Counts().Of(Outbounds) == outboundCounts && Counts().Of(ASNs) == asnCounts;
        assert Counts().Of(Countries) == countryCounts && Counts().Of(Cities) == cityCounts;
      }
      if needCleanup {
        TrimToTopN();
        AllSix(old(Counts()), Counts());
        TrimmedIsWithin(old(Counts()), Counts());
      }
    }
  }

  /** What opening the log path yields. */
  datatype OpenResult =
    | Failed
    | OpenedFile(file: File, seekOk: bool)

  /** One turn of parseLoop's select. */
  datatype Tick =
    | CleanupTick
    | ParseTick(found: OpenResult, upTo: nat, now: int)

  class LogParser {
    const fx: Foreign
    const cfg: Config
    const metrics: MetricsData

    constructor (fx: Foreign, window: int, cap: Capacity)
      ensures cfg == Config(ReaderOf(fx), window, cap) && fresh(metrics)
      ensures Valid() && metrics.View() == EMPTY_METRICS && metrics.lastPos == 0 && metrics.lastInode == 0
    {
      this.fx, cfg := fx, Config(ReaderOf(fx), window, cap);
      metrics := new MetricsData(cap);
    }

    ghost predicate Valid()
      reads metrics
    {
      metrics.Valid() && metrics.connectionsBufCap == cfg.cap && cfg.reader == ReaderOf(fx)
    }

    method ProcessLine(line: string, cutoff: int, delta: MetricsDelta)
      requires cfg.reader == ReaderOf(fx)
      modifies delta
      ensures delta.View() == ApplyLine(cfg.reader, old(delta.View()), Seen(line, cutoff))
    {
      BumpAllFields(cfg.reader, delta.View().counts, Seen(line, cutoff));
      ReaderReads(fx, Seen(line, cutoff));
      if ShouldSkipLine(line) {
        return;
      }
      var entry := fx.parseLine(line);
      if entry.None? {
        return;
      }
      CountRequest(line, cutoff, delta);
      if entry.value.timestamp < cutoff {
        return;
      }
      if fx.filtered(entry.value.ip) {
        return;
      }
      CountClient(line, cutoff, entry.value, delta);
    }

    /** Targets and outbounds: counted whatever the line's age and client. */
    method CountRequest(line: string, cutoff: int, delta: MetricsDelta)
      requires Parsed(fx, line).Some?
      modifies delta`domainCounts, delta`ipCounts, delta`outboundCounts
      ensures delta.domainCounts == Bump(old(delta.domainCounts), Key(fx, Domains, Seen(line, cutoff)))
      ensures delta.ipCounts == Bump(old(delta.ipCounts), Key(fx, DirectIPs, Seen(line, cutoff)))
      ensures delta.outboundCounts == Bump(old(delta.outboundCounts), Key(fx, Outbounds, Seen(line, cutoff)))
    {
      var domain := ExtractDomain(line);
      if domain != "" {
        if IsIPAddressFast(domain) {
          var normalized := fx.normalizeIP(domain);
          if normalized != "" && !fx.filtered(normalized) {
            delta.ipCounts := Bump(delta.ipCounts, Some(normalized));
          }
        } else {
          var rootDomain := fx.rootDomain(domain);
          if rootDomain != "" {
            delta.domainCounts := Bump(delta.domainCounts, Some(rootDomain));
          }
        }
      }
      var outbound := fx.outbound(line);
      if outbound != "" {
        delta.outboundCounts := Bump(delta.outboundCounts, Some(outbound));
      }
    }

    /** User activity and geography of a recent, unfiltered client. */
    method CountClient(line: string, cutoff: int, entry: LogEntry, delta: MetricsDelta)
      requires Recent(Client(fx, line), cutoff) == Some(entry)
      modifies delta`timestamps, delta`uniqueIPs, delta`asnCounts, delta`countryCounts, delta`cityCounts
      ensures delta.timestamps == old(delta.timestamps) + [entry.timestamp]
      ensures delta.uniqueIPs == old(delta.uniqueIPs)[entry.ip := entry.timestamp]
      ensures delta.asnCounts == Bump(old(delta.asnCounts), Key(fx, ASNs, Seen(line, cutoff)))
      ensures delta.countryCounts == Bump(old(delta.countryCounts), Key(fx, Countries, Seen(line, cutoff)))
      ensures delta.cityCounts == Bump(old(delta.cityCounts), Key(fx, Cities, Seen(line, cutoff)))
    {
      delta.timestamps := delta.timestamps + [entry.timestamp];
      delta.uniqueIPs := delta.uniqueIPs[entry.ip := entry.timestamp];
      var countryCode, cityName, asn, org := LookUp(entry.ip);
      if countryCode != UNKNOWN {
        delta.countryCounts := Bump(delta.countryCounts, Some(countryCode));
      }
      if cityName != UNKNOWN {
        delta.cityCounts := Bump(delta.cityCounts, Some(cityName + "|" + countryCode));
      }
      delta.asnCounts := Bump(delta.asnCounts, Some(asn + "|" + org));
    }

    /** The GeoIP lookups, with "unknown" where a reader is missing or has no answer. */
    method LookUp(ip: string) returns (countryCode: string, cityName: string, asn: string, org: string)
      ensures Locate(fx, ip) == Location(countryCode, cityName, asn, org)
    {
      countryCode, cityName, asn, org := UNKNOWN, UNKNOWN, UNKNOWN, UNKNOWN;
      if fx.city.Some? {
        var record := fx.city.value(ip);
        if record.Some? {
          if record.value.isoCode != "" {
            countryCode := record.value.isoCode;
          }
          if record.value.englishName.Some? && record.value.englishName.value != "" {
            cityName := record.value.englishName.value;
          }
        }
      } else if fx.country.Some? {
        var record := fx.country.value(ip);
        if record.Some? && record.value != "" {
          countryCode := record.value;
        }
      }
      if fx.asn.Some? {
        var record := fx.asn.value(ip);
        if record.Some? {
          asn, org := record.value.number, record.value.organization;
        }
      }
    }

    /** bufio's ReadString: the next line with its newline, or false at an unterminated rest. */
    method ReadString(data: string, at: nat) returns (line: string, ok: bool)
      requires at <= |data|
      ensures ok <==> '\n' in data[at..]
      ensures ok ==> IsLine(line) && line <= data[at..]
    {
      var i := at;
      while i < |data| && data[i] != '\n'
        invariant at <= i <= |data| && '\n' !in data[at..i]
      {
        i := i + 1;
      }
      if i == |data| {
        assert data[at..i] == data[at..];
        return "", false;
      }
      line, ok := data[at..i + 1], true;
      assert line[..|line| - 1] == data[at..i];
      assert data[at..][i - at] == '\n';
      assert line == data[at..][..i + 1 - at];
    }

    /** The reading loop of parseLogFile, over the bytes the file yields after the start position. */
    method ReadBatch(data: string, startPos: nat, cutoff: int) returns (newPos: nat, delta: MetricsDelta)
      requires cfg.reader == ReaderOf(fx)
      ensures fresh(delta)
      ensures newPos == startPos + Consumed(data)
      ensures delta.View() == DeltaOf(cfg.reader, BatchOf(data, cutoff))
    {
      newPos := startPos;
      delta := new MetricsDelta();
      ghost var at: nat, batch: seq<Seen> := 0, [];
      ProgressStarts(data, cutoff);
      var ok := true;
      while ok
        invariant newPos == startPos + at && at <= |data| && fresh(delta)
        invariant ReadSoFar(data, at, batch, cutoff)
        invariant delta.View() == DeltaOf(cfg.reader, batch)
        invariant !ok ==> '\n' !in data[at..]
        decreases ok, |data| - at
      {
        var size;
        ok, size, batch := ReadOne(data, newPos - startPos, cutoff, delta, batch);
        newPos, at := newPos + size, at + size;
      }
      ProgressEnds(data, at, batch, cutoff);
    }

    /** One turn of the loop: a complete line is counted and recorded, a partial one is left for the next pass. */
    method ReadOne(data: string, at: nat, cutoff: int, delta: MetricsDelta, ghost batch: seq<Seen>)
      returns (ok: bool, size: nat, ghost batch': seq<Seen>)
      requires cfg.reader == ReaderOf(fx)
      requires ReadSoFar(data, at, batch, cutoff) && delta.View() == DeltaOf(cfg.reader, batch)
      modifies delta
      ensures at + size <= |data| && ReadSoFar(data, at + size, batch', cutoff)
      ensures delta.View() == DeltaOf(cfg.reader, batch')
      ensures ok ==> 0 < size
      ensures !ok ==> size == 0 && '\n' !in data[at..]
    {
      var line;
      line, ok := ReadString(data, at);
      if !ok {
        return false, 0, batch;
      }
      ProgressContinues(data, at, line, batch, cutoff);
      ProcessLine(TrimLineEnd(line), cutoff, delta);
      DeltaOneMore(cfg.reader, batch, Seen(TrimLineEnd(line), cutoff));
      size, batch' := |line|, batch + [Seen(TrimLineEnd(line), cutoff)];
    }

    /** Choose where to resume: first run, rotated, truncated, or simply grown. */
    method ChooseStart(inode: nat, size: nat) returns (startPos: nat)
      modifies metrics`lastPos, metrics`lastInode
      ensures startPos == metrics.lastPos == StartPosition(old(metrics.lastInode), old(metrics.lastPos), inode, size)
      ensures metrics.lastInode == inode
    {
      if metrics.lastInode == 0 {
        metrics.lastInode := inode;
      } else if inode != metrics.lastInode {
        metrics.lastPos := 0;
        metrics.lastInode := inode;
      } else if metrics.lastPos > size {
        metrics.lastPos := 0;
      }
      startPos := metrics.lastPos;
    }

    /** What the parser goroutine carries from tick to tick. */
    ghost function Now(): Stage
      requires metrics.Valid()
      reads metrics
    {
      Stage(metrics.View(), metrics.lastPos, metrics.lastInode)
    }

    /** One pass, with nothing else running: `upTo` is how far the reads got before end of file or an error. */
    method ParseLogFile(found: OpenResult, upTo: nat, now: int) returns (ok: bool)
      requires Valid()
      modifies metrics
      ensures Valid() && Now() == AfterPass(cfg, old(Now()), found, upTo, now)
      ensures ok <==> found.OpenedFile? && found.seekOk
    {
      if found.Failed? {
        return false;
      }
      var startPos := ChooseStart(found.file.inode, |found.file.content|);
      if !found.seekOk {
        return false;
      }
      ReadAndMerge(Readable(found.file.content, startPos, upTo), now - cfg.window);
      ok := true;
    }

    /** Read from the saved position on, merge the batch, and then move the position. */
    method ReadAndMerge(data: string, cutoff: int)
      requires Valid()
      modifies metrics
      ensures Valid() && Now() == AfterRead(cfg, old(Now()), data, cutoff)
    {
      var newPos, delta := ReadBatch(data, metrics.lastPos, cutoff);
      metrics.MergeBatch(delta);
      metrics.lastPos := newPos;
    }

    /** parseLoop over any finite stretch of its ticks; `trace` is what each tick left. */
    method ParseLoop(ticks: seq<Tick>) returns (ghost trace: seq<Stage>)
      requires Valid()
      modifies metrics
      ensures Valid() && IsLoopRun(cfg, old(Now()), ticks, trace, Now())
    {
      ghost var start := Now();
      trace := [start];
      for i := 0 to |ticks|
        invariant Valid() && IsLoopRun(cfg, start, ticks[..i], trace, Now())
      {
        assert ticks[..i + 1] == ticks[..i] + [ticks[i]];
        trace := NextTick(ticks[i], start, ticks[..i], trace);
      }
      assert ticks[..|ticks|] == ticks;
    }

    method NextTick(tick: Tick, ghost start: Stage, ghost done: seq<Tick>, ghost trace: seq<Stage>)
      returns (ghost longer: seq<Stage>)
      requires Valid() && IsLoopRun(cfg, start, done, trace, Now())
      modifies metrics
      ensures Valid() && IsLoopRun(cfg, start, done + [tick], longer, Now())
    {
      ghost var before := Now();
      DoTick(tick);
      LoopOneMore(cfg, start, done, trace, before, tick, Now());
      longer := trace + [Now()];
    }

    method DoTick(tick: Tick)
      requires Valid()
      modifies metrics
      ensures Valid() && TickDone(cfg, old(Now()), tick, Now())
    {
      match tick {
        case CleanupTick =>
          ghost var before := Now();
          metrics.TrimToTopN();
          CutIsTrim(before, Now());
        case ParseTick(found, upTo, now) =>
          var ok := ParseLogFile(found, upTo, now);
          CleanUpAfterPass();
      }
    }

    method CleanUpAfterPass()
      requires Valid()
      modifies metrics
      ensures Valid()
      ensures if old(metrics.WithinThresholds()) then Now() == old(Now()) else IsTrim(old(Now()), Now())
    {
      ghost var passed := Now();
      metrics.CheckEmergencyCleanup();
      CutIsTrim(passed, Now());
    }
  }

  // ---------- ticks ----------

  datatype Stage = Stage(metrics: Metrics, lastPos: nat, lastInode: nat)

  /** A pass that cannot open changes nothing; one that cannot seek only chooses where to resume. */
  function AfterPass(cfg: Config, s: Stage, found: OpenResult, upTo: nat, now: int): Stage {
    match found
    case Failed => s
    case OpenedFile(f, seekOk) =>
      var start := StartPosition(s.lastInode, s.lastPos, f.inode, |f.content|);
      if !seekOk then Stage(s.metrics, start, f.inode) else
        AfterRead(cfg, Stage(s.metrics, start, f.inode), Readable(f.content, start, upTo), now - cfg.window)
  }

  /** The bytes read are merged and the position moves past their complete lines. */
  function AfterRead(cfg: Config, s: Stage, data: string, cutoff: int): Stage {
    var delta := DeltaOf(cfg.reader, BatchOf(data, cutoff));
    Stage(MergeDelta(s.metrics, delta, cfg.cap), s.lastPos + Consumed(data), s.lastInode)
  }

  /** A pass that is not cut short leaves no complete line behind, so a parser that keeps up keeps catching up. */
  lemma FullPassCatchesUp(cfg: Config, s: Stage, f: File, now: int)
    requires s.lastInode == 0 ==> s.lastPos == 0
    ensures var p := AfterPass(cfg, s, OpenedFile(f, true), |f.content|, now).lastPos;
      p <= |f.content| && '\n' !in f.content[p..]
  {
    var start := StartPosition(s.lastInode, s.lastPos, f.inode, |f.content|);
    var data := f.content[start..];
    assert Readable(f.content, start, |f.content|) == data;
    ConsumedStops(data);
    assert f.content[start + Consumed(data)..] == data[Consumed(data)..];
  }

  ghost predicate IsTrim(s: Stage, t: Stage) {
    && t == s.(metrics := s.metrics.(counts := t.metrics.counts))
    && forall cat :: IsTopN(s.metrics.counts.Of(cat), Limit(cat), t.metrics.counts.Of(cat))
  }

  ghost predicate Within(counts: CountMaps) {
    forall cat :: |counts.Of(cat)| <= Threshold(cat)
  }

  /** A cleanup tick trims; a parse tick makes a pass and then trims if some map has outgrown its threshold. */
  ghost predicate TickDone(cfg: Config, s: Stage, tick: Tick, t: Stage) {
    match tick
    case CleanupTick => IsTrim(s, t)
    case ParseTick(found, upTo, now) =>
      var passed := AfterPass(cfg, s, found, upTo, now);
      if Within(passed.metrics.counts) then t == passed else IsTrim(passed, t)
  }

  ghost predicate IsLoopRun(cfg: Config, start: Stage, ticks: seq<Tick>, trace: seq<Stage>, end: Stage) {
    && |trace| == |ticks| + 1 && trace[0] == start && trace[|ticks|] == end
    && forall i | 0 <= i < |ticks| :: IsTick(cfg, ticks, trace, i)
  }

  ghost predicate IsTick(cfg: Config, ticks: seq<Tick>, trace: seq<Stage>, i: nat)
    requires |trace| == |ticks| + 1 && i < |ticks|
  {
    TickDone(cfg, trace[i], ticks[i], trace[i + 1])
  }

  lemma LoopOneMore(cfg: Config, start: Stage, ticks: seq<Tick>, trace: seq<Stage>, s: Stage, tick: Tick, t: Stage)
    requires IsLoopRun(cfg, start, ticks, trace, s) && TickDone(cfg, s, tick, t)
    ensures IsLoopRun(cfg, start, ticks + [tick], trace + [t], t)
  {
    forall i | 0 <= i < |ticks + [tick]| ensures IsTick(cfg, ticks + [tick], trace + [t], i) {
      assert i < |ticks| ==> IsTick(cfg, ticks, trace, i);
    }
  }

  /** Whatever a tick found, and however large the maps were: none is over its threshold when the tick ends. */
  lemma TickEndsWithin(cfg: Config, s: Stage, tick: Tick, t: Stage)
    requires TickDone(cfg, s, tick, t)
    ensures Within(t.metrics.counts)
  {
    match tick {
      case CleanupTick => TrimmedIsWithin(s.metrics.counts, t.metrics.counts);
      case ParseTick(found, upTo, now) =>
        var passed := AfterPass(cfg, s, found, upTo, now);
        if !Within(passed.metrics.counts) {
          TrimmedIsWithin(passed.metrics.counts, t.metrics.counts);
        }
    }
  }

  lemma BatchUnfold(line: string, later: string, cutoff: int)
    requires IsLine(line)
    ensures BatchOf(line + later, cutoff) == [Seen(TrimLineEnd(line), cutoff)] + BatchOf(later, cutoff)
    ensures Consumed(line + later) == |line| + Consumed(later)
  {
    LineCons(line, later);
    MarkCons(line, RawLines(later), cutoff);
  }

  lemma MarkCons(line: string, lines: seq<string>, cutoff: int)
    ensures Mark(TrimAll([line] + lines), cutoff) == [Seen(TrimLineEnd(line), cutoff)] + Mark(TrimAll(lines), cutoff)
  {
    OneMoreTrimmed(line, lines);
  }

  /** `batch` holds the complete lines before `at`. */
  ghost predicate ReadSoFar(data: string, at: nat, batch: seq<Seen>, cutoff: int) {
    && at <= |data|
    && batch + BatchOf(data[at..], cutoff) == BatchOf(data, cutoff)
    && at + Consumed(data[at..]) == Consumed(data)
  }

  lemma ProgressStarts(data: string, cutoff: int)
    ensures ReadSoFar(data, 0, [], cutoff)
  {
    assert data[0..] == data;
    assert [] + BatchOf(data, cutoff) == BatchOf(data, cutoff);
  }

  lemma RestAfter(data: string, at: nat, line: string) returns (later: string)
    requires at <= |data| && line <= data[at..]
    ensures at + |line| <= |data| && data[at..] == line + later && data[at + |line|..] == later
  {
    later := data[at..][|line|..];
  }

  lemma ProgressContinues(data: string, at: nat, line: string, batch: seq<Seen>, cutoff: int)
    requires ReadSoFar(data, at, batch, cutoff) && IsLine(line) && line <= data[at..]
    ensures ReadSoFar(data, at + |line|, batch + [Seen(TrimLineEnd(line), cutoff)], cutoff)
  {
    var later := RestAfter(data, at, line);
    BatchUnfold(line, later, cutoff);
    Regroup(batch, Seen(TrimLineEnd(line), cutoff), BatchOf(later, cutoff));
  }

  lemma Regroup(a: seq<Seen>, x: Seen, b: seq<Seen>)
    ensures a + ([x] + b) == a + [x] + b
  {}

  lemma ProgressEnds(data: string, at: nat, batch: seq<Seen>, cutoff: int)
    requires ReadSoFar(data, at, batch, cutoff) && '\n' !in data[at..]
    ensures batch == BatchOf(data, cutoff) && at == Consumed(data)
  {
    NoNewline(data[at..]);
    assert batch + [] == batch;
  }

  lemma DeltaOneMore(rd: Reader, batch: seq<Seen>, seen: Seen)
    ensures DeltaOf(rd, batch + [seen]) == ApplyLine(rd, DeltaOf(rd, batch), seen)
  {
    assert (batch + [seen])[..|batch|] == batch;
  }

  function Threshold(cat: Category): nat {
    match cat
    case DirectIPs => 40
    case Outbounds => 20
    case _ => 100
  }

  /** Cut to the best 10 outbounds, and to the best 20 of everything else. */
  ghost predicate AreCut(before: CountMaps, after: CountMaps) {
    && IsTopN(before.domains, 20, after.domains) && IsTopN(before.ips, 20, after.ips)
    && IsTopN(before.outbounds, 10, after.outbounds) && IsTopN(before.asns, 20, after.asns)
    && IsTopN(before.countries, 20, after.countries) && IsTopN(before.cities, 20, after.cities)
  }

  lemma AllSix(a: CountMaps, b: CountMaps)
    ensures AreCut(a, b) <==> forall cat :: IsTopN(a.Of(cat), Limit(cat), b.Of(cat))
  {
    if forall cat :: IsTopN(a.Of(cat), Limit(cat), b.Of(cat)) {
      assert IsTopN(a.Of(Domains), 20, b.Of(Domains)) && IsTopN(a.Of(DirectIPs), 20, b.Of(DirectIPs));
      assert IsTopN(a.Of(Outbounds), 10, b.Of(Outbounds)) && IsTopN(a.Of(ASNs), 20, b.Of(ASNs));
      assert IsTopN(a.Of(Countries), 20, b.Of(Countries)) && IsTopN(a.Of(Cities), 20, b.Of(Cities));
    }
  }

  lemma CutIsTrim(s: Stage, t: Stage)
    requires t == s.(metrics := s.metrics.(counts := t.metrics.counts))
    ensures AreCut(s.metrics.counts, t.metrics.counts) <==> IsTrim(s, t)
  {
    AllSix(s.metrics.counts, t.metrics.counts);
  }

  lemma TrimmedIsWithin(before: CountMaps, after: CountMaps)
    requires forall cat :: IsTopN(before.Of(cat), Limit(cat), after.Of(cat))
    ensures forall cat :: |after.Of(cat)| <= Threshold(cat)
  {
    forall cat ensures |after.Of(cat)| <= Threshold(cat) {
      assert IsTopN(before.Of(cat), Limit(cat), after.Of(cat));
    }
  }
}
