/** What a log line adds to the metrics, told by the parts it is made of and by what the foreign code answers. */
module Contributions {
  import opened Prelude
  import opened Counting
  import opened ConnectionWindow
  import opened LogText
  import opened Traffic
  import opened AccessLine
  import opened LogSystem
  import opened LogTheorems
  import opened WindowTheorems
  import opened DisorderTheorems
  import opened IpFilter

  // ---------- which lines count ----------

  /** Long enough, starting like a date, and with a source in it. */
  ghost predicate IsTraffic(line: string) {
    && 19 <= |line| && '1' <= line[0] <= '9' && line[4] == '/'
    && exists i :: OccursAt(line, "from ", i)
  }

  lemma TrafficIff(line: string)
    ensures IsTraffic(line) <==> !ShouldSkipLine(line)
  {
    IndexFacts(line, "from ");
    assert "#" <= line ==> |line| > 0 && line[0] == '#';
    if IsTraffic(line) {
      var i :| OccursAt(line, "from ", i);
    }
  }

  /** A line that is no traffic, or does not parse, adds nothing at all. */
  lemma OthersAddNothing(fx: Foreign, d: Delta, seen: Seen)
    requires !IsTraffic(seen.line) || fx.parseLine(seen.line).None?
    ensures ApplyLine(ReaderOf(fx), d, seen) == d
  {
    TrafficIff(seen.line);
    ReaderReads(fx, seen);
    forall cat ensures BumpAll(ReaderOf(fx), d.counts, seen).Of(cat) == d.counts.Of(cat) {
      assert Key(fx, cat, seen) == None;
    }
    SameCounts(BumpAll(ReaderOf(fx), d.counts, seen), d.counts);
  }

  lemma KeysAreBumped(fx: Foreign, d: Delta, seen: Seen)
    ensures var c, after := d.counts, ApplyLine(ReaderOf(fx), d, seen);
      && after == Note(d, after.counts, Recent(Client(fx, seen.line), seen.cutoff))
      && after.counts.domains == Bump(c.domains, Key(fx, Domains, seen))
      && after.counts.ips == Bump(c.ips, Key(fx, DirectIPs, seen))
      && after.counts.outbounds == Bump(c.outbounds, Key(fx, Outbounds, seen))
      && after.counts.asns == Bump(c.asns, Key(fx, ASNs, seen))
      && after.counts.countries == Bump(c.countries, Key(fx, Countries, seen))
      && after.counts.cities == Bump(c.cities, Key(fx, Cities, seen))
  {
    ReaderReads(fx, seen);
    BumpAllFields(ReaderOf(fx), d.counts, seen);
  }

  // ---------- the request half ----------

  const ADDRESS_CHARACTERS := "0123456789abcdefABCDEF.:"

  lemma AddressCharacters(c: char)
    ensures c in ADDRESS_CHARACTERS <==> '0' <= c <= '9' || 'a' <= c <= 'f' || 'A' <= c <= 'F' || c == '.' || c == ':'
  {
    var s := ADDRESS_CHARACTERS;
    if '0' <= c <= '9' {
      assert s[c as int - '0' as int] == c;
    } else if 'a' <= c <= 'f' {
      assert s[c as int - 'a' as int + 10] == c;
    } else if 'A' <= c <= 'F' {
      assert s[c as int - 'A' as int + 16] == c;
    } else {
      assert s[22] == '.' && s[23] == ':';
    }
  }

  /** One more for a key. */
  function Plus(counts: CountMap, key: string): CountMap {
    counts[key := if key in counts then counts[key] + 1 else 1]
  }

  function Formatted(prefix: string, udp: bool, target: string, port: string, suffix: string): string {
    prefix + ACCEPTED + Protocol(udp) + (target + ":" + port + " " + suffix)
  }

  predicate IsName(s: string) {
    s != "" && ((exists c | c in s :: c !in ADDRESS_CHARACTERS) || ('.' !in s && ':' !in s))
  }

  predicate IsAddress(s: string) {
    (forall c | c in s :: c in ADDRESS_CHARACTERS) && ('.' in s || ':' in s)
  }

  lemma FastCheckIff(s: string)
    ensures IsIPAddressFast(s) <==> IsAddress(s)
    ensures s != "" && !IsIPAddressFast(s) <==> IsName(s)
  {
    forall c ensures c in ADDRESS_CHARACTERS
                <==> '0' <= c <= '9' || 'a' <= c <= 'f' || 'A' <= c <= 'F' || c == '.' || c == ':' {
      AddressCharacters(c);
    }
  }

  lemma NameKeys(fx: Foreign, seen: Seen, target: string)
    requires IsTraffic(seen.line) && fx.parseLine(seen.line).Some?
    requires ExtractDomain(seen.line) == target && IsName(target)
    ensures Key(fx, DirectIPs, seen) == None
    ensures Key(fx, Domains, seen) == if fx.rootDomain(target) == "" then None else Some(fx.rootDomain(target))
  {
    TrafficIff(seen.line);
    FastCheckIff(target);
  }

  lemma AddressKeys(fx: Foreign, seen: Seen, target: string)
    requires IsTraffic(seen.line) && fx.parseLine(seen.line).Some?
    requires ExtractDomain(seen.line) == target && IsAddress(target)
    ensures Key(fx, Domains, seen) == None
    ensures var ip := fx.normalizeIP(target);
      Key(fx, DirectIPs, seen) == if ip == "" || fx.filtered(ip) then None else Some(ip)
  {
    TrafficIff(seen.line);
    FastCheckIff(target);
  }

  lemma NameRead(fx: Foreign, d: Delta, seen: Seen, target: string)
    requires IsTraffic(seen.line) && fx.parseLine(seen.line).Some?
    requires ExtractDomain(seen.line) == target && IsName(target)
    ensures var after, root := ApplyLine(ReaderOf(fx), d, seen).counts, fx.rootDomain(target);
      && after.ips == d.counts.ips
      && after.domains == if root == "" then d.counts.domains else Plus(d.counts.domains, root)
  {
    NameKeys(fx, seen, target);
    KeysAreBumped(fx, d, seen);
  }

  lemma AddressRead(fx: Foreign, d: Delta, seen: Seen, target: string)
    requires IsTraffic(seen.line) && fx.parseLine(seen.line).Some?
    requires ExtractDomain(seen.line) == target && IsAddress(target)
    ensures var after, ip := ApplyLine(ReaderOf(fx), d, seen).counts, fx.normalizeIP(target);
      && after.domains == d.counts.domains
      && after.ips == if ip == "" || fx.filtered(ip) then d.counts.ips else Plus(d.counts.ips, ip)
  {
    AddressKeys(fx, seen, target);
    KeysAreBumped(fx, d, seen);
  }

  /** A request for a name: a character no address has, or neither dot nor colon. Its root domain is counted, if it has
      one, and no address. */
  lemma NameCounted(fx: Foreign, d: Delta, cutoff: int,
                    prefix: string, udp: bool, target: string, port: string, suffix: string)
    requires forall j :: !OccursAt(prefix, ACCEPTED, j)
    requires ' ' !in target && ' ' !in port && ':' !in port && IsName(target)
    requires var line := Formatted(prefix, udp, target, port, suffix); IsTraffic(line) && fx.parseLine(line).Some?
    ensures var line, root := Formatted(prefix, udp, target, port, suffix), fx.rootDomain(target);
      var after := ApplyLine(ReaderOf(fx), d, Seen(line, cutoff)).counts;
      && after.ips == d.counts.ips
      && after.domains == if root == "" then d.counts.domains else Plus(d.counts.domains, root)
  {
    var seen := Seen(Formatted(prefix, udp, target, port, suffix), cutoff);
    ExtractionUndoesFormatting(prefix, udp, target, port, suffix);
    NameRead(fx, d, seen, target);
  }

  /** A request for an address: only address characters, and a dot or colon among them. The normalized address is
      counted, if there is one and it is not filtered, and no domain. */
  lemma AddressCounted(fx: Foreign, d: Delta, cutoff: int,
                       prefix: string, udp: bool, target: string, port: string, suffix: string)
    requires forall j :: !OccursAt(prefix, ACCEPTED, j)
    requires ' ' !in target && ' ' !in port && ':' !in port && IsAddress(target)
    requires var line := Formatted(prefix, udp, target, port, suffix); IsTraffic(line) && fx.parseLine(line).Some?
    ensures var line, ip := Formatted(prefix, udp, target, port, suffix), fx.normalizeIP(target);
      var after := ApplyLine(ReaderOf(fx), d, Seen(line, cutoff)).counts;
      && after.domains == d.counts.domains
      && after.ips == if ip == "" || fx.filtered(ip) then d.counts.ips else Plus(d.counts.ips, ip)
  {
    var seen := Seen(Formatted(prefix, udp, target, port, suffix), cutoff);
    ExtractionUndoesFormatting(prefix, udp, target, port, suffix);
    AddressRead(fx, d, seen, target);
  }

  /** A line without a target counts neither. */
  lemma NoTargetNoRequest(fx: Foreign, d: Delta, seen: Seen)
    requires IsTraffic(seen.line) && fx.parseLine(seen.line).Some?
    requires !exists a, m, target, port, suffix :: IsRequestFor(seen.line, a, m, target, port, suffix) && target != ""
    ensures var after := ApplyLine(ReaderOf(fx), d, seen).counts;
      after.domains == d.counts.domains && after.ips == d.counts.ips
  {
    if ExtractDomain(seen.line) != "" {
      ExtractionIff(seen.line, ExtractDomain(seen.line));
    }
    assert Key(fx, Domains, seen) == None && Key(fx, DirectIPs, seen) == None;
    KeysAreBumped(fx, d, seen);
  }

  /** The outbound of every line that parses is counted, if it has one. */
  lemma OutboundCounted(fx: Foreign, d: Delta, seen: Seen)
    requires IsTraffic(seen.line) && fx.parseLine(seen.line).Some?
    ensures var after, outbound := ApplyLine(ReaderOf(fx), d, seen).counts, fx.outbound(seen.line);
      after.outbounds == if outbound == "" then d.counts.outbounds else Plus(d.counts.outbounds, outbound)
  {
    TrafficIff(seen.line);
    KeysAreBumped(fx, d, seen);
  }

  // ---------- the client half ----------

  /** A filtered client, or one too old for the pass, leaves no trace. */
  lemma ClientIgnored(fx: Foreign, d: Delta, seen: Seen, e: LogEntry)
    requires fx.parseLine(seen.line) == Some(e) && (fx.filtered(e.ip) || e.timestamp < seen.cutoff)
    ensures var after := ApplyLine(ReaderOf(fx), d, seen);
      && after.stamps == d.stamps && after.users == d.users && after.counts.asns == d.counts.asns
      && after.counts.countries == d.counts.countries && after.counts.cities == d.counts.cities
  {
    KeysAreBumped(fx, d, seen);
  }

  ghost predicate IsRecentClient(fx: Foreign, seen: Seen, e: LogEntry) {
    && IsTraffic(seen.line) && fx.parseLine(seen.line) == Some(e)
    && !fx.filtered(e.ip) && seen.cutoff <= e.timestamp
  }

  /** A recent client is noted with its time; its network is counted under number and organization, or as unknown. */
  lemma ClientNoted(fx: Foreign, d: Delta, seen: Seen, e: LogEntry)
    requires IsRecentClient(fx, seen, e)
    ensures var after := ApplyLine(ReaderOf(fx), d, seen);
      && after.stamps == d.stamps + [e.timestamp] && after.users == d.users[e.ip := e.timestamp]
      && after.counts.asns == Plus(d.counts.asns,
           if fx.asn.Some? && fx.asn.value(e.ip).Some?
           then fx.asn.value(e.ip).value.number + "|" + fx.asn.value(e.ip).value.organization
           else "unknown|unknown")
  {
    TrafficIff(seen.line);
    KeysAreBumped(fx, d, seen);
    assert UNKNOWN + "|" + UNKNOWN == "unknown|unknown";
  }

  /** What the geography of a client comes to: its country and its city, each "unknown" where there is no answer. */
  lemma PlaceCounted(fx: Foreign, d: Delta, seen: Seen, e: LogEntry, country: string, city: string)
    requires IsRecentClient(fx, seen, e)
    requires Locate(fx, e.ip).country == country && Locate(fx, e.ip).city == city
    ensures var after := ApplyLine(ReaderOf(fx), d, seen).counts;
      && after.countries == (if country == "unknown" then d.counts.countries else Plus(d.counts.countries, country))
      && after.cities == (if city == "unknown" then d.counts.cities else Plus(d.counts.cities, city + "|" + country))
  {
    TrafficIff(seen.line);
    KeysAreBumped(fx, d, seen);
  }

  function KnownOr(answer: string): string {
    if answer == "" then "unknown" else answer
  }

  /** With a city reader that answers, country and city are its own. */
  lemma CityReaderAnswers(fx: Foreign, d: Delta, seen: Seen, e: LogEntry)
    requires IsRecentClient(fx, seen, e) && fx.city.Some? && fx.city.value(e.ip).Some?
    ensures var record, after := fx.city.value(e.ip).value, ApplyLine(ReaderOf(fx), d, seen).counts;
      var country := KnownOr(record.isoCode);
      var city := if record.englishName.Some? then KnownOr(record.englishName.value) else "unknown";
      && after.countries == (if country == "unknown" then d.counts.countries else Plus(d.counts.countries, country))
      && after.cities == (if city == "unknown" then d.counts.cities else Plus(d.counts.cities, city + "|" + country))
  {
    var record := fx.city.value(e.ip).value;
    PlaceCounted(fx, d, seen, e, KnownOr(record.isoCode),
                 if record.englishName.Some? then KnownOr(record.englishName.value) else "unknown");
  }

  /** A country reader is asked only if there is no city reader; it never counts a city. */
  lemma CountryReaderAnswers(fx: Foreign, d: Delta, seen: Seen, e: LogEntry)
    requires IsRecentClient(fx, seen, e) && (fx.city.None? || fx.city.value(e.ip).None?)
    ensures var after := ApplyLine(ReaderOf(fx), d, seen).counts;
      var country := if fx.city.None? && fx.country.Some? && fx.country.value(e.ip).Some?
                     then KnownOr(fx.country.value(e.ip).value) else "unknown";
      && after.cities == d.counts.cities
      && after.countries == (if country == "unknown" then d.counts.countries else Plus(d.counts.countries, country))
  {
    var country := if fx.city.None? && fx.country.Some? && fx.country.value(e.ip).Some?
                   then KnownOr(fx.country.value(e.ip).value) else "unknown";
    PlaceCounted(fx, d, seen, e, country, "unknown");
  }

  // ---------- whole runs ----------

  /** A line that shows a real user. */
  ghost predicate ShowsUser(fx: Foreign, line: string) {
    IsTraffic(line) && fx.parseLine(line).Some? && !fx.filtered(fx.parseLine(line).value.ip)
  }

  /** The entries of the lines that show a real user, in log order. */
  ghost function RealUsers(fx: Foreign, history: seq<Seen>): seq<LogEntry> {
    if history == [] then [] else
      var line := history[|history| - 1].line;
      RealUsers(fx, history[..|history| - 1]) + if ShowsUser(fx, line) then [fx.parseLine(line).value] else []
  }

  lemma {:induction false} ClientsAreRealUsers(fx: Foreign, history: seq<Seen>)
    ensures Clients(ReaderOf(fx), history) == RealUsers(fx, history)
  {
    if history != [] {
      var seen := history[|history| - 1];
      ClientsAreRealUsers(fx, history[..|history| - 1]);
      TrafficIff(seen.line);
      assert ReaderOf(fx).client(seen.line) == Client(fx, seen.line);
    }
  }

  lemma {:induction false} RealUsersPass(fx: Foreign, history: seq<Seen>, k: nat)
    requires k < |RealUsers(fx, history)|
    ensures !fx.filtered(RealUsers(fx, history)[k].ip)
  {
    var before := history[..|history| - 1];
    if k < |RealUsers(fx, before)| {
      RealUsersPass(fx, before, k);
    }
  }

  lemma {:induction false} CountedAddressesPass(fx: Foreign, history: seq<Seen>, ip: string)
    requires ip in Bag(ReaderOf(fx), DirectIPs, history)
    ensures !fx.filtered(ip)
  {
    var n := |history| - 1;
    ReaderReads(fx, history[n]);
    if ip in Bag(ReaderOf(fx), DirectIPs, history[..n]) {
      CountedAddressesPass(fx, history[..n], ip);
    } else {
      assert Key(fx, DirectIPs, history[n]) == Some(ip);
    }
  }

  lemma EntryIsRealUser(fx: Foreign, history: seq<Seen>, ip: string, ts: int)
    requires IsEntry(Recorded(ReaderOf(fx), history), ip, ts)
    ensures !fx.filtered(ip)
  {
    RecordedAreClients(ReaderOf(fx), history);
    ClientsAreRealUsers(fx, history);
    assert ActiveAt(Recorded(ReaderOf(fx), history), ip, ts - 1);
    var k :| 0 <= k < |RealUsers(fx, history)| && RealUsers(fx, history)[k].ip == ip;
    RealUsersPass(fx, history, k);
  }

  /** In every state of every run, no filtered address is a user, and none is counted as directly addressed. */
  lemma NoneFiltered(fx: Foreign, cfg: Config, states: seq<System>, events: seq<Event>, i: nat)
    requires IsRun(cfg, states, events) && i < |states| && cfg.reader == ReaderOf(fx)
    ensures forall ip | ip in states[i].metrics.users :: !fx.filtered(ip)
    ensures forall ip | ip in states[i].metrics.counts.ips :: !fx.filtered(ip)
  {
    var m, history := states[i].metrics, states[i].history;
    HeldThroughout(cfg, states, events, i);
    forall ip | ip in m.users ensures !fx.filtered(ip) {
      assert IsEntry(Recorded(cfg.reader, history), ip, m.users[ip]);
      EntryIsRealUser(fx, history, ip, m.users[ip]);
    }
    CountsSound(cfg, states, events, DirectIPs, i);
    forall ip | ip in m.counts.ips ensures !fx.filtered(ip) {
      assert ip in m.counts.Of(DirectIPs);
      CountedAddressesPass(fx, history, ip);
    }
  }

  /** With the address filter's own decision: nobody from its lists, no malformed address, and no private one. */
  lemma OnlyPublicAddresses(fx: Foreign, rules: AddressRules, cfg: Config, states: seq<System>, events: seq<Event>,
                            i: nat, ip: string)
    requires IsRun(cfg, states, events) && i < |states| && cfg.reader == ReaderOf(fx)
    requires forall address :: fx.filtered(address) == rules.Excludes(address)
    requires ip in states[i].metrics.users || ip in states[i].metrics.counts.ips
    ensures ip !in rules.systemIPs && ip !in rules.dnsServers && rules.parse(ip).Some?
    ensures forall n | 0 <= n < |rules.privateNets| :: !rules.privateNets[n](rules.parse(ip).value)
  {
    NoneFiltered(fx, cfg, states, events, i);
    PassesIff(rules, ip);
  }

  /** The scrape theorem in these terms: for a log in time order, the connections are the lines after the cutoff that
      show a real user, as many as there is room for, and the users are their addresses. */
  lemma ScrapeCountsRealUsers(fx: Foreign, cfg: Config, states: seq<System>, events: seq<Event>, i: nat,
                              cutoff: int, t: int)
    requires IsScrape(cfg, states, events, i, cutoff, t) && cfg.reader == ReaderOf(fx)
    requires InOrder(RealUsers(fx, states[i].history))
    ensures var shown := RealUsers(fx, states[i].history);
      && |states[i + 1].metrics.window| == Min(cfg.cap, CountAfter(Stamps(shown), cutoff))
      && states[i + 1].metrics.users.Keys
         == set k | 0 <= k < |shown| && cutoff < shown[k].timestamp :: shown[k].ip
  {
    ClientsAreRealUsers(fx, states[i].history);
    OrderedConnectionsAreExact(cfg, states, events, i, cutoff, t);
    OrderedUsersAreExact(cfg, states, events, i, cutoff, t);
  }

  /** Every recorded line was judged by a cutoff one window before the clock reading of a pass that opened the file. */
  lemma {:induction false} CutoffsAreReadings(cfg: Config, states: seq<System>, events: seq<Event>, i: nat, k: nat)
    returns (j: nat)
    requires IsRun(cfg, states, events) && i < |states| && k < |states[i].history|
    ensures j < i && events[j].Open? && states[i].history[k].cutoff == events[j].now - cfg.window
  {
    StepEffect(cfg, states, events, i - 1);
    if k < |states[i - 1].history| {
      j := CutoffsAreReadings(cfg, states, events, i - 1, k);
    } else {
      assert events[i - 1].Merge?;
      j := BatchIsRead(cfg, states, events, i - 1, k - |states[i - 1].history|);
    }
  }

  lemma {:induction false} BatchIsRead(cfg: Config, states: seq<System>, events: seq<Event>, i: nat, k: nat)
    returns (j: nat)
    requires IsRun(cfg, states, events) && i < |states| && states[i].control.Batched? && k < |states[i].control.batch|
    ensures j < i && events[j].Open? && states[i].control.batch[k].cutoff == events[j].now - cfg.window
  {
    assert i > 0 && IsStep(cfg, states, events, i - 1);
    if events[i - 1].Read? {
      j := OpenedByReading(cfg, states, events, i - 1);
    } else {
      j := BatchIsRead(cfg, states, events, i - 1, k);
    }
  }

  lemma {:induction false} OpenedByReading(cfg: Config, states: seq<System>, events: seq<Event>, i: nat)
    returns (j: nat)
    requires IsRun(cfg, states, events) && i < |states| && states[i].control.Opened?
    ensures j < i && events[j].Open? && states[i].control.cutoff == events[j].now - cfg.window
  {
    assert i > 0 && IsStep(cfg, states, events, i - 1);
    if events[i - 1].Open? {
      j := i - 1;
    } else {
      j := OpenedByReading(cfg, states, events, i - 1);
    }
  }
}
