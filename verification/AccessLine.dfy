/** What one access-log line says: its client, and the counters it increments. */
module AccessLine {
  import opened Prelude
  import opened LogText
  import opened Traffic

  datatype CityRecord = CityRecord(isoCode: string, englishName: Option<string>)

  datatype AsnRecord = AsnRecord(number: string, organization: string)

  /** Code outside the repository, as arbitrary functions: regular expressions, address parsing,
      the public suffix list, the uncached address filter, and the GeoIP readers (None when not configured). */
  datatype Foreign = Foreign(
    parseLine: string -> Option<LogEntry>,
    normalizeIP: string -> string,
    rootDomain: string -> string,
    outbound: string -> string,
    filtered: string -> bool,
    city: Option<string -> Option<CityRecord>>,
    country: Option<string -> Option<string>>,
    asn: Option<string -> Option<AsnRecord>>)

  // ---------- a line's contribution ----------

  predicate ShouldSkipLine(line: string) {
    || |line| < 19
    || line[0] < '1' || line[0] > '9' || line[4] != '/'
    || "#" <= line
    || Index(line, "from ") == -1
  }

  predicate IsIPAddressFast(s: string) {
    && (forall c | c in s :: '0' <= c <= '9' || c == '.' || c == ':' || 'a' <= c <= 'f' || 'A' <= c <= 'F')
    && ('.' in s || ':' in s)
  }

  function Parsed(fx: Foreign, line: string): Option<LogEntry> {
    if ShouldSkipLine(line) then None else fx.parseLine(line)
  }

  function NonEmpty(s: string): Option<string> {
    if s == "" then None else Some(s)
  }

  datatype Location = Location(country: string, city: string, asn: string, org: string)

  const UNKNOWN := "unknown"

  function Locate(fx: Foreign, ip: string): Location {
    var here := if fx.city.Some? then (match fx.city.value(ip)
        case Some(record) =>
          (if record.isoCode != "" then record.isoCode else UNKNOWN,
           if record.englishName.Some? && record.englishName.value != "" then record.englishName.value else UNKNOWN)
        case None => (UNKNOWN, UNKNOWN))
      else if fx.country.Some? then (match fx.country.value(ip)
        case Some(code) => (if code != "" then code else UNKNOWN, UNKNOWN)
        case None => (UNKNOWN, UNKNOWN))
      else (UNKNOWN, UNKNOWN);
    var net := if fx.asn.Some? then (match fx.asn.value(ip)
        case Some(record) => (record.number, record.organization)
        case None => (UNKNOWN, UNKNOWN))
      else (UNKNOWN, UNKNOWN);
    Location(here.0, here.1, net.0, net.1)
  }

  /** The client whose activity a line shows, whatever its age. */
  function Client(fx: Foreign, line: string): Option<LogEntry> {
    match Parsed(fx, line)
    case Some(entry) => if fx.filtered(entry.ip) then None else Some(entry)
    case None => None
  }

  /** The counter a line increments in each category. */
  function Key(fx: Foreign, cat: Category, seen: Seen): Option<string> {
    if Parsed(fx, seen.line).None? then None else
    match cat
    case Domains =>
      var target := ExtractDomain(seen.line);
      if target == "" || IsIPAddressFast(target) then None else NonEmpty(fx.rootDomain(target))
    case DirectIPs =>
      var target := ExtractDomain(seen.line);
      if target == "" || !IsIPAddressFast(target) then None else
      var ip := fx.normalizeIP(target);
      if ip != "" && !fx.filtered(ip) then Some(ip) else None
    case Outbounds => NonEmpty(fx.outbound(seen.line))
    case ASNs =>
      (match Recent(Client(fx, seen.line), seen.cutoff)
       case Some(entry) => var at := Locate(fx, entry.ip); Some(at.asn + "|" + at.org)
       case None => None)
    case Countries =>
      (match Recent(Client(fx, seen.line), seen.cutoff)
       case Some(entry) => var at := Locate(fx, entry.ip); if at.country != UNKNOWN then Some(at.country) else None
       case None => None)
    case Cities =>
      (match Recent(Client(fx, seen.line), seen.cutoff)
       case Some(entry) =>
         var at := Locate(fx, entry.ip); if at.city != UNKNOWN then Some(at.city + "|" + at.country) else None
       case None => None)
  }

  /** What the metrics see of a line. */
  function ReaderOf(fx: Foreign): Reader {
    Reader((cat, seen) => Key(fx, cat, seen), line => Client(fx, line))
  }

  lemma ReaderReads(fx: Foreign, seen: Seen)
    ensures forall cat :: ReaderOf(fx).key(cat, seen) == Key(fx, cat, seen)
    ensures ActiveClient(ReaderOf(fx), seen) == Recent(Client(fx, seen.line), seen.cutoff)
  {}

  /** Requested targets and outbounds are counted whatever the line's age. */
  lemma AgeDoesNotMatter(fx: Foreign, cat: Category)
    requires cat.Domains? || cat.DirectIPs? || cat.Outbounds?
    ensures IgnoresAge(ReaderOf(fx), cat)
  {}
}
