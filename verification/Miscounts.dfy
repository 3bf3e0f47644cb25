/** Runs in which a scrape reports the wrong figures: a log out of order, and a clock that goes back. */
module Miscounts {
  import opened Prelude
  import opened ConnectionWindow
  import opened LogText
  import opened Traffic
  import opened AccessLine
  import opened LogSystem
  import opened LoopTheorems
  import opened Parser
  import opened WindowTheorems

  // ---------- runs that miscount ----------

  predicate IsPlain(line: string) {
    '\n' !in line && '\r' !in line
  }

  lemma PlainLine(line: string)
    requires IsPlain(line)
    ensures IsLine(line + "\n") && TrimLineEnd(line + "\n") == line
  {
    assert (line + "\n")[..|line|] == line;
    assert line != "" ==> line[|line| - 1] in line;
  }

  lemma TwoLines(a: string, b: string, cutoff: int)
    requires IsPlain(a) && IsPlain(b)
    ensures BatchOf(a + "\n" + (b + "\n"), cutoff) == [Seen(a, cutoff), Seen(b, cutoff)]
  {
    PlainLine(a);
    PlainLine(b);
    BatchUnfold(a + "\n", b + "\n", cutoff);
    BatchUnfold(b + "\n", "", cutoff);
    assert b + "\n" + "" == b + "\n";
    NoNewline("");
  }

  lemma AbsorbOneMore(rd: Reader, m: Metrics, batch: seq<Seen>, seen: Seen, client: Option<LogEntry>, cap: nat)
    requires 0 < cap && client == ActiveClient(rd, seen)
    ensures Absorb(rd, m, batch + [seen], cap)
         == Record(Absorb(rd, m, batch, cap), BumpAll(rd, Absorb(rd, m, batch, cap).counts, seen), client, cap)
  {
    assert (batch + [seen])[..|batch|] == batch;
  }

  lemma TwoPushed(x: int, y: int, cap: nat)
    requires y < x && 0 < cap
    ensures |Expire(Push(Push([], x, cap), y, cap), y)| == if cap == 1 then 0 else 2
  {
    assert Push([], x, cap) == [x];
    if cap == 1 {
      assert Push([x], y, cap) == [y] && [y][1..] == [];
    } else {
      assert Push([x], y, cap) == [x, y];
    }
  }

  lemma TwoClients(rd: Reader, a: string, b: string, ea: LogEntry, eb: LogEntry, cutoff: int, cap: nat)
    requires rd.client(a) == Some(ea) && rd.client(b) == Some(eb)
    requires cutoff == eb.timestamp < ea.timestamp && ea.ip == eb.ip && 0 < cap
    ensures var batch := [Seen(a, cutoff), Seen(b, cutoff)];
      var after := Expired(Absorb(rd, EMPTY_METRICS, batch, cap), cutoff);
      && Clients(rd, batch) == [ea, eb]
      && after.users == map[] && |after.window| == if cap == 1 then 0 else 2
  {
    var first, second := Seen(a, cutoff), Seen(b, cutoff);
    ClientsOneMore(rd, [], first);
    ClientsOneMore(rd, [first], second);
    AbsorbOneMore(rd, EMPTY_METRICS, [], first, Some(ea), cap);
    AbsorbOneMore(rd, EMPTY_METRICS, [first], second, Some(eb), cap);
    assert [] + [first] == [first] && [first] + [second] == [first, second];
    TwoPushed(ea.timestamp, eb.timestamp, cap);
    assert Active(map[ea.ip := ea.timestamp][eb.ip := eb.timestamp], cutoff) == map[];
  }

  /** Two connections counted, or none if the buffer has room for one only, and no user: there is one of each. */
  ghost predicate Miscounts(clients: seq<LogEntry>, after: Metrics, cap: nat, cutoff: int) {
    && Min(cap, CountAfter(Stamps(clients), cutoff)) == 1 && |after.window| == (if cap == 1 then 0 else 2)
    && |ActiveUsers(clients, cutoff)| == 1 && after.users == map[]
  }

  lemma TwoLinesMiscount(rd: Reader, a: string, b: string, ea: LogEntry, eb: LogEntry, cap: nat,
                         history: seq<Seen>, after: Metrics)
    requires IsPlain(a) && IsPlain(b) && rd.client(a) == Some(ea) && rd.client(b) == Some(eb)
    requires eb.timestamp < ea.timestamp && ea.ip == eb.ip && 0 < cap
    requires history == BatchOf(a + "\n" + (b + "\n"), eb.timestamp)
    requires after == Expired(Absorb(rd, EMPTY_METRICS, history, cap), eb.timestamp)
    ensures Miscounts(Clients(rd, history), after, cap, eb.timestamp)
  {
    TwoLines(a, b, eb.timestamp);
    TwoClients(rd, a, b, ea, eb, eb.timestamp, cap);
    TwoStamps(ea, eb);
  }

  /** A run that ends with a scrape at this cutoff, which finds this history and leaves these metrics. */
  ghost predicate EndsScraped(cfg: Config, states: seq<System>, events: seq<Event>,
                              history: seq<Seen>, after: Metrics, cutoff: int) {
    var n := |events|;
    && IsRun(cfg, states, events) && 0 < n && events[n - 1] == Scrape(cutoff + cfg.window)
    && states[n - 1].history == history && states[n].history == history && states[n].metrics == after
  }

  /** A fresh line and then a stale one of the same client, read in one pass and scraped. */
  lemma StaleAfterFresh(cfg: Config, a: string, b: string, ea: LogEntry, eb: LogEntry)
    returns (states: seq<System>, events: seq<Event>, history: seq<Seen>, after: Metrics)
    requires IsPlain(a) && IsPlain(b) && cfg.reader.client(a) == Some(ea) && cfg.reader.client(b) == Some(eb)
    requires eb.timestamp < ea.timestamp && ea.ip == eb.ip
    ensures EndsScraped(cfg, states, events, history, after, eb.timestamp)
    ensures ReadBy(events, |events| - 1, eb.timestamp + cfg.window)
    ensures Miscounts(Clients(cfg.reader, history), after, cfg.cap, eb.timestamp)
  {
    states, events, history, after := PassThenScrape(cfg, File(1, a + "\n" + (b + "\n")), eb.timestamp);
    TwoLinesMiscount(cfg.reader, a, b, ea, eb, cfg.cap, history, after);
  }

  /** The simplest run there is: one pass over the whole file ... */
  lemma PassRun(cfg: Config, f: File, cutoff: int) returns (states: seq<System>, events: seq<Event>)
    requires f.inode != 0
    ensures IsRun(cfg, states, events) && |events| == 4 && PassSteps(events, cutoff + cfg.window)
    ensures states[4].history == BatchOf(f.content, cutoff)
    ensures states[4].metrics == Absorb(cfg.reader, EMPTY_METRICS, BatchOf(f.content, cutoff), cfg.cap)
  {
    var now, s0, batch := cutoff + cfg.window, Initial(f), BatchOf(f.content, cutoff);
    assert IsInitial(s0);
    var s4;
    events, s4 := PassIsFourSteps(cfg, s0, |f.content|, now);
    states := RunExtends(cfg, [s0], [], events, s4);
    assert [] + events == events;
    FirstPass(cfg, f, now, cutoff);
    assert [] + batch == batch;
  }

  lemma FirstPass(cfg: Config, f: File, now: int, cutoff: int)
    requires now == cutoff + cfg.window
    ensures var s0, found, batch := Stage(EMPTY_METRICS, 0, 0), OpenedFile(f, true), BatchOf(f.content, cutoff);
      && AfterPass(cfg, s0, found, |f.content|, now).metrics == Absorb(cfg.reader, EMPTY_METRICS, batch, cfg.cap)
      && TickBatch(cfg, s0, ParseTick(found, |f.content|, now)) == batch
  {
    WholeFile(cfg, Stage(EMPTY_METRICS, 0, 0), f, now);
    assert f.content[0..] == f.content;
    ReadAbsorbs(cfg, Stage(EMPTY_METRICS, 0, f.inode), f.content, cutoff);
  }

  lemma ReadAbsorbs(cfg: Config, s: Stage, data: string, cutoff: int)
    ensures AfterRead(cfg, s, data, cutoff).metrics == Absorb(cfg.reader, s.metrics, BatchOf(data, cutoff), cfg.cap)
  {
    BatchingIsInvisible(cfg.reader, s.metrics, BatchOf(data, cutoff), cfg.cap);
  }

  /** ... and a scrape at the same time. */
  lemma PassThenScrape(cfg: Config, f: File, cutoff: int)
    returns (states: seq<System>, events: seq<Event>, history: seq<Seen>, after: Metrics)
    requires f.inode != 0
    ensures EndsScraped(cfg, states, events, history, after, cutoff)
    ensures ReadBy(events, |events| - 1, cutoff + cfg.window)
    ensures history == BatchOf(f.content, cutoff)
    ensures after == Expired(Absorb(cfg.reader, EMPTY_METRICS, history, cfg.cap), cutoff)
  {
    var before, pass := PassRun(cfg, f, cutoff);
    states, events, after := ThenScrape(cfg, before, pass, cutoff);
    history := before[4].history;
  }

  lemma ThenScrape(cfg: Config, before: seq<System>, pass: seq<Event>, cutoff: int)
    returns (states: seq<System>, events: seq<Event>, after: Metrics)
    requires IsRun(cfg, before, pass)
    ensures EndsScraped(cfg, states, events, before[|pass|].history, after, cutoff)
    ensures events == pass + [Scrape(cutoff + cfg.window)] && after == Expired(before[|pass|].metrics, cutoff)
  {
    var e := Scrape(cutoff + cfg.window);
    RunStep(cfg, before, pass, e);
    states, events := before + [Apply(cfg, before[|pass|], e)], pass + [e];
    after := states[|events|].metrics;
  }

  lemma TwoStamps(ea: LogEntry, eb: LogEntry)
    requires eb.timestamp < ea.timestamp
    ensures CountAfter(Stamps([ea, eb]), eb.timestamp) == 1
    ensures ActiveUsers([ea, eb], eb.timestamp) == {ea.ip}
  {
    var clients, active := [ea, eb], ActiveUsers([ea, eb], eb.timestamp);
    assert Stamps(clients)[..1] == [ea.timestamp] && [ea.timestamp][..0] == [];
    assert CountAfter([ea.timestamp], eb.timestamp) == 1;
    assert clients[0] == ea && clients[1] == eb;
    assert clients[0].ip in active;
    forall ip | ip in active ensures ip == ea.ip {
      var i :| 0 <= i < |clients| && eb.timestamp < clients[i].timestamp && clients[i].ip == ip;
    }
  }

  const FRESH_LINE := "2025/06/01 10:00:20 " + "from " + "203.0.113.7:50000 accepted"
  const STALE_LINE := "2025/06/01 10:00:12 " + "from " + "203.0.113.7:50000 accepted"

  lemma LooksLikeTraffic(stamp: string, rest: string)
    requires |stamp| >= 19 && '1' <= stamp[0] <= '9' && stamp[4] == '/'
    ensures !ShouldSkipLine(stamp + "from " + rest)
  {
    var line := stamp + "from " + rest;
    assert OccursAt(line, "from ", |stamp|);
    IndexFacts(line, "from ");
    assert line[0] == stamp[0];
  }

  lemma SampleLines()
    ensures IsPlain(FRESH_LINE) && !ShouldSkipLine(FRESH_LINE)
    ensures IsPlain(STALE_LINE) && !ShouldSkipLine(STALE_LINE)
  {
    LooksLikeTraffic("2025/06/01 10:00:20 ", "203.0.113.7:50000 accepted");
    LooksLikeTraffic("2025/06/01 10:00:12 ", "203.0.113.7:50000 accepted");
  }

  /** There are such lines: whatever the capacity, a log out of order makes some scrape report the wrong figures. */
  lemma OutOfOrderMiscounts(cap: Capacity)
    returns (cfg: Config, states: seq<System>, events: seq<Event>, history: seq<Seen>, after: Metrics, cutoff: int)
    ensures cfg.cap == cap && EndsScraped(cfg, states, events, history, after, cutoff)
    ensures ReadBy(events, |events| - 1, cutoff + cfg.window)
    ensures Miscounts(Clients(cfg.reader, history), after, cap, cutoff)
  {
    var late, early := LogEntry(20, "203.0.113.7"), LogEntry(12, "203.0.113.7");
    var parse := (line: string) => if line == FRESH_LINE then Some(late) else Some(early);
    var same, never := (s: string) => s, (s: string) => false;
    cfg := Config(ReaderOf(Foreign(parse, same, same, same, never, None, None, None)), 60, cap);
    cutoff := 12;
    SampleLines();
    assert FRESH_LINE[18] != STALE_LINE[18];
    states, events, history, after := StaleAfterFresh(cfg, FRESH_LINE, STALE_LINE, late, early);
  }

  // ---------- a clock that goes back ----------

  lemma OneLineBatch(a: string, cutoff: int)
    requires IsPlain(a)
    ensures BatchOf(a + "\n", cutoff) == [Seen(a, cutoff)]
  {
    PlainLine(a);
    BatchUnfold(a + "\n", "", cutoff);
    assert a + "\n" + "" == a + "\n";
    NoNewline("");
  }

  lemma OneForgotten(rd: Reader, a: string, e: LogEntry, cap: nat)
    requires rd.client(a) == Some(e) && 0 < cap
    ensures var batch := [Seen(a, e.timestamp)];
      var after := Expired(Absorb(rd, EMPTY_METRICS, batch, cap), e.timestamp);
      Clients(rd, batch) == [e] && after.window == [] && after.users == map[]
  {
    var seen := Seen(a, e.timestamp);
    ClientsOneMore(rd, [], seen);
    AbsorbOneMore(rd, EMPTY_METRICS, [], seen, Some(e), cap);
    assert [] + [seen] == [seen];
    assert Push([], e.timestamp, cap) == [e.timestamp] && [e.timestamp][1..] == [];
    assert Expire([e.timestamp], e.timestamp) == Expire([], e.timestamp) == [];
    assert Active(map[e.ip := e.timestamp], e.timestamp) == map[];
  }

  lemma OneStamp(e: LogEntry)
    ensures CountAfter(Stamps([e]), e.timestamp - 1) == 1 && ActiveUsers([e], e.timestamp - 1) == {e.ip}
  {
    assert Stamps([e])[..0] == [];
    assert [e][0].ip in ActiveUsers([e], e.timestamp - 1);
  }

  /** A scrape whose clock reading is behind an earlier one can miss what the earlier scrape forgot: it reports no
      connection and no user although there is one of each after its cutoff. */
  lemma ClockBackForgets(cfg: Config, a: string, e: LogEntry)
    returns (states: seq<System>, events: seq<Event>, history: seq<Seen>, after: Metrics, cutoff: int)
    requires IsPlain(a) && cfg.reader.client(a) == Some(e)
    ensures EndsScraped(cfg, states, events, history, after, cutoff)
    ensures Clients(cfg.reader, history) == [e] && !ReadBy(events, |events| - 1, cutoff + cfg.window)
    ensures CountAfter(Stamps([e]), cutoff) == 1 && after.window == []
    ensures ActiveUsers([e], cutoff) == {e.ip} && after.users == map[]
  {
    cutoff := e.timestamp - 1;
    var before, first, forgotten;
    before, first, history, forgotten := PassThenScrape(cfg, File(1, a + "\n"), e.timestamp);
    OneLineBatch(a, e.timestamp);
    OneForgotten(cfg.reader, a, e, cfg.cap);
    OneStamp(e);
    states, events, after := ThenScrape(cfg, before, first, cutoff);
    assert events[|events| - 2] == Scrape(e.timestamp + cfg.window);
    assert Active(map[], cutoff) == map[];
  }
}
