/** Time-windowed metrics over whole runs: connections and unique users, for a chronological log and clock. */
module WindowTheorems {
  import opened Prelude
  import opened ConnectionWindow
  import opened Traffic
  import opened LogSystem

  ghost predicate InOrder(entries: seq<LogEntry>) {
    forall i, j | 0 <= i < j < |entries| :: entries[i].timestamp <= entries[j].timestamp
  }

  /** The window is what capacity allows of the connections after `cutoff`. */
  ghost predicate WindowCounts(window: seq<int>, clients: seq<LogEntry>, cap: nat, cutoff: int) {
    && |window| <= cap
    && Chronological(window)
    && (window != [] ==> clients != [])
    && (forall i | 0 <= i < |window| :: window[i] <= clients[|clients| - 1].timestamp)
    && CountAfter(window, cutoff) == Min(cap, CountAfter(Stamps(clients), cutoff))
  }

  ghost predicate ActiveAt(clients: seq<LogEntry>, ip: string, cutoff: int) {
    exists i | 0 <= i < |clients| :: clients[i].ip == ip && cutoff < clients[i].timestamp
  }

  /** The last-seen map knows exactly the addresses active after `cutoff`. */
  ghost predicate UsersKnown(users: map<string, int>, clients: seq<LogEntry>, cutoff: int) {
    forall ip :: (ip in users && cutoff < users[ip]) <==> ActiveAt(clients, ip, cutoff)
  }

  /** The distinct client addresses with a line after the cutoff. */
  ghost function ActiveUsers(clients: seq<LogEntry>, cutoff: int): set<string> {
    set i | 0 <= i < |clients| && cutoff < clients[i].timestamp :: clients[i].ip
  }

  // ---------- one line ----------

  lemma StampsOneMore(clients: seq<LogEntry>, e: LogEntry)
    ensures Stamps(clients + [e]) == Stamps(clients) + [e.timestamp]
  {}

  lemma KeepEntry(window: seq<int>, clients: seq<LogEntry>, e: LogEntry, cap: nat, cutoff: int)
    requires 0 < cap && InOrder(clients + [e])
    requires WindowCounts(window, clients, cap, cutoff)
    ensures WindowCounts(Push(window, e.timestamp, cap), clients + [e], cap, cutoff)
  {
    StampsOneMore(clients, e);
    forall i | 0 <= i < |clients| ensures clients[i].timestamp <= e.timestamp {
      assert (clients + [e])[i] == clients[i] && (clients + [e])[|clients|] == e;
    }
    PushCounts(window, Stamps(clients), e.timestamp, cap, cutoff);
  }

  lemma DropEntry(window: seq<int>, clients: seq<LogEntry>, e: LogEntry, cap: nat, cutoff: int)
    requires InOrder(clients + [e]) && e.timestamp <= cutoff
    requires WindowCounts(window, clients, cap, cutoff)
    ensures WindowCounts(window, clients + [e], cap, cutoff)
  {
    StampsOneMore(clients, e);
    CountAfterConcat(Stamps(clients), [e.timestamp], cutoff);
    assert [e.timestamp][..0] == [];
    if window != [] {
      var last := |clients| - 1;
      assert (clients + [e])[last] == clients[last] && (clients + [e])[|clients|] == e;
    }
  }

  lemma ActiveOneMore(clients: seq<LogEntry>, e: LogEntry, ip: string, cutoff: int)
    ensures ActiveAt(clients + [e], ip, cutoff)
       <==> ActiveAt(clients, ip, cutoff) || (e.ip == ip && cutoff < e.timestamp)
  {
    var more := clients + [e];
    assert forall i | 0 <= i < |clients| :: more[i] == clients[i];
    assert more[|clients|] == e;
  }

  /** Without an ordered log, last-write-wins is right exactly unless an old line overwrites a recent one. */
  lemma KeepUserIff(users: map<string, int>, clients: seq<LogEntry>, e: LogEntry, cutoff: int)
    requires UsersKnown(users, clients, cutoff)
    ensures UsersKnown(users[e.ip := e.timestamp], clients + [e], cutoff)
       <==> cutoff < e.timestamp || !ActiveAt(clients, e.ip, cutoff)
  {
    var after := users[e.ip := e.timestamp];
    ActiveOneMore(clients, e, e.ip, cutoff);
    if cutoff < e.timestamp || !ActiveAt(clients, e.ip, cutoff) {
      forall ip ensures (ip in after && cutoff < after[ip]) <==> ActiveAt(clients + [e], ip, cutoff) {
        ActiveOneMore(clients, e, ip, cutoff);
      }
    } else {
      assert !(e.ip in after && cutoff < after[e.ip]) && ActiveAt(clients + [e], e.ip, cutoff);
    }
  }

  lemma KeepUser(users: map<string, int>, clients: seq<LogEntry>, e: LogEntry, cutoff: int)
    requires InOrder(clients + [e]) && UsersKnown(users, clients, cutoff)
    ensures UsersKnown(users[e.ip := e.timestamp], clients + [e], cutoff)
  {
    KeepUserIff(users, clients, e, cutoff);
    if ActiveAt(clients, e.ip, cutoff) {
      var i :| 0 <= i < |clients| && clients[i].ip == e.ip && cutoff < clients[i].timestamp;
      assert (clients + [e])[i] == clients[i] && (clients + [e])[|clients|] == e;
    }
  }

  lemma DropUser(users: map<string, int>, clients: seq<LogEntry>, e: LogEntry, cutoff: int)
    requires e.timestamp <= cutoff && UsersKnown(users, clients, cutoff)
    ensures UsersKnown(users, clients + [e], cutoff)
  {
    forall ip ensures (ip in users && cutoff < users[ip]) <==> ActiveAt(clients + [e], ip, cutoff) {
      ActiveOneMore(clients, e, ip, cutoff);
    }
  }

  // ---------- one batch ----------

  ghost predicate Windowed(rd: Reader, m: Metrics, history: seq<Seen>, cap: nat, cutoff: int) {
    && WindowCounts(m.window, Clients(rd, history), cap, cutoff)
    && UsersKnown(m.users, Clients(rd, history), cutoff)
  }

  lemma RecordWindowed(m: Metrics, counts: CountMaps, clients: seq<LogEntry>, client: Option<LogEntry>, seenCutoff: int,
                       cap: nat, cutoff: int)
    requires 0 < cap && seenCutoff <= cutoff && InOrder(clients + OneClient(client))
    requires WindowCounts(m.window, clients, cap, cutoff) && UsersKnown(m.users, clients, cutoff)
    ensures var active := if client.Some? && client.value.timestamp < seenCutoff then None else client;
      var after := Record(m, counts, active, cap);
      WindowCounts(after.window, clients + OneClient(client), cap, cutoff)
      && UsersKnown(after.users, clients + OneClient(client), cutoff)
  {
    match client {
      case Some(e) =>
        if e.timestamp < seenCutoff {
          DropEntry(m.window, clients, e, cap, cutoff);
          DropUser(m.users, clients, e, cutoff);
        } else {
          KeepEntry(m.window, clients, e, cap, cutoff);
          KeepUser(m.users, clients, e, cutoff);
        }
      case None =>
        assert clients + [] == clients;
    }
  }

  lemma ClientsOneMore(rd: Reader, history: seq<Seen>, seen: Seen)
    ensures Clients(rd, history + [seen]) == Clients(rd, history) + OneClient(rd.client(seen.line))
  {
    assert (history + [seen])[..|history|] == history;
  }

  lemma ActiveIsRecentClient(rd: Reader, seen: Seen)
    ensures var client := rd.client(seen.line);
      ActiveClient(rd, seen) == if client.Some? && client.value.timestamp < seen.cutoff then None else client
  {}

  lemma {:induction false} AbsorbWindowed(rd: Reader, m: Metrics, history: seq<Seen>, batch: seq<Seen>, cap: nat,
                                          cutoff: int)
    requires 0 < cap && Windowed(rd, m, history, cap, cutoff)
    requires InOrder(Clients(rd, history + batch))
    requires forall i | 0 <= i < |batch| :: batch[i].cutoff <= cutoff
    ensures Windowed(rd, Absorb(rd, m, batch, cap), history + batch, cap, cutoff)
  {
    if batch == [] {
      assert history + batch == history;
    } else {
      var n := |batch| - 1;
      var before, seen := batch[..n], batch[n];
      assert history + batch == history + before + [seen];
      ClientsOneMore(rd, history + before, seen);
      var clients, one := Clients(rd, history + before), OneClient(rd.client(seen.line));
      assert forall i | 0 <= i < |clients| :: (clients + one)[i] == clients[i];
      AbsorbWindowed(rd, m, history, before, cap, cutoff);
      ActiveIsRecentClient(rd, seen);
      var done := Absorb(rd, m, before, cap);
      RecordWindowed(done, BumpAll(rd, done.counts, seen), clients, rd.client(seen.line), seen.cutoff, cap, cutoff);
    }
  }

  // ---------- whole runs ----------

  /** No clock reading among the first i events is later than t. Of a clock that never goes back, this holds for every
      reading t; it is asked only of the scrape in question. */
  predicate ReadBy(events: seq<Event>, i: nat, t: int) {
    forall j | 0 <= j < i && j < |events| && (events[j].Open? || events[j].Scrape?) :: events[j].now <= t
  }

  /** No pass carries a cutoff later than this one. */
  ghost predicate CutoffsPast(s: System, cutoff: int) {
    && (s.control.Opened? ==> s.control.cutoff <= cutoff)
    && (s.control.Batched? ==> forall i | 0 <= i < |s.control.batch| :: s.control.batch[i].cutoff <= cutoff)
  }

  lemma {:induction false} CutoffsPastThroughout(cfg: Config, states: seq<System>, events: seq<Event>, i: nat,
                                                 cutoff: int)
    requires IsRun(cfg, states, events) && i < |states| && ReadBy(events, i, cutoff + cfg.window)
    ensures CutoffsPast(states[i], cutoff)
  {
    if i > 0 {
      CutoffsPastThroughout(cfg, states, events, i - 1, cutoff);
      assert IsStep(cfg, states, events, i - 1);
    }
  }

  lemma SuffixOrdered(window: seq<int>, d: nat, latest: int)
    requires d <= |window| && Chronological(window)
    requires forall i | 0 <= i < |window| :: window[i] <= latest
    ensures Chronological(window[d..]) && forall i | 0 <= i < |window[d..]| :: window[d..][i] <= latest
  {}

  lemma ExpireWindow(window: seq<int>, clients: seq<LogEntry>, cap: nat, expiry: int, cutoff: int)
    requires expiry <= cutoff && WindowCounts(window, clients, cap, cutoff)
    ensures WindowCounts(Expire(window, expiry), clients, cap, cutoff)
  {
    ExpireKeepsCounts(window, expiry, cutoff);
    ExpireCutsStalePrefix(window, expiry);
    if window != [] {
      SuffixOrdered(window, |window| - |Expire(window, expiry)|, clients[|clients| - 1].timestamp);
    }
  }

  lemma ExpireUsers(m: Metrics, clients: seq<LogEntry>, expiry: int, cutoff: int)
    requires expiry <= cutoff && UsersKnown(m.users, clients, cutoff)
    ensures UsersKnown(Expired(m, expiry).users, clients, cutoff)
  {
    var after := Expired(m, expiry).users;
    forall ip ensures (ip in after && cutoff < after[ip]) <==> ActiveAt(clients, ip, cutoff) {
      assert ip in after && cutoff < after[ip] <==> ip in m.users && cutoff < m.users[ip];
    }
  }

  lemma {:induction false} WindowedThroughout(cfg: Config, states: seq<System>, events: seq<Event>, i: nat, cutoff: int)
    requires IsRun(cfg, states, events) && i < |states| && ReadBy(events, i, cutoff + cfg.window)
    requires InOrder(Clients(cfg.reader, states[i].history))
    ensures Windowed(cfg.reader, states[i].metrics, states[i].history, cfg.cap, cutoff)
  {
    if i > 0 {
      StepEffect(cfg, states, events, i - 1);
      CutoffsPastThroughout(cfg, states, events, i - 1, cutoff);
      EarlierIsInOrder(cfg, states[i - 1], events[i - 1], states[i]);
      WindowedThroughout(cfg, states, events, i - 1, cutoff);
      WindowedStep(cfg, states[i - 1], events[i - 1], states[i], cutoff);
    }
  }

  lemma EarlierIsInOrder(cfg: Config, s: System, e: Event, t: System)
    requires Effect(cfg, s, e, t) && InOrder(Clients(cfg.reader, t.history))
    ensures InOrder(Clients(cfg.reader, s.history))
  {
    if e.Merge? {
      ClientsPrefix(cfg.reader, s.history, s.control.batch);
    }
  }

  lemma WindowedScrape(rd: Reader, m: Metrics, history: seq<Seen>, cap: nat, expiry: int, cutoff: int)
    requires expiry <= cutoff && Windowed(rd, m, history, cap, cutoff)
    ensures Windowed(rd, Expired(m, expiry), history, cap, cutoff)
  {
    var clients := Clients(rd, history);
    ExpireWindow(m.window, clients, cap, expiry, cutoff);
    ExpireUsers(m, clients, expiry, cutoff);
  }

  lemma WindowedStep(cfg: Config, s: System, e: Event, t: System, cutoff: int)
    requires Effect(cfg, s, e, t) && CutoffsPast(s, cutoff) && (e.Scrape? ==> e.now - cfg.window <= cutoff)
    requires InOrder(Clients(cfg.reader, t.history))
    requires Windowed(cfg.reader, s.metrics, s.history, cfg.cap, cutoff)
    ensures Windowed(cfg.reader, t.metrics, t.history, cfg.cap, cutoff)
  {
    if e.Merge? {
      AbsorbWindowed(cfg.reader, s.metrics, s.history, s.control.batch, cfg.cap, cutoff);
    } else if e.Scrape? {
      WindowedScrape(cfg.reader, s.metrics, s.history, cfg.cap, e.now - cfg.window, cutoff);
    }
  }

  lemma {:induction false} ClientsPrefix(rd: Reader, history: seq<Seen>, batch: seq<Seen>)
    ensures Clients(rd, history) <= Clients(rd, history + batch)
    ensures InOrder(Clients(rd, history + batch)) ==> InOrder(Clients(rd, history))
  {
    if batch == [] {
      assert history + batch == history;
    } else {
      var n := |batch| - 1;
      ClientsPrefix(rd, history, batch[..n]);
      assert history + batch == history + batch[..n] + [batch[n]];
      ClientsOneMore(rd, history + batch[..n], batch[n]);
    }
  }

  /** Every scrape of every run: the connection count is what capacity allows of the lines after the cutoff, and the
      user count is the number of distinct addresses having such a line. */
  lemma ScrapeIsExact(cfg: Config, states: seq<System>, events: seq<Event>, i: nat)
    requires IsRun(cfg, states, events)
    requires i < |events| && events[i].Scrape? && ReadBy(events, i, events[i].now)
    requires InOrder(Clients(cfg.reader, states[i].history))
    ensures var clients, cutoff := Clients(cfg.reader, states[i].history), events[i].now - cfg.window;
      && |states[i + 1].metrics.window| == Min(cfg.cap, CountAfter(Stamps(clients), cutoff))
      && states[i + 1].metrics.users.Keys == ActiveUsers(clients, cutoff)
      && |states[i + 1].metrics.users| == |ActiveUsers(clients, cutoff)|
  {
    var s, cutoff := states[i], events[i].now - cfg.window;
    var clients, after := Clients(cfg.reader, s.history), states[i + 1].metrics;
    StepEffect(cfg, states, events, i);
    WindowedThroughout(cfg, states, events, i, cutoff);
    ExpireKeepsCounts(s.metrics.window, cutoff, cutoff);
    ChronologicalExpires(s.metrics.window, cutoff);
    forall ip ensures ip in after.users <==> ip in ActiveUsers(clients, cutoff) {
      assert ip in after.users <==> ActiveAt(clients, ip, cutoff);
    }
    assert after.users.Keys == ActiveUsers(clients, cutoff);
    assert |after.users| == |after.users.Keys|;
  }

  lemma ChronologicalExpires(window: seq<int>, cutoff: int)
    requires Chronological(window)
    ensures |Expire(window, cutoff)| == CountAfter(window, cutoff)
  {
    ExpireIsExactIff(window, cutoff);
  }
}
