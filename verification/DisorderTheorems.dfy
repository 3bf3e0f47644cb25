/** What scrapes report when the log is not in time order: bounds in every run, and when the figures are still right. */
module DisorderTheorems {
  import opened Prelude
  import opened ConnectionWindow
  import opened Traffic
  import opened LogSystem
  import opened WindowTheorems

  /** The client entries that were recorded: not too old for the pass that read them. */
  function Recorded(rd: Reader, history: seq<Seen>): seq<LogEntry> {
    if history == [] then [] else
      Recorded(rd, history[..|history| - 1]) + OneClient(ActiveClient(rd, history[|history| - 1]))
  }

  lemma RecordedOneMore(rd: Reader, history: seq<Seen>, seen: Seen)
    ensures Recorded(rd, history + [seen]) == Recorded(rd, history) + OneClient(ActiveClient(rd, seen))
  {
    assert (history + [seen])[..|history|] == history;
  }

  // ---------- recorded entries and clients ----------

  ghost predicate SeenBy(history: seq<Seen>, cutoff: int) {
    forall i | 0 <= i < |history| :: history[i].cutoff <= cutoff
  }

  /** Entries dropped when they were read were too old already. */
  lemma {:induction false} RecordedCounts(rd: Reader, history: seq<Seen>, cutoff: int)
    requires SeenBy(history, cutoff)
    ensures CountAfter(Stamps(Recorded(rd, history)), cutoff) == CountAfter(Stamps(Clients(rd, history)), cutoff)
  {
    if history != [] {
      var before, seen := history[..|history| - 1], history[|history| - 1];
      RecordedCounts(rd, before, cutoff);
      CountOneMore(Recorded(rd, before), ActiveClient(rd, seen), cutoff);
      CountOneMore(Clients(rd, before), rd.client(seen.line), cutoff);
    }
  }

  lemma CountOneMore(entries: seq<LogEntry>, more: Option<LogEntry>, cutoff: int)
    ensures CountAfter(Stamps(entries + OneClient(more)), cutoff) == CountAfter(Stamps(entries), cutoff)
      + if more.Some? && cutoff < more.value.timestamp then 1 else 0
  {
    if more.Some? {
      StampsOneMore(entries, more.value);
      CountAfterConcat(Stamps(entries), [more.value.timestamp], cutoff);
      assert [more.value.timestamp][..0] == [];
    } else {
      assert entries + [] == entries;
    }
  }

  lemma {:induction false} RecordedAreClients(rd: Reader, history: seq<Seen>)
    ensures |Recorded(rd, history)| <= |Clients(rd, history)|
    ensures forall ip, cutoff | ActiveAt(Recorded(rd, history), ip, cutoff) ::
      ActiveAt(Clients(rd, history), ip, cutoff)
  {
    if history != [] {
      var before, seen := history[..|history| - 1], history[|history| - 1];
      RecordedAreClients(rd, before);
      var some, all := Recorded(rd, before), Clients(rd, before);
      forall ip, cutoff | ActiveAt(Recorded(rd, history), ip, cutoff)
        ensures ActiveAt(Clients(rd, history), ip, cutoff)
      {
        ActiveWith(some, ActiveClient(rd, seen), ip, cutoff);
        ActiveWith(all, rd.client(seen.line), ip, cutoff);
      }
    }
  }

  lemma ActiveWith(entries: seq<LogEntry>, more: Option<LogEntry>, ip: string, cutoff: int)
    ensures ActiveAt(entries + OneClient(more), ip, cutoff)
       <==> ActiveAt(entries, ip, cutoff) || (more.Some? && more.value.ip == ip && cutoff < more.value.timestamp)
  {
    if more.Some? {
      ActiveOneMore(entries, more.value, ip, cutoff);
    } else {
      assert entries + [] == entries;
    }
  }

  // ---------- what the metrics are, in any order ----------

  /** The window holds the latest of the recorded timestamps. */
  ghost predicate IsSuffix(window: seq<int>, stamps: seq<int>) {
    |window| <= |stamps| && window == stamps[|stamps| - |window|..]
  }

  /** ... and whatever it no longer holds is not after the cutoff. */
  ghost predicate StaleBefore(window: seq<int>, stamps: seq<int>, cutoff: int) {
    forall k | 0 <= k < |stamps| - |window| :: stamps[k] <= cutoff
  }

  /** The timestamp of an address's last entry. */
  function LastSeen(entries: seq<LogEntry>, ip: string): Option<int> {
    if entries == [] then None
    else if entries[|entries| - 1].ip == ip then Some(entries[|entries| - 1].timestamp)
    else LastSeen(entries[..|entries| - 1], ip)
  }

  predicate LastIsAfter(entries: seq<LogEntry>, ip: string, cutoff: int) {
    LastSeen(entries, ip).Some? && cutoff < LastSeen(entries, ip).value
  }

  /** An address counts if and only if its last recorded entry is after the cutoff. */
  ghost predicate UsersAreLast(users: map<string, int>, entries: seq<LogEntry>, cutoff: int) {
    forall ip :: (ip in users && cutoff < users[ip]) <==> LastIsAfter(entries, ip, cutoff)
  }

  /** The window holds the latest of the recorded timestamps, as many as there is room for, except stale ones. */
  ghost predicate Remembers(window: seq<int>, stamps: seq<int>, cap: nat, cutoff: int) {
    IsSuffix(window, Latest(stamps, cap)) && StaleBefore(window, Latest(stamps, cap), cutoff)
  }

  predicate IsEntry(entries: seq<LogEntry>, ip: string, ts: int) {
    exists k | 0 <= k < |entries| :: entries[k] == LogEntry(ts, ip)
  }

  ghost predicate UsersRecorded(users: map<string, int>, entries: seq<LogEntry>) {
    forall ip | ip in users :: IsEntry(entries, ip, users[ip])
  }

  ghost predicate Tracks(window: seq<int>, users: map<string, int>, entries: seq<LogEntry>, cap: nat, cutoff: int) {
    && Remembers(window, Stamps(entries), cap, cutoff)
    && UsersAreLast(users, entries, cutoff) && UsersRecorded(users, entries)
  }

  lemma LastSeenOneMore(entries: seq<LogEntry>, e: LogEntry, ip: string)
    ensures LastSeen(entries + [e], ip) == if e.ip == ip then Some(e.timestamp) else LastSeen(entries, ip)
  {
    assert (entries + [e])[..|entries|] == entries;
  }

  lemma {:induction false} LastIsActive(entries: seq<LogEntry>, ip: string, cutoff: int)
    requires LastIsAfter(entries, ip, cutoff)
    ensures ActiveAt(entries, ip, cutoff)
  {
    var n := |entries| - 1;
    if entries[n].ip != ip {
      LastIsActive(entries[..n], ip, cutoff);
      assert forall i | 0 <= i < n :: entries[..n][i] == entries[i];
    }
  }

  /** One more arrival pushes the oldest out when the buffer is full. */
  lemma PushRemembers(window: seq<int>, stamps: seq<int>, ts: int, cap: nat, cutoff: int)
    requires 0 < cap && Remembers(window, stamps, cap, cutoff)
    ensures Remembers(Push(window, ts, cap), stamps + [ts], cap, cutoff)
  {
    var latest := Latest(stamps, cap);
    assert Latest(stamps + [ts], cap) == (if |stamps| < cap then latest else latest[1..]) + [ts];
    assert StaleBefore(window, latest, cutoff);
  }

  lemma RecordUser(users: map<string, int>, entries: seq<LogEntry>, e: LogEntry, cutoff: int)
    requires UsersAreLast(users, entries, cutoff) && UsersRecorded(users, entries)
    ensures var after := users[e.ip := e.timestamp];
      UsersAreLast(after, entries + [e], cutoff) && UsersRecorded(after, entries + [e])
  {
    var after := users[e.ip := e.timestamp];
    forall ip ensures (ip in after && cutoff < after[ip]) <==> LastIsAfter(entries + [e], ip, cutoff) {
      LastSeenOneMore(entries, e, ip);
    }
    forall ip | ip in after ensures IsEntry(entries + [e], ip, after[ip]) {
      EntryOneMore(entries, e, ip, after[ip]);
    }
  }

  lemma EntryOneMore(entries: seq<LogEntry>, e: LogEntry, ip: string, ts: int)
    ensures IsEntry(entries + [e], ip, ts) <==> IsEntry(entries, ip, ts) || e == LogEntry(ts, ip)
  {
    assert forall k | 0 <= k < |entries| :: (entries + [e])[k] == entries[k];
    assert (entries + [e])[|entries|] == e;
  }

  lemma RecordTracks(m: Metrics, counts: CountMaps, entries: seq<LogEntry>, more: Option<LogEntry>, cap: nat,
                     cutoff: int)
    requires 0 < cap && Tracks(m.window, m.users, entries, cap, cutoff)
    ensures var after := Record(m, counts, more, cap);
      Tracks(after.window, after.users, entries + OneClient(more), cap, cutoff)
  {
    match more {
      case Some(e) =>
        StampsOneMore(entries, e);
        PushRemembers(m.window, Stamps(entries), e.timestamp, cap, cutoff);
        RecordUser(m.users, entries, e, cutoff);
      case None =>
        assert entries + [] == entries;
    }
  }

  /** One batch, however it is ordered. */
  lemma {:induction false} AbsorbTracks(rd: Reader, m: Metrics, history: seq<Seen>, batch: seq<Seen>, cap: nat,
                                        cutoff: int)
    requires 0 < cap && Tracks(m.window, m.users, Recorded(rd, history), cap, cutoff)
    ensures var after := Absorb(rd, m, batch, cap);
      Tracks(after.window, after.users, Recorded(rd, history + batch), cap, cutoff)
  {
    if batch == [] {
      assert history + batch == history;
    } else {
      var n := |batch| - 1;
      var before, seen := batch[..n], batch[n];
      AbsorbTracks(rd, m, history, before, cap, cutoff);
      assert history + batch == history + before + [seen];
      RecordedOneMore(rd, history + before, seen);
      var done := Absorb(rd, m, before, cap);
      var counts, entries := BumpAll(rd, done.counts, seen), Recorded(rd, history + before);
      RecordTracks(done, counts, entries, ActiveClient(rd, seen), cap, cutoff);
    }
  }

  lemma ExpireSuffix(window: seq<int>, stamps: seq<int>, expiry: int, cutoff: int)
    requires expiry <= cutoff && IsSuffix(window, stamps)
    ensures var after := Expire(window, expiry);
      && |after| <= |window| && IsSuffix(after, stamps)
      && (StaleBefore(window, stamps, cutoff) ==> StaleBefore(after, stamps, cutoff))
  {
    var after := Expire(window, expiry);
    ExpireCutsStalePrefix(window, expiry);
    assert after == stamps[|stamps| - |after|..];
    if StaleBefore(window, stamps, cutoff) {
      forall k | 0 <= k < |stamps| - |after| ensures stamps[k] <= cutoff {
        assert k >= |stamps| - |window| ==> stamps[k] == window[k - (|stamps| - |window|)];
      }
    }
  }

  lemma ExpireUsersAreLast(users: map<string, int>, entries: seq<LogEntry>, expiry: int, cutoff: int)
    requires expiry <= cutoff && UsersAreLast(users, entries, cutoff)
    ensures UsersAreLast(Active(users, expiry), entries, cutoff)
  {
    var after := Active(users, expiry);
    forall ip ensures (ip in after && cutoff < after[ip]) <==> LastIsAfter(entries, ip, cutoff) {
      assert ip in after && cutoff < after[ip] <==> ip in users && cutoff < users[ip];
    }
  }

  lemma ExpireTracks(m: Metrics, entries: seq<LogEntry>, cap: nat, expiry: int, cutoff: int)
    requires expiry <= cutoff && Tracks(m.window, m.users, entries, cap, cutoff)
    ensures Tracks(Expire(m.window, expiry), Active(m.users, expiry), entries, cap, cutoff)
  {
    ExpireSuffix(m.window, Latest(Stamps(entries), cap), expiry, cutoff);
    ExpireUsersAreLast(m.users, entries, expiry, cutoff);
  }

  // ---------- whole runs ----------

  lemma {:induction false} HistorySeenBy(cfg: Config, states: seq<System>, events: seq<Event>, i: nat, cutoff: int)
    requires IsRun(cfg, states, events) && i < |states| && ReadBy(events, i, cutoff + cfg.window)
    ensures SeenBy(states[i].history, cutoff)
  {
    if i > 0 {
      HistorySeenBy(cfg, states, events, i - 1, cutoff);
      CutoffsPastThroughout(cfg, states, events, i - 1, cutoff);
      StepEffect(cfg, states, events, i - 1);
    }
  }

  lemma TracksMerge(rd: Reader, m: Metrics, history: seq<Seen>, batch: seq<Seen>, cap: nat, cutoff: int,
                    after: Metrics, longer: seq<Seen>)
    requires 0 < cap && Tracks(m.window, m.users, Recorded(rd, history), cap, cutoff)
    requires after == Absorb(rd, m, batch, cap) && longer == history + batch
    ensures Tracks(after.window, after.users, Recorded(rd, longer), cap, cutoff)
  {
    AbsorbTracks(rd, m, history, batch, cap, cutoff);
  }

  lemma TracksStep(cfg: Config, s: System, e: Event, t: System, cutoff: int)
    requires Effect(cfg, s, e, t) && (e.Scrape? ==> e.now - cfg.window <= cutoff)
    requires Tracks(s.metrics.window, s.metrics.users, Recorded(cfg.reader, s.history), cfg.cap, cutoff)
    ensures Tracks(t.metrics.window, t.metrics.users, Recorded(cfg.reader, t.history), cfg.cap, cutoff)
  {
    if e.Merge? {
      TracksMerge(cfg.reader, s.metrics, s.history, s.control.batch, cfg.cap, cutoff, t.metrics, t.history);
    } else if e.Scrape? {
      ExpireTracks(s.metrics, Recorded(cfg.reader, s.history), cfg.cap, e.now - cfg.window, cutoff);
      assert t.metrics.window == Expire(s.metrics.window, e.now - cfg.window);
      assert t.metrics.users == Active(s.metrics.users, e.now - cfg.window);
    } else {
      assert t.metrics.window == s.metrics.window && t.metrics.users == s.metrics.users;
    }
  }

  /** In every run, whatever the order of the log and however often the buffer overflowed: the window is the latest
      recorded timestamps but for stale ones, and last-seen times belong to the last recorded entry. */
  lemma {:induction false} TracksThroughout(cfg: Config, states: seq<System>, events: seq<Event>, i: nat, cutoff: int)
    requires IsRun(cfg, states, events) && i < |states| && ReadBy(events, i, cutoff + cfg.window)
    ensures var m := states[i].metrics;
      Tracks(m.window, m.users, Recorded(cfg.reader, states[i].history), cfg.cap, cutoff)
  {
    if i > 0 {
      StepEffect(cfg, states, events, i - 1);
      TracksThroughout(cfg, states, events, i - 1, cutoff);
      TracksStep(cfg, states[i - 1], events[i - 1], states[i], cutoff);
    }
  }

  // ---------- scrapes ----------

  /** Event i is a scrape at this cutoff. Its clock reading is the latest so far, or it is behind a later one t, but no
      client line lies between the two cutoffs. */
  ghost predicate IsScrape(cfg: Config, states: seq<System>, events: seq<Event>, i: nat, cutoff: int, t: int) {
    && IsRun(cfg, states, events) && i < |events| && events[i] == Scrape(cutoff + cfg.window)
    && cutoff + cfg.window <= t && ReadBy(events, i, t)
    && NoneBetween(Clients(cfg.reader, states[i].history), cutoff, t - cfg.window)
  }

  predicate NoneBetween(entries: seq<LogEntry>, lo: int, hi: int) {
    forall k | 0 <= k < |entries| :: !(lo < entries[k].timestamp <= hi)
  }

  lemma NoneStamped(entries: seq<LogEntry>, lo: int, hi: int)
    requires NoneBetween(entries, lo, hi)
    ensures forall k | 0 <= k < |entries| :: !(lo < Stamps(entries)[k] <= hi)
  {}

  lemma {:induction false} CountSame(s: seq<int>, lo: int, hi: int)
    requires lo <= hi && forall k | 0 <= k < |s| :: !(lo < s[k] <= hi)
    ensures CountAfter(s, lo) == CountAfter(s, hi)
  {
    if s != [] {
      CountSame(s[..|s| - 1], lo, hi);
    }
  }

  lemma {:induction false} LastSeenIsEntry(entries: seq<LogEntry>, ip: string)
    requires LastSeen(entries, ip).Some?
    ensures IsEntry(entries, ip, LastSeen(entries, ip).value)
  {
    var n := |entries| - 1;
    if entries[n].ip == ip {
      assert entries[n] == LogEntry(entries[n].timestamp, ip);
    } else {
      LastSeenIsEntry(entries[..n], ip);
      assert entries == entries[..n] + [entries[n]];
      EntryOneMore(entries[..n], entries[n], ip, LastSeen(entries, ip).value);
    }
  }

  /** Where no entry lies between two cutoffs, either is as good. */
  lemma TracksBehind(m: Metrics, entries: seq<LogEntry>, cap: nat, lo: int, hi: int)
    requires lo <= hi && Tracks(m.window, m.users, entries, cap, hi) && NoneBetween(entries, lo, hi)
    ensures Tracks(m.window, m.users, entries, cap, lo)
  {
    NoneStamped(entries, lo, hi);
    forall ip ensures (ip in m.users && lo < m.users[ip]) <==> LastIsAfter(entries, ip, lo) {
      if ip in m.users {
        assert IsEntry(entries, ip, m.users[ip]);
      }
      if LastSeen(entries, ip).Some? {
        LastSeenIsEntry(entries, ip);
      }
      assert (ip in m.users && hi < m.users[ip]) <==> LastIsAfter(entries, ip, hi);
    }
  }

  lemma {:induction false} RecordedIsClients(rd: Reader, history: seq<Seen>, lo: int, hi: int)
    requires NoneBetween(Clients(rd, history), lo, hi)
    ensures NoneBetween(Recorded(rd, history), lo, hi)
  {
    if history != [] {
      var before, seen := history[..|history| - 1], history[|history| - 1];
      var clients, one := Clients(rd, before), OneClient(rd.client(seen.line));
      assert forall k | 0 <= k < |clients| :: (clients + one)[k] == clients[k];
      assert one != [] ==> (clients + one)[|clients|] == one[0];
      RecordedIsClients(rd, before, lo, hi);
    }
  }

  lemma ScrapeExpires(cfg: Config, states: seq<System>, events: seq<Event>, i: nat, cutoff: int)
    requires IsRun(cfg, states, events) && i < |events| && events[i] == Scrape(cutoff + cfg.window)
    ensures states[i + 1].metrics.window == Expire(states[i].metrics.window, cutoff)
    ensures states[i + 1].metrics.users == Active(states[i].metrics.users, cutoff)
  {
    StepEffect(cfg, states, events, i);
  }

  lemma FactsBehind(rd: Reader, m: Metrics, history: seq<Seen>, cap: nat, lo: int, hi: int)
    requires lo <= hi && SeenBy(history, hi) && NoneBetween(Clients(rd, history), lo, hi)
    requires Tracks(m.window, m.users, Recorded(rd, history), cap, hi)
    ensures Tracks(m.window, m.users, Recorded(rd, history), cap, lo)
    ensures CountAfter(Stamps(Recorded(rd, history)), lo) == CountAfter(Stamps(Clients(rd, history)), lo)
  {
    RecordedIsClients(rd, history, lo, hi);
    TracksBehind(m, Recorded(rd, history), cap, lo, hi);
    CountsBehind(rd, history, lo, hi);
  }

  /** What a scrape finds and what it does. */
  lemma AtScrape(cfg: Config, states: seq<System>, events: seq<Event>, i: nat, cutoff: int, t: int)
    requires IsScrape(cfg, states, events, i, cutoff, t)
    ensures var m := states[i].metrics;
      Tracks(m.window, m.users, Recorded(cfg.reader, states[i].history), cfg.cap, cutoff)
    ensures CountAfter(Stamps(Recorded(cfg.reader, states[i].history)), cutoff)
         == CountAfter(Stamps(Clients(cfg.reader, states[i].history)), cutoff)
    ensures states[i + 1].metrics.window == Expire(states[i].metrics.window, cutoff)
    ensures states[i + 1].metrics.users == Active(states[i].metrics.users, cutoff)
  {
    var hi := t - cfg.window;
    ScrapeExpires(cfg, states, events, i, cutoff);
    TracksThroughout(cfg, states, events, i, hi);
    HistorySeenBy(cfg, states, events, i, hi);
    FactsBehind(cfg.reader, states[i].metrics, states[i].history, cfg.cap, cutoff, hi);
  }

  /** ... as far as connections go. */
  lemma WindowAtScrape(cfg: Config, states: seq<System>, events: seq<Event>, i: nat, cutoff: int, t: int)
    returns (window: seq<int>, stamps: seq<int>)
    requires IsScrape(cfg, states, events, i, cutoff, t)
    ensures window == states[i].metrics.window && stamps == Stamps(Recorded(cfg.reader, states[i].history))
    ensures Remembers(window, stamps, cfg.cap, cutoff) && states[i + 1].metrics.window == Expire(window, cutoff)
    ensures CountAfter(Stamps(Clients(cfg.reader, states[i].history)), cutoff) == CountAfter(stamps, cutoff)
  {
    AtScrape(cfg, states, events, i, cutoff, t);
    window, stamps := states[i].metrics.window, Stamps(Recorded(cfg.reader, states[i].history));
  }

  lemma CountsBehind(rd: Reader, history: seq<Seen>, lo: int, hi: int)
    requires lo <= hi && SeenBy(history, hi) && NoneBetween(Clients(rd, history), lo, hi)
    requires NoneBetween(Recorded(rd, history), lo, hi)
    ensures CountAfter(Stamps(Recorded(rd, history)), lo) == CountAfter(Stamps(Clients(rd, history)), lo)
  {
    RecordedCounts(rd, history, hi);
    NoneStamped(Recorded(rd, history), lo, hi);
    NoneStamped(Clients(rd, history), lo, hi);
    CountSame(Stamps(Recorded(rd, history)), lo, hi);
    CountSame(Stamps(Clients(rd, history)), lo, hi);
  }

  lemma RemembersExpires(window: seq<int>, stamps: seq<int>, cap: nat, cutoff: int)
    requires Remembers(window, stamps, cap, cutoff)
    ensures Expire(window, cutoff) == Expire(Latest(stamps, cap), cutoff)
  {
    var latest := Latest(stamps, cap);
    var gone := latest[..|latest| - |window|];
    assert latest == gone + window;
    ExpireSkipsStale(gone, window, cutoff);
  }

  /** Every scrape of every run, for a log in any order and a buffer that overflows as it may: the window is what expiry
      leaves of the last `cap` recorded timestamps. It reports the fresh ones among them and the stale ones that hide
      behind them, misses the fresh ones that were overwritten, and is right exactly when the two errors cancel, or when
      the whole buffer is kept and more was overwritten. */
  lemma ReportedInAnyOrder(cfg: Config, states: seq<System>, events: seq<Event>, i: nat, cutoff: int, t: int)
    requires IsScrape(cfg, states, events, i, cutoff, t)
    ensures var stamps := Stamps(Recorded(cfg.reader, states[i].history));
      var full := CountAfter(Stamps(Clients(cfg.reader, states[i].history)), cutoff);
      var latest, reported := Latest(stamps, cfg.cap), |states[i + 1].metrics.window|;
      var hidden, lost := HiddenStale(latest, cutoff), Overwritten(stamps, cfg.cap, cutoff);
      && states[i + 1].metrics.window == Expire(latest, cutoff)
      && reported + lost == full + hidden
      && ((reported == Min(cfg.cap, full)) <==> (hidden == lost || (hidden < lost && StartsFresh(latest, cutoff))))
  {
    var window, recorded := WindowAtScrape(cfg, states, events, i, cutoff, t);
    Reported(window, states[i + 1].metrics.window, recorded, cfg.cap, cutoff,
             CountAfter(Stamps(Clients(cfg.reader, states[i].history)), cutoff));
  }

  lemma Reported(window: seq<int>, after: seq<int>, stamps: seq<int>, cap: nat, cutoff: int, full: nat)
    requires Remembers(window, stamps, cap, cutoff) && 0 < cap
    requires after == Expire(window, cutoff) && full == CountAfter(stamps, cutoff)
    ensures var latest := Latest(stamps, cap);
      var hidden, lost := HiddenStale(latest, cutoff), Overwritten(stamps, cap, cutoff);
      && after == Expire(latest, cutoff)
      && |after| + lost == full + hidden
      && ((|after| == Min(cap, full)) <==> (hidden == lost || (hidden < lost && StartsFresh(latest, cutoff))))
  {
    RemembersExpires(window, stamps, cap, cutoff);
    LatestCounts(stamps, cap, cutoff);
    ExpireSize(Latest(stamps, cap), cutoff);
    ExpireIsRightIff(stamps, cap, cutoff);
  }

  /** ... and an address counts exactly when its last recorded line is after the cutoff: never one too many, and all of
      them exactly when no address has an old line recorded after its fresh ones. */
  lemma UsersInAnyOrder(cfg: Config, states: seq<System>, events: seq<Event>, i: nat, cutoff: int, t: int)
    requires IsScrape(cfg, states, events, i, cutoff, t)
    ensures var users := states[i + 1].metrics.users;
      var recorded, clients := Recorded(cfg.reader, states[i].history), Clients(cfg.reader, states[i].history);
      && (forall ip :: ip in users <==> LastIsAfter(recorded, ip, cutoff))
      && users.Keys <= ActiveUsers(clients, cutoff)
      && (users.Keys == ActiveUsers(clients, cutoff) <==>
            forall ip | ip in ActiveUsers(clients, cutoff) :: LastIsAfter(recorded, ip, cutoff))
  {
    var s := states[i];
    AtScrape(cfg, states, events, i, cutoff, t);
    ActiveAreLast(cfg.reader, s.metrics.users, s.history, cutoff);
  }

  lemma ActiveAreLast(rd: Reader, users: map<string, int>, history: seq<Seen>, cutoff: int)
    requires UsersAreLast(users, Recorded(rd, history), cutoff)
    ensures var active := Active(users, cutoff);
      && (forall ip :: ip in active <==> LastIsAfter(Recorded(rd, history), ip, cutoff))
      && active.Keys <= ActiveUsers(Clients(rd, history), cutoff)
  {
    var active := Active(users, cutoff);
    RecordedAreClients(rd, history);
    forall ip ensures ip in active <==> LastIsAfter(Recorded(rd, history), ip, cutoff) {
      assert ip in active <==> ip in users && cutoff < users[ip];
    }
    forall ip | ip in active ensures ip in ActiveUsers(Clients(rd, history), cutoff) {
      LastIsActive(Recorded(rd, history), ip, cutoff);
      assert ActiveAt(Clients(rd, history), ip, cutoff);
    }
  }

  // ---------- logs in time order ----------

  lemma InOrderWith(entries: seq<LogEntry>, more: Option<LogEntry>)
    ensures InOrder(entries + OneClient(more))
       <==> InOrder(entries) && (more.Some? ==> AllBefore(entries, more.value.timestamp))
  {
    var all, one := entries + OneClient(more), OneClient(more);
    assert forall k | 0 <= k < |entries| :: all[k] == entries[k];
    assert one != [] ==> all[|entries|] == more.value;
  }

  predicate AllBefore(entries: seq<LogEntry>, ts: int) {
    forall k | 0 <= k < |entries| :: entries[k].timestamp <= ts
  }

  lemma AllBeforeWith(entries: seq<LogEntry>, more: Option<LogEntry>, ts: int)
    ensures AllBefore(entries + OneClient(more), ts)
       <==> AllBefore(entries, ts) && (more.Some? ==> more.value.timestamp <= ts)
  {
    var all, one := entries + OneClient(more), OneClient(more);
    assert forall k | 0 <= k < |entries| :: all[k] == entries[k];
    assert one != [] ==> all[|entries|] == more.value;
  }

  lemma {:induction false} RecordedBefore(rd: Reader, history: seq<Seen>, ts: int)
    requires AllBefore(Clients(rd, history), ts)
    ensures AllBefore(Recorded(rd, history), ts)
  {
    if history != [] {
      var before, seen := history[..|history| - 1], history[|history| - 1];
      AllBeforeWith(Clients(rd, before), rd.client(seen.line), ts);
      AllBeforeWith(Recorded(rd, before), ActiveClient(rd, seen), ts);
      RecordedBefore(rd, before, ts);
    }
  }

  lemma {:induction false} RecordedInOrder(rd: Reader, history: seq<Seen>)
    requires InOrder(Clients(rd, history))
    ensures InOrder(Recorded(rd, history))
  {
    if history != [] {
      var before, seen := history[..|history| - 1], history[|history| - 1];
      InOrderWith(Clients(rd, before), rd.client(seen.line));
      InOrderWith(Recorded(rd, before), ActiveClient(rd, seen));
      RecordedInOrder(rd, before);
      if ActiveClient(rd, seen).Some? {
        RecordedBefore(rd, before, ActiveClient(rd, seen).value.timestamp);
      }
    }
  }

  lemma OrderedHidesNothing(stamps: seq<int>, cap: nat, cutoff: int)
    requires Chronological(stamps)
    ensures HiddenStale(Latest(stamps, cap), cutoff) == 0
    ensures Overwritten(stamps, cap, cutoff) == 0 || StartsFresh(Latest(stamps, cap), cutoff) || cap == 0
  {
    assert FreshLast(Latest(stamps, cap), cutoff);
    HiddenIff(stamps, cap, cutoff);
    if |stamps| > cap > 0 {
      CountAfterBounds(stamps[..|stamps| - cap], cutoff);
    }
  }

  lemma OrderedExpires(window: seq<int>, entries: seq<LogEntry>, cap: nat, cutoff: int)
    requires InOrder(entries) && 0 < cap && Remembers(window, Stamps(entries), cap, cutoff)
    ensures |Expire(window, cutoff)| == Min(cap, CountAfter(Stamps(entries), cutoff))
  {
    RemembersExpires(window, Stamps(entries), cap, cutoff);
    OrderedHidesNothing(Stamps(entries), cap, cutoff);
    ExpireIsRightIff(Stamps(entries), cap, cutoff);
  }

  lemma {:induction false} ActiveIsRecorded(rd: Reader, history: seq<Seen>, ip: string, cutoff: int)
    requires SeenBy(history, cutoff) && ActiveAt(Clients(rd, history), ip, cutoff)
    ensures ActiveAt(Recorded(rd, history), ip, cutoff)
  {
    if history != [] {
      var before, seen := history[..|history| - 1], history[|history| - 1];
      ActiveWith(Clients(rd, before), rd.client(seen.line), ip, cutoff);
      ActiveWith(Recorded(rd, before), ActiveClient(rd, seen), ip, cutoff);
      if ActiveAt(Clients(rd, before), ip, cutoff) {
        ActiveIsRecorded(rd, before, ip, cutoff);
      }
    }
  }

  lemma {:induction false} OrderedLastSeen(entries: seq<LogEntry>, ip: string, cutoff: int)
    requires InOrder(entries) && ActiveAt(entries, ip, cutoff)
    ensures LastIsAfter(entries, ip, cutoff)
  {
    var n := |entries| - 1;
    var i :| 0 <= i <= n && entries[i].ip == ip && cutoff < entries[i].timestamp;
    if entries[n].ip != ip {
      assert entries[..n][i] == entries[i];
      OrderedLastSeen(entries[..n], ip, cutoff);
    }
  }

  lemma OrderedLast(rd: Reader, history: seq<Seen>, lo: int, hi: int)
    requires lo <= hi && SeenBy(history, hi) && NoneBetween(Clients(rd, history), lo, hi)
    requires InOrder(Clients(rd, history))
    ensures forall ip | ip in ActiveUsers(Clients(rd, history), lo) :: LastIsAfter(Recorded(rd, history), ip, lo)
  {
    RecordedInOrder(rd, history);
    forall ip | ip in ActiveUsers(Clients(rd, history), lo) ensures LastIsAfter(Recorded(rd, history), ip, lo) {
      assert ActiveAt(Clients(rd, history), ip, hi);
      ActiveIsRecorded(rd, history, ip, hi);
      OrderedLastSeen(Recorded(rd, history), ip, hi);
    }
  }

  /** With client lines in time order nothing hides and nothing is missed: the count is right, also at a scrape whose
      clock reading is behind an earlier one, as long as no client line lies between the two cutoffs ... */
  lemma OrderedConnectionsAreExact(cfg: Config, states: seq<System>, events: seq<Event>, i: nat, cutoff: int, t: int)
    requires IsScrape(cfg, states, events, i, cutoff, t) && InOrder(Clients(cfg.reader, states[i].history))
    ensures |states[i + 1].metrics.window|
         == Min(cfg.cap, CountAfter(Stamps(Clients(cfg.reader, states[i].history)), cutoff))
  {
    RecordedInOrder(cfg.reader, states[i].history);
    var window, stamps := WindowAtScrape(cfg, states, events, i, cutoff, t);
    OrderedExpires(window, Recorded(cfg.reader, states[i].history), cfg.cap, cutoff);
  }

  /** ... and so are the users. */
  lemma OrderedUsersAreExact(cfg: Config, states: seq<System>, events: seq<Event>, i: nat, cutoff: int, t: int)
    requires IsScrape(cfg, states, events, i, cutoff, t) && InOrder(Clients(cfg.reader, states[i].history))
    ensures states[i + 1].metrics.users.Keys
         == ActiveUsers(Clients(cfg.reader, states[i].history), cutoff)
  {
    HistorySeenBy(cfg, states, events, i, t - cfg.window);
    OrderedLast(cfg.reader, states[i].history, cutoff, t - cfg.window);
    UsersInAnyOrder(cfg, states, events, i, cutoff, t);
  }

  // ---------- while the buffer does not overflow ----------

  /** A merge that finds room in the buffer for everything it records. */
  ghost predicate HasRoom(cfg: Config, s: System, e: Event) {
    e.Merge? && s.control.Batched? ==> |s.metrics.window| + |Recorded(cfg.reader, s.control.batch)| <= cfg.cap
  }

  /** No merge before i overwrote an entry of the buffer. */
  ghost predicate NeverOverflows(cfg: Config, states: seq<System>, events: seq<Event>, i: nat)
    requires |states| == |events| + 1
  {
    forall j | 0 <= j < i && j < |events| :: HasRoom(cfg, states[j], events[j])
  }

  lemma PushWithRoom(window: seq<int>, stamps: seq<int>, ts: int, cap: nat, cutoff: int)
    requires |window| < cap && IsSuffix(window, stamps) && StaleBefore(window, stamps, cutoff)
    ensures var after := Push(window, ts, cap);
      |after| == |window| + 1 && IsSuffix(after, stamps + [ts]) && StaleBefore(after, stamps + [ts], cutoff)
  {}

  ghost predicate Complete(window: seq<int>, entries: seq<LogEntry>, cutoff: int) {
    IsSuffix(window, Stamps(entries)) && StaleBefore(window, Stamps(entries), cutoff)
  }

  lemma RecordWithRoom(m: Metrics, counts: CountMaps, entries: seq<LogEntry>, more: Option<LogEntry>, cap: nat,
                       cutoff: int)
    requires 0 < cap && Complete(m.window, entries, cutoff) && |m.window| + |OneClient(more)| <= cap
    ensures var after := Record(m, counts, more, cap).window;
      |after| == |m.window| + |OneClient(more)| && Complete(after, entries + OneClient(more), cutoff)
  {
    match more {
      case Some(e) =>
        StampsOneMore(entries, e);
        PushWithRoom(m.window, Stamps(entries), e.timestamp, cap, cutoff);
      case None =>
        assert entries + [] == entries;
    }
  }

  lemma {:induction false} AbsorbWithRoom(rd: Reader, m: Metrics, history: seq<Seen>, batch: seq<Seen>, cap: nat,
                                          cutoff: int)
    requires 0 < cap && Complete(m.window, Recorded(rd, history), cutoff)
    requires |m.window| + |Recorded(rd, batch)| <= cap
    ensures var after := Absorb(rd, m, batch, cap).window;
      |after| == |m.window| + |Recorded(rd, batch)| && Complete(after, Recorded(rd, history + batch), cutoff)
  {
    if batch == [] {
      assert history + batch == history;
    } else {
      var n := |batch| - 1;
      var before, seen := batch[..n], batch[n];
      AbsorbWithRoom(rd, m, history, before, cap, cutoff);
      assert history + batch == history + before + [seen];
      RecordedOneMore(rd, history + before, seen);
      var done := Absorb(rd, m, before, cap);
      var counts, entries := BumpAll(rd, done.counts, seen), Recorded(rd, history + before);
      RecordWithRoom(done, counts, entries, ActiveClient(rd, seen), cap, cutoff);
    }
  }

  lemma RoomStep(cfg: Config, s: System, e: Event, t: System, cutoff: int)
    requires Effect(cfg, s, e, t) && (e.Scrape? ==> e.now - cfg.window <= cutoff) && HasRoom(cfg, s, e)
    requires Complete(s.metrics.window, Recorded(cfg.reader, s.history), cutoff)
    ensures Complete(t.metrics.window, Recorded(cfg.reader, t.history), cutoff)
  {
    if e.Merge? {
      AbsorbWithRoom(cfg.reader, s.metrics, s.history, s.control.batch, cfg.cap, cutoff);
    } else if e.Scrape? {
      ExpireSuffix(s.metrics.window, Stamps(Recorded(cfg.reader, s.history)), e.now - cfg.window, cutoff);
    }
  }

  lemma {:induction false} CompleteThroughout(cfg: Config, states: seq<System>, events: seq<Event>, i: nat, cutoff: int)
    requires IsRun(cfg, states, events) && i < |states| && ReadBy(events, i, cutoff + cfg.window)
    requires NeverOverflows(cfg, states, events, i)
    ensures Complete(states[i].metrics.window, Recorded(cfg.reader, states[i].history), cutoff)
  {
    if i > 0 {
      StepEffect(cfg, states, events, i - 1);
      RoomOneMore(cfg, states, events, i);
      CompleteThroughout(cfg, states, events, i - 1, cutoff);
      RoomStep(cfg, states[i - 1], events[i - 1], states[i], cutoff);
    }
  }

  lemma CompleteLosesNothing(window: seq<int>, stamps: seq<int>, cap: nat, cutoff: int)
    requires |window| <= cap && IsSuffix(window, stamps) && StaleBefore(window, stamps, cutoff)
    ensures Overwritten(stamps, cap, cutoff) == 0
  {
    if |stamps| > cap {
      CountAfterBounds(stamps[..|stamps| - cap], cutoff);
    }
  }

  /** Neither an overflow nor more clients than there is room for: nothing fresh is overwritten. */
  lemma NothingOverwritten(cfg: Config, states: seq<System>, events: seq<Event>, i: nat, cutoff: int, t: int)
    requires IsScrape(cfg, states, events, i, cutoff, t)
    requires NeverOverflows(cfg, states, events, i) || |Clients(cfg.reader, states[i].history)| <= cfg.cap
    ensures Overwritten(Stamps(Recorded(cfg.reader, states[i].history)), cfg.cap, cutoff) == 0
  {
    var hi, recorded := t - cfg.window, Recorded(cfg.reader, states[i].history);
    RecordedAreClients(cfg.reader, states[i].history);
    if NeverOverflows(cfg, states, events, i) {
      CompleteThroughout(cfg, states, events, i, hi);
      TracksThroughout(cfg, states, events, i, hi);
      RecordedIsClients(cfg.reader, states[i].history, cutoff, hi);
      NoneStamped(recorded, cutoff, hi);
      CompleteLosesNothing(states[i].metrics.window, Stamps(recorded), cfg.cap, cutoff);
    }
  }

  lemma HiddenIff(stamps: seq<int>, cap: nat, cutoff: int)
    ensures HiddenStale(Latest(stamps, cap), cutoff) == 0 <==> FreshLast(Latest(stamps, cap), cutoff)
    ensures Overwritten(stamps, cap, cutoff) == 0 ==>
      (FreshLast(Latest(stamps, cap), cutoff) <==> FreshLast(stamps, cutoff))
  {
    var latest := Latest(stamps, cap);
    ExpireSize(latest, cutoff);
    ExpireIsExactIff(latest, cutoff);
    if |stamps| > cap && Overwritten(stamps, cap, cutoff) == 0 {
      var gone := stamps[..|stamps| - cap];
      CountAfterBounds(gone, cutoff);
      assert stamps == gone + latest;
      StalePrefixIsHarmless(gone, latest, cutoff);
    }
  }

  lemma StalePrefixIsHarmless(gone: seq<int>, window: seq<int>, cutoff: int)
    requires forall k | 0 <= k < |gone| :: gone[k] <= cutoff
    ensures FreshLast(window, cutoff) <==> FreshLast(gone + window, cutoff)
  {
    ExpireSkipsStale(gone, window, cutoff);
    ExpireIsExactIff(window, cutoff);
    ExpireIsExactIff(gone + window, cutoff);
    CountAfterConcat(gone, window, cutoff);
    CountAfterBounds(gone, cutoff);
  }

  lemma RemembersFreshLast(window: seq<int>, stamps: seq<int>, cap: nat, cutoff: int)
    requires Remembers(window, stamps, cap, cutoff)
    ensures FreshLast(window, cutoff) <==> FreshLast(Latest(stamps, cap), cutoff)
  {
    var latest := Latest(stamps, cap);
    var gone := latest[..|latest| - |window|];
    assert latest == gone + window;
    StalePrefixIsHarmless(gone, window, cutoff);
  }

  /** In particular, a count is never too high when nothing stale in the buffer waits behind something fresh; and as
      long as the buffer did not overflow, or with no more clients than it has room for, no connection after the cutoff
      is missed, and the count is right exactly when nothing stale was recorded after something fresh. */
  lemma ConnectionsInAnyOrder(cfg: Config, states: seq<System>, events: seq<Event>, i: nat, cutoff: int, t: int)
    requires IsScrape(cfg, states, events, i, cutoff, t)
    ensures var reported := |states[i + 1].metrics.window|;
      var full := CountAfter(Stamps(Clients(cfg.reader, states[i].history)), cutoff);
      && reported <= cfg.cap
      && (FreshLast(states[i].metrics.window, cutoff) ==> reported <= full)
      && (NeverOverflows(cfg, states, events, i) || |Clients(cfg.reader, states[i].history)| <= cfg.cap ==>
           && full <= reported
           && (reported == full <==> FreshLast(Stamps(Recorded(cfg.reader, states[i].history)), cutoff)))
  {
    var window, stamps := WindowAtScrape(cfg, states, events, i, cutoff, t);
    ExpiredConnections(window, stamps, cfg.cap, cutoff);
    if NeverOverflows(cfg, states, events, i) || |Clients(cfg.reader, states[i].history)| <= cfg.cap {
      NothingOverwritten(cfg, states, events, i, cutoff, t);
    }
  }

  lemma ExpiredConnections(window: seq<int>, stamps: seq<int>, cap: nat, cutoff: int)
    requires Remembers(window, stamps, cap, cutoff)
    ensures |Expire(window, cutoff)| <= cap
    ensures FreshLast(window, cutoff) ==> |Expire(window, cutoff)| <= CountAfter(stamps, cutoff)
    ensures Overwritten(stamps, cap, cutoff) == 0 ==>
      && CountAfter(stamps, cutoff) <= |Expire(window, cutoff)|
      && (|Expire(window, cutoff)| == CountAfter(stamps, cutoff) <==> FreshLast(stamps, cutoff))
  {
    RemembersExpires(window, stamps, cap, cutoff);
    RemembersFreshLast(window, stamps, cap, cutoff);
    LatestCounts(stamps, cap, cutoff);
    ExpireSize(Latest(stamps, cap), cutoff);
    KeptWholeIff(Latest(stamps, cap), cutoff);
    HiddenIff(stamps, cap, cutoff);
  }


  lemma Regrouped<T>(a: seq<T>, b: seq<T>, c: seq<T>)
    ensures a + b + c == a + (b + c)
  {}

  lemma {:induction false} ClientsConcat(rd: Reader, a: seq<Seen>, b: seq<Seen>)
    ensures Clients(rd, a + b) == Clients(rd, a) + Clients(rd, b)
  {
    if b == [] {
      assert a + b == a;
    } else {
      var n := |b| - 1;
      ClientsConcat(rd, a, b[..n]);
      assert (a + b)[..|a + b| - 1] == a + b[..n];
      assert (a + b)[|a + b| - 1] == b[n];
      Regrouped(Clients(rd, a), Clients(rd, b[..n]), OneClient(rd.client(b[n].line)));
    }
  }

  /** The log alone decides: a buffer as large as the number of client lines never overflows. */
  lemma {:induction false} FewClientsNeverOverflow(cfg: Config, states: seq<System>, events: seq<Event>, i: nat)
    requires IsRun(cfg, states, events) && i < |states|
    requires |Clients(cfg.reader, states[i].history)| <= cfg.cap
    ensures NeverOverflows(cfg, states, events, i)
    ensures |states[i].metrics.window| <= |Clients(cfg.reader, states[i].history)|
  {
    if i > 0 {
      StepEffect(cfg, states, events, i - 1);
      ClientsStayFew(cfg, states[i - 1], events[i - 1], states[i]);
      FewClientsNeverOverflow(cfg, states, events, i - 1);
      WindowStaysSmall(cfg, states[i - 1], events[i - 1], states[i]);
      RoomOneMore(cfg, states, events, i);
    }
  }

  lemma RoomOneMore(cfg: Config, states: seq<System>, events: seq<Event>, i: nat)
    requires |states| == |events| + 1 && 0 < i <= |events|
    ensures NeverOverflows(cfg, states, events, i)
       <==> NeverOverflows(cfg, states, events, i - 1) && HasRoom(cfg, states[i - 1], events[i - 1])
  {}

  lemma ClientsStayFew(cfg: Config, s: System, e: Event, t: System)
    requires Effect(cfg, s, e, t)
    ensures |Clients(cfg.reader, s.history)| <= |Clients(cfg.reader, t.history)|
  {
    if e.Merge? {
      ClientsConcat(cfg.reader, s.history, s.control.batch);
    }
  }

  lemma WindowStaysSmall(cfg: Config, s: System, e: Event, t: System)
    requires Effect(cfg, s, e, t) && |Clients(cfg.reader, t.history)| <= cfg.cap
    requires |s.metrics.window| <= |Clients(cfg.reader, s.history)|
    ensures HasRoom(cfg, s, e)
    ensures |t.metrics.window| <= |Clients(cfg.reader, t.history)|
  {
    if e.Merge? {
      ClientsConcat(cfg.reader, s.history, s.control.batch);
      RecordedAreClients(cfg.reader, s.control.batch);
      AbsorbAddsRecorded(cfg.reader, s.metrics, s.control.batch, cfg.cap);
    } else if e.Scrape? {
      KeptWholeIff(s.metrics.window, e.now - cfg.window);
    }
  }

  lemma {:induction false} AbsorbAddsRecorded(rd: Reader, m: Metrics, batch: seq<Seen>, cap: nat)
    requires 0 < cap
    ensures |Absorb(rd, m, batch, cap).window| <= |m.window| + |Recorded(rd, batch)|
  {
    if batch != [] {
      AbsorbAddsRecorded(rd, m, batch[..|batch| - 1], cap);
    }
  }

  // ---------- clocks that go anywhere ----------

  lemma {:induction false} LatestReading(events: seq<Event>, i: nat) returns (t: int)
    requires i <= |events|
    ensures ReadBy(events, i, t)
  {
    if i == 0 {
      t := 0;
    } else {
      t := LatestReading(events, i - 1);
      var e := events[i - 1];
      if (e.Open? || e.Scrape?) && t < e.now {
        t := e.now;
      }
    }
  }

  lemma HeldThroughout(cfg: Config, states: seq<System>, events: seq<Event>, i: nat)
    requires IsRun(cfg, states, events) && i < |states|
    ensures var m, recorded := states[i].metrics, Recorded(cfg.reader, states[i].history);
      IsSuffix(m.window, Stamps(recorded)) && |m.window| <= cfg.cap && UsersRecorded(m.users, recorded)
  {
    var t := LatestReading(events, i);
    TracksThroughout(cfg, states, events, i, t - cfg.window);
    LatestIsSuffix(states[i].metrics.window, Stamps(Recorded(cfg.reader, states[i].history)), cfg.cap);
  }

  lemma LatestIsSuffix(window: seq<int>, stamps: seq<int>, cap: nat)
    requires IsSuffix(window, Latest(stamps, cap))
    ensures IsSuffix(window, stamps) && |window| <= cap
  {}

  lemma {:induction false} RecordedNoMore(rd: Reader, history: seq<Seen>, cutoff: int)
    ensures CountAfter(Stamps(Recorded(rd, history)), cutoff) <= CountAfter(Stamps(Clients(rd, history)), cutoff)
  {
    if history != [] {
      var before, seen := history[..|history| - 1], history[|history| - 1];
      RecordedNoMore(rd, before, cutoff);
      CountOneMore(Recorded(rd, before), ActiveClient(rd, seen), cutoff);
      CountOneMore(Clients(rd, before), rd.client(seen.line), cutoff);
    }
  }

  lemma SuffixCounts(window: seq<int>, stamps: seq<int>, cutoff: int)
    requires IsSuffix(window, stamps)
    ensures CountAfter(window, cutoff) <= CountAfter(stamps, cutoff)
  {
    var gone := stamps[..|stamps| - |window|];
    assert stamps == gone + window;
    CountAfterConcat(gone, window, cutoff);
  }

  /** Any run, any order, any clock: a scrape reports the fresh entries of the buffer and the stale ones that hide
      behind them. It is right exactly when as many hide as fresh client lines are missing from the buffer, or when the
      whole buffer is full of what is reported and more is missing. */
  lemma ConnectionsAtAnyClock(cfg: Config, states: seq<System>, events: seq<Event>, i: nat, cutoff: int)
    requires IsRun(cfg, states, events) && i < |events| && events[i] == Scrape(cutoff + cfg.window)
    ensures var window, reported := states[i].metrics.window, |states[i + 1].metrics.window|;
      var full := CountAfter(Stamps(Clients(cfg.reader, states[i].history)), cutoff);
      var hidden, missing := HiddenStale(window, cutoff), full - CountAfter(window, cutoff);
      && 0 <= missing && reported == CountAfter(window, cutoff) + hidden
      && ((reported == Min(cfg.cap, full)) <==> (hidden == missing || (hidden < missing && reported == cfg.cap)))
  {
    var window, history := states[i].metrics.window, states[i].history;
    var full := CountAfter(Stamps(Clients(cfg.reader, history)), cutoff);
    ScrapeExpires(cfg, states, events, i, cutoff);
    HeldThroughout(cfg, states, events, i);
    SuffixCounts(window, Stamps(Recorded(cfg.reader, history)), cutoff);
    RecordedNoMore(cfg.reader, history, cutoff);
    ExpireSize(window, cutoff);
    KeptWholeIff(window, cutoff);
    MinIff(CountAfter(window, cutoff), HiddenStale(window, cutoff), full - CountAfter(window, cutoff), cfg.cap);
  }

  /** ... and never an address too many; all of them exactly when the map still has each with a time after the
      cutoff. */
  lemma UsersAtAnyClock(cfg: Config, states: seq<System>, events: seq<Event>, i: nat, cutoff: int)
    requires IsRun(cfg, states, events) && i < |events| && events[i] == Scrape(cutoff + cfg.window)
    ensures var held, users := states[i].metrics.users, states[i + 1].metrics.users;
      var active := ActiveUsers(Clients(cfg.reader, states[i].history), cutoff);
      && users.Keys <= active
      && (users.Keys == active <==> forall ip | ip in active :: ip in held && cutoff < held[ip])
  {
    ScrapeExpires(cfg, states, events, i, cutoff);
    HeldThroughout(cfg, states, events, i);
    HeldAreActive(cfg.reader, states[i].metrics.users, states[i].history, cutoff);
  }

  lemma HeldAreActive(rd: Reader, users: map<string, int>, history: seq<Seen>, cutoff: int)
    requires UsersRecorded(users, Recorded(rd, history))
    ensures Active(users, cutoff).Keys <= ActiveUsers(Clients(rd, history), cutoff)
  {
    RecordedAreClients(rd, history);
    forall ip | ip in Active(users, cutoff) ensures ip in ActiveUsers(Clients(rd, history), cutoff) {
      assert IsEntry(Recorded(rd, history), ip, users[ip]);
      assert ActiveAt(Recorded(rd, history), ip, cutoff);
      assert ActiveAt(Clients(rd, history), ip, cutoff);
    }
  }
}
