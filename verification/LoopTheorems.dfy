/** The parser's loop inside the transition system: what holds in every run holds of what ParseLoop leaves behind. */
module LoopTheorems {
  import opened Counting
  import opened LogText
  import opened Traffic
  import opened AccessLine
  import opened TopN
  import opened LogSystem
  import opened LogTheorems
  import opened Parser

  // ---------- stretches of a run ----------

  ghost predicate RunsTo(cfg: Config, s: System, events: seq<Event>, t: System)
    decreases |events|
  {
    if events == [] then s == t else Enabled(s, events[0]) && RunsTo(cfg, Apply(cfg, s, events[0]), events[1..], t)
  }

  lemma {:induction false} RunsOn(cfg: Config, s: System, a: seq<Event>, t: System, b: seq<Event>, u: System)
    requires RunsTo(cfg, s, a, t) && RunsTo(cfg, t, b, u)
    ensures RunsTo(cfg, s, a + b, u)
    decreases |a|
  {
    if a == [] {
      assert a + b == b;
    } else {
      RunsOn(cfg, Apply(cfg, s, a[0]), a[1..], t, b, u);
      assert (a + b)[1..] == a[1..] + b;
    }
  }

  lemma RunsOne(cfg: Config, s: System, e: Event)
    requires Enabled(s, e)
    ensures RunsTo(cfg, s, [e], Apply(cfg, s, e))
  {
    assert [e][1..] == [];
  }

  lemma RunStep(cfg: Config, states: seq<System>, events: seq<Event>, e: Event)
    requires IsRun(cfg, states, events) && Enabled(states[|events|], e)
    ensures IsRun(cfg, states + [Apply(cfg, states[|events|], e)], events + [e])
  {
    var longer, more := states + [Apply(cfg, states[|events|], e)], events + [e];
    forall i | 0 <= i < |more| ensures IsStep(cfg, longer, more, i) {
      assert i < |events| ==> IsStep(cfg, states, events, i);
    }
  }

  /** A run can be continued by any stretch that is possible in its last state. */
  lemma {:induction false} RunExtends(cfg: Config, states: seq<System>, events: seq<Event>, more: seq<Event>, t: System)
    returns (longer: seq<System>)
    requires IsRun(cfg, states, events) && RunsTo(cfg, states[|events|], more, t)
    ensures IsRun(cfg, longer, events + more) && states <= longer && longer[|longer| - 1] == t
    decreases |more|
  {
    if more == [] {
      assert events + more == events;
      longer := states;
    } else {
      var next := Apply(cfg, states[|events|], more[0]);
      RunStep(cfg, states, events, more[0]);
      longer := RunExtends(cfg, states + [next], events + [more[0]], more[1..], t);
      assert events + [more[0]] + more[1..] == events + more;
    }
  }

  // ---------- one tick ----------

  function StageOf(s: System): Stage {
    Stage(s.metrics, s.lastPos, s.lastInode)
  }

  /** Between ticks: no pass under way and a log file present. */
  ghost predicate CanTick(s: System) {
    s.control.Idle? && s.files != [] && |s.merged| == |s.files|
  }

  predicate Opens(tick: Tick) {
    tick.ParseTick? && tick.found.OpenedFile?
  }

  /** The lines one tick merges. */
  function TickBatch(cfg: Config, s: Stage, tick: Tick): seq<Seen> {
    if Opens(tick) && tick.found.seekOk then
      var f := tick.found.file;
      var start := StartPosition(s.lastInode, s.lastPos, f.inode, |f.content|);
      BatchOf(Readable(f.content, start, tick.upTo), tick.now - cfg.window)
    else []
  }

  /** What a tick leaves before it trims, if it does. */
  function Passed(cfg: Config, s: Stage, tick: Tick): Stage {
    if tick.CleanupTick? then s else AfterPass(cfg, s, tick.found, tick.upTo, tick.now)
  }

  /** A cleanup tick always trims, a parse tick only if some map has outgrown its threshold. */
  ghost predicate TickTrims(cfg: Config, s: Stage, tick: Tick) {
    tick.CleanupTick? || !Within(Passed(cfg, s, tick).metrics.counts)
  }

  ghost predicate NoRotation(events: seq<Event>) {
    forall j | 0 <= j < |events| :: !events[j].Rotate?
  }

  ghost predicate NoTruncation(events: seq<Event>) {
    forall j | 0 <= j < |events| :: !events[j].Truncate?
  }

  ghost predicate NoTrims(events: seq<Event>) {
    forall j | 0 <= j < |events| :: !events[j].Trim?
  }

  lemma BothStretches(a: seq<Event>, b: seq<Event>)
    ensures NoTruncation(a) && NoTruncation(b) ==> NoTruncation(a + b)
    ensures NoRotation(a) && NoRotation(b) ==> NoRotation(a + b)
    ensures NoTrims(a) && NoTrims(b) ==> NoTrims(a + b)
  {}

  /** Neither files nor counts are cut. */
  ghost predicate Plain(events: seq<Event>) {
    NoRotation(events) && NoTruncation(events) && NoTrims(events)
  }

  /** The steps of one pass, all at one time. */
  ghost predicate PassSteps(events: seq<Event>, now: int) {
    && Plain(events)
    && forall j | 0 <= j < |events| :: !events[j].Scrape? && (events[j].Open? ==> events[j].now == now)
  }

  /** A file that cannot be read from its position: opened, then given up. */
  lemma SeekFails(cfg: Config, s: System, now: int) returns (events: seq<Event>, t: System)
    requires CanTick(s)
    ensures RunsTo(cfg, s, events, t) && CanTick(t) && t.files == s.files && t.history == s.history
    ensures PassSteps(events, now)
    ensures var f := s.files[|s.files| - 1];
      StageOf(t) == Stage(s.metrics, StartPosition(s.lastInode, s.lastPos, f.inode, |f.content|), f.inode)
  {
    var begun := Apply(cfg, s, Open(now));
    RunsOne(cfg, s, Open(now));
    RunsOne(cfg, begun, GiveUp);
    t := Apply(cfg, begun, GiveUp);
    RunsOn(cfg, s, [Open(now)], begun, [GiveUp], t);
    events := [Open(now)] + [GiveUp];
  }

  /** The four steps of an undisturbed pass compose to what ParseLogFile does at once. */
  lemma PassIsFourSteps(cfg: Config, s: System, upTo: nat, now: int) returns (events: seq<Event>, t: System)
    requires CanTick(s)
    ensures RunsTo(cfg, s, events, t) && CanTick(t) && t.files == s.files
    ensures |events| == 4 && PassSteps(events, now)
    ensures t.gen == |s.files| - 1 && t.merged == s.merged[t.gen := t.lastPos]
    ensures var found := OpenedFile(s.files[|s.files| - 1], true);
      && StageOf(t) == AfterPass(cfg, StageOf(s), found, upTo, now)
      && t.history == s.history + TickBatch(cfg, StageOf(s), ParseTick(found, upTo, now))
  {
    var begun := Apply(cfg, s, Open(now));
    OpenBegins(cfg, s, now);
    RunsOne(cfg, s, Open(now));
    var rest;
    rest, t := FinishPass(cfg, begun, upTo, now);
    FinishedIsAfterPass(cfg, s, begun, upTo, now, t);
    RunsOn(cfg, s, [Open(now)], begun, rest, t);
    events := [Open(now)] + rest;
  }

  lemma PassIsARun(cfg: Config, s: System, found: OpenResult, upTo: nat, now: int)
    returns (events: seq<Event>, t: System)
    requires CanTick(s) && (found.OpenedFile? ==> found.file == s.files[|s.files| - 1])
    ensures RunsTo(cfg, s, events, t) && CanTick(t) && t.files == s.files && Plain(events)
    ensures StageOf(t) == AfterPass(cfg, StageOf(s), found, upTo, now)
    ensures t.history == s.history + TickBatch(cfg, StageOf(s), ParseTick(found, upTo, now))
  {
    if found.Failed? {
      events, t := [], s;
    } else if !found.seekOk {
      events, t := SeekFails(cfg, s, now);
    } else {
      events, t := PassIsFourSteps(cfg, s, upTo, now);
    }
  }

  /** Where reading, merging and committing leads from an opened file. */
  ghost predicate IsFinished(cfg: Config, begun: System, upTo: nat, done: System)
    requires begun.control.Opened? && begun.gen < |begun.files| == |begun.merged|
  {
    var data := Readable(begun.files[begun.gen].content, begun.control.start, upTo);
    var batch := BatchOf(data, begun.control.cutoff);
    && StageOf(done)
       == AfterRead(cfg, Stage(begun.metrics, begun.control.start, begun.lastInode), data, begun.control.cutoff)
    && done.history == begun.history + batch
    && done.control.Idle? && done.files == begun.files && done.gen == begun.gen
    && done.merged == begun.merged[begun.gen := done.lastPos]
  }

  /** What opening the file leaves to be read. */
  ghost predicate IsBegun(cfg: Config, s: System, now: int, begun: System)
    requires CanTick(s)
  {
    var f := s.files[|s.files| - 1];
    && begun.control == Opened(StartPosition(s.lastInode, s.lastPos, f.inode, |f.content|), now - cfg.window)
    && begun.files == s.files && begun.merged == s.merged && begun.gen == |s.files| - 1
    && begun.lastInode == f.inode && begun.metrics == s.metrics && begun.history == s.history
  }

  lemma OpenBegins(cfg: Config, s: System, now: int)
    requires CanTick(s)
    ensures Enabled(s, Open(now)) && IsBegun(cfg, s, now, Apply(cfg, s, Open(now)))
  {}

  lemma FinishedIsAfterPass(cfg: Config, s: System, begun: System, upTo: nat, now: int, done: System)
    requires CanTick(s) && IsBegun(cfg, s, now, begun) && IsFinished(cfg, begun, upTo, done)
    ensures CanTick(done) && done.files == s.files
    ensures done.gen == |s.files| - 1 && done.merged == s.merged[done.gen := done.lastPos]
    ensures var found := OpenedFile(s.files[|s.files| - 1], true);
      && StageOf(done) == AfterPass(cfg, StageOf(s), found, upTo, now)
      && done.history == s.history + TickBatch(cfg, StageOf(s), ParseTick(found, upTo, now))
  {}

  lemma FinishPass(cfg: Config, begun: System, upTo: nat, now: int) returns (events: seq<Event>, done: System)
    requires begun.control.Opened? && begun.gen < |begun.files| == |begun.merged|
    ensures RunsTo(cfg, begun, events, done) && |events| == 3 && PassSteps(events, now)
    ensures IsFinished(cfg, begun, upTo, done)
  {
    var read := Apply(cfg, begun, Read(upTo));
    var merged := Apply(cfg, read, Merge);
    done := Apply(cfg, merged, Commit);
    RunsOne(cfg, begun, Read(upTo));
    RunsOne(cfg, read, Merge);
    RunsOne(cfg, merged, Commit);
    RunsOn(cfg, read, [Merge], merged, [Commit], done);
    RunsOn(cfg, begun, [Read(upTo)], read, [Merge] + [Commit], done);
    events := [Read(upTo)] + ([Merge] + [Commit]);
  }

  /** A tick that finds the current file, up to its trim. */
  lemma TickPasses(cfg: Config, s: System, tick: Tick) returns (events: seq<Event>, mid: System)
    requires CanTick(s) && (Opens(tick) ==> tick.found.file == s.files[|s.files| - 1])
    ensures RunsTo(cfg, s, events, mid) && CanTick(mid) && mid.files == s.files && Plain(events)
    ensures StageOf(mid) == Passed(cfg, StageOf(s), tick)
    ensures mid.history == s.history + TickBatch(cfg, StageOf(s), tick)
  {
    if tick.CleanupTick? {
      events, mid := [], s;
    } else {
      events, mid := PassIsARun(cfg, s, tick.found, tick.upTo, tick.now);
    }
  }

  lemma TickThenTrims(cfg: Config, s: Stage, tick: Tick, after: Stage)
    requires TickDone(cfg, s, tick, after)
    ensures if TickTrims(cfg, s, tick) then IsTrim(Passed(cfg, s, tick), after) else after == Passed(cfg, s, tick)
  {}

  lemma TrimIsAStep(cfg: Config, s: System, after: Stage) returns (t: System)
    requires CanTick(s) && IsTrim(StageOf(s), after)
    ensures Enabled(s, Trim(after.metrics.counts)) && t == Apply(cfg, s, Trim(after.metrics.counts))
    ensures CanTick(t) && t.files == s.files && StageOf(t) == after && t.history == s.history
  {
    t := Apply(cfg, s, Trim(after.metrics.counts));
  }

  /** A tick that finds the current file is a stretch of a run. */
  lemma TickIsARun(cfg: Config, s: System, tick: Tick, after: Stage) returns (events: seq<Event>, t: System)
    requires CanTick(s) && TickDone(cfg, StageOf(s), tick, after)
    requires Opens(tick) ==> tick.found.file == s.files[|s.files| - 1]
    ensures RunsTo(cfg, s, events, t) && CanTick(t) && t.files == s.files
    ensures StageOf(t) == after && t.history == s.history + TickBatch(cfg, StageOf(s), tick)
  {
    events, t := TickPasses(cfg, s, tick);
    TickThenTrims(cfg, StageOf(s), tick, after);
    if TickTrims(cfg, StageOf(s), tick) {
      var passed, trim := t, Trim(after.metrics.counts);
      t := TrimIsAStep(cfg, passed, after);
      RunsOne(cfg, passed, trim);
      RunsOn(cfg, s, events, passed, [trim], t);
      events := events + [trim];
    }
  }

  // ---------- the loop ----------

  /** The lines merged by the first n ticks. */
  function LoopHistory(cfg: Config, ticks: seq<Tick>, trace: seq<Stage>, n: nat): seq<Seen>
    requires n <= |ticks| < |trace|
  {
    if n == 0 then [] else LoopHistory(cfg, ticks, trace, n - 1) + TickBatch(cfg, trace[n - 1], ticks[n - 1])
  }

  /** What the latest of the first n ticks that could open the log found there. */
  function LastFound(first: File, ticks: seq<Tick>, n: nat): File
    requires n <= |ticks|
  {
    if n == 0 then first else if Opens(ticks[n - 1]) then ticks[n - 1].found.file else LastFound(first, ticks, n - 1)
  }

  predicate Extends(f: File, g: File) {
    f.inode == g.inode && f.content <= g.content
  }

  /** Every file found is the one found before, or an extension of it. */
  predicate Tailed(first: File, ticks: seq<Tick>, n: nat)
    requires n <= |ticks|
  {
    forall i | 0 <= i < n :: Continues(first, ticks, i)
  }

  predicate Continues(first: File, ticks: seq<Tick>, i: nat)
    requires i < |ticks|
  {
    Opens(ticks[i]) ==> Extends(LastFound(first, ticks, i), ticks[i].found.file)
  }

  lemma TailedBefore(first: File, ticks: seq<Tick>, n: nat)
    requires n < |ticks|
    ensures Tailed(first, ticks, n + 1) <==> Tailed(first, ticks, n) && Continues(first, ticks, n)
  {}

  /** `trace` is what some ticks leave, one after the other, from a new parser on. */
  ghost predicate IsLoopTrace(cfg: Config, ticks: seq<Tick>, trace: seq<Stage>) {
    |trace| == |ticks| + 1 && IsLoopRun(cfg, Stage(EMPTY_METRICS, 0, 0), ticks, trace, trace[|ticks|])
  }

  /** A state in which one of the first n ticks trimmed. */
  ghost predicate TrimmedAt(cfg: Config, ticks: seq<Tick>, trace: seq<Stage>, n: nat, s: System)
    requires n <= |ticks| < |trace|
  {
    exists i | 0 <= i < n :: TrimmedBy(cfg, ticks, trace, i, s)
  }

  ghost predicate TrimmedBy(cfg: Config, ticks: seq<Tick>, trace: seq<Stage>, i: nat, s: System)
    requires i < |ticks| < |trace|
  {
    && TickTrims(cfg, trace[i], ticks[i])
    && s.metrics == Passed(cfg, trace[i], ticks[i]).metrics
    && s.history == LoopHistory(cfg, ticks, trace, i + 1)
  }

  /** A run that does what the first n ticks do; it replaces the log only if the ticks found it replaced. */
  ghost predicate Embeds(cfg: Config, first: File, ticks: seq<Tick>, trace: seq<Stage>, n: nat,
                         states: seq<System>, events: seq<Event>)
    requires n <= |ticks| < |trace|
  {
    && IsRun(cfg, states, events)
    && IsAt(cfg, first, ticks, trace, n, states[|events|])
    && TrimsAccounted(cfg, ticks, trace, n, states, events)
    && OnlyTailed(first, ticks, n, events)
  }

  ghost predicate OnlyTailed(first: File, ticks: seq<Tick>, n: nat, events: seq<Event>)
    requires n <= |ticks|
  {
    NoTruncation(events) && (Tailed(first, ticks, n) ==> NoRotation(events))
  }

  lemma TailedOneMore(first: File, ticks: seq<Tick>, n: nat, events: seq<Event>, more: seq<Event>)
    requires n < |ticks| && OnlyTailed(first, ticks, n, events) && OnlyTailed(first, ticks, n + 1, more)
    ensures OnlyTailed(first, ticks, n + 1, events + more)
  {
    TailedBefore(first, ticks, n);
    BothStretches(events, more);
  }

  /** The state after n ticks. */
  ghost predicate IsAt(cfg: Config, first: File, ticks: seq<Tick>, trace: seq<Stage>, n: nat, s: System)
    requires n <= |ticks| < |trace|
  {
    && CanTick(s) && StageOf(s) == trace[n]
    && s.history == LoopHistory(cfg, ticks, trace, n)
    && s.files[|s.files| - 1] == LastFound(first, ticks, n)
  }

  /** Before a tick the writer appends, or replaces the log, so that the tick finds what it found. */
  lemma WriterPrepares(cfg: Config, s: System, tick: Tick) returns (events: seq<Event>, t: System)
    requires CanTick(s)
    ensures RunsTo(cfg, s, events, t) && CanTick(t) && StageOf(t) == StageOf(s) && t.history == s.history
    ensures t.files[|t.files| - 1] == if Opens(tick) then tick.found.file else s.files[|s.files| - 1]
    ensures NoTrims(events) && NoTruncation(events)
    ensures (Opens(tick) ==> Extends(s.files[|s.files| - 1], tick.found.file)) ==> NoRotation(events)
  {
    if !Opens(tick) {
      events, t := [], s;
    } else {
      var g, f := |s.files| - 1, tick.found.file;
      var e := if Extends(s.files[g], f) then Append(g, f.content[|s.files[g].content|..])
               else Rotate(f.inode, f.content);
      events, t := [e], Apply(cfg, s, e);
      RunsOne(cfg, s, e);
    }
  }

  /** One more tick up to its trim, after whatever the writer did before it. */
  lemma OneMorePass(cfg: Config, first: File, ticks: seq<Tick>, trace: seq<Stage>, n: nat, s: System)
    returns (events: seq<Event>, mid: System)
    requires n < |ticks| < |trace| && IsAt(cfg, first, ticks, trace, n, s)
    ensures RunsTo(cfg, s, events, mid) && IsReady(cfg, first, ticks, trace, n, mid)
    ensures NoTrims(events) && OnlyTailed(first, ticks, n + 1, events)
  {
    TailedBefore(first, ticks, n);
    var env, ready := WriterPrepares(cfg, s, ticks[n]);
    var steps;
    steps, mid := TickPasses(cfg, ready, ticks[n]);
    RunsOn(cfg, s, env, ready, steps, mid);
    BothStretches(env, steps);
    events := env + steps;
  }

  /** The state in which tick n may trim. */
  ghost predicate IsReady(cfg: Config, first: File, ticks: seq<Tick>, trace: seq<Stage>, n: nat, s: System)
    requires n < |ticks| < |trace|
  {
    && CanTick(s) && StageOf(s) == Passed(cfg, trace[n], ticks[n])
    && s.history == LoopHistory(cfg, ticks, trace, n + 1)
    && s.files[|s.files| - 1] == LastFound(first, ticks, n + 1)
  }

  ghost predicate TrimsAccounted(cfg: Config, ticks: seq<Tick>, trace: seq<Stage>, n: nat,
                                 states: seq<System>, events: seq<Event>)
    requires n <= |ticks| < |trace| && |events| <= |states|
  {
    forall j | 0 <= j < |events| && events[j].Trim? :: TrimmedAt(cfg, ticks, trace, n, states[j])
  }

  lemma StillTrimmedAt(cfg: Config, ticks: seq<Tick>, trace: seq<Stage>, n: nat, s: System)
    requires n < |ticks| < |trace| && TrimmedAt(cfg, ticks, trace, n, s)
    ensures TrimmedAt(cfg, ticks, trace, n + 1, s)
  {
    var i :| 0 <= i < n && TrimmedBy(cfg, ticks, trace, i, s);
  }

  lemma StillAccounted(cfg: Config, ticks: seq<Tick>, trace: seq<Stage>, n: nat,
                       states: seq<System>, events: seq<Event>, states': seq<System>, more: seq<Event>)
    requires n < |ticks| < |trace| && |events| < |states| && states <= states' && |states'| == |events + more| + 1
    requires TrimsAccounted(cfg, ticks, trace, n, states, events) && NoTrims(more)
    ensures TrimsAccounted(cfg, ticks, trace, n + 1, states', events + more)
  {
    var all := events + more;
    assert forall j | |events| <= j < |all| :: all[j] == more[j - |events|];
    forall j | 0 <= j < |all| && all[j].Trim? ensures TrimmedAt(cfg, ticks, trace, n + 1, states'[j]) {
      StillTrimmedAt(cfg, ticks, trace, n, states[j]);
    }
  }

  lemma LastAccounted(cfg: Config, ticks: seq<Tick>, trace: seq<Stage>, n: nat,
                      states: seq<System>, events: seq<Event>, e: Event, t: System)
    requires n < |ticks| < |trace| && |states| == |events| + 1
    requires TrimsAccounted(cfg, ticks, trace, n + 1, states, events)
    requires TrimmedBy(cfg, ticks, trace, n, states[|events|])
    ensures TrimsAccounted(cfg, ticks, trace, n + 1, states + [t], events + [e])
  {
    assert TrimmedAt(cfg, ticks, trace, n + 1, states[|events|]);
  }

  lemma EmbedsOneMore(cfg: Config, first: File, ticks: seq<Tick>, trace: seq<Stage>, n: nat,
                      states: seq<System>, events: seq<Event>) returns (states': seq<System>, events': seq<Event>)
    requires IsLoopTrace(cfg, ticks, trace) && n < |ticks|
    requires Embeds(cfg, first, ticks, trace, n, states, events)
    ensures Embeds(cfg, first, ticks, trace, n + 1, states', events')
  {
    var more, mid := OneMorePass(cfg, first, ticks, trace, n, states[|events|]);
    states' := RunExtends(cfg, states, events, more, mid);
    events' := events + more;
    StillAccounted(cfg, ticks, trace, n, states, events, states', more);
    TailedOneMore(first, ticks, n, events, more);
    assert IsTick(cfg, ticks, trace, n);
    TickThenTrims(cfg, trace[n], ticks[n], trace[n + 1]);
    if TickTrims(cfg, trace[n], ticks[n]) {
      var trim := Trim(trace[n + 1].metrics.counts);
      var t := TrimIsAt(cfg, first, ticks, trace, n, mid);
      EmbedsTrim(cfg, first, ticks, trace, n, states', events', trim, t);
      states', events' := states' + [t], events' + [trim];
    }
  }

  lemma TrimIsAt(cfg: Config, first: File, ticks: seq<Tick>, trace: seq<Stage>, n: nat, s: System) returns (t: System)
    requires n < |ticks| < |trace| && IsReady(cfg, first, ticks, trace, n, s)
    requires IsTrim(Passed(cfg, trace[n], ticks[n]), trace[n + 1])
    ensures var trim := Trim(trace[n + 1].metrics.counts); Enabled(s, trim) && t == Apply(cfg, s, trim)
    ensures IsAt(cfg, first, ticks, trace, n + 1, t)
  {
    t := TrimIsAStep(cfg, s, trace[n + 1]);
  }

  /** The trim that ends tick n, if it trims. */
  lemma EmbedsTrim(cfg: Config, first: File, ticks: seq<Tick>, trace: seq<Stage>, n: nat,
                   states: seq<System>, events: seq<Event>, trim: Event, t: System)
    requires n < |ticks| < |trace| && IsRun(cfg, states, events) && OnlyTailed(first, ticks, n + 1, events)
    requires TrimsAccounted(cfg, ticks, trace, n + 1, states, events)
    requires TrimmedBy(cfg, ticks, trace, n, states[|events|])
    requires trim.Trim? && Enabled(states[|events|], trim) && t == Apply(cfg, states[|events|], trim)
    requires IsAt(cfg, first, ticks, trace, n + 1, t)
    ensures Embeds(cfg, first, ticks, trace, n + 1, states + [t], events + [trim])
  {
    RunStep(cfg, states, events, trim);
    LastAccounted(cfg, ticks, trace, n, states, events, trim, t);
    TailedTrim(first, ticks, n + 1, events, trim);
  }

  lemma TailedTrim(first: File, ticks: seq<Tick>, n: nat, events: seq<Event>, trim: Event)
    requires n <= |ticks| && OnlyTailed(first, ticks, n, events) && trim.Trim?
    ensures OnlyTailed(first, ticks, n, events + [trim])
  {
    BothStretches(events, [trim]);
  }

  lemma NothingYetEmbeds(cfg: Config, first: File, ticks: seq<Tick>, trace: seq<Stage>)
    requires IsLoopTrace(cfg, ticks, trace) && first.inode != 0
    ensures Embeds(cfg, first, ticks, trace, 0, [Initial(first)], [])
  {
    assert IsInitial(Initial(first));
  }

  /** Every trace of the loop is embedded in a run of the transition system. */
  lemma {:induction false} LoopIsARun(cfg: Config, first: File, ticks: seq<Tick>, trace: seq<Stage>, n: nat)
    returns (states: seq<System>, events: seq<Event>)
    requires IsLoopTrace(cfg, ticks, trace) && first.inode != 0 && n <= |ticks|
    ensures Embeds(cfg, first, ticks, trace, n, states, events)
  {
    if n == 0 {
      states, events := [Initial(first)], [];
      NothingYetEmbeds(cfg, first, ticks, trace);
    } else {
      var states', events' := LoopIsARun(cfg, first, ticks, trace, n - 1);
      states, events := EmbedsOneMore(cfg, first, ticks, trace, n - 1, states', events');
    }
  }

  // ---------- what ParseLoop leaves behind ----------

  /** Whatever the loop found and whenever it trimmed: no count is overstated, and a key that had few rivals at every
      trim is counted exactly. */
  lemma LoopCounts(cfg: Config, ticks: seq<Tick>, trace: seq<Stage>, cat: Category, k: string)
    requires IsLoopTrace(cfg, ticks, trace)
    ensures var counts := trace[|ticks|].metrics.counts.Of(cat);
      var bag := Bag(cfg.reader, cat, LoopHistory(cfg, ticks, trace, |ticks|));
      && Understates(counts, bag)
      && (FewRivalsAtTrims(cfg, ticks, trace, cat, k) ==> Get(counts, k) == bag[k])
  {
    var states, events := LoopIsARun(cfg, File(1, ""), ticks, trace, |ticks|);
    CountsConserved(cfg, states, events, cat, |events|);
    if FewRivalsAtTrims(cfg, ticks, trace, cat, k) {
      forall j | 0 <= j < |events| ensures FewRivalsAt(cfg, states[j], events[j], cat, k) {
        if events[j].Trim? {
          var i := WhichTick(cfg, ticks, trace, states, events, j);
          assert FewRivalsAfter(cfg, ticks, trace, cat, k, i);
        }
      }
      HeavyHittersExact(cfg, states, events, cat, k, |events|);
    }
  }

  lemma WhichTick(cfg: Config, ticks: seq<Tick>, trace: seq<Stage>, states: seq<System>, events: seq<Event>, j: nat)
    returns (i: nat)
    requires |ticks| < |trace| && j < |events| <= |states| && events[j].Trim?
    requires TrimsAccounted(cfg, ticks, trace, |ticks|, states, events)
    ensures i < |ticks| && TrimmedBy(cfg, ticks, trace, i, states[j])
  {
    assert TrimmedAt(cfg, ticks, trace, |ticks|, states[j]);
    i :| 0 <= i < |ticks| && TrimmedBy(cfg, ticks, trace, i, states[j]);
  }

  ghost predicate FewRivalsAtTrims(cfg: Config, ticks: seq<Tick>, trace: seq<Stage>, cat: Category, k: string)
    requires |ticks| < |trace|
  {
    forall i | 0 <= i < |ticks| :: FewRivalsAfter(cfg, ticks, trace, cat, k, i)
  }

  /** If tick i trims, key k then has fewer rivals than there are places. */
  ghost predicate FewRivalsAfter(cfg: Config, ticks: seq<Tick>, trace: seq<Stage>, cat: Category, k: string, i: nat)
    requires i < |ticks| < |trace|
  {
    var bag := Bag(cfg.reader, cat, LoopHistory(cfg, ticks, trace, i + 1));
    TickTrims(cfg, trace[i], ticks[i]) && k in bag ==> |Rivals(bag, k)| < Limit(cat)
  }

  /** The trim of tick i, if it trims, finds the map within its limit and so removes nothing. */
  ghost predicate TickCutsNothing(cfg: Config, ticks: seq<Tick>, trace: seq<Stage>, cat: Category, i: nat)
    requires i < |ticks| < |trace|
  {
    TickTrims(cfg, trace[i], ticks[i]) ==> |Passed(cfg, trace[i], ticks[i]).metrics.counts.Of(cat)| <= Limit(cat)
  }

  /** While the log is only appended to and no trim finds more entries than it keeps, the loop's counts are the
      histogram of the complete lines before its position, whatever the ticks saw of the file and however far they
      read. */
  lemma LoopCountsOnce(fx: Foreign, cfg: Config, inode: nat, ticks: seq<Tick>, trace: seq<Stage>, cat: Category)
    requires IsLoopTrace(cfg, ticks, trace) && inode != 0 && Tailed(File(inode, ""), ticks, |ticks|)
    requires forall i | 0 <= i < |ticks| :: TickCutsNothing(cfg, ticks, trace, cat, i)
    requires cfg.reader == ReaderOf(fx) && (cat.Domains? || cat.DirectIPs? || cat.Outbounds?)
    ensures var content, end := LastFound(File(inode, ""), ticks, |ticks|).content, trace[|ticks|];
      && IsBoundary(content, end.lastPos)
      && Tallies(end.metrics.counts.Of(cat), Bag(cfg.reader, cat, BatchOf(content[..end.lastPos], 0)))
      && ('\n' !in content[end.lastPos..] ==>
            Tallies(end.metrics.counts.Of(cat), Bag(cfg.reader, cat, BatchOf(content, 0))))
  {
    var states, events := LoopIsARun(cfg, File(inode, ""), ticks, trace, |ticks|);
    forall j | 0 <= j < |events| ensures CutsNothing(states[j], events[j], cat) {
      if events[j].Trim? {
        var i := WhichTick(cfg, ticks, trace, states, events, j);
        assert TickCutsNothing(cfg, ticks, trace, cat, i);
      }
    }
    AgeDoesNotMatter(fx, cat);
    TailedFileCountedOnce(cfg, states, events, cat, |events|);
  }

  // ---------- what happens without the assumption on replacements ----------

  lemma Truncated(cfg: Config, s: System, content: string) returns (t: System)
    requires CanTick(s)
    ensures RunsTo(cfg, s, [Truncate(content)], t) && CanTick(t) && StageOf(t) == StageOf(s) && t.history == s.history
    ensures t.files == s.files + [File(s.files[|s.files| - 1].inode, content)] && t.merged == s.merged + [0]
  {
    t := Apply(cfg, s, Truncate(content));
    RunsOne(cfg, s, Truncate(content));
  }

  /** The parser has caught up with the new content of a truncated file, but merged only the lines after its old
      position. */
  ghost predicate HasLost(s: System, inode: nat, before: string, after: string)
    requires Consumed(before) <= |after|
  {
    && s.files == [File(inode, before), File(inode, after)] && s.control.Idle?
    && s.lastPos <= |after| && '\n' !in after[s.lastPos..]
    && Lines(s.history) == TrimAll(RawLines(before)) + TrimAll(RawLines(after[Consumed(before)..]))
    && |RawLines(after[Consumed(before)..])| < |RawLines(after)|
    && !ExactlyOnce(s)
  }

  /** A log truncated after a full pass, and grown past the saved position again before the next one: the lines that end
      before that position are never merged, although the parser believes it has caught up. */
  lemma UndetectedTruncationLoses(cfg: Config, inode: nat, before: string, after: string)
    returns (states: seq<System>, events: seq<Event>)
    requires inode != 0 && 0 < Consumed(before) <= |after| && '\n' in after[..Consumed(before)]
    ensures IsRun(cfg, states, events) && HasLost(states[|events|], inode, before, after)
  {
    var before', pass := FirstPassRun(cfg, inode, before);
    var s1 := before'[|pass|];
    var s2 := Truncated(cfg, s1, after);
    var next, s3 := FullPass(cfg, s2, File(inode, after));
    RunsOn(cfg, s1, [Truncate(after)], s2, next, s3);
    events := pass + ([Truncate(after)] + next);
    states := RunExtends(cfg, before', pass, [Truncate(after)] + next, s3);
    LinesAreMissing(s3, inode, before, after);
  }

  /** A full pass over the first file. */
  lemma FirstPassRun(cfg: Config, inode: nat, content: string) returns (states: seq<System>, events: seq<Event>)
    requires inode != 0
    ensures IsRun(cfg, states, events)
    ensures var s := states[|events|];
      && CanTick(s) && s.files == [File(inode, content)] && s.gen == 0 && s.lastInode == inode
      && s.lastPos == Consumed(content) && s.merged == [Consumed(content)]
      && Lines(s.history) == TrimAll(RawLines(content))
  {
    var s0 := Initial(File(inode, content));
    assert IsInitial(s0);
    var s1;
    events, s1 := FullPass(cfg, s0, File(inode, content));
    states := RunExtends(cfg, [s0], [], events, s1);
    assert [] + events == events;
    assert content[0..] == content;
    assert [] + TrimAll(RawLines(content)) == TrimAll(RawLines(content));
  }

  /** The same when the truncation comes after the file was opened and before it is read: the pass reads on at its old
      position in the new content. */
  lemma TruncationMidPassLoses(cfg: Config, inode: nat, before: string, after: string)
    returns (states: seq<System>, events: seq<Event>)
    requires inode != 0 && 0 < Consumed(before) <= |after| && '\n' in after[..Consumed(before)]
    ensures IsRun(cfg, states, events) && HasLost(states[|events|], inode, before, after)
  {
    var before', pass := FirstPassRun(cfg, inode, before);
    var next, s3 := PassTruncated(cfg, before'[|pass|], after);
    events := pass + next;
    states := RunExtends(cfg, before', pass, next, s3);
    LinesAreMissing(s3, inode, before, after);
  }

  lemma TruncatedWhileOpen(cfg: Config, s: System, after: string) returns (t: System)
    requires s.control.Opened? && s.files != [] && s.gen == |s.files| - 1
    ensures RunsTo(cfg, s, [Truncate(after)], t)
    ensures t == s.(files := s.files + [File(s.files[s.gen].inode, after)], merged := s.merged + [0], gen := |s.files|)
  {
    t := Apply(cfg, s, Truncate(after));
    RunsOne(cfg, s, Truncate(after));
  }

  lemma PassTruncated(cfg: Config, s: System, after: string) returns (events: seq<Event>, t: System)
    requires CanTick(s) && s.gen == |s.files| - 1 && s.lastInode == s.files[s.gen].inode != 0
    requires s.lastPos <= |s.files[s.gen].content| && s.lastPos <= |after|
    ensures RunsTo(cfg, s, events, t) && CanTick(t)
    ensures t.files == s.files + [File(s.lastInode, after)]
    ensures t.lastPos == s.lastPos + Consumed(after[s.lastPos..]) && t.merged == s.merged + [t.lastPos]
    ensures Lines(t.history) == Lines(s.history) + TrimAll(RawLines(after[s.lastPos..]))
  {
    var begun := Apply(cfg, s, Open(0));
    OpenBegins(cfg, s, 0);
    RunsOne(cfg, s, Open(0));
    var truncated := TruncatedWhileOpen(cfg, begun, after);
    var rest;
    rest, t := FinishPass(cfg, truncated, |after|, 0);
    RunsOn(cfg, begun, [Truncate(after)], truncated, rest, t);
    RunsOn(cfg, s, [Open(0)], begun, [Truncate(after)] + rest, t);
    events := [Open(0)] + ([Truncate(after)] + rest);
    assert Readable(after, s.lastPos, |after|) == after[s.lastPos..];
    LinesOfMark(TrimAll(RawLines(after[s.lastPos..])), 0 - cfg.window);
    LinesConcatenate(s.history, BatchOf(after[s.lastPos..], 0 - cfg.window));
  }

  /** A pass over the whole file, from where the parser resumes. */
  lemma FullPass(cfg: Config, s: System, f: File) returns (events: seq<Event>, t: System)
    requires CanTick(s) && f == s.files[|s.files| - 1]
    requires StartPosition(s.lastInode, s.lastPos, f.inode, |f.content|) <= |f.content|
    ensures RunsTo(cfg, s, events, t) && CanTick(t) && t.files == s.files
    ensures var start := StartPosition(s.lastInode, s.lastPos, f.inode, |f.content|);
      && t.lastInode == f.inode && t.lastPos == start + Consumed(f.content[start..])
      && t.gen == |s.files| - 1 && t.merged == s.merged[t.gen := t.lastPos]
      && Lines(t.history) == Lines(s.history) + TrimAll(RawLines(f.content[start..]))
  {
    events, t := PassIsFourSteps(cfg, s, |f.content|, 0);
    WholeFile(cfg, StageOf(s), f, 0);
    LinesConcatenate(s.history, TickBatch(cfg, StageOf(s), ParseTick(OpenedFile(f, true), |f.content|, 0)));
  }

  /** What a pass over the whole file merges, and where it ends. */
  lemma WholeFile(cfg: Config, s: Stage, f: File, now: int)
    requires StartPosition(s.lastInode, s.lastPos, f.inode, |f.content|) <= |f.content|
    ensures var start := StartPosition(s.lastInode, s.lastPos, f.inode, |f.content|);
      var rest, upTo, found := f.content[start..], |f.content|, OpenedFile(f, true);
      var batch := BatchOf(rest, now - cfg.window);
      && TickBatch(cfg, s, ParseTick(found, upTo, now)) == batch && Lines(batch) == TrimAll(RawLines(rest))
      && AfterPass(cfg, s, found, upTo, now)
         == AfterRead(cfg, Stage(s.metrics, start, f.inode), rest, now - cfg.window)
  {
    var start := StartPosition(s.lastInode, s.lastPos, f.inode, |f.content|);
    assert Readable(f.content, start, |f.content|) == f.content[start..];
    LinesOfMark(TrimAll(RawLines(f.content[start..])), now - cfg.window);
  }

  lemma LinesAreMissing(s: System, inode: nat, before: string, after: string)
    requires s.files == [File(inode, before), File(inode, after)] && 0 < Consumed(before) <= |after| && s.control.Idle?
    requires '\n' in after[..Consumed(before)]
    requires s.lastPos == Consumed(before) + Consumed(after[Consumed(before)..])
    requires s.merged == [Consumed(before), s.lastPos]
    requires Lines(s.history) == TrimAll(RawLines(before)) + TrimAll(RawLines(after[Consumed(before)..]))
    ensures HasLost(s, inode, before, after)
  {
    var p, lines := Consumed(before), TrimAll(RawLines(before));
    FewerLines(after, p);
    ConsumedStops(after[p..]);
    assert after[s.lastPos..] == after[p..][Consumed(after[p..])..];
    ConsumedHasAllLines(before);
    if IsBoundary(after, s.lastPos) {
      AllLinesBefore(after, s.lastPos);
      assert LinesPerFile(s.files, s.merged) == [lines, TrimAll(RawLines(after))];
      FlattenTwo(lines, TrimAll(RawLines(after)));
      assert |Lines(s.history)| < |ConsumedLines(s.files, s.merged)|;
    }
  }

  lemma FlattenTwo(a: seq<string>, b: seq<string>)
    ensures Flatten([a, b]) == a + b
  {
    assert [a, b][..1] == [a];
    FlattenOne(a);
  }
}
