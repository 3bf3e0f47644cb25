/** The log writer, the parser goroutine and the scrapers as one interleaved state machine. */
module LogSystem {
  import opened ConnectionWindow
  import opened LogText
  import opened Traffic
  import opened TopN

  type Capacity = n: nat | 0 < n witness 1

  datatype Config = Config(reader: Reader, window: int, cap: Capacity)

  /** One generation of the log: a rotation or a truncation starts the next. */
  datatype File = File(inode: nat, content: string)

  /** Where the parser goroutine is inside parseLogFile. */
  datatype Control =
    | Idle
    | Opened(start: nat, cutoff: int)
    | Batched(newPos: nat, batch: seq<Seen>)
    | Merged(newPos: nat, batch: seq<Seen>)

  /** Besides the program's own fields: `gen` is the generation last opened, `history` the lines merged
      so far, and `merged[g]` how far into generation g they reach. */
  datatype System = System(
    files: seq<File>, gen: nat,
    lastPos: nat, lastInode: nat, control: Control,
    metrics: Metrics,
    history: seq<Seen>, merged: seq<nat>)

  datatype Event =
    | Append(file: nat, bytes: string)        // the writer; it may still hold a rotated file open
    | Rotate(inode: nat, content: string)
    | Truncate(content: string)
    | Open(now: int)                          // open, stat, choose the position, read the clock
    | GiveUp                                  // the seek failed
    | Read(upTo: nat)                         // read until end of file, or until a read error
    | Merge
    | Commit
    | Trim(after: CountMaps)
    | Scrape(now: int)

  function Limit(cat: Category): nat {
    match cat
    case Outbounds => 10
    case _ => 20
  }

  // ---------- the pass ----------

  /** parseLogFile's choice between a first run, a rotated file, a truncated file and plain growth. */
  function StartPosition(lastInode: nat, lastPos: nat, inode: nat, size: nat): nat {
    if lastInode == 0 then lastPos
    else if inode != lastInode then 0
    else if lastPos > size then 0
    else lastPos
  }

  function Mark(lines: seq<string>, cutoff: int): (r: seq<Seen>)
    ensures |r| == |lines|
  {
    seq(|lines|, i requires 0 <= i < |lines| => Seen(lines[i], cutoff))
  }

  function BatchOf(data: string, cutoff: int): seq<Seen> {
    Mark(TrimAll(RawLines(data)), cutoff)
  }

  function Lines(history: seq<Seen>): (r: seq<string>)
    ensures |r| == |history|
  {
    seq(|history|, i requires 0 <= i < |history| => history[i].line)
  }

  /** The bytes a pass gets to see: none when it starts at or after the end. */
  function Readable(content: string, start: nat, upTo: nat): string {
    if start <= upTo <= |content| then content[start..upTo] else ""
  }

  // ---------- the transition system ----------

  ghost predicate Enabled(s: System, e: Event) {
    match e
    case Append(file, bytes) => file < |s.files|
    case Rotate(inode, content) => true
    case Truncate(content) => s.files != []
    case Open(now) => s.control.Idle? && s.files != []
    case GiveUp => s.control.Opened?
    case Read(upTo) => s.control.Opened? && s.gen < |s.files|
    case Merge => s.control.Batched? && s.gen < |s.merged|
    case Commit => s.control.Merged?
    case Trim(after) => s.control.Idle? &&
      forall cat :: IsTopN(s.metrics.counts.Of(cat), Limit(cat), after.Of(cat))
    case Scrape(now) => true
  }

  function Apply(cfg: Config, s: System, e: Event): System
    requires Enabled(s, e)
  {
    match e
    case Append(g, bytes) =>
      s.(files := s.files[g := s.files[g].(content := s.files[g].content + bytes)])
    case Rotate(inode, content) =>
      s.(files := s.files + [File(inode, content)], merged := s.merged + [0])
    case Truncate(content) =>
      var held := s.control.Opened? && s.gen == |s.files| - 1;    // the open handle sees the new content
      s.(files := s.files + [File(s.files[|s.files| - 1].inode, content)], merged := s.merged + [0],
         gen := if held then |s.files| else s.gen)
    case Open(now) =>
      var g := |s.files| - 1;
      var start := StartPosition(s.lastInode, s.lastPos, s.files[g].inode, |s.files[g].content|);
      s.(gen := g, lastPos := start, lastInode := s.files[g].inode,
         control := Opened(start, now - cfg.window))
    case GiveUp => s.(control := Idle)
    case Read(upTo) =>
      var data := Readable(s.files[s.gen].content, s.control.start, upTo);
      s.(control := Batched(s.control.start + Consumed(data), BatchOf(data, s.control.cutoff)))
    case Merge =>
      var batch := s.control.batch;
      s.(metrics := MergeDelta(s.metrics, DeltaOf(cfg.reader, batch), cfg.cap),
         history := s.history + batch,
         merged := s.merged[s.gen := s.control.newPos],
         control := Merged(s.control.newPos, batch))
    case Commit => s.(lastPos := s.control.newPos, control := Idle)
    case Trim(after) => s.(metrics := s.metrics.(counts := after))
    case Scrape(now) => s.(metrics := Expired(s.metrics, now - cfg.window))
  }

  /** GetMetrics drops every user and every leading connection that is not after the cutoff. */
  function Expired(m: Metrics, cutoff: int): Metrics {
    m.(users := Active(m.users, cutoff), window := Expire(m.window, cutoff))
  }

  function Active(users: map<string, int>, cutoff: int): map<string, int> {
    map ip | ip in users && cutoff < users[ip] :: users[ip]
  }

  ghost predicate IsInitial(s: System) {
    exists f: File :: f.inode != 0 && s == Initial(f)
  }

  function Initial(f: File): System {
    System([f], 0, 0, 0, Idle, EMPTY_METRICS, [], [0])
  }

  /** A whole run: any interleaving of enabled steps of writer, parser and scrapers. */
  ghost predicate IsRun(cfg: Config, states: seq<System>, events: seq<Event>) {
    && |states| == |events| + 1
    && IsInitial(states[0])
    && forall i | 0 <= i < |events| :: IsStep(cfg, states, events, i)
  }

  ghost predicate IsStep(cfg: Config, states: seq<System>, events: seq<Event>, i: nat)
    requires |states| == |events| + 1 && i < |events|
  {
    Enabled(states[i], events[i]) && states[i + 1] == Apply(cfg, states[i], events[i])
  }

  /** What a step does to the metrics and the history: a merge is as if its lines were recorded one by one. */
  ghost predicate Effect(cfg: Config, s: System, e: Event, t: System) {
    match e
    case Merge =>
      && s.control.Batched?
      && t.metrics == Absorb(cfg.reader, s.metrics, s.control.batch, cfg.cap)
      && t.history == s.history + s.control.batch
    case Scrape(now) => t.metrics == Expired(s.metrics, now - cfg.window) && t.history == s.history
    case Trim(after) =>
      && t.metrics == s.metrics.(counts := after) && t.history == s.history
      && forall cat :: IsTopN(s.metrics.counts.Of(cat), Limit(cat), after.Of(cat))
    case _ => t.metrics == s.metrics && t.history == s.history
  }

  lemma StepEffect(cfg: Config, states: seq<System>, events: seq<Event>, i: nat)
    requires IsRun(cfg, states, events) && i < |events|
    ensures Effect(cfg, states[i], events[i], states[i + 1])
  {
    assert IsStep(cfg, states, events, i);
    if events[i].Merge? {
      BatchingIsInvisible(cfg.reader, states[i].metrics, states[i].control.batch, cfg.cap);
    }
  }

  // ---------- exactly-once tailing ----------

  /** The environment assumption: a replaced file is recognisable when the parser next opens it. */
  predicate Detectable(s: System)
    requires s.files != []
  {
    var current := |s.files| - 1;
    || s.gen == current
    || s.files[current].inode != s.lastInode
    || s.lastPos > |s.files[current].content|
    || s.lastPos == 0
  }

  /** What the tailing theorems ask of a step: file identities are not 0, replacements are recognisable when the file is
      opened, and no truncation hits a file between being opened and being read. */
  predicate Recognisable(s: System, e: Event) {
    && (e.Rotate? ==> e.inode != 0)
    && (e.Open? ==> s.files != [] && Detectable(s))
    && (e.Truncate? ==> !s.control.Opened?)
  }

  ghost predicate AllRecognisable(states: seq<System>, events: seq<Event>, i: nat) {
    |states| == |events| + 1 && forall j | 0 <= j < i && j < |events| :: Recognisable(states[j], events[j])
  }

  function LinesUpTo(f: File, p: nat): seq<string>
    requires p <= |f.content|
  {
    TrimAll(RawLines(f.content[..p]))
  }

  function Flatten(parts: seq<seq<string>>): seq<string> {
    if parts == [] then [] else Flatten(parts[..|parts| - 1]) + parts[|parts| - 1]
  }

  function LinesPerFile(files: seq<File>, merged: seq<nat>): (r: seq<seq<string>>)
    requires |files| == |merged|
    requires forall g | 0 <= g < |files| :: merged[g] <= |files[g].content|
    ensures |r| == |files|
  {
    seq(|files|, g requires 0 <= g < |files| => LinesUpTo(files[g], merged[g]))
  }

  /** Every complete line of every generation, up to where the parser got in each. */
  function ConsumedLines(files: seq<File>, merged: seq<nat>): seq<string>
    requires |files| == |merged|
    requires forall g | 0 <= g < |files| :: merged[g] <= |files[g].content|
  {
    Flatten(LinesPerFile(files, merged))
  }

  ghost predicate Positions(s: System) {
    && |s.files| == |s.merged|
    && s.gen < |s.files|
    && (forall g | s.gen < g < |s.files| :: s.merged[g] == 0)
    && (forall g | 0 <= g < |s.files| :: s.files[g].inode != 0 && IsBoundary(s.files[g].content, s.merged[g]))
    && IsBoundary(s.files[s.gen].content, s.lastPos)
    && (s.lastInode == 0 ==> s.control.Idle? && s.lastPos == 0)
    && (s.lastInode != 0 ==> s.lastInode == s.files[s.gen].inode)
    && (!s.control.Merged? ==> s.lastPos == s.merged[s.gen])
    && (s.control.Opened? ==> s.control.start == s.lastPos)
    && ((s.control.Batched? || s.control.Merged?) ==>
          var content, newPos := s.files[s.gen].content, s.control.newPos;
          && s.lastPos <= newPos
          && IsBoundary(content, newPos)
          && Lines(s.control.batch) == TrimAll(RawLines(content[s.lastPos..newPos])))
    && (s.control.Merged? ==> s.merged[s.gen] == s.control.newPos)
  }

  ghost predicate ExactlyOnce(s: System) {
    Positions(s) && Lines(s.history) == ConsumedLines(s.files, s.merged)
  }

  lemma AppendKeepsConsumed(files: seq<File>, merged: seq<nat>, g: nat, bytes: string)
    requires |files| == |merged| && g < |files|
    requires forall i | 0 <= i < |files| :: merged[i] <= |files[i].content|
    ensures var grown := files[g := files[g].(content := files[g].content + bytes)];
      ConsumedLines(grown, merged) == ConsumedLines(files, merged)
  {
    var grown := files[g := files[g].(content := files[g].content + bytes)];
    assert grown[g].content[..merged[g]] == files[g].content[..merged[g]];
    assert LinesPerFile(grown, merged) == LinesPerFile(files, merged);
  }

  lemma NothingYet(f: File)
    ensures LinesUpTo(f, 0) == []
  {
    NoNewline(f.content[..0]);
  }

  lemma NewFileHasNothingConsumed(files: seq<File>, merged: seq<nat>, f: File)
    requires |files| == |merged|
    requires forall i | 0 <= i < |files| :: merged[i] <= |files[i].content|
    ensures ConsumedLines(files + [f], merged + [0]) == ConsumedLines(files, merged)
  {
    var parts := LinesPerFile(files, merged);
    NothingYet(f);
    assert LinesPerFile(files + [f], merged + [0]) == parts + [[]];
    assert (parts + [[]])[..|parts|] == parts;
  }

  lemma TrimAllConcat(a: seq<string>, b: seq<string>)
    ensures TrimAll(a + b) == TrimAll(a) + TrimAll(b)
  {}

  lemma LinesGrow(f: File, from: nat, to: nat)
    requires from <= to && IsBoundary(f.content, from) && to <= |f.content|
    ensures LinesUpTo(f, to) == LinesUpTo(f, from) + TrimAll(RawLines(f.content[from..to]))
  {
    var upTo := f.content[..to];
    assert upTo[..from] == f.content[..from] && upTo[from..] == f.content[from..to];
    LinesSplit(upTo, from);
    TrimAllConcat(RawLines(f.content[..from]), RawLines(f.content[from..to]));
  }

  lemma FlattenOne(lines: seq<string>)
    ensures Flatten([lines]) == lines
  {
    assert [lines][..0] == [];
    assert Flatten([lines]) == [] + lines;
  }

  lemma {:induction false} FlattenGrows(parts: seq<seq<string>>, g: nat, added: seq<string>)
    requires g < |parts| && forall i | g < i < |parts| :: parts[i] == []
    ensures Flatten(parts[g := parts[g] + added]) == Flatten(parts) + added
  {
    var last := |parts| - 1;
    var grown := parts[g := parts[g] + added];
    if g < last {
      FlattenGrows(parts[..last], g, added);
      assert grown[..last] == parts[..last][g := parts[g] + added];
      assert Flatten(grown) == Flatten(grown[..last]) + [];
    } else {
      assert grown[..last] == parts[..last];
      assert Flatten(parts[..last]) + (parts[last] + added) == Flatten(parts[..last]) + parts[last] + added;
    }
  }

  /** Advancing the latest consumed generation appends exactly the lines in between. */
  lemma AdvanceConsumes(files: seq<File>, merged: seq<nat>, g: nat, to: nat)
    requires |files| == |merged| && g < |files|
    requires forall i | 0 <= i < |files| :: merged[i] <= |files[i].content|
    requires forall i | g < i < |files| :: merged[i] == 0
    requires IsBoundary(files[g].content, merged[g]) && merged[g] <= to <= |files[g].content|
    ensures ConsumedLines(files, merged[g := to])
         == ConsumedLines(files, merged) + TrimAll(RawLines(files[g].content[merged[g]..to]))
  {
    var parts, added := LinesPerFile(files, merged), TrimAll(RawLines(files[g].content[merged[g]..to]));
    forall i | g < i < |files| ensures parts[i] == [] {
      NothingYet(files[i]);
    }
    LinesGrow(files[g], merged[g], to);
    FlattenGrows(parts, g, added);
    assert LinesPerFile(files, merged[g := to]) == parts[g := parts[g] + added];
  }

  lemma ReadIsWholeLines(content: string, start: nat, upTo: nat, cutoff: int)
    requires start <= upTo <= |content| && IsBoundary(content, start)
    ensures var data := content[start..upTo]; var newPos := start + Consumed(data);
      IsBoundary(content, newPos) && Lines(BatchOf(data, cutoff)) == TrimAll(RawLines(content[start..newPos]))
  {
    var data := content[start..upTo];
    ConsumedStops(data);
    PrefixOfSlice(content, start, upTo, Consumed(data));
    WholeLinesOf(data, cutoff);
  }

  lemma WholeLinesOf(data: string, cutoff: int)
    ensures Lines(BatchOf(data, cutoff)) == TrimAll(RawLines(data[..Consumed(data)]))
  {
    ConsumedHasAllLines(data);
    LinesOfMark(TrimAll(RawLines(data)), cutoff);
  }

  lemma LinesOfMark(lines: seq<string>, cutoff: int)
    ensures Lines(Mark(lines, cutoff)) == lines
  {}

  lemma PrefixOfSlice(content: string, start: nat, upTo: nat, r: nat)
    requires start <= upTo <= |content| && r <= upTo - start && IsBoundary(content, start)
    requires IsBoundary(content[start..upTo], r)
    ensures IsBoundary(content, start + r) && content[start..upTo][..r] == content[start..start + r]
  {
    if r > 0 {
      assert content[start..upTo][r - 1] == content[start + r - 1];
    }
  }

  lemma PositionsAppend(s: System, t: System, g: nat, bytes: string)
    requires Positions(s) && g < |s.files|
    requires t == s.(files := s.files[g := s.files[g].(content := s.files[g].content + bytes)])
    ensures Positions(t)
  {
    assert forall i | 0 <= i < |s.files| :: s.files[i].content <= t.files[i].content;
    if s.control.Batched? || s.control.Merged? {
      assert t.files[s.gen].content[s.lastPos..s.control.newPos] == s.files[s.gen].content[s.lastPos..s.control.newPos];
    }
  }

  lemma PositionsOpen(cfg: Config, s: System, now: int)
    requires Positions(s) && Enabled(s, Open(now)) && Detectable(s)
    ensures Positions(Apply(cfg, s, Open(now)))
  {}

  lemma PositionsRead(cfg: Config, s: System, upTo: nat)
    requires Positions(s) && Enabled(s, Read(upTo))
    ensures Positions(Apply(cfg, s, Read(upTo)))
  {
    var content, start := s.files[s.gen].content, s.control.start;
    var end := if start <= upTo <= |content| then upTo else start;
    assert Readable(content, start, upTo) == content[start..end];
    ReadIsWholeLines(content, start, end, s.control.cutoff);
  }

  lemma PositionsNewFile(s: System, t: System, f: File)
    requires Positions(s) && f.inode != 0
    requires t == s.(files := s.files + [f], merged := s.merged + [0])
    ensures Positions(t)
  {}

  lemma PositionsStep(cfg: Config, s: System, e: Event)
    requires Positions(s) && Enabled(s, e)
    requires Recognisable(s, e)
    ensures Positions(Apply(cfg, s, e))
  {
    var t := Apply(cfg, s, e);
    match e {
      case Append(g, bytes) => PositionsAppend(s, t, g, bytes);
      case Rotate(inode, content) => PositionsNewFile(s, t, File(inode, content));
      case Truncate(content) => PositionsNewFile(s, t, File(s.files[|s.files| - 1].inode, content));
      case Open(now) => PositionsOpen(cfg, s, now);
      case Read(upTo) => PositionsRead(cfg, s, upTo);
      case _ =>
    }
  }

  lemma LinesConcatenate(a: seq<Seen>, b: seq<Seen>)
    ensures Lines(a + b) == Lines(a) + Lines(b)
  {}

  lemma ExactlyOnceStep(cfg: Config, s: System, e: Event)
    requires ExactlyOnce(s) && Enabled(s, e)
    requires Recognisable(s, e)
    ensures ExactlyOnce(Apply(cfg, s, e))
  {
    PositionsStep(cfg, s, e);
    match e {
      case Append(g, bytes) => AppendKeepsConsumed(s.files, s.merged, g, bytes);
      case Rotate(inode, content) => NewFileHasNothingConsumed(s.files, s.merged, File(inode, content));
      case Truncate(content) =>
        NewFileHasNothingConsumed(s.files, s.merged, File(s.files[|s.files| - 1].inode, content));
      case Merge =>
        LinesConcatenate(s.history, s.control.batch);
        AdvanceConsumes(s.files, s.merged, s.gen, s.control.newPos);
      case _ =>
    }
  }

  lemma {:induction false} ExactlyOnceThroughout(cfg: Config, states: seq<System>, events: seq<Event>, i: nat)
    requires IsRun(cfg, states, events) && i < |states|
    requires AllRecognisable(states, events, i)
    ensures ExactlyOnce(states[i])
  {
    if i == 0 {
      var f: File :| f.inode != 0 && states[0] == Initial(f);
      NothingYet(f);
      FlattenOne([]);
      assert LinesPerFile([f], [0]) == [[]];
    } else {
      ExactlyOnceThroughout(cfg, states, events, i - 1);
      assert IsStep(cfg, states, events, i - 1);
      ExactlyOnceStep(cfg, states[i - 1], events[i - 1]);
    }
  }
}
