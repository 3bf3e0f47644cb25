/** What a rotation leaves behind: lines that reach the old file after its last pass are never merged. */
module Rotations {
  import opened LogText
  import opened LogSystem
  import opened LogTheorems

  // ---------- a generation that has been left ----------

  ghost predicate InRange(s: System) {
    |s.files| == |s.merged| && s.gen < |s.files|
  }

  lemma {:induction false} AlwaysInRange(cfg: Config, states: seq<System>, events: seq<Event>, i: nat)
    requires IsRun(cfg, states, events) && i < |states|
    ensures InRange(states[i])
  {
    if i > 0 {
      AlwaysInRange(cfg, states, events, i - 1);
      assert IsStep(cfg, states, events, i - 1);
    }
  }

  /** Generation g was left for a later one: it may still grow, but nothing of it is merged any more. */
  ghost predicate IsLeft(s: System, t: System, g: nat) {
    && InRange(s) && InRange(t) && g < s.gen <= t.gen
    && t.merged[g] == s.merged[g] && s.files[g].content <= t.files[g].content
  }

  lemma LeftStep(cfg: Config, s: System, e: Event, g: nat)
    requires InRange(s) && Enabled(s, e) && g < s.gen
    ensures IsLeft(s, Apply(cfg, s, e), g)
  {}

  /** Once a later generation has been opened, how far an earlier one was merged never changes again. */
  lemma {:induction false} LeftBehind(cfg: Config, states: seq<System>, events: seq<Event>, i: nat, j: nat, g: nat)
    requires IsRun(cfg, states, events) && i <= j < |states| && g < states[i].gen
    ensures IsLeft(states[i], states[j], g)
    decreases j
  {
    AlwaysInRange(cfg, states, events, j);
    if i < j {
      LeftBehind(cfg, states, events, i, j - 1, g);
      assert IsStep(cfg, states, events, j - 1);
      LeftStep(cfg, states[j - 1], events[j - 1], g);
    }
  }

  // ---------- is everything merged? ----------

  function Ends(files: seq<File>): (r: seq<nat>)
    ensures |r| == |files| && forall g | 0 <= g < |files| :: r[g] == |files[g].content|
  {
    seq(|files|, g requires 0 <= g < |files| => |files[g].content|)
  }

  /** Every complete line that was ever written, generation by generation. */
  function AllLines(files: seq<File>): seq<string> {
    ConsumedLines(files, Ends(files))
  }

  ghost predicate NoLonger(parts: seq<seq<string>>, full: seq<seq<string>>) {
    |parts| == |full| && forall k | 0 <= k < |parts| :: |parts[k]| <= |full[k]|
  }

  lemma {:induction false} FlattenLengths(parts: seq<seq<string>>, full: seq<seq<string>>)
    requires NoLonger(parts, full)
    ensures |Flatten(parts)| <= |Flatten(full)|
    ensures |Flatten(parts)| == |Flatten(full)| ==> forall k | 0 <= k < |parts| :: |parts[k]| == |full[k]|
  {
    if parts != [] {
      var n := |parts| - 1;
      FlattenLengths(parts[..n], full[..n]);
      assert forall k | 0 <= k < n :: parts[..n][k] == parts[k] && full[..n][k] == full[k];
    }
  }

  lemma LinesBefore(f: File, p: nat)
    requires p <= |f.content|
    ensures |LinesUpTo(f, p)| <= |LinesUpTo(f, |f.content|)|
    ensures |LinesUpTo(f, p)| == |LinesUpTo(f, |f.content|)| <==> '\n' !in f.content[p..]
  {
    var content := f.content;
    LineCount(content);
    LineCount(content[..p]);
    assert content == content[..p] + content[p..] && content[..|content|] == content;
    assert multiset(content) == multiset(content[..p]) + multiset(content[p..]);
    assert '\n' in content[p..] <==> '\n' in multiset(content[p..]);
  }

  /** No complete line of generation g is left unmerged. */
  predicate IsMerged(s: System, g: nat)
    requires |s.files| == |s.merged| && g < |s.files| && s.merged[g] <= |s.files[g].content|
  {
    '\n' !in s.files[g].content[s.merged[g]..]
  }

  lemma MergedLines(s: System, g: nat)
    requires Positions(s) && g < |s.files| && IsMerged(s, g)
    ensures LinesUpTo(s.files[g], s.merged[g]) == LinesUpTo(s.files[g], |s.files[g].content|)
  {
    var content := s.files[g].content;
    AllLinesBefore(content, s.merged[g]);
    assert content[..|content|] == content;
  }

  /** Everything that was ever written is merged if and only if no generation has a line after the place where merging
      it ended. */
  lemma AllMergedIff(s: System)
    requires ExactlyOnce(s)
    ensures Lines(s.history) == AllLines(s.files) <==> forall g | 0 <= g < |s.files| :: IsMerged(s, g)
  {
    var parts, full := LinesPerFile(s.files, s.merged), LinesPerFile(s.files, Ends(s.files));
    forall g | 0 <= g < |s.files| ensures |parts[g]| <= |full[g]| && (|parts[g]| == |full[g]| <==> IsMerged(s, g)) {
      LinesBefore(s.files[g], s.merged[g]);
    }
    if Flatten(parts) == Flatten(full) {
      FlattenLengths(parts, full);
      assert forall g | 0 <= g < |s.files| :: |parts[g]| == |full[g]|;
    }
    if forall g | 0 <= g < |s.files| :: IsMerged(s, g) {
      forall g | 0 <= g < |s.files| ensures parts[g] == full[g] {
        MergedLines(s, g);
      }
      assert parts == full;
    }
  }

  /** So a line that reaches a rotated file after its last pass, or that a pass left there, is lost for ever. */
  lemma RotationLosesTail(cfg: Config, states: seq<System>, events: seq<Event>, i: nat, j: nat, g: nat)
    requires IsRun(cfg, states, events) && AllRecognisable(states, events, j) && i <= j < |states|
    requires g < states[i].gen && g < |states[i].files| == |states[i].merged|
    requires states[i].merged[g] <= |states[i].files[g].content| && !IsMerged(states[i], g)
    ensures Lines(states[j].history) != AllLines(states[j].files)
  {
    var s, t := states[i], states[j];
    ExactlyOnceThroughout(cfg, states, events, j);
    LeftBehind(cfg, states, events, i, j, g);
    AllMergedIff(t);
    var p := s.merged[g];
    assert s.files[g].content[p..] <= t.files[g].content[p..];
    assert !IsMerged(t, g);
  }
}
