/** The text side of the log parser: cutting bytes into lines, and finding the requested target. */
module LogText {

  // ---------- substring search ----------

  predicate OccursAt(s: string, sub: string, i: int) {
    0 <= i <= |s| - |sub| && forall k | 0 <= k < |sub| :: sub[k] == s[i + k]
  }

  function IndexFrom(s: string, sub: string, from: nat): (r: int)
    requires from <= |s|
    ensures r == -1 || from <= r <= |s| - |sub|
    decreases |s| - from
  {
    if OccursAt(s, sub, from) then from
    else if from == |s| then -1
    else IndexFrom(s, sub, from + 1)
  }

  /** strings.Index */
  function Index(s: string, sub: string): (r: int)
    ensures r == -1 || 0 <= r <= |s| - |sub|
  {
    IndexFrom(s, sub, 0)
  }

  /** strings.LastIndex for a single character */
  function LastIndex(s: string, c: char): (r: int)
    ensures -1 <= r < |s|
  {
    if s == [] then -1
    else if s[|s| - 1] == c then |s| - 1
    else LastIndex(s[..|s| - 1], c)
  }

  lemma {:induction false} IndexFromFinds(s: string, sub: string, from: nat, i: nat)
    requires from <= i && OccursAt(s, sub, i)
    requires forall j | from <= j < i :: !OccursAt(s, sub, j)
    ensures IndexFrom(s, sub, from) == i
    decreases i - from
  {
    if from < i {
      IndexFromFinds(s, sub, from + 1, i);
    }
  }

  /** Index is the first occurrence ... */
  lemma IndexIs(s: string, sub: string, i: nat)
    requires OccursAt(s, sub, i)
    requires forall j | 0 <= j < i :: !OccursAt(s, sub, j)
    ensures Index(s, sub) == i
  {
    IndexFromFinds(s, sub, 0, i);
  }

  lemma {:induction false} IndexFromFacts(s: string, sub: string, from: nat)
    requires from <= |s|
    ensures var r := IndexFrom(s, sub, from);
      && (r == -1 || OccursAt(s, sub, r))
      && forall j | from <= j && (r == -1 || j < r) :: !OccursAt(s, sub, j)
    decreases |s| - from
  {
    if !OccursAt(s, sub, from) && from != |s| {
      IndexFromFacts(s, sub, from + 1);
    }
  }

  /** ... or -1 when there is none. */
  lemma IndexFacts(s: string, sub: string)
    ensures var r := Index(s, sub);
      && (r == -1 || OccursAt(s, sub, r))
      && forall j | 0 <= j && (r == -1 || j < r) :: !OccursAt(s, sub, j)
  {
    IndexFromFacts(s, sub, 0);
  }

  lemma {:induction false} LastIndexIs(s: string, c: char, i: nat)
    requires i < |s| && s[i] == c && forall j | i < j < |s| :: s[j] != c
    ensures LastIndex(s, c) == i
  {
    if i < |s| - 1 {
      LastIndexIs(s[..|s| - 1], c, i);
    }
  }

  // ---------- target extraction ----------

  const ACCEPTED := "accepted "

  function ExtractDomain(line: string): string {
    var acceptedIdx := Index(line, ACCEPTED);
    if acceptedIdx == -1 then "" else
    var searchArea := line[acceptedIdx..];
    var tcpIdx := Index(searchArea, "tcp:");
    var udpIdx := Index(searchArea, "udp:");
    if tcpIdx != -1 && (udpIdx == -1 || tcpIdx < udpIdx) then
      EndpointHost(line[acceptedIdx + tcpIdx + 4..])
    else if udpIdx != -1 then
      EndpointHost(line[acceptedIdx + udpIdx + 4..])
    else ""
  }

  /** What precedes the last colon of the first space-terminated word. */
  function EndpointHost(rest: string): string {
    var spaceIdx := Index(rest, " ");
    if spaceIdx == -1 then "" else
    var domainPort := rest[..spaceIdx];
    var colonIdx := LastIndex(domainPort, ':');
    if colonIdx == -1 then "" else domainPort[..colonIdx]
  }

  lemma EndpointHostOf(target: string, port: string, suffix: string)
    requires ' ' !in target && ' ' !in port && ':' !in port
    ensures EndpointHost(target + ":" + port + " " + suffix) == target
  {
    var endpoint := target + ":" + port;
    var rest := endpoint + " " + suffix;
    assert rest == target + ":" + port + " " + suffix;
    assert OccursAt(rest, " ", |endpoint|);
    forall j | 0 <= j < |endpoint| ensures !OccursAt(rest, " ", j) {
      assert rest[j] == endpoint[j] && endpoint[j] != ' ' == " "[0];
    }
    IndexIs(rest, " ", |endpoint|);
    assert rest[..|endpoint|] == endpoint;
    assert endpoint[|target|] == ':';
    assert forall j | |target| < j < |endpoint| :: endpoint[j] == port[j - |target| - 1];
    LastIndexIs(endpoint, ':', |target|);
    assert endpoint[..|target|] == target;
  }

  /** No second "accepted " can begin before the real one and reach into it. */
  lemma AcceptedFound(prefix: string, tail: string)
    requires forall j :: !OccursAt(prefix, ACCEPTED, j)
    ensures Index(prefix + ACCEPTED + tail, ACCEPTED) == |prefix|
  {
    var line := prefix + ACCEPTED + tail;
    assert OccursAt(line, ACCEPTED, |prefix|);
    forall j | 0 <= j < |prefix| ensures !OccursAt(line, ACCEPTED, j) {
      if j + 9 <= |prefix| {
        assert !OccursAt(prefix, ACCEPTED, j);
        var k :| 0 <= k < 9 && ACCEPTED[k] != prefix[j + k];
        assert ACCEPTED[k] != line[j + k];
      } else {
        // the space that ends the early match would sit on a letter of the real one
        assert line[j + 8] == ACCEPTED[j + 8 - |prefix|] != ACCEPTED[8];
      }
    }
    IndexIs(line, ACCEPTED, |prefix|);
  }

  lemma NoProtocolInAccepted(area: string, sub: string)
    requires |ACCEPTED| <= |area| && forall k | 0 <= k < |ACCEPTED| :: area[k] == ACCEPTED[k]
    requires sub == "tcp:" || sub == "udp:"
    ensures forall j | 0 <= j < |ACCEPTED| :: !OccursAt(area, sub, j)
  {
    forall j | 0 <= j < |ACCEPTED| ensures !OccursAt(area, sub, j) {
      assert area[j] == ACCEPTED[j];
      // the only 't' of "accepted " is followed by 'e'
      assert j == 5 ==> area[j + 1] == ACCEPTED[6] != sub[1];
      assert j != 5 ==> area[j] != sub[0];
    }
  }

  function Protocol(udp: bool): string {
    if udp then "udp:" else "tcp:"
  }

  lemma AreaStarts(udp: bool, area: string)
    requires ACCEPTED + Protocol(udp) <= area
    ensures |ACCEPTED| <= |area| && (forall k | 0 <= k < |ACCEPTED| :: area[k] == ACCEPTED[k])
    ensures OccursAt(area, Protocol(udp), 9) && area[9] == Protocol(udp)[0]
  {
    var head := ACCEPTED + Protocol(udp);
    assert forall k | 0 <= k < 13 :: area[k] == head[k];
    forall k | 0 <= k < 4 ensures Protocol(udp)[k] == area[9 + k] {
      assert area[9 + k] == head[9 + k];
    }
  }

  lemma ProtocolFound(udp: bool, area: string)
    requires ACCEPTED + Protocol(udp) <= area
    ensures Index(area, Protocol(udp)) == 9
    ensures var other := Index(area, Protocol(!udp)); other == -1 || 9 < other
  {
    AreaStarts(udp, area);
    NoProtocolInAccepted(area, Protocol(udp));
    NoProtocolInAccepted(area, Protocol(!udp));
    assert area[9 + 0] != Protocol(!udp)[0];
    FirstOfTwo(area, Protocol(udp), Protocol(!udp), 9);
  }

  lemma FirstOfTwo(s: string, sub: string, other: string, i: nat)
    requires OccursAt(s, sub, i) && !OccursAt(s, other, i)
    requires forall j | 0 <= j < i :: !OccursAt(s, sub, j)
    requires forall j | 0 <= j < i :: !OccursAt(s, other, j)
    ensures Index(s, sub) == i && (Index(s, other) == -1 || i < Index(s, other))
  {
    IndexIs(s, sub, i);
    IndexFacts(s, other);
  }

  lemma DropPrefix(a: string, b: string)
    ensures (a + b)[|a|..] == b
  {}

  /** The endpoint is looked for right after the first protocol mark that follows the keyword. */
  lemma EndpointFound(prefix: string, udp: bool, rest: string)
    requires forall j :: !OccursAt(prefix, ACCEPTED, j)
    ensures ExtractDomain(prefix + ACCEPTED + Protocol(udp) + rest) == EndpointHost(rest)
  {
    var area := ACCEPTED + Protocol(udp) + rest;
    var line := prefix + ACCEPTED + Protocol(udp) + rest;
    assert line == prefix + area && line == prefix + ACCEPTED + (Protocol(udp) + rest);
    AcceptedFound(prefix, Protocol(udp) + rest);
    DropPrefix(prefix, area);
    ProtocolFound(udp, area);
    DropPrefix(prefix + ACCEPTED + Protocol(udp), rest);
  }

  /** Extraction undoes the formatting of an access-log line, colons in the target included. */
  lemma ExtractionUndoesFormatting(prefix: string, udp: bool, target: string, port: string, suffix: string)
    requires forall j :: !OccursAt(prefix, ACCEPTED, j)
    requires ' ' !in target && ' ' !in port && ':' !in port
    ensures ExtractDomain(prefix + ACCEPTED + Protocol(udp) + (target + ":" + port + " " + suffix)) == target
  {
    EndpointFound(prefix, udp, target + ":" + port + " " + suffix);
    EndpointHostOf(target, port, suffix);
  }

  // ---------- what extraction finds, on any line ----------

  predicate IsMark(line: string, i: int) {
    OccursAt(line, "tcp:", i) || OccursAt(line, "udp:", i)
  }

  /** The first "accepted " is at a, and the first protocol mark from there on at m. */
  ghost predicate IsRequestAt(line: string, a: nat, m: nat) {
    && OccursAt(line, "accepted ", a) && (forall j | 0 <= j < a :: !OccursAt(line, "accepted ", j))
    && a <= m && IsMark(line, m) && forall j | a <= j < m :: !IsMark(line, j)
  }

  /** The mark is followed by target, colon, port and a blank. */
  ghost predicate IsRequestFor(line: string, a: nat, m: nat, target: string, port: string, suffix: string) {
    && IsRequestAt(line, a, m) && line[m + 4..] == target + ":" + port + " " + suffix
    && ' ' !in target && ' ' !in port && ':' !in port
  }

  lemma OccursLater(line: string, a: nat, sub: string, j: nat)
    requires a <= |line|
    ensures OccursAt(line[a..], sub, j) <==> OccursAt(line, sub, a + j)
  {
    if OccursAt(line, sub, a + j) {
      forall k | 0 <= k < |sub| ensures sub[k] == line[a..][j + k] {
        assert line[a + j + k] == line[a..][j + k];
      }
    }
  }

  lemma FirstFrom(line: string, a: nat, sub: string) returns (i: int)
    requires a <= |line|
    ensures i == Index(line[a..], sub)
    ensures i == -1 || (0 <= i && OccursAt(line, sub, a + i))
    ensures forall j | a <= j && (i == -1 || j < a + i) :: !OccursAt(line, sub, j)
  {
    i := Index(line[a..], sub);
    IndexFacts(line[a..], sub);
    if i != -1 {
      OccursLater(line, a, sub, i);
    }
    forall j | a <= j && (i == -1 || j < a + i) ensures !OccursAt(line, sub, j) {
      OccursLater(line, a, sub, j - a);
    }
  }

  lemma MarksDiffer(line: string, m: nat)
    ensures !(OccursAt(line, "tcp:", m) && OccursAt(line, "udp:", m))
  {
    assert OccursAt(line, "tcp:", m) ==> line[m + 0] == "tcp:"[0];
    assert OccursAt(line, "udp:", m) ==> line[m + 0] == "udp:"[0];
  }

  /** Of the two searches, the one that finds the mark at m comes first. */
  lemma FirstMark(line: string, a: nat, m: nat) returns (tcp: int, udp: int)
    requires IsRequestAt(line, a, m)
    ensures tcp == Index(line[a..], "tcp:") && udp == Index(line[a..], "udp:")
    ensures m == a + (if tcp != -1 && (udp == -1 || tcp < udp) then tcp else udp)
    ensures (tcp != -1 && (udp == -1 || tcp < udp)) || udp != -1
  {
    tcp := FirstFrom(line, a, "tcp:");
    udp := FirstFrom(line, a, "udp:");
    MarksDiffer(line, m);
    if tcp != -1 {
      assert IsMark(line, a + tcp);
    }
    if udp != -1 {
      assert IsMark(line, a + udp);
    }
  }

  lemma MarksLead(line: string, a: nat, m: nat)
    requires IsRequestAt(line, a, m)
    ensures ExtractDomain(line) == EndpointHost(line[m + 4..])
  {
    KeywordAt(line, a, m);
    var tcp, udp := FirstMark(line, a, m);
  }

  lemma KeywordAt(line: string, a: nat, m: nat)
    requires IsRequestAt(line, a, m)
    ensures Index(line, ACCEPTED) == a
  {
    IndexIs(line, ACCEPTED, a);
  }

  lemma MarksAreFound(line: string) returns (a: nat, m: nat)
    requires ExtractDomain(line) != ""
    ensures IsRequestAt(line, a, m)
  {
    IndexFacts(line, "accepted ");
    a := Index(line, "accepted ");
    var tcp := FirstFrom(line, a, "tcp:");
    var udp := FirstFrom(line, a, "udp:");
    m := a + if tcp != -1 && (udp == -1 || tcp < udp) then tcp else udp;
    forall j | a <= j < m ensures !IsMark(line, j) {
      assert !OccursAt(line, "tcp:", j) && !OccursAt(line, "udp:", j);
    }
  }

  lemma {:induction false} LastIndexFacts(s: string, c: char)
    ensures var r := LastIndex(s, c); (r != -1 ==> s[r] == c) && c !in s[r + 1..]
  {
    if s != "" && s[|s| - 1] != c {
      LastIndexFacts(s[..|s| - 1], c);
      var r := LastIndex(s, c);
      assert s[r + 1..] == s[..|s| - 1][r + 1..] + [s[|s| - 1]];
    }
  }

  lemma HostIsSplit(rest: string) returns (port: string, suffix: string)
    requires EndpointHost(rest) != ""
    ensures rest == EndpointHost(rest) + ":" + port + " " + suffix
    ensures ' ' !in EndpointHost(rest) && ' ' !in port && ':' !in port
  {
    var space := Index(rest, " ");
    IndexFacts(rest, " ");
    var endpoint := rest[..space];
    forall k | 0 <= k < space ensures endpoint[k] != ' ' {
      assert !OccursAt(rest, " ", k);
    }
    assert OccursAt(rest, " ", space) && rest[space + 0] == " "[0];
    var colon := LastIndex(endpoint, ':');
    LastIndexFacts(endpoint, ':');
    port, suffix := endpoint[colon + 1..], rest[space + 1..];
    assert endpoint == endpoint[..colon] + ":" + port;
    assert rest == endpoint + " " + suffix;
  }

  /** On any line: the target is what stands between the first protocol mark after the first "accepted " and the last
      colon of the word there, and there is none on any line not made like that. */
  lemma ExtractionIff(line: string, target: string)
    requires target != ""
    ensures ExtractDomain(line) == target
       <==> exists a, m, port, suffix :: IsRequestFor(line, a, m, target, port, suffix)
  {
    if ExtractDomain(line) == target {
      var a, m := MarksAreFound(line);
      MarksLead(line, a, m);
      var port, suffix := HostIsSplit(line[m + 4..]);
      assert IsRequestFor(line, a, m, target, port, suffix);
    }
    if a, m, port, suffix :| IsRequestFor(line, a, m, target, port, suffix) {
      MarksLead(line, a, m);
      EndpointHostOf(target, port, suffix);
    }
  }

  // ---------- lines ----------

  /** The position follows a newline, or nothing at all. */
  predicate IsBoundary(content: string, p: int) {
    0 <= p <= |content| && (p == 0 || content[p - 1] == '\n')
  }

  /** What follows the last newline: the line still being written. */
  function Partial(s: string): string {
    if s == "" || s[|s| - 1] == '\n' then "" else Partial(s[..|s| - 1]) + [s[|s| - 1]]
  }

  /** The complete lines, each with its newline; the partial one is not a line yet. */
  function RawLines(s: string): seq<string> {
    if s == "" then []
    else if s[|s| - 1] == '\n' then RawLines(s[..|s| - 1]) + [Partial(s[..|s| - 1]) + "\n"]
    else RawLines(s[..|s| - 1])
  }

  lemma {:induction false} PartialIsSuffix(s: string)
    ensures |Partial(s)| <= |s| && s[|s| - |Partial(s)|..] == Partial(s)
    ensures IsBoundary(s, |s| - |Partial(s)|) && '\n' !in Partial(s)
  {
    if s != "" && s[|s| - 1] != '\n' {
      PartialIsSuffix(s[..|s| - 1]);
    }
  }

  /** The number of bytes making up the complete lines. */
  function Consumed(s: string): (r: nat)
    ensures r <= |s|
  {
    PartialIsSuffix(s);
    |s| - |Partial(s)|
  }

  lemma ConsumedStops(s: string)
    ensures IsBoundary(s, Consumed(s)) && s[Consumed(s)..] == Partial(s) && '\n' !in Partial(s)
  {
    PartialIsSuffix(s);
  }

  lemma {:induction false} NoNewline(s: string)
    requires '\n' !in s
    ensures RawLines(s) == [] && Partial(s) == s
  {
    if s != "" {
      NoNewline(s[..|s| - 1]);
    }
  }

  function Joined(lines: seq<string>): string {
    if lines == [] then "" else Joined(lines[..|lines| - 1]) + lines[|lines| - 1]
  }

  lemma JoinedAppend(lines: seq<string>, line: string)
    ensures Joined(lines + [line]) == Joined(lines) + line
  {
    assert (lines + [line])[..|lines|] == lines;
  }

  /** Lines and partial line together are the bytes ... */
  lemma {:induction false} LinesAreTheBytes(s: string)
    ensures Joined(RawLines(s)) + Partial(s) == s
  {
    if s != "" {
      var before := s[..|s| - 1];
      LinesAreTheBytes(before);
      JoinedAppend(RawLines(before), Partial(before) + "\n");
      assert s == before + [s[|s| - 1]];
    }
  }

  /** ... and every line has exactly one newline, at its end. */
  lemma {:induction false} LinesAreLines(s: string)
    ensures forall i | 0 <= i < |RawLines(s)| :: IsLine(RawLines(s)[i])
  {
    if s != "" {
      var before := s[..|s| - 1];
      LinesAreLines(before);
      PartialIsSuffix(before);
      var line := Partial(before) + "\n";
      assert line[..|line| - 1] == Partial(before);
    }
  }

  lemma {:induction false} LineCount(s: string)
    ensures |RawLines(s)| == multiset(s)['\n']
  {
    if s != "" {
      LineCount(s[..|s| - 1]);
      assert s == s[..|s| - 1] + [s[|s| - 1]];
    }
  }

  lemma LinesIffNewline(s: string)
    ensures RawLines(s) == [] <==> '\n' !in s
  {
    LineCount(s);
    assert '\n' in s <==> '\n' in multiset(s);
  }

  lemma AppendChar(s: string, c: char)
    ensures Partial(s + [c]) == if c == '\n' then "" else Partial(s) + [c]
    ensures RawLines(s + [c]) == if c == '\n' then RawLines(s) + [Partial(s) + "\n"] else RawLines(s)
  {
    assert (s + [c])[..|s|] == s;
  }

  /** Complete lines followed by anything: the lists of lines are concatenated. */
  lemma {:induction false} LinesConcat(a: string, b: string)
    requires IsBoundary(a, |a|)
    ensures RawLines(a + b) == RawLines(a) + RawLines(b) && Partial(a + b) == Partial(b)
  {
    if b == "" {
      assert a + b == a;
    } else {
      var n := |b| - 1;
      LinesConcat(a, b[..n]);
      assert b == b[..n] + [b[n]] && a + b == a + b[..n] + [b[n]];
      AppendChar(a + b[..n], b[n]);
      AppendChar(b[..n], b[n]);
    }
  }

  /** Cutting at a line boundary cuts the list of lines. */
  lemma LinesSplit(s: string, p: nat)
    requires IsBoundary(s, p)
    ensures RawLines(s) == RawLines(s[..p]) + RawLines(s[p..])
  {
    assert s == s[..p] + s[p..];
    LinesConcat(s[..p], s[p..]);
  }

  /** Reading stops at the last newline without losing a line. */
  lemma ConsumedHasAllLines(s: string)
    ensures RawLines(s[..Consumed(s)]) == RawLines(s)
  {
    ConsumedStops(s);
    LinesSplit(s, Consumed(s));
    NoNewline(Partial(s));
  }

  ghost predicate IsLine(line: string) {
    line != "" && line[|line| - 1] == '\n' && '\n' !in line[..|line| - 1]
  }

  lemma OneLine(line: string)
    requires IsLine(line)
    ensures RawLines(line) == [line]
  {
    var body := line[..|line| - 1];
    NoNewline(body);
    assert line == body + ['\n'];
    AppendChar(body, '\n');
  }

  lemma LineCons(line: string, rest: string)
    requires IsLine(line)
    ensures RawLines(line + rest) == [line] + RawLines(rest)
    ensures Consumed(line + rest) == |line| + Consumed(rest)
  {
    OneLine(line);
    LinesConcat(line, rest);
  }

  lemma {:induction false} HeadLine(s: string) returns (n: nat)
    requires '\n' in s
    ensures n < |s| && IsLine(s[..n + 1])
  {
    if '\n' in s[..|s| - 1] {
      n := HeadLine(s[..|s| - 1]);
      assert s[..|s| - 1][..n + 1] == s[..n + 1];
    } else {
      n := |s| - 1;
      assert s[..n + 1] == s;
    }
  }

  /** A suffix has the same lines as the whole only when it is the whole, or there are no lines at all. */
  lemma SuffixHasAllLinesIff(s: string, p: nat)
    requires p <= |s|
    ensures RawLines(s[p..]) == RawLines(s) <==> p == 0 || '\n' !in s
  {
    LinesIffNewline(s);
    LinesIffNewline(s[p..]);
    if p == 0 {
      assert s[p..] == s;
    } else if '\n' in s {
      if '\n' in s[..p] {
        FewerLines(s, p);
      } else {
        ShorterFirstLine(s, p);
      }
    }
  }

  lemma FewerLines(s: string, p: nat)
    requires p <= |s| && '\n' in s[..p]
    ensures |RawLines(s[p..])| < |RawLines(s)|
  {
    LineCount(s);
    LineCount(s[p..]);
    assert s == s[..p] + s[p..];
    assert multiset(s) == multiset(s[..p]) + multiset(s[p..]);
    assert '\n' in multiset(s[..p]);
  }

  lemma NewlineNotBefore(s: string, p: nat, n: nat)
    requires p <= |s| && '\n' !in s[..p] && n < |s| && s[n] == '\n'
    ensures p <= n
  {
    assert forall i | 0 <= i < p :: s[i] == s[..p][i];
  }

  lemma ShorterFirstLine(s: string, p: nat)
    requires 0 < p <= |s| && '\n' !in s[..p] && '\n' in s
    ensures RawLines(s[p..]) != RawLines(s)
  {
    var n := HeadLine(s);
    var line, rest := s[..n + 1], s[n + 1..];
    NewlineNotBefore(s, p, n);
    CutLine(line, p);
    CutFirst(s, n + 1, p);
    DifferentHeads(line, line[p..], rest);
  }

  lemma CutFirst(s: string, n: nat, p: nat)
    requires p <= n <= |s|
    ensures s[..n] + s[n..] == s && s[..n][p..] + s[n..] == s[p..]
  {}

  lemma DifferentHeads(a: string, b: string, rest: string)
    requires IsLine(a) && IsLine(b) && a != b
    ensures RawLines(a + rest) != RawLines(b + rest)
  {
    LineCons(a, rest);
    LineCons(b, rest);
    assert RawLines(a + rest)[0] == a && RawLines(b + rest)[0] == b;
  }

  lemma CutLine(line: string, p: nat)
    requires IsLine(line) && p < |line|
    ensures IsLine(line[p..])
  {
    assert line[p..][..|line| - p - 1] == line[..|line| - 1][p..];
  }

  /** strings.TrimRight(line, "\r\n") */
  function TrimLineEnd(line: string): string {
    if line != "" && (line[|line| - 1] == '\r' || line[|line| - 1] == '\n')
    then TrimLineEnd(line[..|line| - 1]) else line
  }

  /** What is cut off a line's end is line ending and nothing else, and all of it. */
  lemma {:induction false} TrimLineEndTrims(line: string)
    ensures var r := TrimLineEnd(line);
      && r <= line && (r == "" || (r[|r| - 1] != '\r' && r[|r| - 1] != '\n'))
      && forall k | |r| <= k < |line| :: line[k] == '\r' || line[k] == '\n'
  {
    if line != "" && (line[|line| - 1] == '\r' || line[|line| - 1] == '\n') {
      TrimLineEndTrims(line[..|line| - 1]);
    }
  }

  function TrimAll(lines: seq<string>): (r: seq<string>)
    ensures |r| == |lines|
  {
    seq(|lines|, i requires 0 <= i < |lines| => TrimLineEnd(lines[i]))
  }

  // ---------- reading undoes writing ----------

  function LineEnd(crlf: bool): string {
    if crlf then "\r\n" else "\n"
  }

  function Written(lines: seq<string>, crlf: bool): string {
    if lines == [] then "" else lines[0] + LineEnd(crlf) + Written(lines[1..], crlf)
  }

  /** Text that a line can carry: no newline in it, and no carriage return where the line ends. */
  predicate IsText(s: string) {
    '\n' !in s && (s == "" || s[|s| - 1] != '\r')
  }

  lemma WrittenLine(text: string, crlf: bool)
    requires IsText(text)
    ensures IsLine(text + LineEnd(crlf)) && TrimLineEnd(text + LineEnd(crlf)) == text
  {
    var line := text + LineEnd(crlf);
    assert line[..|line| - 1] == if crlf then text + ['\r'] else text;
    assert crlf ==> line[..|line| - 1][..|text|] == text;
    assert TrimLineEnd(text) == text;
  }

  /** Whichever line ends a log is written with, the texts of its complete lines are what is read, and reading stops
      before what is still being written. */
  lemma {:induction false} ReadingUndoesWriting(lines: seq<string>, crlf: bool, rest: string)
    requires (forall i | 0 <= i < |lines| :: IsText(lines[i])) && '\n' !in rest
    ensures TrimAll(RawLines(Written(lines, crlf) + rest)) == lines
    ensures Consumed(Written(lines, crlf) + rest) == |Written(lines, crlf)|
  {
    if lines == [] {
      assert Written(lines, crlf) + rest == rest;
      NoNewline(rest);
    } else {
      var later := Written(lines[1..], crlf);
      ReadingUndoesWriting(lines[1..], crlf, rest);
      ReadOneWritten(lines[0], crlf, later + rest);
      assert Written(lines, crlf) + rest == lines[0] + LineEnd(crlf) + (later + rest);
      assert [lines[0]] + lines[1..] == lines;
    }
  }

  lemma ReadOneWritten(text: string, crlf: bool, more: string)
    requires IsText(text)
    ensures TrimAll(RawLines(text + LineEnd(crlf) + more)) == [text] + TrimAll(RawLines(more))
    ensures Consumed(text + LineEnd(crlf) + more) == |text + LineEnd(crlf)| + Consumed(more)
  {
    var line := text + LineEnd(crlf);
    WrittenLine(text, crlf);
    LineCons(line, more);
    OneMoreTrimmed(line, RawLines(more));
  }

  lemma OneMoreTrimmed(line: string, lines: seq<string>)
    ensures TrimAll([line] + lines) == [TrimLineEnd(line)] + TrimAll(lines)
  {}
}
