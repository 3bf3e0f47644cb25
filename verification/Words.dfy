/** Strings as the billing code treats them: trimmed, lower-cased rune by rune, and in byte order. */
module Words {
  import opened Prelude

  /** unicode.IsSpace */
  predicate IsSpace(c: char) {
    || '\t' <= c <= '\r' || c == ' ' || c == '\U{0085}' || c == '\U{00A0}' || c == '\U{1680}'
    || '\U{2000}' <= c <= '\U{200A}' || c == '\U{2028}' || c == '\U{2029}' || c == '\U{202F}'
    || c == '\U{205F}' || c == '\U{3000}'
  }

  function TrimStart(s: string): string {
    if s != "" && IsSpace(s[0]) then TrimStart(s[1..]) else s
  }

  function TrimEnd(s: string): string {
    if s != "" && IsSpace(s[|s| - 1]) then TrimEnd(s[..|s| - 1]) else s
  }

  /** strings.TrimSpace */
  function TrimSpace(s: string): string {
    TrimEnd(TrimStart(s))
  }

  predicate IsTrimmed(s: string) {
    s == "" || (!IsSpace(s[0]) && !IsSpace(s[|s| - 1]))
  }

  lemma {:induction false} TrimStartTrims(s: string)
    ensures TrimStart(s) == "" || !IsSpace(TrimStart(s)[0])
  {
    if s != "" && IsSpace(s[0]) {
      TrimStartTrims(s[1..]);
    }
  }

  lemma {:induction false} TrimEndTrims(s: string)
    ensures var r := TrimEnd(s); r <= s && (r == "" || !IsSpace(r[|r| - 1]))
  {
    if s != "" && IsSpace(s[|s| - 1]) {
      TrimEndTrims(s[..|s| - 1]);
    }
  }

  lemma TrimSpaceTrims(s: string)
    ensures IsTrimmed(TrimSpace(s))
    ensures IsTrimmed(s) ==> TrimSpace(s) == s
  {
    TrimStartTrims(s);
    TrimEndTrims(TrimStart(s));
  }

  /** What is cut off at either end is white space and nothing else. */
  lemma {:induction false} TrimStartCuts(s: string)
    ensures var r := TrimStart(s);
      |r| <= |s| && s[|s| - |r|..] == r && forall k | 0 <= k < |s| - |r| :: IsSpace(s[k])
  {
    if s != "" && IsSpace(s[0]) {
      TrimStartCuts(s[1..]);
      assert forall k | 1 <= k < |s| :: s[k] == s[1..][k - 1];
    }
  }

  lemma {:induction false} TrimEndCuts(s: string)
    ensures var r := TrimEnd(s); r <= s && forall k | |r| <= k < |s| :: IsSpace(s[k])
  {
    if s != "" && IsSpace(s[|s| - 1]) {
      TrimEndCuts(s[..|s| - 1]);
    }
  }

  lemma TrimSpaceCuts(s: string) returns (before: nat)
    ensures var r := TrimSpace(s);
      && before + |r| <= |s| && s[before..before + |r|] == r && IsTrimmed(r)
      && forall k | 0 <= k < before || before + |r| <= k < |s| :: IsSpace(s[k])
  {
    var t := TrimStart(s);
    TrimStartCuts(s);
    TrimEndCuts(t);
    TrimSpaceTrims(s);
    before := |s| - |t|;
    assert forall k | before <= k < |s| :: s[k] == t[k - before];
  }

  /** Among the first 128 characters, the white space is tab to carriage return and the blank. */
  lemma AsciiSpaces(c: char)
    requires c as int < 128
    ensures IsSpace(c) <==> 9 <= c as int <= 13 || c as int == 32
  {}

  /** unicode.ToLower as an arbitrary table; only what is said in IsCaseTable is ever used of it. */
  type CaseTable = char -> char

  ghost predicate IsCaseTable(lc: CaseTable) {
    && (forall c :: lc(lc(c)) == lc(c))
    && (forall c :: lc(c) == '@' <==> c == '@')
    && (forall c :: IsSpace(lc(c)) <==> IsSpace(c))
  }

  /** strings.ToLower */
  function ToLower(lc: CaseTable, s: string): (r: string)
    ensures |r| == |s|
  {
    seq(|s|, i requires 0 <= i < |s| => lc(s[i]))
  }

  lemma LowerFacts(lc: CaseTable, s: string)
    requires IsCaseTable(lc)
    ensures ToLower(lc, ToLower(lc, s)) == ToLower(lc, s)
    ensures '@' in ToLower(lc, s) <==> '@' in s
    ensures IsTrimmed(s) ==> IsTrimmed(ToLower(lc, s))
  {
    if '@' in s {
      var i :| 0 <= i < |s| && s[i] == '@';
      assert ToLower(lc, s)[i] == '@';
    }
  }

  function AsciiLower(c: char): char {
    if 'A' <= c <= 'Z' then c + 'a' - 'A' else c
  }

  lemma LowerAlready(s: string)
    requires forall i | 0 <= i < |s| :: !('A' <= s[i] <= 'Z')
    ensures ToLower(AsciiLower, s) == s
  {
    var lower := ToLower(AsciiLower, s);
    forall i | 0 <= i < |s| ensures lower[i] == s[i] {
      assert AsciiLower(s[i]) == s[i];
    }
  }

  /** The laws are not empty promises. */
  lemma AsciiIsCaseTable()
    ensures IsCaseTable(AsciiLower)
  {}

  /** The order of sort.Strings. */
  predicate LexLE(a: string, b: string) {
    a == "" || (b != "" && (a[0] < b[0] || (a[0] == b[0] && LexLE(a[1..], b[1..]))))
  }

  predicate LexLess(a: string, b: string) {
    LexLE(a, b) && a != b
  }

  /** The first character that differs decides, and a proper prefix comes first. */
  lemma {:induction false} LexIsFirstDifference(a: string, b: string, k: nat)
    requires k <= |a| && k <= |b| && a[..k] == b[..k]
    ensures k < |a| && k < |b| && a[k] < b[k] ==> LexLess(a, b) && !LexLE(b, a)
    ensures k == |a| < |b| ==> LexLess(a, b) && !LexLE(b, a)
  {
    if k > 0 {
      assert a[0] == a[..k][0] && b[0] == b[..k][0];
      assert a[1..][..k - 1] == a[..k][1..] && b[1..][..k - 1] == b[..k][1..];
      LexIsFirstDifference(a[1..], b[1..], k - 1);
    }
  }

  lemma {:induction false} LexTotal(a: string, b: string)
    ensures LexLE(a, b) || LexLE(b, a)
  {
    if a != "" && b != "" {
      LexTotal(a[1..], b[1..]);
    }
  }

  lemma {:induction false} LexTransitive(a: string, b: string, c: string)
    requires LexLE(a, b) && LexLE(b, c)
    ensures LexLE(a, c)
  {
    if a != "" && a[0] == b[0] == c[0] {
      LexTransitive(a[1..], b[1..], c[1..]);
    }
  }

  lemma {:induction false} LexAntisymmetric(a: string, b: string)
    requires LexLE(a, b) && LexLE(b, a)
    ensures a == b
  {
    if a != "" {
      LexAntisymmetric(a[1..], b[1..]);
      assert a == [a[0]] + a[1..] && b == [b[0]] + b[1..];
    }
  }

  lemma LexIsPreorder()
    ensures TotalPreorder(LexLE)
  {
    forall a, b ensures LexLE(a, b) || LexLE(b, a) {
      LexTotal(a, b);
    }
    forall a, b, c | LexLE(a, b) && LexLE(b, c) ensures LexLE(a, c) {
      LexTransitive(a, b, c);
    }
  }

  ghost predicate Ascending(s: seq<string>) {
    forall i, j | 0 <= i < j < |s| :: LexLess(s[i], s[j])
  }

  method SortStrings(s: seq<string>) returns (r: seq<string>)
    requires Distinct(s)
    ensures Ascending(r) && multiset(r) == multiset(s)
  {
    LexIsPreorder();
    r := Sort(s, LexLE);
    PermutationKeepsDistinct(s, r);
  }

  /** There is only one way to list a set of strings in ascending order. */
  lemma {:induction false} AscendingIsUnique(a: seq<string>, b: seq<string>)
    requires Ascending(a) && Ascending(b)
    requires forall x :: x in a <==> x in b
    ensures a == b
  {
    assert b == [] || b[0] in b;
    if a != [] {
      assert a[0] in b && b != [];
      FirstIsLeast(a, b);
      forall x ensures x in a[1..] <==> x in b[1..] {
        TailMembers(a, x);
        TailMembers(b, x);
      }
      AscendingIsUnique(a[1..], b[1..]);
      assert a == [a[0]] + a[1..] && b == [b[0]] + b[1..];
    }
  }

  lemma TailMembers(s: seq<string>, x: string)
    requires s != [] && Ascending(s)
    ensures x in s[1..] <==> x in s && x != s[0]
  {
    if x in s && x != s[0] {
      var i :| 0 <= i < |s| && s[i] == x;
      assert s[1..][i - 1] == x;
    }
    if x in s[1..] {
      var i :| 0 <= i < |s| - 1 && s[1..][i] == x;
      assert s[i + 1] == x && LexLess(s[0], s[i + 1]);
    }
  }

  lemma FirstIsLeast(a: seq<string>, b: seq<string>)
    requires Ascending(a) && Ascending(b) && a != [] && b != []
    requires a[0] in b && b[0] in a
    ensures a[0] == b[0]
  {
    var i :| 0 <= i < |b| && b[i] == a[0];
    var j :| 0 <= j < |a| && a[j] == b[0];
    if i != 0 && j != 0 {
      assert LexLess(b[0], b[i]) && LexLess(a[0], a[j]);
      LexAntisymmetric(a[0], b[0]);
    }
  }
}
