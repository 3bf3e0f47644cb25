/** The lazily grown circular buffer of connection timestamps, as index arithmetic on a slice. */
module Ring {
  import opened Prelude
  import opened ConnectionWindow

  /** Go's % : the remainder takes the sign of the dividend. */
  function GoMod(a: int, b: int): int
    requires 0 < b
  {
    if 0 <= a then a % b else -((-a) % b)
  }

  ghost predicate RingValid(buf: seq<int>, head: int, size: int, cap: int) {
    && 0 < cap && |buf| <= cap
    && 0 <= head < cap
    && 0 <= size <= |buf|
    && (|buf| < cap ==> head == |buf|)
  }

  /** Where the i-th oldest in-window entry lives. */
  function Slot(head: int, size: int, i: int, cap: int): int {
    var p := head - size + i;
    if p < 0 then p + cap else p
  }

  lemma SlotInRange(buf: seq<int>, head: int, size: int, cap: int, i: int)
    requires RingValid(buf, head, size, cap) && 0 <= i < size
    ensures 0 <= Slot(head, size, i, cap) < |buf|
  {}

  /** The in-window entries, oldest first. */
  ghost function Window(buf: seq<int>, head: int, size: int, cap: int): (r: seq<int>)
    requires RingValid(buf, head, size, cap)
    ensures |r| == size
  {
    seq(size, i requires 0 <= i < size =>
      SlotInRange(buf, head, size, cap, i);
      buf[Slot(head, size, i, cap)])
  }

  function Next(head: int, cap: int): int
    requires 0 <= head < cap
  {
    if head + 1 == cap then 0 else head + 1
  }

  lemma NextIsMod(head: int, cap: int)
    requires 0 <= head < cap
    ensures GoMod(head + 1, cap) == Next(head, cap)
  {}

  lemma ModUnique(a: int, b: int, q: int, r: int)
    requires 0 <= r < b && a == q * b + r
    ensures a % b == r
  {
    var k := q - a / b;
    assert a == (a / b) * b + a % b;
    assert k * b == a % b - r by {
      assert k * b == q * b - (a / b) * b;
    }
    MulAtLeast(k, b);
  }

  /** The expiry loop's tail formula lands on the oldest entry although Go's % may go negative. */
  lemma TailIsOldest(head: int, size: int, cap: int)
    requires 0 <= head < cap && 0 <= size <= cap
    ensures GoMod(GoMod(head - size, cap) + cap, cap) == Slot(head, size, 0, cap)
  {
    var d := head - size;
    if d == -cap {
      ModUnique(cap, cap, 1, 0);
    } else if d < 0 {
      ModUnique(-d, cap, 0, -d);
      ModUnique(d + cap, cap, 0, d + cap);
    } else {
      ModUnique(d, cap, 0, d);
      ModUnique(d + cap, cap, 1, d);
    }
  }

  /** Writing at the head, growing or overwriting, is a push on the bounded deque. */
  lemma WriteIsPush(buf: seq<int>, head: int, size: int, cap: int, ts: int)
    requires RingValid(buf, head, size, cap)
    ensures var grows := head == |buf| && |buf| < cap;
      (!grows ==> head < |buf|) &&
      var buf' := if grows then buf + [ts] else buf[head := ts];
      var size' := if size < cap then size + 1 else size;
      && RingValid(buf', Next(head, cap), size', cap)
      && Window(buf', Next(head, cap), size', cap) == Push(Window(buf, head, size, cap), ts, cap)
  {
    var grows := head == |buf| && |buf| < cap;
    var buf' := if grows then buf + [ts] else buf[head := ts];
    var size' := if size < cap then size + 1 else size;
    var was, now := Window(buf, head, size, cap), Window(buf', Next(head, cap), size', cap);
    var shift := if size < cap then 0 else 1;
    forall i | 0 <= i < size' - 1 ensures now[i] == was[i + shift] {
      assert Slot(Next(head, cap), size', i, cap) == Slot(head, size, i + shift, cap);
      assert Slot(head, size, i + shift, cap) != head;
    }
    assert now[size' - 1] == ts by {
      assert Slot(Next(head, cap), size', size' - 1, cap) == head;
    }
  }

  /** Forgetting the oldest entry only shrinks the size field. */
  lemma ForgetIsTail(buf: seq<int>, head: int, size: int, cap: int)
    requires RingValid(buf, head, size, cap) && 0 < size
    ensures Window(buf, head, size - 1, cap) == Window(buf, head, size, cap)[1..]
  {}
}
