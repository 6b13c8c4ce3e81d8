/** The selection history of `src/store.ts`: every selection change is
    appended and, once the list holds more than five entries, the oldest is
    dropped. An entry is whatever the editor reports; the model keeps it
    abstract. */
module History {

  /** The number of entries the history keeps. */
  const Capacity: nat := 5

  /** `min(n, 5)`. */
  function MinCapacity(n: nat): nat {
    if n < Capacity then n else Capacity
  }

  /** One selection-change event: `push`, then `shift` when the length
      exceeds the capacity. */
  function Push<T>(h: seq<T>, e: T): (r: seq<T>)
    requires |h| <= Capacity
    ensures r == (h + [e])[|h| + 1 - MinCapacity(|h| + 1)..]
  {
    var pushed := h + [e];
    if |pushed| > Capacity then pushed[1..] else pushed
  }

  /** After a push the history holds at most five entries and the newest
      one is last. */
  lemma PushBoundedNewestLast<T>(h: seq<T>, e: T)
    requires |h| <= Capacity
    ensures var r := Push(h, e); 0 < |r| <= Capacity && r[|r| - 1] == e
  {
    var r := Push(h, e);
    assert |r| == MinCapacity(|h| + 1);
  }

  /** A push on a full history drops exactly the oldest entry and keeps the
      order of the others. */
  lemma PushFullDropsOldest<T>(h: seq<T>, e: T)
    requires |h| == Capacity
    ensures Push(h, e) == h[1..] + [e]
  {
    var r := Push(h, e);
    assert r == r[..|r| - 1] + [r[|r| - 1]];
  }

  /** The history after the first `n` of `events`, starting from the empty
      list. */
  function After<T>(events: seq<T>, n: nat): (h: seq<T>)
    requires n <= |events|
    ensures |h| == MinCapacity(n)
    ensures n > 0 ==> h[|h| - 1] == events[n - 1]
  {
    if n == 0 then []
    else
      PushBoundedNewestLast(After(events, n - 1), events[n - 1]);
      Push(After(events, n - 1), events[n - 1])
  }

  /** After `n` events the history holds the last `min(n, 5)` of them, in the
      order they arrived. */
  lemma {:induction false} AfterKeepsLastEvents<T>(events: seq<T>, n: nat)
    requires n <= |events|
    ensures After(events, n) == events[n - MinCapacity(n)..n]
  {
    if n > 0 {
      AfterKeepsLastEvents(events, n - 1);
      if n - 1 < Capacity {
        assert MinCapacity(n - 1) == n - 1 && MinCapacity(n) == n;
        StepWhileShort(events, n);
      } else {
        assert MinCapacity(n - 1) == Capacity && MinCapacity(n) == Capacity;
        StepWhenFull(events, n);
      }
    }
  }

  /** One event while the history is not full: it is appended. */
  lemma StepWhileShort<T>(events: seq<T>, n: nat)
    requires 0 < n <= Capacity && n <= |events|
    requires After(events, n - 1) == events[0..n - 1]
    ensures After(events, n) == events[0..n]
  {
    PushShort(events[0..n - 1], events[n - 1]);
    AppendLast(events, 0, n - 1);
  }

  /** One event on a full history: the window of the last five moves on by
      one. */
  lemma StepWhenFull<T>(events: seq<T>, n: nat)
    requires Capacity < n <= |events|
    requires After(events, n - 1) == events[n - 1 - Capacity..n - 1]
    ensures After(events, n) == events[n - Capacity..n]
  {
    var h := events[n - 1 - Capacity..n - 1];
    PushFullDropsOldest(h, events[n - 1]);
    DropFirst(events, n - 1 - Capacity, n - 1);
    AppendLast(events, n - Capacity, n - 1);
  }

  lemma DropFirst<T>(s: seq<T>, a: nat, b: nat)
    requires a < b <= |s|
    ensures s[a..b][1..] == s[a + 1..b]
  {
  }

  lemma AppendLast<T>(s: seq<T>, a: nat, b: nat)
    requires a <= b < |s|
    ensures s[a..b] + [s[b]] == s[a..b + 1]
  {
  }

  /** While the history is not full a push keeps every entry. */
  lemma PushShort<T>(h: seq<T>, e: T)
    requires |h| < Capacity
    ensures Push(h, e) == h + [e]
  {
  }
}
