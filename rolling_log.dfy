/**
 * The bounded rolling window of log lines that the render loop shows: every
 * pending line is drained from the channel into the deque, and the oldest
 * line is evicted first whenever the deque already holds `Capacity` lines.
 */
module RollingLog {
  import opened Common
  import Mpsc
  import Deque

  /** Number of log lines kept on screen. */
  const Capacity: nat := 10

  function Min(a: nat, b: nat): nat
  {
    if a <= b then a else b
  }

  /**
   * Reference definition of the window: the last `Min(|s|, Capacity)` lines
   * of everything that arrived, in arrival order.
   */
  function Window(s: seq<string>): seq<string>
  {
    if |s| <= Capacity then s else s[|s| - Capacity..]
  }

  /** The window is the suffix of the history of length `Min(|s|, Capacity)`. */
  lemma WindowIsRecentSuffix(s: seq<string>)
    ensures |Window(s)| == Min(|s|, Capacity)
    ensures Window(s) == s[|s| - |Window(s)|..]
    ensures forall i :: 0 <= i < |Window(s)| ==> Window(s)[i] == s[|s| - |Window(s)| + i]
  {
  }

  /** A window of a history no longer than `Capacity` is the whole history. */
  lemma WindowOfShort(s: seq<string>)
    requires |s| <= Capacity
    ensures Window(s) == s
  {
  }

  /**
   * One iteration of the drain loop, read against the window: appending a
   * line to the history appends it to the window, and evicts the window's
   * front line exactly when the window was already full.
   */
  lemma WindowSnoc(s: seq<string>, x: string)
    ensures |Window(s)| < Capacity ==> Window(s + [x]) == Window(s) + [x]
    ensures |Window(s)| == Capacity ==>
      Window(s + [x]) == Window(s)[1..] + [x] && |Window(s + [x])| == Capacity
  {
    var t := s + [x];
    if |s| < Capacity {
      assert Window(t) == t;
    } else {
      assert Window(s)[1..] + [x] == t[|t| - Capacity..];
    }
  }

  /**
   * Draining in several cycles is draining once: keeping only the window of
   * the earlier lines loses nothing the later window needs.
   */
  lemma {:induction false} WindowAppend(a: seq<string>, b: seq<string>)
    ensures Window(Window(a) + b) == Window(a + b)
    decreases |b|
  {
    if b == [] {
      assert Window(a) + b == Window(a);
      assert a + b == a;
      if |a| > Capacity {
        assert Window(a)[|Window(a)| - Capacity..] == Window(a);
      }
    } else {
      var init, x := b[..|b| - 1], b[|b| - 1];
      assert b == init + [x];
      WindowAppend(a, init);
      assert Window(a) + b == (Window(a) + init) + [x];
      assert a + b == (a + init) + [x];
      WindowSnoc(Window(a) + init, x);
      WindowSnoc(a + init, x);
    }
  }

  /** Every window holds at most `Capacity` lines. */
  lemma WindowBounded(s: seq<string>)
    ensures |Window(s)| <= Capacity
  {
    WindowIsRecentSuffix(s);
  }

  /** Taking the window twice changes nothing. */
  lemma WindowIdempotent(s: seq<string>)
    ensures Window(Window(s)) == Window(s)
  {
  }

  /**
   * The `while let Ok(log_entry) = rx.try_recv()` loop of the render loop:
   * receives every pending line, popping the front of the deque first when it
   * already holds `Capacity` lines. Afterwards the channel is empty and the
   * deque holds the window of its old contents followed by the drained lines.
   */
  method DrainInto(log: Deque.LineDeque, rx: Mpsc.Channel)
    requires |log.items| <= Capacity
    modifies log, rx
    ensures |log.items| <= Capacity
    ensures log.items == Window(old(log.items) + old(rx.pending))
    ensures rx.pending == []
  {
    ghost var received: seq<string> := [];
    WindowOfShort(log.items);
    while true
      invariant old(rx.pending) == received + rx.pending
      invariant log.items == Window(old(log.items) + received)
      decreases |rx.pending|
    {
      var entry := rx.TryRecv();
      if entry.None? {
        break;
      }
      ghost var before := old(log.items) + received;
      WindowSnoc(before, entry.value);
      if log.Len() == Capacity {
        var evicted := log.PopFront();
      }
      log.PushBack(entry.value);
      received := received + [entry.value];
      assert before + [entry.value] == old(log.items) + received;
    }
    assert received == old(rx.pending);
  }
}
