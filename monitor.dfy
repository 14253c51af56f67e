/**
 * The main loop of the dashboard (`'mainloop` in `main`), with its
 * surroundings abstracted: every cycle checks the keyboard, formats the
 * status text from the commands' outputs, drains the lines the tailer sent
 * into the rolling log and renders the two texts as one frame.
 */
module Monitor {
  import opened Common
  import Mpsc
  import Deque
  import RollingLog
  import Display
  import Controls
  import Tailer

  /**
   * What one cycle receives from outside: the keyboard poll's result, the
   * captured output of `nginx -t`, the text of the PID file, and the lines
   * the tailer thread sent since the previous cycle, in sending order.
   */
  datatype Tick = Tick(
    input: Controls.Input,
    configStdout: string,
    configStderr: string,
    pid: string,
    arrivals: seq<string>)

  /** The two paragraphs of one rendered frame. */
  datatype Frame = Frame(status: string, logs: string)

  /**
   * How the loop ended: a quit key, a failed keyboard poll or read (the
   * source returns it from `main`), or still running when the ticks ran out.
   */
  datatype LoopExit = QuitKey | InputFailed(error: IoError) | StillRunning

  /** Every line sent during the given ticks, in order. */
  function Arrived(ticks: seq<Tick>): (lines: seq<string>)
    decreases |ticks|
  {
    if ticks == [] then [] else ticks[0].arrivals + Arrived(ticks[1..])
  }

  /** The frame a cycle renders, given the lines the rolling log holds after its drain. */
  function FrameOf(serverName: string, version: string, t: Tick, shown: seq<string>): Frame
  {
    Frame(
      Display.StatusText(serverName, version, t.pid, Display.ConfigReport(t.configStdout, t.configStderr)),
      Display.LogPanel(shown))
  }

  /** The tailer thread's sends during one cycle. */
  method Deliver(tx: Mpsc.Channel, lines: seq<string>)
    modifies tx
    ensures tx.pending == old(tx.pending) + lines
  {
    var i := 0;
    while i < |lines|
      invariant 0 <= i <= |lines|
      invariant tx.pending == old(tx.pending) + lines[..i]
    {
      tx.Send(lines[i]);
      assert lines[..i + 1] == lines[..i] + [lines[i]];
      i := i + 1;
    }
    assert lines[..i] == lines;
  }

  /**
   * The work of one cycle after the keyboard check: the lines the tailer
   * sent reach the channel, the status text is formatted, the channel is
   * drained into the rolling log, and the frame is composed. `history` is
   * every line that arrived in earlier cycles.
   */
  method Cycle(serverName: string, version: string, tick: Tick, log: Deque.LineDeque, rx: Mpsc.Channel,
               ghost history: seq<string>)
    returns (frame: Frame)
    requires log.items == RollingLog.Window(history) && rx.pending == []
    modifies log, rx
    ensures log.items == RollingLog.Window(history + tick.arrivals) && rx.pending == []
    ensures frame == FrameOf(serverName, version, tick, log.items)
  {
    Deliver(rx, tick.arrivals);
    assert log.items == RollingLog.Window(history) && rx.pending == tick.arrivals;
    var report := Display.ConfigReport(tick.configStdout, tick.configStderr);
    var status := Display.StatusText(serverName, version, tick.pid, report);
    RollingLog.WindowBounded(history);
    RollingLog.DrainInto(log, rx);
    assert log.items == RollingLog.Window(RollingLog.Window(history) + tick.arrivals);
    RollingLog.WindowAppend(history, tick.arrivals);
    frame := Frame(status, Display.LogPanel(log.items));
  }

  /** The outcome of a run of the main loop: how it ended and the frames it rendered, in order. */
  datatype Session = Session(exit: LoopExit, frames: seq<Frame>)

  /**
   * Specification of the main loop over the remaining `ticks`, when
   * `history` is every line that arrived in earlier cycles: a cycle whose
   * keyboard check says `Continue` renders one frame and the loop goes on;
   * `Quit` and `Abort` end it before anything of that cycle is rendered.
   */
  function Run(serverName: string, version: string, ticks: seq<Tick>, history: seq<string>): (s: Session)
    ensures |s.frames| <= |ticks|
    ensures s.exit == StillRunning <==> |s.frames| == |ticks|
    decreases |ticks|
  {
    if ticks == [] then Session(StillRunning, [])
    else match Controls.NextAction(ticks[0].input)
      case Quit => Session(QuitKey, [])
      case Abort(e) => Session(InputFailed(e), [])
      case Continue =>
        var seen := history + ticks[0].arrivals;
        var rest := Run(serverName, version, ticks[1..], seen);
        Session(rest.exit, [FrameOf(serverName, version, ticks[0], RollingLog.Window(seen))] + rest.frames)
  }

  /**
   * The main loop over a finite run of cycles (`'mainloop` in `main`); the
   * source loops until a key ends it, here the loop also stops when the
   * ticks run out.
   */
  method MainLoop(serverName: string, version: string, ticks: seq<Tick>)
    returns (exit: LoopExit, frames: seq<Frame>)
    ensures Session(exit, frames) == Run(serverName, version, ticks, [])
  {
    var rx := new Mpsc.Channel();
    var log := new Deque.LineDeque.WithCapacity(RollingLog.Capacity);
    frames := [];
    ghost var history: seq<string> := [];
    var i := 0;
    while i < |ticks|
      invariant 0 <= i <= |ticks|
      invariant log.items == RollingLog.Window(history) && rx.pending == []
      invariant Run(serverName, version, ticks, []) == Session(
        Run(serverName, version, ticks[i..], history).exit,
        frames + Run(serverName, version, ticks[i..], history).frames)
    {
      assert ticks[i..][1..] == ticks[i + 1..];
      var action := Controls.NextAction(ticks[i].input);
      if action.Quit? {
        return QuitKey, frames;
      } else if action.Abort? {
        return InputFailed(action.error), frames;
      }
      var frame := Cycle(serverName, version, ticks[i], log, rx, history);
      ghost var rest := Run(serverName, version, ticks[i + 1..], history + ticks[i].arrivals);
      assert frames + ([frame] + rest.frames) == (frames + [frame]) + rest.frames;
      frames := frames + [frame];
      history := history + ticks[i].arrivals;
      i := i + 1;
    }
    assert ticks[i..] == [];
    assert frames + [] == frames;
    exit := StillRunning;
  }

  /**
   * The loop renders frames exactly as long as the keyboard check says
   * `Continue`; the first cycle where it does not ends the loop, with
   * `QuitKey` for `'q'` or `Esc` and with the error for a failed poll.
   */
  lemma {:induction false} RunStopsAtFirstKey(serverName: string, version: string, ticks: seq<Tick>,
                                               history: seq<string>)
    ensures var s := Run(serverName, version, ticks, history);
      forall k :: 0 <= k < |s.frames| ==> Controls.NextAction(ticks[k].input) == Controls.Continue
    ensures var s := Run(serverName, version, ticks, history);
      |s.frames| < |ticks| ==>
        (s.exit == QuitKey && Controls.NextAction(ticks[|s.frames|].input) == Controls.Quit) ||
        (s.exit.InputFailed? && Controls.NextAction(ticks[|s.frames|].input) == Controls.Abort(s.exit.error))
    decreases |ticks|
  {
    if ticks != [] && Controls.NextAction(ticks[0].input) == Controls.Continue {
      var seen := history + ticks[0].arrivals;
      RunStopsAtFirstKey(serverName, version, ticks[1..], seen);
      var rest := Run(serverName, version, ticks[1..], seen);
      assert forall k :: 1 <= k < |ticks| ==> ticks[1..][k - 1] == ticks[k];
    }
  }

  /** The lines of the first `k + 1` ticks are those of the first tick followed by the next `k`. */
  lemma ArrivedPrefix(ticks: seq<Tick>, k: nat)
    requires k < |ticks|
    ensures Arrived(ticks[..k + 1]) == ticks[0].arrivals + Arrived(ticks[1..][..k])
  {
    assert ticks[..k + 1][1..] == ticks[1..][..k];
  }

  /** A cycle whose keyboard check says `Continue` renders its frame before the later ones. */
  lemma RunContinues(serverName: string, version: string, ticks: seq<Tick>, history: seq<string>)
    requires ticks != [] && Controls.NextAction(ticks[0].input) == Controls.Continue
    ensures Run(serverName, version, ticks, history).frames
         == [FrameOf(serverName, version, ticks[0], RollingLog.Window(history + ticks[0].arrivals))]
            + Run(serverName, version, ticks[1..], history + ticks[0].arrivals).frames
  {
  }

  /** Frame `k > 0` of a run that continues past its first cycle is frame `k - 1` of the rest. */
  lemma RunFrameShift(serverName: string, version: string, ticks: seq<Tick>, history: seq<string>, k: nat)
    requires ticks != [] && Controls.NextAction(ticks[0].input) == Controls.Continue
    requires 0 < k < |Run(serverName, version, ticks, history).frames|
    ensures k - 1 < |Run(serverName, version, ticks[1..], history + ticks[0].arrivals).frames|
    ensures Run(serverName, version, ticks, history).frames[k]
         == Run(serverName, version, ticks[1..], history + ticks[0].arrivals).frames[k - 1]
  {
    RunContinues(serverName, version, ticks, history);
  }

  /** The history seen by cycle `k` counted from the first tick or from the second. */
  lemma HistoryShift(ticks: seq<Tick>, history: seq<string>, k: nat)
    requires k < |ticks|
    ensures history + Arrived(ticks[..k + 1]) == (history + ticks[0].arrivals) + Arrived(ticks[1..][..k])
  {
    ArrivedPrefix(ticks, k);
  }

  /**
   * The frame of rendered cycle `k` shows that cycle's status and the
   * window of all lines that arrived up to and including that cycle.
   */
  lemma {:induction false} RunFrameAt(serverName: string, version: string, ticks: seq<Tick>,
                                      history: seq<string>, k: nat)
    requires k < |Run(serverName, version, ticks, history).frames|
    ensures Run(serverName, version, ticks, history).frames[k]
         == FrameOf(serverName, version, ticks[k], RollingLog.Window(history + Arrived(ticks[..k + 1])))
    decreases k
  {
    assert Controls.NextAction(ticks[0].input) == Controls.Continue;
    if k == 0 {
      RunContinues(serverName, version, ticks, history);
      ArrivedFirst(ticks);
    } else {
      var seen := history + ticks[0].arrivals;
      RunFrameShift(serverName, version, ticks, history, k);
      RunFrameAt(serverName, version, ticks[1..], seen, k - 1);
      assert ticks[1..][k - 1] == ticks[k];
      HistoryShift(ticks, history, k);
    }
  }

  /** The lines of the first tick alone. */
  lemma ArrivedFirst(ticks: seq<Tick>)
    requires ticks != []
    ensures Arrived(ticks[..1]) == ticks[0].arrivals
  {
    assert ticks[..1][1..] == [];
    assert ticks[0].arrivals + [] == ticks[0].arrivals;
  }

  /** Three cycles that receive `a`, `b` and `c` with no key pressed, then a cycle whose key is `q`. */
  function QuitAfterThree(a: seq<string>, b: seq<string>, c: seq<string>): seq<Tick>
  {
    var quit := Controls.Received(Controls.Key(Controls.KeyEvent(Controls.Char('q'), {}, Controls.Press)));
    [Tick(Controls.NoEvent, "", "", "", a), Tick(Controls.NoEvent, "", "", "", b),
     Tick(Controls.NoEvent, "", "", "", c), Tick(quit, "", "", "", [])]
  }

  /** The lines of those ticks are `a`, `b` and `c`, whether or not the quitting cycle is counted. */
  lemma QuitAfterThreeArrivals(a: seq<string>, b: seq<string>, c: seq<string>)
    ensures var ticks := QuitAfterThree(a, b, c);
      Arrived(ticks) == a + b + c && Arrived(ticks[..3]) == a + b + c
  {
    var ticks := QuitAfterThree(a, b, c);
    assert ticks[..3] == [ticks[0], ticks[1], ticks[2]];
    assert ticks == [ticks[0], ticks[1], ticks[2], ticks[3]];
    ThreeCyclesArrive(ticks[0], ticks[1], ticks[2], ticks[3]);
  }

  /** Those ticks render three frames and the `q` of the fourth cycle ends the loop. */
  lemma QuitAfterThreeRun(serverName: string, version: string, a: seq<string>, b: seq<string>, c: seq<string>)
    ensures var s := Run(serverName, version, QuitAfterThree(a, b, c), []);
      s.exit == QuitKey && |s.frames| == 3
  {
    var ticks := QuitAfterThree(a, b, c);
    RunStopsAtFirstKey(serverName, version, ticks, []);
    assert Controls.NextAction(ticks[0].input) == Controls.Continue;
    assert Controls.NextAction(ticks[1].input) == Controls.Continue;
    assert Controls.NextAction(ticks[2].input) == Controls.Continue;
    assert Controls.NextAction(ticks[3].input) == Controls.Quit;
  }

  /** The third frame of those ticks shows the window of everything that arrived. */
  lemma QuitAfterThreeLastFrame(serverName: string, version: string, a: seq<string>, b: seq<string>, c: seq<string>)
    ensures var s := Run(serverName, version, QuitAfterThree(a, b, c), []);
      |s.frames| == 3 &&
      s.frames[2] == FrameOf(serverName, version, QuitAfterThree(a, b, c)[2], RollingLog.Window(a + b + c))
  {
    var ticks := QuitAfterThree(a, b, c);
    QuitAfterThreeRun(serverName, version, a, b, c);
    QuitAfterThreeArrivals(a, b, c);
    RunFrameFromStart(serverName, version, ticks, 2);
  }

  /** Frame `k` of a run from an empty history shows the window of the lines of cycles 0 to `k`. */
  lemma RunFrameFromStart(serverName: string, version: string, ticks: seq<Tick>, k: nat)
    requires k < |Run(serverName, version, ticks, []).frames|
    ensures Run(serverName, version, ticks, []).frames[k]
         == FrameOf(serverName, version, ticks[k], RollingLog.Window(Arrived(ticks[..k + 1])))
  {
    RunFrameAt(serverName, version, ticks, [], k);
    assert [] + Arrived(ticks[..k + 1]) == Arrived(ticks[..k + 1]);
  }

  /**
   * The tailer reads fifteen complete lines L1..L15 (all non-empty). Those
   * lines arrive over three cycles (4, 7 and 4 lines), and a quit key ends
   * the fourth cycle. Three frames are rendered; the last one is the status
   * of the third cycle next to the window L6..L15, oldest first.
   */
  method FifteenLinesScenario(lines: seq<string>)
    returns (status: Tailer.TailerStatus, ticks: seq<Tick>, exit: LoopExit, frames: seq<Frame>)
    requires |lines| == 15
    requires forall i :: 0 <= i < |lines| ==> lines[i] != []
    ensures status == Tailer.Following
    ensures Arrived(ticks) == Tailer.Tail(Tailer.ReadsOf(lines)).emitted
    ensures |ticks| == 4 && exit == QuitKey && |frames| == 3
    ensures RollingLog.Window(Arrived(ticks[..3])) == lines[5..]
    ensures frames[2] == FrameOf("web", "", ticks[2], RollingLog.Window(Arrived(ticks[..3])))
  {
    var tx := new Mpsc.Channel();
    status := Tailer.MonitorErrorLog(None, Tailer.ReadsOf(lines), tx);
    Tailer.AppendedLinesAreSent(lines);
    var sent := tx.pending;
    assert sent == lines;
    ticks := QuitAfterThree(sent[..4], sent[4..11], sent[11..]);
    exit, frames := MainLoop("web", "", ticks);
    QuitAfterThreeRun("web", "", sent[..4], sent[4..11], sent[11..]);
    QuitAfterThreeLastFrame("web", "", sent[..4], sent[4..11], sent[11..]);
    QuitAfterThreeArrivals(sent[..4], sent[4..11], sent[11..]);
    assert sent[..4] + sent[4..11] + sent[11..] == lines;
  }

  /** The lines of three cycles followed by a cycle in which nothing arrives. */
  lemma ThreeCyclesArrive(t0: Tick, t1: Tick, t2: Tick, t3: Tick)
    requires t3.arrivals == []
    ensures Arrived([t0, t1, t2]) == t0.arrivals + t1.arrivals + t2.arrivals
    ensures Arrived([t0, t1, t2, t3]) == t0.arrivals + t1.arrivals + t2.arrivals
  {
    ArrivedSplit([t0, t1, t2], [t3]);
    assert [t0, t1, t2] + [t3] == [t0, t1, t2, t3];
    assert [t3][1..] == [];
    assert [t0, t1, t2][1..] == [t1, t2];
    assert [t1, t2][1..] == [t2];
    assert [t2][1..] == [];
    assert Arrived([t2]) == t2.arrivals by {
      assert t2.arrivals + [] == t2.arrivals;
    }
    assert Arrived([t1, t2]) == t1.arrivals + t2.arrivals;
    assert Arrived([t0, t1, t2]) == t0.arrivals + (t1.arrivals + t2.arrivals);
    assert Arrived([t3]) == [];
  }

  /** The lines of two stretches of ticks are those of the first followed by those of the second. */
  lemma {:induction false} ArrivedSplit(a: seq<Tick>, b: seq<Tick>)
    ensures Arrived(a + b) == Arrived(a) + Arrived(b)
    decreases |a|
  {
    if a == [] {
      assert a + b == b;
    } else {
      assert (a + b)[1..] == a[1..] + b;
      ArrivedSplit(a[1..], b);
    }
  }
}
