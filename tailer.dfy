/**
 * The log tailer thread (`monitor_nginx_error_log`): it reads the error log
 * line by line with `read_line`, sends every non-empty read to the UI thread
 * and keeps polling at end of file until a read fails.
 *
 * Each `read_line` call is abstracted to the text it appended to the line
 * buffer: `Ok("")` stands for Rust's `Ok(0)` (no new data yet), `Ok(t)` with
 * `t` non-empty for `Ok(|t|)`, and `Err(e)` for a failed read. A run of the
 * tailer is modelled over a finite sequence of such reads.
 */
module Tailer {
  import opened Common
  import Mpsc

  datatype ReadResult = Ok(text: string) | Err(error: IoError)

  /** `Following`: the tailer is still reading; `Stopped(e)`: it returned `Err(e)`. */
  datatype TailerStatus = Following | Stopped(error: IoError)

  /** What a run of the tailer sent, and whether it is still following the file. */
  datatype Tailing = Tailing(emitted: seq<string>, status: TailerStatus)

  /**
   * Specification of the tailer over a sequence of reads: every non-empty
   * read is sent, in read order, until the first failing read, which ends
   * the tailer with that error.
   */
  function Tail(outcomes: seq<ReadResult>): (t: Tailing)
    ensures |t.emitted| <= |outcomes|
    ensures forall i :: 0 <= i < |t.emitted| ==> t.emitted[i] != []
    ensures t.status.Stopped? ==> Err(t.status.error) in outcomes
    ensures (forall i :: 0 <= i < |outcomes| ==> outcomes[i].Ok?) ==> t.status == Following
  {
    if outcomes == [] then Tailing([], Following)
    else match outcomes[0]
      case Err(e) => Tailing([], Stopped(e))
      case Ok(text) =>
        var rest := Tail(outcomes[1..]);
        assert forall i :: 1 <= i < |outcomes| ==> outcomes[1..][i - 1] == outcomes[i];
        if |text| == 0 then rest else Tailing([text] + rest.emitted, rest.status)
  }

  /**
   * `monitor_nginx_error_log`: `openError` is the outcome of `File::open`
   * (`Some(e)` when it failed), `outcomes` the results of the successive
   * `read_line` calls and `tx` the channel's sending side. The line buffer
   * `line` is a string that each read appends to; after a non-empty read a
   * copy of it is sent and it is cleared.
   */
  method MonitorErrorLog(openError: Option<IoError>, outcomes: seq<ReadResult>, tx: Mpsc.Channel)
    returns (status: TailerStatus)
    modifies tx
    ensures openError.Some? ==> status == Stopped(openError.value) && tx.pending == old(tx.pending)
    ensures openError.None? ==>
      status == Tail(outcomes).status && tx.pending == old(tx.pending) + Tail(outcomes).emitted
  {
    if openError.Some? {
      return Stopped(openError.value);
    }
    var line: string := [];
    var i := 0;
    while i < |outcomes|
      invariant 0 <= i <= |outcomes|
      invariant line == []
      invariant tx.pending + Tail(outcomes[i..]).emitted == old(tx.pending) + Tail(outcomes).emitted
      invariant Tail(outcomes[i..]).status == Tail(outcomes).status
    {
      assert outcomes[i..][1..] == outcomes[i + 1..];
      match outcomes[i] {
        case Ok(text) =>
          line := line + text;
          if |text| == 0 {
            // End of file for now: the source sleeps 500 ms and reads again.
          } else {
            assert line == text;
            ghost var sentBefore := tx.pending;
            tx.Send(line);
            line := [];
            assert tx.pending + Tail(outcomes[i + 1..]).emitted
                == sentBefore + ([text] + Tail(outcomes[i + 1..]).emitted);
          }
        case Err(e) =>
          return Stopped(e);
      }
      i := i + 1;
    }
    assert outcomes[i..] == [];
    return Following;
  }

  /**
   * Reading in two stretches is reading once: the second stretch only
   * matters when the first ended without an error.
   */
  lemma {:induction false} TailAppend(a: seq<ReadResult>, b: seq<ReadResult>)
    ensures Tail(a + b) ==
      if Tail(a).status.Stopped? then Tail(a)
      else Tailing(Tail(a).emitted + Tail(b).emitted, Tail(b).status)
    decreases |a|
  {
    if a == [] {
      assert a + b == b;
    } else {
      assert (a + b)[1..] == a[1..] + b;
      TailAppend(a[1..], b);
      match a[0] {
        case Err(e) =>
        case Ok(text) =>
          if |text| != 0 {
            assert [text] + (Tail(a[1..]).emitted + Tail(b).emitted)
                == ([text] + Tail(a[1..]).emitted) + Tail(b).emitted;
          }
      }
    }
  }

  /** A read that returns 0 bytes, anywhere in the run, emits nothing and changes nothing. */
  lemma NoDataReadChangesNothing(a: seq<ReadResult>, b: seq<ReadResult>)
    ensures Tail(a + [Ok([])] + b) == Tail(a + b)
  {
    TailAppend(a, [Ok([])] + b);
    TailAppend(a, b);
    assert a + [Ok([])] + b == a + ([Ok([])] + b);
    assert ([Ok([])] + b)[1..] == b;
  }

  /** A non-empty read after an error-free stretch sends exactly that text, after everything before it. */
  lemma LineReadSendsIt(a: seq<ReadResult>, text: string)
    requires text != []
    requires Tail(a).status == Following
    ensures Tail(a + [Ok(text)]) == Tailing(Tail(a).emitted + [text], Following)
  {
    TailAppend(a, [Ok(text)]);
    assert [Ok(text)][1..] == [];
  }

  /** A failing read after an error-free stretch ends the tailer with that error and sends nothing more. */
  lemma ErrorReadStops(a: seq<ReadResult>, e: IoError, b: seq<ReadResult>)
    requires Tail(a).status == Following
    ensures Tail(a + [Err(e)] + b) == Tailing(Tail(a).emitted, Stopped(e))
  {
    assert a + [Err(e)] + b == a + ([Err(e)] + b);
    TailAppend(a, [Err(e)] + b);
  }

  /** Polling a file that has not grown never sends a line and never fails. */
  lemma {:induction false} IdleReadsEmitNothing(outcomes: seq<ReadResult>)
    requires forall i :: 0 <= i < |outcomes| ==> outcomes[i] == Ok([])
    ensures Tail(outcomes) == Tailing([], Following)
    decreases |outcomes|
  {
    if outcomes != [] {
      assert forall i :: 0 <= i < |outcomes| - 1 ==> outcomes[1..][i] == outcomes[i + 1];
      IdleReadsEmitNothing(outcomes[1..]);
    }
  }

  /** The reads of `k` appended lines, one line per read. */
  function ReadsOf(lines: seq<string>): seq<ReadResult>
  {
    seq(|lines|, i requires 0 <= i < |lines| => Ok(lines[i]))
  }

  /**
   * Appending `k` complete lines between polls makes exactly `k` emissions,
   * in append order, each equal to the appended text.
   */
  lemma {:induction false} AppendedLinesAreSent(lines: seq<string>)
    requires forall i :: 0 <= i < |lines| ==> lines[i] != []
    ensures Tail(ReadsOf(lines)) == Tailing(lines, Following)
    decreases |lines|
  {
    if lines != [] {
      assert ReadsOf(lines)[1..] == ReadsOf(lines[1..]);
      AppendedLinesAreSent(lines[1..]);
      assert [lines[0]] + lines[1..] == lines;
    }
  }
}
