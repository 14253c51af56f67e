/**
 * The two texts the dashboard renders: the status paragraph built with
 * `format!` and the log paragraph, the deque's lines joined with newlines.
 */
module Display {

  /** `[String]::join(sep)`: the parts with `sep` between neighbours; no parts give "". */
  function Join(parts: seq<string>, sep: string): (s: string)
    decreases |parts|
  {
    if |parts| == 0 then []
    else if |parts| == 1 then parts[0]
    else parts[0] + sep + Join(parts[1..], sep)
  }

  /**
   * Reference inverse of `Join`: cuts a text at every occurrence of `c`
   * (as `str::split` does), so there is always at least one piece.
   */
  function Split(s: string, c: char): (pieces: seq<string>)
    ensures |pieces| >= 1
    decreases |s|
  {
    if s == [] then [[]]
    else if s[0] == c then [[]] + Split(s[1..], c)
    else
      var rest := Split(s[1..], c);
      [[s[0]] + rest[0]] + rest[1..]
  }

  /** The log panel text: the lines, oldest first, separated by "\n". */
  function LogPanel(lines: seq<string>): (text: string)
    ensures lines == [] ==> text == []
    ensures |lines| == 1 ==> text == lines[0]
  {
    Join(lines, "\n")
  }

  /** A new line at the bottom of a non-empty panel comes after one more "\n". */
  lemma {:induction false} JoinSnoc(parts: seq<string>, last: string, sep: string)
    requires parts != []
    ensures Join(parts + [last], sep) == Join(parts, sep) + sep + last
    decreases |parts|
  {
    if |parts| == 1 {
      assert (parts + [last])[1..] == [last];
    } else {
      assert (parts + [last])[1..] == parts[1..] + [last];
      JoinSnoc(parts[1..], last, sep);
    }
  }

  /** A piece free of `c` followed by more text stays the front of the first piece. */
  lemma {:induction false} SplitPrefix(p: string, rest: string, c: char)
    requires c !in p
    ensures Split(p + rest, c) == [p + Split(rest, c)[0]] + Split(rest, c)[1..]
    decreases |p|
  {
    if p != [] {
      assert (p + rest)[1..] == p[1..] + rest;
      SplitPrefix(p[1..], rest, c);
      assert [p[0]] + (p[1..] + Split(rest, c)[0]) == p + Split(rest, c)[0];
    } else {
      var pieces := Split(rest, c);
      assert p + rest == rest;
      assert p + pieces[0] == pieces[0];
      assert [pieces[0]] + pieces[1..] == pieces;
    }
  }

  /**
   * When no line contains the separator character, the panel text can be cut
   * back into exactly the lines it shows.
   */
  lemma {:induction false} SplitJoin(parts: seq<string>, c: char)
    requires parts != []
    requires forall i :: 0 <= i < |parts| ==> c !in parts[i]
    ensures Split(Join(parts, [c]), c) == parts
    decreases |parts|
  {
    if |parts| == 1 {
      SplitPrefix(parts[0], [], c);
      assert parts[0] + [] == parts[0];
    } else {
      var tail := Join(parts[1..], [c]);
      assert Join(parts, [c]) == parts[0] + ([c] + tail);
      SplitPrefix(parts[0], [c] + tail, c);
      assert ([c] + tail)[1..] == tail;
      SplitJoin(parts[1..], c);
      assert parts[0] + [] == parts[0];
      assert [parts[0]] + parts[1..] == parts;
    }
  }

  /** The lines of a log panel whose lines hold no "\n" are those lines, oldest first. */
  lemma LogPanelLines(lines: seq<string>)
    requires lines != []
    requires forall i :: 0 <= i < |lines| ==> '\n' !in lines[i]
    ensures Split(LogPanel(lines), '\n') == lines
  {
    SplitJoin(lines, '\n');
  }

  /** A text that starts with `c` splits into an empty piece followed by the pieces of the rest. */
  lemma SplitAtSeparator(t: string, c: char)
    ensures Split([c] + t, c) == [[]] + Split(t, c)
  {
    assert ([c] + t)[1..] == t;
  }

  /** Every log line `body + "\n"` that `read_line` returns for a complete line. */
  function Terminated(bodies: seq<string>): (lines: seq<string>)
    ensures |lines| == |bodies|
    ensures forall i :: 0 <= i < |bodies| ==> lines[i] == bodies[i] + "\n"
  {
    seq(|bodies|, i requires 0 <= i < |bodies| => bodies[i] + "\n")
  }

  /** Each body followed by an empty piece: what a panel of newline-terminated lines splits into. */
  function DoubleSpaced(bodies: seq<string>): (pieces: seq<string>)
    ensures |pieces| == 2 * |bodies|
    ensures forall i :: 0 <= i < |bodies| ==> pieces[2 * i] == bodies[i] && pieces[2 * i + 1] == []
    decreases |bodies|
  {
    if bodies == [] then [] else [bodies[0], []] + DoubleSpaced(bodies[1..])
  }

  /** A last complete line `b + "\n"` splits into its text and an empty piece. */
  lemma SplitTerminated(b: string)
    requires '\n' !in b
    ensures Split(b + "\n", '\n') == [b, []]
  {
    assert b + "\n" == b + (['\n'] + []);
    SplitPrefix(b, ['\n'] + [], '\n');
    SplitAtSeparator([], '\n');
    assert Split(['\n'] + [], '\n') == [[], []];
    assert b + [] == b;
  }

  /** A complete line `b + "\n"` joined before more panel text adds its text and an empty piece. */
  lemma SplitTerminatedBefore(b: string, tail: string)
    requires '\n' !in b
    ensures Split((b + "\n") + "\n" + tail, '\n') == [b, []] + Split(tail, '\n')
  {
    var more := ['\n'] + tail;
    assert (b + "\n") + "\n" + tail == b + (['\n'] + more);
    SplitPrefix(b, ['\n'] + more, '\n');
    SplitAtSeparator(more, '\n');
    SplitAtSeparator(tail, '\n');
    var after := Split(['\n'] + more, '\n');
    assert after == [[]] + ([[]] + Split(tail, '\n'));
    assert b + after[0] == b;
  }

  /**
   * A panel of complete log lines, each keeping its trailing "\n", is
   * double-spaced: cut at "\n" it gives every line's text followed by an
   * empty line, oldest first.
   */
  lemma {:induction false} LogPanelOfTerminatedLines(bodies: seq<string>)
    requires bodies != []
    requires forall i :: 0 <= i < |bodies| ==> '\n' !in bodies[i]
    ensures Split(LogPanel(Terminated(bodies)), '\n') == DoubleSpaced(bodies)
    decreases |bodies|
  {
    var lines := Terminated(bodies);
    if |bodies| == 1 {
      SplitTerminated(bodies[0]);
      assert DoubleSpaced(bodies) == [bodies[0], []] by {
        assert bodies[1..] == [];
      }
    } else {
      assert lines[1..] == Terminated(bodies[1..]);
      LogPanelOfTerminatedLines(bodies[1..]);
      assert LogPanel(lines) == lines[0] + "\n" + LogPanel(lines[1..]);
      SplitTerminatedBefore(bodies[0], LogPanel(lines[1..]));
    }
  }

  /** `format!("{}{}", stdout, stderr)` of `nginx -t`: standard output, then standard error. */
  function ConfigReport(stdout: string, stderr: string): (report: string)
    ensures |report| == |stdout| + |stderr|
    ensures report[..|stdout|] == stdout && report[|stdout|..] == stderr
  {
    stdout + stderr
  }

  const ServerLabel: string := "Monitoring server: "
  const VersionLabel: string := "\nNginx version: "
  const PidLabel: string := "PID: "

  /**
   * `format!("Monitoring server: {}\nNginx version: {}PID: {}\n{}", ...)`.
   * No newline is inserted between the version and the PID: the version
   * text is `nginx -v`'s standard error, which supplies its own.
   */
  function StatusText(serverName: string, version: string, pid: string, report: string): (text: string)
    ensures |text| == |ServerLabel| + |serverName| + |VersionLabel| + |version| + |PidLabel| + |pid| + 1 + |report|
    ensures text[..|ServerLabel| + |serverName|] == ServerLabel + serverName
    ensures text[|text| - |report|..] == report
  {
    ServerLabel + serverName + VersionLabel + version + PidLabel + pid + "\n" + report
  }

  /** The first line of the status text names the monitored server, when the name has no "\n". */
  lemma StatusFirstLine(serverName: string, version: string, pid: string, report: string)
    requires '\n' !in serverName
    ensures Split(StatusText(serverName, version, pid, report), '\n')[0] == ServerLabel + serverName
  {
    var head := ServerLabel + serverName;
    var rest := "Nginx version: " + version + PidLabel + pid + "\n" + report;
    assert VersionLabel == ['\n'] + "Nginx version: ";
    assert StatusText(serverName, version, pid, report) == head + (['\n'] + rest);
    NotInConcat(ServerLabel, serverName, '\n');
    SplitPrefix(head, ['\n'] + rest, '\n');
    assert (['\n'] + rest)[1..] == rest;
    assert head + [] == head;
  }

  lemma NotInConcat(a: string, b: string, c: char)
    requires c !in a && c !in b
    ensures c !in a + b
  {
  }
}
