# rustinx core, modelled in Dafny

rustinx is a terminal dashboard for one nginx server. Its logic lives in `src/main.rs`, in three parts.

- A background thread, `monitor_nginx_error_log`, tails `/var/log/nginx/error.log`. It sends every line it reads over an `mpsc` channel.
- The main loop first checks the keyboard for a quit key (`q` or `Esc`). It then formats a status text from the outputs of `nginx -v`, `nginx -t` and `cat /run/nginx.pid`. Finally it drains the channel into a `VecDeque<String>` holding at most 10 lines, and renders the status and the joined log lines.
- The model has one module per component:
  - `Common`: `Option`, `IoError`.
  - `Mpsc`: the channel, as a class over the queue of pending lines.
  - `Deque`: the `VecDeque`, as a class with `pop_front` and `push_back`.
  - `RollingLog`: the 10-line window and the drain loop.
  - `Tailer`: the tailer thread.
  - `Display`: the status text and the log panel text.
  - `Controls`: the quit decision.
  - `Monitor`: the main loop, assembled from the above.

The two loops in the source change state step by step: the drain loop and the tailer's read loop. They are modelled as Dafny methods with `while` loops. Each is proved against a specification function: `RollingLog.Window` for the drain, `Tailer.Tail` for the tailer. Lemmas then state what the source promises about those functions. The text formatting and the quit-key `match` are pure functions. The main loop is a method proved against the recursive function `Monitor.Run`.

Modelling decisions:

- **Tailer reads.** Each `read_line` call is given as its outcome. `Ok(t)` means the text `t` was appended to the line buffer; `Ok([])` is Rust's `Ok(0)`. `Err(e)` is a failed read. The tailer runs over a finite sequence of these outcomes; when they run out it is still `Following`.
- **Trailing newlines.** An emitted line keeps `read_line`'s text exactly, including any trailing newline. The panel therefore joins lines that may already end in `"\n"`, exactly as the source does.
- **Concurrency.** The threads and the channel are abstracted. Each cycle of the main loop gets the lines the tailer sent since the previous cycle as an ordered sequence (`Tick.arrivals`). That sequence passes through the channel object before the drain. `Monitor.FifteenLinesScenario` feeds the cycles with exactly what `Tailer.MonitorErrorLog` sent.
- **Command outputs.** The outputs of `nginx -v`, `nginx -t` and the PID file are plain input strings.

Facts about the code that the model keeps:

- **No terminal restoration.** `main` never calls `LeaveAlternateScreen`, `disable_raw_mode` or `Show` (src/main.rs:84-158). No exit path restores the terminal: the loop simply `break`s, and errors leave `main` through `?`.
- **Capacity.** The capacity is exactly 10 (src/main.rs:137).
- **Eviction test.** Eviction tests `len() == 10`, not `>= 10` (src/main.rs:137). That is enough only because the deque starts empty and the drain loop is its only writer. `RollingLog.DrainInto` therefore requires at most `Capacity` lines, and keeps that bound.
- **Double-spaced panel.** A complete line from `read_line` still ends in "\n" when it is joined with "\n" (src/main.rs:29, 35, 143-147). So the panel shows an empty line after every log line (`Display.LogPanelOfTerminatedLines`).

## Model

| member | source | states |
|---|---|---|
| Mpsc.Channel.constructor | src/main.rs:60 | a new channel has nothing pending |
| Mpsc.Channel.Send | src/main.rs:35 | a sent line joins the back of the pending queue; nothing else changes |
| Mpsc.Channel.TryRecv | src/main.rs:136 | with nothing pending, returns `None` and leaves the queue empty; otherwise returns the oldest pending line and removes exactly that line |
| Deque.LineDeque.WithCapacity | src/main.rs:67 | the deque starts empty whatever capacity is reserved |
| Deque.LineDeque.PopFront | src/main.rs:138 | removes and returns the front element, or returns `None` on an empty deque |
| Deque.LineDeque.PushBack | src/main.rs:140 | appends at the back; earlier elements are unchanged |
| RollingLog.DrainInto | src/main.rs:136-141 | after the drain the channel is empty and the deque holds at most 10 lines. Those lines are exactly the last `min(old + new, 10)` lines of the old contents followed by the drained lines, in arrival order |
| RollingLog.WindowSnoc | src/main.rs:137-140 | one push into a window below capacity appends at the back and removes nothing. One push into a full window removes only the front line and appends the new one, so the length stays 10 |
| RollingLog.WindowAppend | src/main.rs:136-141 | draining in several cycles gives the same window as draining everything at once |
| RollingLog.WindowIsRecentSuffix | src/main.rs:136-141 | the window has length `min(n, 10)` and is the suffix of the arrival history, element by element |
| RollingLog.WindowBounded | src/main.rs:137-140 | no window holds more than 10 lines |
| Tailer.Tail | src/main.rs:28-40 | sends at most one line per read and never sends an empty line. It stops only on an `Err` that is among the reads, and keeps following when no read fails |
| Tailer.MonitorErrorLog | src/main.rs:23-41 | a failed `File::open` returns that error and sends nothing. Otherwise the channel receives exactly `Tail(reads).emitted` after what it held before, and the result is `Tail(reads).status`. A loop invariant keeps the line buffer empty at every loop head |
| Tailer.TailAppend | src/main.rs:28-40 | running over two stretches of reads is one run over both: the second stretch counts only if the first ended without error |
| Tailer.NoDataReadChangesNothing | src/main.rs:30-33 | a read of 0 bytes, wherever it occurs, sends nothing and changes nothing |
| Tailer.LineReadSendsIt | src/main.rs:34-36 | after an error-free stretch, a non-empty read sends exactly its text after everything sent before |
| Tailer.ErrorReadStops | src/main.rs:38 | a failing read after an error-free stretch ends the tailer with that error; nothing further is sent |
| Tailer.IdleReadsEmitNothing | src/main.rs:30-33 | polling a file that has not grown never sends a line and never fails |
| Tailer.AppendedLinesAreSent | src/main.rs:34-36 | reading k appended non-empty lines sends exactly those k lines, in append order, and the tailer keeps following |
| Display.LogPanel | src/main.rs:143-147 | an empty buffer yields ""; a single line is shown as itself |
| Display.JoinSnoc | src/main.rs:143-147 | a line added at the bottom of a non-empty panel is appended after one more separator |
| Display.SplitJoin | src/main.rs:143-147 | cutting a joined text at the separator gives back exactly the joined parts, when no part contains the separator |
| Display.LogPanelLines | src/main.rs:143-147 | when no line contains "\n", cutting the panel at "\n" gives the buffer's lines, oldest first. This covers lines such as a final partial line that `read_line` returned without its newline |
| Display.LogPanelOfTerminatedLines | src/main.rs:143-147 | when every line is a body followed by `read_line`'s "\n", cutting the panel at "\n" gives each body followed by an empty piece, oldest first. The panel is double-spaced |
| Display.ConfigReport | src/main.rs:98-102 | the report is the standard output of `nginx -t` followed by its standard error |
| Display.StatusText | src/main.rs:110-113 | the text begins with "Monitoring server: " and the name, ends with the `nginx -t` report, and is exactly as long as its parts and labels |
| Display.StatusFirstLine | src/main.rs:110-113 | the first line of the status text is "Monitoring server: " followed by the server name, when the name has no "\n" |
| Controls.NextAction | src/main.rs:86-96 | the loop quits exactly when a key event with code `'q'` or `Esc` is read, and aborts exactly when polling or reading failed, with that error. Everything else continues |
| Controls.UpperCaseQDoesNotQuit | src/main.rs:88-93 | the quit match is case-sensitive and ignores modifiers, so `Shift`+`Q` does not quit |
| Monitor.Deliver | src/main.rs:35 | the tailer's sends of a cycle reach the channel in order |
| Monitor.Cycle | src/main.rs:97-152 | one rendered cycle leaves the channel empty and the deque holding the window of the history plus that cycle's lines. Its frame is that cycle's status text next to that window's panel |
| Monitor.Run | src/main.rs:84-156 | never yields more frames than cycles, and is still running exactly when every cycle was rendered |
| Monitor.MainLoop | src/main.rs:84-156 | the exit and the frames of the imperative loop are exactly those of `Run` started from an empty history |
| Monitor.RunStopsAtFirstKey | src/main.rs:86-96 | frames are rendered exactly while the keyboard check says continue. The first cycle where it does not ends the loop with `QuitKey` for a quit key, or with the poll's error |
| Monitor.RunFrameAt | src/main.rs:115-152 | frame k shows cycle k's status and the last 10 of all lines that arrived up to and including cycle k |
| Monitor.RunFrameFromStart | src/main.rs:115-152 | from a fresh start, frame k shows cycle k's status and the last 10 of all lines that arrived in cycles 0 to k |
| Monitor.FifteenLinesScenario | src/main.rs:23-156 | the tailer reads L1..L15 and keeps following, and exactly what it sent arrives over three cycles. A `q` ends the fourth cycle, so exactly three frames are rendered. The last frame shows the window of all arrivals, which is exactly L6..L15 in order |

## Left out

- Terminal handling is not modelled, because it is presentation done by external crates. This covers the alternate screen, raw mode, the `Terminal` backend, `Layout`, `Block` and `Paragraph`, and the error of `terminal.draw(...)?`. A frame is the pair of texts it would render.
- The external commands are not modelled, because they are process I/O. Their outputs are input strings, and a failed command (the `?` on `nginx -v`, `nginx -t` and `cat`) is not modelled. `String::from_utf8_lossy` is not modelled; the texts are taken as already decoded.
- The root check through `geteuid` and `process::exit` is not modelled, because it is a foreign call.
- Argument parsing with `clap` is not modelled, because it is a library. The server name is an input string.
- The thread spawn and the real channel are abstracted to ordered sequences. Cross-thread interleaving is not modelled beyond "lines sent before a drain are seen by that drain".
- `send(...).unwrap()` panicking on a closed receiver is not modelled. The receiver lives as long as `main`.
- The tailer thread printing its error with `eprintln!` is not modelled, because it is output only. `Tailer.MonitorErrorLog` returns the error.
- `thread::sleep` (500 ms, 1 s) and the 100 ms timeout of `event::poll` are not modelled, because they concern wall-clock time only.
- File I/O is abstracted to one outcome per read. This covers `File::open` and the bytes `read_line` reads. Text a failing `read_line` may have appended before its error is not modelled: the function returns at once and that text is never sent.
- The keyboard is abstracted to one poll outcome per cycle. Mouse, focus, paste and resize events carry no data the loop uses.
- Monitor.MainLoop: the source loops until a key ends it. The model runs over a finite sequence of cycles and reports `StillRunning` when they run out.
