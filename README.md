# CS2 bomb-timer serial bridge: the poll loop

This project models the heart of `bridge.py`, the PC-side bridge of the CS2
bomb-timer display. Its loop polls a local HTTP endpoint. It normalises the
reply into a nine-field CSV frame and writes each accepted frame, followed by
`"\n"`, as ASCII to the serial port of an ESP32. It counts failures and
prints throttled diagnostics. It leaves the loop and closes the port on
Ctrl+C or when the serial port fails.

The model has four modules:

- `Payload` (`payload.dfy`) handles the text of one reply. It covers
  Python's `str.strip()`, removing one pair of surrounding double quotes
  (`data[1:-1]`), `split(',')`, the nine-field test, the 80-character preview
  `data[:80]` and `.encode("ascii")`. These are pure functions, with lemmas
  that relate each one to a partner: its inverse, or a reference description
  of it.
- `Forwarder` (`forwarder.dfy`) holds the loop variables. `last_data`,
  `fail_count` and `send_count` make up a `State`, together with three
  records: the frames written, the bytes on the wire and the diagnostics
  printed.
  - `Step` is one pass through the `while True` body. It is given an `Event`
    from the outside world: what `requests.get` produced (a `Response` with
    a status and a body, `Unreachable`, `TimedOut` or `Interrupted`) and
    what the serial write would report.
  - `Run` iterates `Step` and stops at the first tick that leaves the loop.
  - A tick ends in `Continue`, in `Break` (the two `break` statements), or
    in `Crash`. `Crash` is the uncaught `UnicodeEncodeError` of a nine-field
    frame that is not ASCII.
  - `Inv` is the invariant the loop keeps. The wire holds exactly the
    frames sent, each one an ASCII nine-field text ended by `"\n"`. The send
    count counts those frames, and `last_data` is the latest of them.
- `BridgeLoop` (`bridge.dfy`) is the loop as an object. The class `Bridge`
  has the loop variables as fields. Its methods update those fields in
  place, and each method is proved to do exactly what `Forwarder.Step` or
  `Forwarder.Run` says. `Close` is `ser.close()`.
- `Laws` (`laws.dfy`) states what the loop promises over one tick and over
  runs:
  - the rule for each kind of tick;
  - the only ways out of the loop;
  - failures accumulate in one counter, and one good frame resets it;
  - over sustained unreachability or sustained malformed replies, a
    diagnostic on the first failure and on every multiple of 20; over
    sustained HTTP errors, a diagnostic only on the first failure; over
    timeouts, none;
  - over a repeated frame, one "changed" line, then a heartbeat whenever
    the total send count reaches a multiple of 30.

Behaviours of the code that are easy to misread:

- The heartbeat falls on multiples of the total send count (`send_count %
  30` at line 64), not on the 30th send after the frame last changed. From
  the start of the loop, the same frame sent over and over gets its
  heartbeats on sends 30, 60, 90, ..., counting the first send, which
  prints "changed" (`Laws.SameFrameFromStart`). After a change at send c,
  the next heartbeat falls on the next multiple of 30 after c, not on
  send c + 30 (`Laws.RepeatedFrame`).
- The body is stripped of whitespace before the quotes are removed (lines
  46-48), so whitespace outside the quotes is dropped
  (`Payload.NormaliseQuoted`).
- Ctrl+C raised while the request is in progress ends the tick at once
  (lines 83-85). Nothing of that tick happens after the request.
- A nine-field frame that is not ASCII is not a handled error. The encode at
  line 58 raises, no `except` clause catches the error, and the port is not
  closed (`Forwarder.Step` ends in `Crash`).

## Model

| member | source | states |
|---|---|---|
| Payload.Strip | esp32projects/cs2_bomb_timer_esp32-c6lcd/bridge.py:46 | the stripped text is no longer than the body and has no whitespace at either end |
| Payload.StripIsSlice | esp32projects/cs2_bomb_timer_esp32-c6lcd/bridge.py:46 | strip removes only whitespace, and only at the two ends: the result is a slice `s[i..j]` with everything before `i` and after `j` whitespace |
| Payload.StripEmpty | esp32projects/cs2_bomb_timer_esp32-c6lcd/bridge.py:46 | stripping leaves nothing exactly when the body is all whitespace |
| Payload.StripSurrounded | esp32projects/cs2_bomb_timer_esp32-c6lcd/bridge.py:46 | conversely, whitespace padded around a text whose ends are not whitespace is exactly what strip removes |
| Payload.StripIdempotent | esp32projects/cs2_bomb_timer_esp32-c6lcd/bridge.py:46 | stripping twice is stripping once |
| Payload.Unquote | esp32projects/cs2_bomb_timer_esp32-c6lcd/bridge.py:47-48 | an unquoted text is kept as it is; a quoted one loses two characters (a lone `"` becomes empty) |
| Payload.UnquoteDropsEnds | esp32projects/cs2_bomb_timer_esp32-c6lcd/bridge.py:47-48 | a quoted text keeps its inner characters in order: character k of the result is character k+1 of the text |
| Payload.UnquoteQuoted | esp32projects/cs2_bomb_timer_esp32-c6lcd/bridge.py:47-48 | removing the quotes undoes wrapping any text in quotes |
| Payload.Normalise | esp32projects/cs2_bomb_timer_esp32-c6lcd/bridge.py:46-48 | the payload the loop keeps is never longer than the response body |
| Payload.NormaliseBlank | esp32projects/cs2_bomb_timer_esp32-c6lcd/bridge.py:46-48 | an all-whitespace body gives the empty payload |
| Payload.NormaliseQuoted | esp32projects/cs2_bomb_timer_esp32-c6lcd/bridge.py:46-48 | a quoted text with whitespace around it normalises to exactly what was inside the quotes |
| Payload.NormaliseBare | esp32projects/cs2_bomb_timer_esp32-c6lcd/bridge.py:46-48 | an unquoted text with no whitespace at its ends, padded with whitespace, normalises to itself |
| Payload.Split | esp32projects/cs2_bomb_timer_esp32-c6lcd/bridge.py:50 | a split has one field more than the text has commas |
| Payload.SplitFieldsHaveNoComma | esp32projects/cs2_bomb_timer_esp32-c6lcd/bridge.py:50 | no field of a split holds a comma |
| Payload.JoinSplit | esp32projects/cs2_bomb_timer_esp32-c6lcd/bridge.py:50 | joining the fields of a split with ',' gives back the text |
| Payload.SplitAfterField | esp32projects/cs2_bomb_timer_esp32-c6lcd/bridge.py:50 | a comma-free text followed by ',' splits off as the first field |
| Payload.SplitField | esp32projects/cs2_bomb_timer_esp32-c6lcd/bridge.py:50 | a comma-free text splits into itself alone |
| Payload.SplitJoin | esp32projects/cs2_bomb_timer_esp32-c6lcd/bridge.py:50 | splitting the join of comma-free fields gives back those fields |
| Payload.FrameCommas | esp32projects/cs2_bomb_timer_esp32-c6lcd/bridge.py:50-51 | a payload is accepted exactly when it has eight commas, so an accepted payload is never empty |
| Payload.Preview | esp32projects/cs2_bomb_timer_esp32-c6lcd/bridge.py:54 | the preview is a prefix of the payload of at most 80 characters: all of the payload when it fits, otherwise exactly 80 characters |
| Payload.Encode | esp32projects/cs2_bomb_timer_esp32-c6lcd/bridge.py:58 | ASCII encoding succeeds exactly on ASCII text and then gives one byte per character |
| Payload.EncodeBytes | esp32projects/cs2_bomb_timer_esp32-c6lcd/bridge.py:58 | each byte of the encoding is the code of the character at the same position |
| Payload.DecodeEncode | esp32projects/cs2_bomb_timer_esp32-c6lcd/bridge.py:58 | the encoding loses nothing: decoding the bytes gives the text back |
| Payload.LineIsAscii | esp32projects/cs2_bomb_timer_esp32-c6lcd/bridge.py:58 | the line `data + "\n"` encodes exactly when the payload does |
| Payload.EncodeAppend | esp32projects/cs2_bomb_timer_esp32-c6lcd/bridge.py:58 | encoding distributes over concatenation |
| Forwarder.StepOutputs | esp32projects/cs2_bomb_timer_esp32-c6lcd/bridge.py:42-87 | a tick never takes back bytes written, frames sent or lines printed, and it prints at most one line |
| Forwarder.ForwardOutputs | esp32projects/cs2_bomb_timer_esp32-c6lcd/bridge.py:58-66 | writing an accepted frame never takes back bytes written, frames sent or lines printed, and it prints at most one line |
| Forwarder.StepSends | esp32projects/cs2_bomb_timer_esp32-c6lcd/bridge.py:58-66 | bytes reach the port exactly on a 200 reply with nine ASCII fields whose write succeeds; such a tick goes on, resets the failure count and counts one more send |
| Forwarder.StepOthers | esp32projects/cs2_bomb_timer_esp32-c6lcd/bridge.py:51-85 | any other tick changes only the failure count (by 0 or +1) and the console; a tick that leaves the loop changes only the console, and a crash changes nothing |
| Forwarder.RunOutputs | esp32projects/cs2_bomb_timer_esp32-c6lcd/bridge.py:42-87 | along any run the wire, the frames sent, the console and the send count only grow |
| Forwarder.RunAppend | esp32projects/cs2_bomb_timer_esp32-c6lcd/bridge.py:42-87 | a run over two stretches of events is the run over the first, continued over the second only when the loop was not left |
| Forwarder.RunSnoc | esp32projects/cs2_bomb_timer_esp32-c6lcd/bridge.py:42-87 | a run over some events and one more is that run followed by one more tick, unless the loop was already left |
| Forwarder.LinesAppend | esp32projects/cs2_bomb_timer_esp32-c6lcd/bridge.py:58 | the wire of frames sent one after another grows by the encoded line of each new frame |
| Forwarder.InitInv | esp32projects/cs2_bomb_timer_esp32-c6lcd/bridge.py:38-40 | the variables as initialised satisfy the loop invariant: nothing sent, empty wire, `last_data` empty |
| Forwarder.ForwardSends | esp32projects/cs2_bomb_timer_esp32-c6lcd/bridge.py:58-66 | an ASCII frame written without error becomes the last frame and is appended to the frames sent, with its line on the wire; the send count rises and the failure count is reset; "changed" is printed if it differs from the last frame, a heartbeat if the new send count is a multiple of 30, and nothing otherwise |
| Forwarder.InvAppend | esp32projects/cs2_bomb_timer_esp32-c6lcd/bridge.py:58-63 | appending an ASCII nine-field frame, with its line on the wire, keeps the loop invariant |
| Forwarder.SendKeepsInv | esp32projects/cs2_bomb_timer_esp32-c6lcd/bridge.py:58-66 | a completed send keeps the loop invariant |
| Forwarder.StepKeepsInv | esp32projects/cs2_bomb_timer_esp32-c6lcd/bridge.py:42-87 | every tick keeps the loop invariant |
| Forwarder.RunKeepsInv | esp32projects/cs2_bomb_timer_esp32-c6lcd/bridge.py:42-87 | every run keeps the loop invariant |
| BridgeLoop.Bridge.constructor | esp32projects/cs2_bomb_timer_esp32-c6lcd/bridge.py:38-40 | the port is open and the loop variables start as `Init`, which satisfies the invariant |
| BridgeLoop.Bridge.Tick | esp32projects/cs2_bomb_timer_esp32-c6lcd/bridge.py:43-85 | updating the fields in place gives exactly the state and outcome of `Forwarder.Step`, and the port stays open |
| BridgeLoop.Bridge.Receive | esp32projects/cs2_bomb_timer_esp32-c6lcd/bridge.py:46-56 | the 200 branch in place matches `Forwarder.Receive` for the normalised payload |
| BridgeLoop.Bridge.Forward | esp32projects/cs2_bomb_timer_esp32-c6lcd/bridge.py:58-66 | the write of an accepted frame in place matches `Forwarder.Forward` |
| BridgeLoop.Bridge.Close | esp32projects/cs2_bomb_timer_esp32-c6lcd/bridge.py:89 | after `ser.close()` the port is closed |
| BridgeLoop.Bridge.Run | esp32projects/cs2_bomb_timer_esp32-c6lcd/bridge.py:42-89 | the loop ends in the state of `Forwarder.Run`; it consumes every event unless it stopped, and when it stopped the last tick consumed is the one that left the loop; the port is closed exactly when the loop broke out; the invariant is kept |
| Laws.BadFrameTick | esp32projects/cs2_bomb_timer_esp32-c6lcd/bridge.py:50-56 | a 200 reply without nine fields writes nothing and counts one failure; it is reported exactly on failure 1 and every 20th, with the field count and the first 80 characters of the payload (`data[:80]`) |
| Laws.SendTick | esp32projects/cs2_bomb_timer_esp32-c6lcd/bridge.py:58-66 | a good frame written: one more send, failures reset, the frame recorded as sent and as `last_data`; "changed" exactly when it differs from the last frame, otherwise a heartbeat on every 30th send and silence otherwise |
| Laws.SendWire | esp32projects/cs2_bomb_timer_esp32-c6lcd/bridge.py:58 | the wire grows by the frame's character codes, in order, then one `"\n"`, after what was there before |
| Laws.SerialLostTick | esp32projects/cs2_bomb_timer_esp32-c6lcd/bridge.py:58-82 | a failed write leaves the loop before the send count moves; only "serial lost" is printed |
| Laws.NonAsciiTick | esp32projects/cs2_bomb_timer_esp32-c6lcd/bridge.py:58 | an accepted frame that is not ASCII crashes the loop with nothing written or printed |
| Laws.HttpErrorTick | esp32projects/cs2_bomb_timer_esp32-c6lcd/bridge.py:67-70 | a status other than 200 counts one failure and is reported only when it is the first failure |
| Laws.UnreachableTick | esp32projects/cs2_bomb_timer_esp32-c6lcd/bridge.py:72-77 | an unreachable server counts one failure: "not reachable" on the first, "still waiting" on a multiple of 20, never both |
| Laws.TimeoutTick | esp32projects/cs2_bomb_timer_esp32-c6lcd/bridge.py:78-79 | a timeout counts one failure, silently |
| Laws.InterruptTick | esp32projects/cs2_bomb_timer_esp32-c6lcd/bridge.py:83-85 | Ctrl+C leaves the loop, printing "stopped" and changing nothing else |
| Laws.WaysOut | esp32projects/cs2_bomb_timer_esp32-c6lcd/bridge.py:80-85 | a tick breaks out exactly on Ctrl+C or a failed write of an accepted frame, and crashes exactly on an accepted non-ASCII frame |
| Laws.FailTick | esp32projects/cs2_bomb_timer_esp32-c6lcd/bridge.py:52-79 | every kind of failure adds one to the same counter and goes on |
| Laws.FirstFrameIsChanged | esp32projects/cs2_bomb_timer_esp32-c6lcd/bridge.py:61-63 | the first frame ever sent is always printed as changed |
| Laws.RunCons | esp32projects/cs2_bomb_timer_esp32-c6lcd/bridge.py:42-87 | a run whose first tick goes on is that tick followed by the run over the rest |
| Laws.RunBreaksOnlyOnLeave | esp32projects/cs2_bomb_timer_esp32-c6lcd/bridge.py:80-85 | a run breaks out only at a Ctrl+C or failed-write tick; a run with neither and no crash consumes every event |
| Laws.FailuresAccumulate | esp32projects/cs2_bomb_timer_esp32-c6lcd/bridge.py:52-79 | any run of failures goes on, raises the failure count by its length and writes nothing |
| Laws.Recovery | esp32projects/cs2_bomb_timer_esp32-c6lcd/bridge.py:66 | after any run of failures, one good frame is written and the failure count is back to 0 |
| Laws.RunStops | esp32projects/cs2_bomb_timer_esp32-c6lcd/bridge.py:80-85 | a tick that leaves the loop ends the run: later events are never consumed |
| Laws.RemindersFirst | esp32projects/cs2_bomb_timer_esp32-c6lcd/bridge.py:76 | the multiples of 20 from k+1 are k+1 itself, if it is one, and those after it |
| Laws.HeartbeatsFirst | esp32projects/cs2_bomb_timer_esp32-c6lcd/bridge.py:64 | the multiples of 30 from c+1 are c+1 itself, if it is one, and those after it |
| Laws.WaitNotesCount | esp32projects/cs2_bomb_timer_esp32-c6lcd/bridge.py:73-77 | n unreachable ticks from failure count k print "not reachable" once if k is 0, then one "still waiting" per multiple of 20 passed |
| Laws.ReportNotesCount | esp32projects/cs2_bomb_timer_esp32-c6lcd/bridge.py:52-54 | n malformed replies from failure count k print one report if k is 0, then one per multiple of 20 passed |
| Laws.HeartbeatNotesCount | esp32projects/cs2_bomb_timer_esp32-c6lcd/bridge.py:64-65 | n resends from send count c print one heartbeat per multiple of 30 passed |
| Laws.ReportsFirst | esp32projects/cs2_bomb_timer_esp32-c6lcd/bridge.py:53 | counting reports from failure k+1: whether k+1 is reported, then the later multiples of 20 |
| Laws.UnreachableRun | esp32projects/cs2_bomb_timer_esp32-c6lcd/bridge.py:72-77 | n unreachable ticks raise the failure count by n and print the lines of each tick in order |
| Laws.SustainedUnreachable | esp32projects/cs2_bomb_timer_esp32-c6lcd/bridge.py:72-77 | sustained unreachability prints "not reachable" once if the run starts the count, then "still waiting" for each multiple of 20, and nothing else changes but the count |
| Laws.BadFrameFirst | esp32projects/cs2_bomb_timer_esp32-c6lcd/bridge.py:50-56 | a run that starts with a malformed reply is the run from the state with one more failure and the throttled report |
| Laws.BadFramesRun | esp32projects/cs2_bomb_timer_esp32-c6lcd/bridge.py:50-56 | n malformed replies go on and change only the failure count, by n, and the console |
| Laws.BadFramesLog | esp32projects/cs2_bomb_timer_esp32-c6lcd/bridge.py:50-56 | n malformed replies print the report of each tick in order |
| Laws.SustainedBadFrames | esp32projects/cs2_bomb_timer_esp32-c6lcd/bridge.py:50-56 | sustained malformed replies print the same report on the first failure and on every multiple of 20, and nothing but the count changes |
| Laws.SustainedHttpErrors | esp32projects/cs2_bomb_timer_esp32-c6lcd/bridge.py:67-70 | sustained HTTP errors are reported once, only if the run starts the count |
| Laws.SustainedTimeouts | esp32projects/cs2_bomb_timer_esp32-c6lcd/bridge.py:78-79 | sustained timeouts are counted and never reported |
| Laws.ResendFirst | esp32projects/cs2_bomb_timer_esp32-c6lcd/bridge.py:58-66 | a run that starts by resending the last frame is the run from the state after that send: one more send, failures reset, the frame recorded and its line on the wire, and a heartbeat only on a multiple of 30 |
| Laws.ResendRun | esp32projects/cs2_bomb_timer_esp32-c6lcd/bridge.py:58-66 | n resends of the last frame: n more sends, failures reset, `last_data` kept, the frame recorded n times, heartbeats tick by tick |
| Laws.ResendWire | esp32projects/cs2_bomb_timer_esp32-c6lcd/bridge.py:58 | n resends of the last frame put its encoded line on the wire n more times, after what was there |
| Laws.RepeatedFrame | esp32projects/cs2_bomb_timer_esp32-c6lcd/bridge.py:58-66 | resending the last frame n times writes its line n more times, never prints "changed" and prints one heartbeat per multiple of 30 the total send count passes |
| Laws.FirstSendFirst | esp32projects/cs2_bomb_timer_esp32-c6lcd/bridge.py:38-63 | a run from the start whose first tick sends a frame continues from one send, that frame as `last_data`, and one "changed" line |
| Laws.SameFrameFromStart | esp32projects/cs2_bomb_timer_esp32-c6lcd/bridge.py:38-66 | from the start, the same good frame n times prints one "changed" line, then heartbeats on sends 30, 60, 90, ... |
| Laws.QuotedFrame | esp32projects/cs2_bomb_timer_esp32-c6lcd/bridge.py:46-51 | nine comma-free fields joined with ',', quoted and padded with whitespace are accepted field for field, and written exactly when they are ASCII |
| Laws.TwoServerErrorsExample | esp32projects/cs2_bomb_timer_esp32-c6lcd/bridge.py:67-70 | two HTTP 500 replies from the start: two failures, one report |

## Left out

- The HTTP request itself (line 44), its 0.5 s timeout and the way `requests` classifies failures into ConnectionError and Timeout are not modelled. Each tick is given its `PollOutcome` instead.
- Any other exception `requests.get` may raise is not modelled. Such an exception is uncaught and would end the program.
- Opening and configuring the serial port (lines 26-32), and its failure path, are not modelled: `Bridge.constructor` starts with an open port.
- The actual `ser.write` and `ser.close` calls are not modelled. The port is an open flag plus the bytes written. A failed write is modelled as writing nothing, so partial writes are not captured.
- The `time.sleep(POLL_RATE)` pacing (lines 55 and 87) has no effect on state and is not modelled.
- Command-line handling and the start-up prints (lines 19-24 and 34-36) are not modelled.
- Diagnostics are modelled by kind and by the values they show, not as exact strings. The text of the `SerialException` in "Serial lost" is not kept.
- Ctrl+C is modelled only while the request is in progress. A KeyboardInterrupt during the sleep at line 87 is outside the `try` and would end the program without closing the port; that is not modelled, and neither is an interrupt at any other point in the tick.
- Payload.IsSpace covers the ASCII whitespace of `str.isspace()` only. Non-ASCII whitespace stripped by `str.strip()` is not modelled.
- The loop runs forever in the source. The model runs it over any finite sequence of events.
- Integers are unbounded, as in Python, so the counters never wrap.
