/**
 * What the loop of bridge.py promises, stated over Forwarder.Step (one
 * tick) and Forwarder.Run (a run of ticks): the rule of each kind of tick,
 * the two ways out of the loop, the throttling of diagnostics over a run of
 * failures, recovery after failures, and the change and heartbeat rules
 * over a run of identical frames.
 */
module Laws {
  import opened Payload
  import opened Forwarder

  /** n copies of x. */
  function Repeat<T>(x: T, n: nat): (r: seq<T>)
    ensures |r| == n
  {
    if n == 0 then [] else [x] + Repeat(x, n - 1)
  }

  /** n copies of the sequence b, one after another. */
  function Times<T>(b: seq<T>, n: nat): (r: seq<T>)
    ensures |r| == n * |b|
  {
    if n == 0 then [] else b + Times(b, n - 1)
  }

  /** Appending in two steps is appending once. */
  lemma AppendTwice<T>(a: seq<T>, b: seq<T>, c: seq<T>)
    ensures (a + b) + c == a + (b + c)
  {
  }

  /** The tick leaves the loop through a `break`: Ctrl+C, or a write of an
      accepted frame that fails. */
  predicate Leaves(e: Event) {
    e.poll.Interrupted? || (Writes(e) && e.write == SerialFail)
  }

  /** The tick dies on the encoding error: an accepted frame that is not ASCII. */
  predicate Crashes(e: Event) {
    e.poll.Response? && e.poll.status == 200 && IsFrame(Data(e)) && !IsAscii(Data(e))
  }

  // ---------------------------------------------------------------------
  // One tick, case by case
  // ---------------------------------------------------------------------

  /** A 200 response that does not have nine fields: nothing is written,
      only the failure count moves, and the report (on the first failure and
      every 20th) carries the field count and the payload's first 80
      characters. */
  lemma BadFrameTick(s: State, e: Event)
    requires e.poll.Response? && e.poll.status == 200 && !IsFrame(Data(e))
    ensures var r := Step(s, e);
      && r.next == Continue
      && r.state == s.(failCount := s.failCount + 1, log := r.state.log)
      && (|r.state.log| == |s.log| + 1 <==> Reported(s.failCount + 1))
      && (|r.state.log| == |s.log| ==> r.state.log == s.log)
      && (|r.state.log| > |s.log| ==>
            r.state.log == s.log + [Unexpected(CommaCount(Data(e)) + 1, Preview(Data(e)))])
  {
  }

  /** A 200 response with nine ASCII fields, written without error: the
      send count rises, the failure count is reset, the frame is recorded as
      sent and as last_data; "changed" is printed exactly when the frame
      differs from the last one, and otherwise a heartbeat on every 30th
      send. */
  lemma SendTick(s: State, e: Event)
    requires Writes(e) && e.write == WriteOk
    ensures var r := Step(s, e); var d := Data(e);
      && r.next == Continue
      && r.state.failCount == 0
      && r.state.sendCount == s.sendCount + 1
      && r.state.sent == s.sent + [d]
      && r.state.lastData == d
      && r.state.wire == s.wire + Encode(d + "\n").value
      && (d != s.lastData ==> r.state.log == s.log + [Changed(d)])
      && (d == s.lastData && (s.sendCount + 1) % HeartbeatEvery == 0 ==>
            r.state.log == s.log + [Heartbeat(d)])
      && (d == s.lastData && (s.sendCount + 1) % HeartbeatEvery != 0 ==>
            r.state.log == s.log)
  {
    var d := Data(e);
    assert Step(s, e) == Forward(s, d, WriteOk);
    ForwardSends(s, d);
  }

  /** What a completed send puts on the wire: the frame's characters, in
      order and unchanged, then one "\n", after what was there before. */
  lemma SendWire(s: State, e: Event)
    requires Writes(e) && e.write == WriteOk
    ensures var w := Step(s, e).state.wire; var d := Data(e);
      && |w| == |s.wire| + |d| + 1
      && w[..|s.wire|] == s.wire
      && (forall k | 0 <= k < |d| :: w[|s.wire| + k] == d[k] as int)
      && w[|s.wire| + |d|] == '\n' as int
  {
    var d := Data(e);
    SendTick(s, e);
    LineIsAscii(d);
    var line := Encode(d + "\n").value;
    EncodeBytes(d + "\n");
    assert forall k | 0 <= k < |d| :: (d + "\n")[k] == d[k];
    assert line[|d|] == '\n' as int;
  }

  /** The write of an accepted frame fails: the loop is left before the
      send count moves; nothing else changes but the report. */
  lemma SerialLostTick(s: State, e: Event)
    requires Writes(e) && e.write == SerialFail
    ensures Step(s, e) == Stepped(s.(log := s.log + [SerialLost]), Break)
  {
    LineIsAscii(Data(e));
  }

  /** An accepted frame that is not ASCII: encoding raises before anything
      is written, and the exception is not caught. */
  lemma NonAsciiTick(s: State, e: Event)
    requires Crashes(e)
    ensures Step(s, e) == Stepped(s, Crash)
  {
    LineIsAscii(Data(e));
  }

  /** A status other than 200: one more failure, reported only when it is
      the first; nothing is written. */
  lemma HttpErrorTick(s: State, e: Event)
    requires e.poll.Response? && e.poll.status != 200
    ensures var r := Step(s, e);
      && r.next == Continue
      && r.state == s.(failCount := s.failCount + 1, log := r.state.log)
      && (s.failCount == 0 ==> r.state.log == s.log + [HttpError(e.poll.status)])
      && (s.failCount != 0 ==> r.state.log == s.log)
  {
  }

  /** The server cannot be reached: one more failure; "not reachable" when
      it is the first, "still waiting" when it is a multiple of 20, never
      both; nothing is written. */
  lemma UnreachableTick(s: State, e: Event)
    requires e.poll.Unreachable?
    ensures var r := Step(s, e);
      && r.next == Continue
      && r.state == s.(failCount := s.failCount + 1, log := r.state.log)
      && (s.failCount == 0 ==> r.state.log == s.log + [NotReachable])
      && (s.failCount != 0 && (s.failCount + 1) % RemindEvery == 0 ==>
            r.state.log == s.log + [StillWaiting])
      && (s.failCount != 0 && (s.failCount + 1) % RemindEvery != 0 ==> r.state.log == s.log)
  {
  }

  /** A timeout: one more failure, silently. */
  lemma TimeoutTick(s: State, e: Event)
    requires e.poll.TimedOut?
    ensures Step(s, e) == Stepped(s.(failCount := s.failCount + 1), Continue)
  {
  }

  /** Ctrl+C: the loop is left with nothing changed but the report. */
  lemma InterruptTick(s: State, e: Event)
    requires e.poll.Interrupted?
    ensures Step(s, e) == Stepped(s.(log := s.log + [Stopped]), Break)
  {
  }

  /** The only ways out of the loop: a break exactly on Ctrl+C or a failed
      write, a crash exactly on a non-ASCII frame. */
  lemma WaysOut(s: State, e: Event)
    ensures Step(s, e).next == Break <==> Leaves(e)
    ensures Step(s, e).next == Crash <==> Crashes(e)
  {
    if e.poll.Response? && e.poll.status == 200 && IsFrame(Data(e)) {
      LineIsAscii(Data(e));
    }
  }

  /** The failure count is one counter for every kind of failure: each
      failing tick adds one, whatever its kind. */
  lemma FailTick(s: State, e: Event)
    requires Fails(e)
    ensures var r := Step(s, e);
      && r.next == Continue
      && r.state == s.(failCount := s.failCount + 1, log := r.state.log)
  {
  }

  /** The first frame ever sent is always reported as changed: last_data
      starts as "" and a frame has commas. */
  lemma FirstFrameIsChanged(s: State, e: Event)
    requires Inv(s) && s.sendCount == 0
    requires Writes(e) && e.write == WriteOk
    ensures Step(s, e).state.log == s.log + [Changed(Data(e))]
  {
    FrameCommas(Data(e));
    SendTick(s, e);
  }

  // ---------------------------------------------------------------------
  // Runs of ticks
  // ---------------------------------------------------------------------

  /** Peeling the first tick off a run that goes on. */
  lemma RunCons(s: State, e: Event, rest: seq<Event>)
    requires Step(s, e).next == Continue
    ensures Run(s, [e] + rest) == Run(Step(s, e).state, rest)
  {
    assert ([e] + rest)[0] == e && ([e] + rest)[1..] == rest;
  }

  /** A run leaves the loop only at a tick that leaves it, and one with no
      such tick and no crash runs to the end. */
  lemma {:induction false} RunBreaksOnlyOnLeave(s: State, events: seq<Event>)
    ensures Run(s, events).next == Break ==> exists k | 0 <= k < |events| :: Leaves(events[k])
    ensures (forall k | 0 <= k < |events| :: !Leaves(events[k]) && !Crashes(events[k])) ==>
              Run(s, events).next == Continue
    decreases |events|
  {
    if events != [] {
      WaysOut(s, events[0]);
      var t := Step(s, events[0]);
      if t.next == Continue {
        RunBreaksOnlyOnLeave(t.state, events[1..]);
        if Run(s, events).next == Break {
          var k :| 0 <= k < |events[1..]| && Leaves(events[1..][k]);
          assert Leaves(events[k + 1]);
        }
      }
    }
  }

  /** A run of failures of any kinds: the loop goes on, the failure count
      rises by their number, and nothing is written. */
  lemma {:induction false} FailuresAccumulate(s: State, events: seq<Event>)
    requires forall k | 0 <= k < |events| :: Fails(events[k])
    ensures var r := Run(s, events);
      && r.next == Continue
      && r.state == s.(failCount := s.failCount + |events|, log := r.state.log)
    decreases |events|
  {
    if events != [] {
      FailTick(s, events[0]);
      var t := Step(s, events[0]);
      assert forall k | 0 <= k < |events[1..]| :: Fails(events[1..][k]) by {
        forall k | 0 <= k < |events[1..]| ensures Fails(events[1..][k]) {
          assert events[1..][k] == events[k + 1];
        }
      }
      FailuresAccumulate(t.state, events[1..]);
    }
  }

  /** Recovery: after any run of failures, one good frame is written and
      the failure count is back to 0. */
  lemma Recovery(s: State, failures: seq<Event>, e: Event)
    requires forall k | 0 <= k < |failures| :: Fails(failures[k])
    requires Writes(e) && e.write == WriteOk
    ensures var r := Run(s, failures + [e]);
      && r.next == Continue
      && r.state.failCount == 0
      && r.state.sendCount == s.sendCount + 1
      && r.state.sent == s.sent + [Data(e)]
      && r.state.wire == s.wire + Encode(Data(e) + "\n").value
  {
    FailuresAccumulate(s, failures);
    RunAppend(s, failures, [e]);
    var mid := Run(s, failures).state;
    SendTick(mid, e);
    LineIsAscii(Data(e));
    assert Run(mid, [e]) == Step(mid, e);
  }

  /** A run whose first tick leaves the loop ends there: the events after
      it are never consumed. */
  lemma RunStops(s: State, e: Event, rest: seq<Event>)
    requires Step(s, e).next != Continue
    ensures Run(s, [e] + rest) == Step(s, e)
  {
    assert ([e] + rest)[0] == e;
  }

  // ---------------------------------------------------------------------
  // Sustained failures and repeated frames
  // ---------------------------------------------------------------------

  /** How many multiples of 20 lie in k+1 .. k+n. */
  function Reminders(k: nat, n: nat): nat {
    (k + n) / RemindEvery - k / RemindEvery
  }

  /** How many multiples of 30 lie in c+1 .. c+n. */
  function Heartbeats(c: nat, n: nat): nat {
    (c + n) / HeartbeatEvery - c / HeartbeatEvery
  }

  /** Counting multiples of 20 from k+1: k+1 itself, then the rest. */
  lemma RemindersFirst(k: nat, n: nat)
    requires n > 0
    ensures Reminders(k, n) == (if (k + 1) % RemindEvery == 0 then 1 else 0) + Reminders(k + 1, n - 1)
  {
  }

  /** Counting multiples of 30 from c+1: c+1 itself, then the rest. */
  lemma HeartbeatsFirst(c: nat, n: nat)
    requires n > 0
    ensures Heartbeats(c, n) == (if (c + 1) % HeartbeatEvery == 0 then 1 else 0) + Heartbeats(c + 1, n - 1)
  {
  }

  /** The lines n unreachable ticks print from failure count k, tick by tick. */
  function WaitNotes(k: nat, n: nat): seq<Diagnostic>
    decreases n
  {
    if n == 0 then []
    else
      (if k + 1 == 1 then [NotReachable] else if (k + 1) % RemindEvery == 0 then [StillWaiting] else [])
      + WaitNotes(k + 1, n - 1)
  }

  /** The lines n malformed payloads print from failure count k. */
  function ReportNotes(u: Diagnostic, k: nat, n: nat): seq<Diagnostic>
    decreases n
  {
    if n == 0 then [] else (if Reported(k + 1) then [u] else []) + ReportNotes(u, k + 1, n - 1)
  }

  /** The lines n resends of the last frame print from send count c. */
  function HeartbeatNotes(d: string, c: nat, n: nat): seq<Diagnostic>
    decreases n
  {
    if n == 0 then []
    else (if (c + 1) % HeartbeatEvery == 0 then [Heartbeat(d)] else []) + HeartbeatNotes(d, c + 1, n - 1)
  }

  /** "Not reachable" once if the count starts at 0, then one "still
      waiting" per multiple of 20 passed. */
  lemma {:induction false} WaitNotesCount(k: nat, n: nat)
    ensures WaitNotes(k, n)
            == (if k == 0 && n > 0 then [NotReachable] else []) + Repeat(StillWaiting, Reminders(k, n))
    decreases n
  {
    if n > 0 {
      WaitNotesCount(k + 1, n - 1);
      RemindersFirst(k, n);
    }
  }

  /** One report if the count starts at 0, then one per multiple of 20 passed. */
  lemma {:induction false} ReportNotesCount(u: Diagnostic, k: nat, n: nat)
    ensures ReportNotes(u, k, n) == Repeat(u, (if k == 0 && n > 0 then 1 else 0) + Reminders(k, n))
    decreases n
  {
    if n > 0 {
      ReportNotesCount(u, k + 1, n - 1);
      ReportsFirst(k, n);
    }
  }

  /** One heartbeat per multiple of 30 passed. */
  lemma {:induction false} HeartbeatNotesCount(d: string, c: nat, n: nat)
    ensures HeartbeatNotes(d, c, n) == Repeat(Heartbeat(d), Heartbeats(c, n))
    decreases n
  {
    if n > 0 {
      HeartbeatNotesCount(d, c + 1, n - 1);
      HeartbeatsFirst(c, n);
    }
  }

  /** Counting the reports of a bad frame from failure k+1: whether k+1 is
      reported, then the rest. */
  lemma ReportsFirst(k: nat, n: nat)
    requires n > 0
    ensures (if Reported(k + 1) then 1 else 0) + Reminders(k + 1, n - 1)
            == (if k == 0 then 1 else 0) + Reminders(k, n)
  {
    RemindersFirst(k, n);
  }

  /** n unreachable ticks, tick by tick. */
  lemma {:induction false} UnreachableRun(s: State, w: WriteResult, n: nat)
    ensures Run(s, Repeat(Event(Unreachable, w), n))
            == Stepped(s.(failCount := s.failCount + n, log := s.log + WaitNotes(s.failCount, n)), Continue)
    decreases n
  {
    if n > 0 {
      var e := Event(Unreachable, w);
      assert Repeat(e, n) == [e] + Repeat(e, n - 1);
      RunCons(s, e, Repeat(e, n - 1));
      var t := Step(s, e).state;
      UnreachableRun(t, w, n - 1);
      AppendTwice(s.log, t.log[|s.log|..], WaitNotes(s.failCount + 1, n - 1));
    }
  }

  /** Sustained unreachability from any failure count k: "not reachable"
      once if the run starts the count, then "still waiting" once for each
      multiple of 20 the count passes, and nothing else. From k = 0 that is
      occurrences 1, 20, 40, 60, ... */
  lemma SustainedUnreachable(s: State, w: WriteResult, n: nat)
    ensures var r := Run(s, Repeat(Event(Unreachable, w), n)); var k := s.failCount;
      && r.next == Continue
      && r.state == s.(failCount := k + n, log := r.state.log)
      && r.state.log == s.log + (if k == 0 && n > 0 then [NotReachable] else [])
                              + Repeat(StillWaiting, Reminders(k, n))
  {
    UnreachableRun(s, w, n);
    WaitNotesCount(s.failCount, n);
  }

  /** A run that starts with a malformed payload. */
  lemma BadFrameFirst(s: State, e: Event, rest: seq<Event>) returns (t: State)
    requires e.poll.Response? && e.poll.status == 200 && !IsFrame(Data(e))
    ensures t == s.(failCount := s.failCount + 1,
                    log := s.log + (if Reported(s.failCount + 1)
                                    then [Unexpected(|Split(Data(e))|, Preview(Data(e)))]
                                    else []))
    ensures Run(s, [e] + rest) == Run(t, rest)
  {
    t := Step(s, e).state;
    RunCons(s, e, rest);
  }

  /** n malformed payloads, tick by tick. */
  lemma {:induction false} BadFramesRun(s: State, e: Event, n: nat)
    requires e.poll.Response? && e.poll.status == 200 && !IsFrame(Data(e))
    ensures Run(s, Repeat(e, n)).next == Continue
    ensures Run(s, Repeat(e, n)).state == s.(failCount := s.failCount + n,
                                             log := Run(s, Repeat(e, n)).state.log)
    decreases n
  {
    if n > 0 {
      assert Repeat(e, n) == [e] + Repeat(e, n - 1);
      var t := BadFrameFirst(s, e, Repeat(e, n - 1));
      BadFramesRun(t, e, n - 1);
    }
  }

  /** ... and what they print, report by report. */
  lemma {:induction false} BadFramesLog(s: State, e: Event, n: nat)
    requires e.poll.Response? && e.poll.status == 200 && !IsFrame(Data(e))
    ensures Run(s, Repeat(e, n)).state.log
            == s.log + ReportNotes(Unexpected(|Split(Data(e))|, Preview(Data(e))), s.failCount, n)
    decreases n
  {
    if n > 0 {
      var u := Unexpected(|Split(Data(e))|, Preview(Data(e)));
      assert Repeat(e, n) == [e] + Repeat(e, n - 1);
      var t := BadFrameFirst(s, e, Repeat(e, n - 1));
      BadFramesLog(t, e, n - 1);
      AppendTwice(s.log, if Reported(s.failCount + 1) then [u] else [],
                  ReportNotes(u, s.failCount + 1, n - 1));
    }
  }

  /** Sustained malformed payloads: only the failure count moves, and the
      same report is printed on the first failure and on every multiple of 20. */
  lemma SustainedBadFrames(s: State, e: Event, n: nat)
    requires e.poll.Response? && e.poll.status == 200 && !IsFrame(Data(e))
    ensures var r := Run(s, Repeat(e, n)); var k := s.failCount;
      && r.next == Continue
      && r.state == s.(failCount := k + n, log := r.state.log)
      && r.state.log == s.log + Repeat(Unexpected(|Split(Data(e))|, Preview(Data(e))),
                                       (if k == 0 && n > 0 then 1 else 0) + Reminders(k, n))
  {
    BadFramesRun(s, e, n);
    BadFramesLog(s, e, n);
    ReportNotesCount(Unexpected(|Split(Data(e))|, Preview(Data(e))), s.failCount, n);
  }

  /** Sustained HTTP errors: reported once, when the run starts the count. */
  lemma {:induction false} SustainedHttpErrors(s: State, e: Event, n: nat)
    requires e.poll.Response? && e.poll.status != 200
    ensures var r := Run(s, Repeat(e, n));
      && r.next == Continue
      && r.state == s.(failCount := s.failCount + n, log := r.state.log)
      && r.state.log == s.log + (if s.failCount == 0 && n > 0 then [HttpError(e.poll.status)] else [])
    decreases n
  {
    if n > 0 {
      assert Repeat(e, n) == [e] + Repeat(e, n - 1);
      RunCons(s, e, Repeat(e, n - 1));
      SustainedHttpErrors(Step(s, e).state, e, n - 1);
    }
  }

  /** Sustained timeouts: counted, never reported. */
  lemma {:induction false} SustainedTimeouts(s: State, w: WriteResult, n: nat)
    ensures Run(s, Repeat(Event(TimedOut, w), n)) == Stepped(s.(failCount := s.failCount + n), Continue)
    decreases n
  {
    if n > 0 {
      var e := Event(TimedOut, w);
      assert Repeat(e, n) == [e] + Repeat(e, n - 1);
      RunCons(s, e, Repeat(e, n - 1));
      SustainedTimeouts(Step(s, e).state, w, n - 1);
    }
  }

  /** A run that starts with a completed send of the frame that is
      already the last one: its line goes on the wire, and "changed" is not
      printed. */
  lemma ResendFirst(s: State, e: Event, rest: seq<Event>) returns (t: State)
    requires Writes(e) && e.write == WriteOk && Data(e) == s.lastData
    ensures Run(s, [e] + rest) == Run(t, rest)
    ensures t == s.(failCount := 0, sendCount := s.sendCount + 1, sent := s.sent + [Data(e)],
                    wire := s.wire + Encode(Data(e) + "\n").value,
                    log := s.log + (if (s.sendCount + 1) % HeartbeatEvery == 0
                                    then [Heartbeat(Data(e))] else []))
  {
    SendTick(s, e);
    t := Step(s, e).state;
    RunCons(s, e, rest);
  }

  /** n resends of the last frame, tick by tick. */
  lemma {:induction false} ResendRun(s: State, e: Event, n: nat)
    requires Writes(e) && e.write == WriteOk && Data(e) == s.lastData
    ensures Run(s, Repeat(e, n)).next == Continue
    ensures Run(s, Repeat(e, n)).state.failCount == (if n == 0 then s.failCount else 0)
    ensures Run(s, Repeat(e, n)).state.sendCount == s.sendCount + n
    ensures Run(s, Repeat(e, n)).state.lastData == s.lastData
    ensures Run(s, Repeat(e, n)).state.sent == s.sent + Repeat(Data(e), n)
    ensures Run(s, Repeat(e, n)).state.log == s.log + HeartbeatNotes(Data(e), s.sendCount, n)
    decreases n
  {
    if n > 0 {
      assert Repeat(e, n) == [e] + Repeat(e, n - 1);
      var t := ResendFirst(s, e, Repeat(e, n - 1));
      ResendRun(t, e, n - 1);
      assert Repeat(Data(e), n) == [Data(e)] + Repeat(Data(e), n - 1);
      AppendTwice(s.sent, [Data(e)], Repeat(Data(e), n - 1));
      AppendTwice(s.log, if (s.sendCount + 1) % HeartbeatEvery == 0 then [Heartbeat(Data(e))] else [],
                  HeartbeatNotes(Data(e), s.sendCount + 1, n - 1));
    }
  }

  /** ... and what they put on the wire: the frame's line n times. */
  lemma {:induction false} ResendWire(s: State, e: Event, n: nat, line: seq<Byte>)
    requires Writes(e) && e.write == WriteOk && Data(e) == s.lastData
    requires Encode(Data(e) + "\n") == Some(line)
    ensures Run(s, Repeat(e, n)).state.wire == s.wire + Times(line, n)
    decreases n
  {
    if n > 0 {
      assert Repeat(e, n) == [e] + Repeat(e, n - 1);
      var t := ResendFirst(s, e, Repeat(e, n - 1));
      ResendWire(t, e, n - 1, line);
      AppendTwice(s.wire, line, Times(line, n - 1));
    }
  }

  /** The same good frame sent n times when it is already the last one:
      sent n more times, its line written n more times, the loop stays
      clear of failures, "changed" is never printed, and one heartbeat is
      printed for each multiple of 30 the send count passes. */
  lemma RepeatedFrame(s: State, e: Event, n: nat)
    requires Writes(e) && e.write == WriteOk && Data(e) == s.lastData
    ensures var r := Run(s, Repeat(e, n));
      && r.next == Continue
      && r.state.sendCount == s.sendCount + n
      && r.state.failCount == (if n == 0 then s.failCount else 0)
      && r.state.lastData == s.lastData
      && r.state.sent == s.sent + Repeat(Data(e), n)
      && r.state.wire == s.wire + Times(Encode(Data(e) + "\n").value, n)
      && r.state.log == s.log + Repeat(Heartbeat(Data(e)), Heartbeats(s.sendCount, n))
  {
    ResendRun(s, e, n);
    LineIsAscii(Data(e));
    ResendWire(s, e, n, Encode(Data(e) + "\n").value);
    HeartbeatNotesCount(Data(e), s.sendCount, n);
  }

  /** A run from the start whose first tick sends a frame. */
  lemma FirstSendFirst(e: Event, rest: seq<Event>) returns (t: State)
    requires Writes(e) && e.write == WriteOk
    ensures t == State(Data(e), 0, 1, [Data(e)], t.wire, [Changed(Data(e))])
    ensures Run(Init, [e] + rest) == Run(t, rest)
  {
    FrameCommas(Data(e));
    SendTick(Init, e);
    t := Step(Init, e).state;
    RunCons(Init, e, rest);
  }

  /** From the start of the loop, the same good frame n >= 1 times: one
      "changed" first, then a heartbeat on sends 30, 60, 90, ... */
  lemma SameFrameFromStart(e: Event, n: nat)
    requires Writes(e) && e.write == WriteOk && n >= 1
    ensures var r := Run(Init, Repeat(e, n));
      && r.next == Continue
      && r.state.sendCount == n
      && r.state.log == [Changed(Data(e))] + Repeat(Heartbeat(Data(e)), n / HeartbeatEvery)
  {
    assert Repeat(e, n) == [e] + Repeat(e, n - 1);
    var t := FirstSendFirst(e, Repeat(e, n - 1));
    RepeatedFrame(t, e, n - 1);
    assert Heartbeats(1, n - 1) == n / HeartbeatEvery;
  }

  // ---------------------------------------------------------------------
  // What the server sends
  // ---------------------------------------------------------------------

  /** A frame as the server writes it, nine comma-free fields joined with
      ',' and quoted, with any whitespace around it, is accepted and comes
      out field for field; it is written when it is ASCII. */
  lemma QuotedFrame(fields: seq<string>, a: string, b: string, w: WriteResult)
    requires |fields| == FrameFields
    requires forall k | 0 <= k < |fields| :: ',' !in fields[k]
    requires AllSpace(a) && AllSpace(b)
    ensures var e := Event(Response(200, a + "\"" + Join(fields) + "\"" + b), w);
      && Data(e) == Join(fields)
      && Split(Data(e)) == fields
      && (Writes(e) <==> IsAscii(Join(fields)))
  {
    NormaliseQuoted(a, Join(fields), b);
    SplitJoin(fields);
  }

  /** Two HTTP 500 replies: two failures, one report. */
  lemma TwoServerErrorsExample(w: WriteResult)
    ensures var e := Event(Response(500, ""), w);
      Run(Init, [e, e]) == Stepped(Init.(failCount := 2, log := [HttpError(500)]), Continue)
  {
    var e := Event(Response(500, ""), w);
    assert [e, e] == [e] + [e];
    RunCons(Init, e, [e]);
  }
}
