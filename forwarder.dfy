/**
 * One tick of the poll loop of bridge.py as a pure state transition, and a
 * run of ticks as its iteration. The HTTP request and the serial write are
 * not performed here: each tick is given what the request produced and what
 * the write would report.
 */
module Forwarder {
  import opened Payload

  /** What requests.get produced on this tick. */
  datatype PollOutcome =
    | Response(status: int, body: string)   // a reply, with its status code and text
    | Unreachable                           // requests.exceptions.ConnectionError
    | TimedOut                              // requests.exceptions.Timeout
    | Interrupted                           // KeyboardInterrupt (Ctrl+C)

  /** What ser.write would report, consulted only when a frame is written. */
  datatype WriteResult = WriteOk | SerialFail

  /** Everything the outside world decides about one tick. */
  datatype Event = Event(poll: PollOutcome, write: WriteResult)

  /** The lines bridge.py prints, by kind, with the values they show. */
  datatype Diagnostic =
    | Unexpected(fields: nat, preview: string)   // "Unexpected response (n fields): ..."
    | Changed(frame: string)                     // ">> frame"
    | Heartbeat(frame: string)                   // "(heartbeat) frame"
    | HttpError(status: int)                     // "HTTP status"
    | NotReachable                               // "Omega not reachable"
    | StillWaiting                               // "Still waiting..."
    | SerialLost                                 // "Serial lost: ..."
    | Stopped                                    // "Stopped."

  /** How the loop goes on after a tick: next tick, leave the loop (and
      close the port), or die on the uncaught encoding error. */
  datatype Next = Continue | Break | Crash

  /** The loop's variables, and what the loop has produced so far: the
      frames written (sent), the bytes written (wire), the lines printed (log). */
  datatype State = State(
    lastData: string,
    failCount: nat,
    sendCount: nat,
    sent: seq<string>,
    wire: seq<Byte>,
    log: seq<Diagnostic>)

  datatype Stepped = Stepped(state: State, next: Next)

  /** The variables as main() sets them before the loop. */
  const Init: State := State("", 0, 0, [], [], [])

  /** The heartbeat period, in successful sends. */
  const HeartbeatEvery: nat := 30

  /** The reminder period, in consecutive failures. */
  const RemindEvery: nat := 20

  /** A bad frame is reported on the first failure and every 20th. */
  predicate Reported(failCount: nat) {
    failCount == 1 || failCount % RemindEvery == 0
  }

  /** The payload of a 200 response as the loop sees it. */
  function Data(e: Event): string
    requires e.poll.Response?
  {
    Normalise(e.poll.body)
  }

  /** The tick writes a frame to the port: a 200 response with nine fields
      that encodes as ASCII. */
  predicate Writes(e: Event) {
    e.poll.Response? && e.poll.status == 200 && IsFrame(Data(e)) && IsAscii(Data(e))
  }

  /** The tick ends with one more failure counted. */
  predicate Fails(e: Event) {
    match e.poll
    case Response(status, _) => status != 200 || !IsFrame(Data(e))
    case Unreachable => true
    case TimedOut => true
    case Interrupted => false
  }

  /** One pass through the body of `while True` in bridge.py (lines 43-87).
      Its properties are stated by StepOutputs, StepSends and StepOthers. */
  function Step(s: State, e: Event): Stepped {
    match e.poll
    case Response(status, body) =>
      if status == 200 then Receive(s, Normalise(body), e.write)
      else
        var fails := s.failCount + 1;
        var d := if fails == 1 then [HttpError(status)] else [];
        Stepped(s.(failCount := fails, log := s.log + d), Continue)
    case Unreachable =>
      var fails := s.failCount + 1;
      var d :=
        if fails == 1 then [NotReachable]
        else if fails % RemindEvery == 0 then [StillWaiting]
        else [];
      Stepped(s.(failCount := fails, log := s.log + d), Continue)
    case TimedOut =>
      Stepped(s.(failCount := s.failCount + 1), Continue)
    case Interrupted =>
      Stepped(s.(log := s.log + [Stopped]), Break)
  }

  /** The 200 branch (lines 46-66), given the normalised payload. */
  function Receive(s: State, data: string, write: WriteResult): Stepped {
    var parts := Split(data);
    if |parts| != FrameFields then
      var fails := s.failCount + 1;
      var d := if Reported(fails) then [Unexpected(|parts|, Preview(data))] else [];
      Stepped(s.(failCount := fails, log := s.log + d), Continue)
    else
      Forward(s, data, write)
  }

  /** Writing an accepted frame (lines 58-66). */
  function Forward(s: State, data: string, write: WriteResult): Stepped {
    match Encode(data + "\n")
    case None =>
      // UnicodeEncodeError is not among the exceptions the loop catches.
      Stepped(s, Crash)
    case Some(bytes) =>
      if write == SerialFail then
        Stepped(s.(log := s.log + [SerialLost]), Break)
      else
        var sends := s.sendCount + 1;
        var d :=
          if data != s.lastData then [Changed(data)]
          else if sends % HeartbeatEvery == 0 then [Heartbeat(data)]
          else [];
        var last := if data != s.lastData then data else s.lastData;
        Stepped(State(last, 0, sends, s.sent + [data], s.wire + bytes, s.log + d), Continue)
  }

  /** Nothing a tick has produced is taken back, and a tick prints at most
      one line. */
  lemma StepOutputs(s: State, e: Event)
    ensures var r := Step(s, e).state;
      && s.wire <= r.wire && s.sent <= r.sent && s.log <= r.log
      && |r.log| <= |s.log| + 1
  {
    if e.poll.Response? && e.poll.status == 200 {
      ForwardOutputs(s, Data(e), e.write);
    }
  }

  lemma ForwardOutputs(s: State, data: string, write: WriteResult)
    ensures var r := Forward(s, data, write).state;
      && s.wire <= r.wire && s.sent <= r.sent && s.log <= r.log
      && |r.log| <= |s.log| + 1
  {
  }

  /** Bytes reach the port exactly on a tick that writes a frame and whose
      write succeeds; that tick goes on, resets the failure count and counts
      one more send. */
  lemma StepSends(s: State, e: Event)
    ensures var r := Step(s, e);
      (r.state.wire != s.wire <==> Writes(e) && e.write == WriteOk)
      && (r.state.wire != s.wire ==>
            r.next == Continue && r.state.failCount == 0 && r.state.sendCount == s.sendCount + 1)
  {
    if e.poll.Response? && e.poll.status == 200 {
      LineIsAscii(Data(e));
    }
    if Writes(e) && e.write == WriteOk {
      assert |Step(s, e).state.wire| == |s.wire| + |Data(e)| + 1;
    }
  }

  /** Every other tick changes nothing but the failure count (up by one or
      left) and the console, and a tick that leaves the loop changes nothing
      but the console (and a crash not even that). */
  lemma StepOthers(s: State, e: Event)
    ensures var r := Step(s, e);
      && (!(Writes(e) && e.write == WriteOk) ==>
            r.state == s.(failCount := r.state.failCount, log := r.state.log)
            && (r.state.failCount == s.failCount || r.state.failCount == s.failCount + 1))
      && (r.next != Continue ==>
            r.state == s.(log := r.state.log) && (r.next == Crash ==> r.state.log == s.log))
  {
    if e.poll.Response? && e.poll.status == 200 && IsFrame(Data(e)) {
      LineIsAscii(Data(e));
    }
  }

  /** Ticks in order until one of them leaves the loop; the events after
      that are never consumed. Along a run the outputs only grow. */
  function Run(s: State, events: seq<Event>): Stepped
    decreases |events|
  {
    if events == [] then
      Stepped(s, Continue)
    else
      var t := Step(s, events[0]);
      if t.next == Continue then Run(t.state, events[1..]) else t
  }

  /** Along a run the outputs only grow, and so does the send count. */
  lemma {:induction false} RunOutputs(s: State, events: seq<Event>)
    ensures var r := Run(s, events).state;
      && s.wire <= r.wire && s.sent <= r.sent && s.log <= r.log
      && s.sendCount <= r.sendCount
    decreases |events|
  {
    if events != [] {
      StepOutputs(s, events[0]);
      StepSends(s, events[0]);
      StepOthers(s, events[0]);
      var t := Step(s, events[0]);
      if t.next == Continue {
        RunOutputs(t.state, events[1..]);
      }
    }
  }

  /** A run over two stretches of events is the run over the first one,
      continued over the second only if the loop was not left. */
  lemma {:induction false} RunAppend(s: State, first: seq<Event>, second: seq<Event>)
    ensures Run(s, first + second) ==
              (var r := Run(s, first); if r.next == Continue then Run(r.state, second) else r)
    decreases |first|
  {
    if first == [] {
      assert first + second == second;
    } else {
      assert (first + second)[0] == first[0];
      assert (first + second)[1..] == first[1..] + second;
      var t := Step(s, first[0]);
      if t.next == Continue {
        RunAppend(t.state, first[1..], second);
      }
    }
  }

  /** A run over some events and then one more tick. */
  lemma RunSnoc(s: State, events: seq<Event>, e: Event)
    ensures Run(s, events + [e]) ==
              (var r := Run(s, events); if r.next == Continue then Step(r.state, e) else r)
  {
    RunAppend(s, events, [e]);
    var r := Run(s, events);
    if r.next == Continue {
      assert [e][1..] == [];
    }
  }

  // ---------------------------------------------------------------------
  // What the serial line carries
  // ---------------------------------------------------------------------

  /** The bytes of frames written one after another, each followed by "\n". */
  function Lines(frames: seq<string>): seq<Byte>
    requires forall k | 0 <= k < |frames| :: IsAscii(frames[k])
  {
    if frames == [] then
      []
    else
      LineIsAscii(frames[0]);
      Encode(frames[0] + "\n").value + Lines(frames[1..])
  }

  lemma {:induction false} LinesAppend(frames: seq<string>, f: string)
    requires forall k | 0 <= k < |frames| :: IsAscii(frames[k])
    requires IsAscii(f)
    ensures Lines(frames + [f]) == Lines(frames) + Encode(f + "\n").value
  {
    if frames == [] {
      assert [] + [f] == [f];
    } else {
      assert (frames + [f])[1..] == frames[1..] + [f];
      LinesAppend(frames[1..], f);
    }
  }

  /** What holds of every state the loop reaches: the wire holds exactly the
      frames sent, each an ASCII nine-field text ended by one "\n"; the
      send count counts them; last_data is the latest one ("" before any). */
  ghost predicate Inv(s: State) {
    && |s.sent| == s.sendCount
    && (forall k | 0 <= k < |s.sent| :: IsFrame(s.sent[k]) && IsAscii(s.sent[k]))
    && s.wire == Lines(s.sent)
    && s.lastData == (if s.sent == [] then "" else s.sent[|s.sent| - 1])
  }

  lemma InitInv()
    ensures Inv(Init)
  {
  }

  /** An ASCII frame written without error: the frame and its line are
      appended, it becomes the last frame, the send count rises and the
      failure count is reset. */
  lemma ForwardSends(s: State, data: string)
    requires IsAscii(data)
    ensures var r := Forward(s, data, WriteOk);
      && r.next == Continue
      && r.state == State(data, 0, s.sendCount + 1, s.sent + [data],
                          s.wire + Encode(data + "\n").value, r.state.log)
      && r.state.log == s.log + (if data != s.lastData then [Changed(data)]
                                 else if (s.sendCount + 1) % HeartbeatEvery == 0 then [Heartbeat(data)]
                                 else [])
  {
    LineIsAscii(data);
  }

  /** Appending an ASCII frame, with its line on the wire, keeps the
      invariant, whatever the failure count and the console. */
  lemma InvAppend(s: State, data: string, failCount: nat, log: seq<Diagnostic>)
    requires Inv(s) && IsFrame(data) && IsAscii(data)
    ensures Inv(State(data, failCount, s.sendCount + 1, s.sent + [data],
                      s.wire + Encode(data + "\n").value, log))
  {
    var sent := s.sent + [data];
    forall k | 0 <= k < |sent| ensures IsFrame(sent[k]) && IsAscii(sent[k]) {
      if k < |s.sent| { assert sent[k] == s.sent[k]; }
    }
    LinesAppend(s.sent, data);
  }

  /** A completed send appends its frame to `sent` and its line to `wire`. */
  lemma SendKeepsInv(s: State, e: Event)
    requires Inv(s)
    requires Writes(e) && e.write == WriteOk
    ensures Inv(Step(s, e).state)
  {
    var data := Data(e);
    assert Step(s, e) == Forward(s, data, WriteOk);
    ForwardSends(s, data);
    InvAppend(s, data, 0, Step(s, e).state.log);
  }

  lemma StepKeepsInv(s: State, e: Event)
    requires Inv(s)
    ensures Inv(Step(s, e).state)
  {
    if Writes(e) && e.write == WriteOk {
      SendKeepsInv(s, e);
    } else {
      StepOthers(s, e);
    }
  }

  lemma {:induction false} RunKeepsInv(s: State, events: seq<Event>)
    requires Inv(s)
    ensures Inv(Run(s, events).state)
    decreases |events|
  {
    if events != [] {
      StepKeepsInv(s, events[0]);
      var t := Step(s, events[0]);
      if t.next == Continue {
        RunKeepsInv(t.state, events[1..]);
      }
    }
  }
}
