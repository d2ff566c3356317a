/**
 * The loop of main() in bridge.py as an object: the three loop variables
 * are fields that each tick updates in place, the serial port is an open
 * flag with the bytes written to it, and the console is the list of
 * diagnostics printed. Every method is proved to do what Forwarder.Step
 * and Forwarder.Run say.
 */
module BridgeLoop {
  import opened Payload
  import opened Forwarder

  class Bridge {
    var lastData: string
    var failCount: nat
    var sendCount: nat
    /** The serial port is open (ser.close() not yet called). */
    var portOpen: bool
    /** The frames and the bytes written to the port, and the lines printed. */
    ghost var sent: seq<string>
    ghost var wire: seq<Byte>
    ghost var log: seq<Diagnostic>

    ghost function Snapshot(): State
      reads this
    {
      State(lastData, failCount, sendCount, sent, wire, log)
    }

    /** The port has been opened and the loop variables set (lines 38-40). */
    constructor ()
      ensures Snapshot() == Init && portOpen
      ensures Inv(Snapshot())
    {
      lastData, failCount, sendCount := "", 0, 0;
      portOpen := true;
      sent, wire, log := [], [], [];
    }

    /** One pass through the body of the loop, given what the request
        produced and what the write would report. */
    method Tick(e: Event) returns (next: Next)
      requires portOpen
      modifies this
      ensures portOpen
      ensures Stepped(Snapshot(), next) == Step(old(Snapshot()), e)
    {
      next := Continue;
      match e.poll {
        case Response(status, body) =>
          if status == 200 {
            next := Receive(Normalise(body), e.write);
          } else {
            failCount := failCount + 1;
            if failCount == 1 {
              log := log + [HttpError(status)];
            }
          }
        case Unreachable =>
          failCount := failCount + 1;
          if failCount == 1 {
            log := log + [NotReachable];
          } else if failCount % RemindEvery == 0 {
            log := log + [StillWaiting];
          }
        case TimedOut =>
          failCount := failCount + 1;
        case Interrupted =>
          log := log + [Stopped];
          next := Break;
      }
    }

    /** A 200 response whose text, stripped and unquoted, is `data`. */
    method Receive(data: string, write: WriteResult) returns (next: Next)
      requires portOpen
      modifies this
      ensures portOpen
      ensures Stepped(Snapshot(), next) == Forwarder.Receive(old(Snapshot()), data, write)
    {
      var parts := Split(data);
      if |parts| != FrameFields {
        failCount := failCount + 1;
        if failCount == 1 || failCount % RemindEvery == 0 {
          log := log + [Unexpected(|parts|, Preview(data))];
        }
        return Continue;
      }
      next := Forward(data, write);
    }

    /** Writes a nine-field frame and its "\n" to the port. */
    method Forward(data: string, write: WriteResult) returns (next: Next)
      requires portOpen
      modifies this
      ensures portOpen
      ensures Stepped(Snapshot(), next) == Forwarder.Forward(old(Snapshot()), data, write)
    {
      LineIsAscii(data);
      var bytes := Encode(data + "\n");
      if bytes.None? {
        return Crash;
      }
      if write == SerialFail {
        log := log + [SerialLost];
        return Break;
      }
      sent, wire := sent + [data], wire + bytes.value;
      sendCount := sendCount + 1;
      if data != lastData {
        log := log + [Changed(data)];
        lastData := data;
      } else if sendCount % HeartbeatEvery == 0 {
        log := log + [Heartbeat(data)];
      }
      failCount := 0;
      next := Continue;
    }

    /** ser.close() after the loop (line 89). */
    method Close()
      requires portOpen
      modifies this`portOpen
      ensures !portOpen
    {
      portOpen := false;
    }

    /** The loop of lines 42-89 over the ticks the outside world supplies:
        it stops at the first tick that leaves the loop, and closes the port
        exactly when that tick was a break (a crash leaves it open). When it
        stops early, the last tick consumed is the one that left the loop.
        The loop's state afterwards is that of Forwarder.Run. */
    method Run(events: seq<Event>) returns (ticks: nat, next: Next)
      requires portOpen
      modifies this
      ensures Stepped(Snapshot(), next) == Forwarder.Run(old(Snapshot()), events)
      ensures ticks <= |events| && (next == Continue ==> ticks == |events|)
      ensures next != Continue ==>
                1 <= ticks && Forwarder.Run(old(Snapshot()), events[..ticks - 1]).next == Continue
      ensures portOpen <==> next != Break
      ensures old(Inv(Snapshot())) ==> Inv(Snapshot())
    {
      ghost var start := Snapshot();
      if Inv(start) {
        RunKeepsInv(start, events);
      }
      ticks, next := 0, Continue;
      while ticks < |events| && next == Continue
        invariant ticks <= |events| && portOpen
        invariant Stepped(Snapshot(), next) == Forwarder.Run(start, events[..ticks])
        invariant next != Continue ==>
                    1 <= ticks && Forwarder.Run(start, events[..ticks - 1]).next == Continue
      {
        RunSnoc(start, events[..ticks], events[ticks]);
        assert events[..ticks + 1] == events[..ticks] + [events[ticks]];
        next := Tick(events[ticks]);
        ticks := ticks + 1;
      }
      if ticks < |events| {
        RunAppend(start, events[..ticks], events[ticks..]);
        assert events[..ticks] + events[ticks..] == events;
      } else {
        assert events[..ticks] == events;
      }
      if next == Break {
        Close();
      }
    }
  }
}
