/** Both directions of the bridge, poll by poll. Each end runs one task, whose two futures `select` polls one
    after the other (src/bridge/uart_mailbox.rs). A future goes on until it has to wait, or yields after a frame.
    TCP has a window of its own in each direction, and the UARTs come and go as they like. */
module BridgeSelect {
  import opened Bytes
  import opened Wrappers
  import opened PacketFifo
  import opened FrameDecoder
  import opened BridgePipe
  import opened BridgeProgress

  type Live = p: Pipe | ValidPartial(BRIDGE, p.reader) witness Initial(1)

  /** `up` leads from end A to end B, and `down` back: A sends on `up` and receives on `down`. */
  datatype Duplex = Duplex(up: Live, down: Live)

  // The futures

  function Room(p: Pipe): nat {
    if |p.wire| < p.window then p.window - |p.wire| else 0
  }

  /** One poll of the send future: it takes a packet if it has none in hand, and writes until the frame is out
      or the window is full. */
  function PollSend(p: Live): Live {
    var taken := if p.sending == [] && p.upload != [] then Next(p, TakeUpload) else p;
    var n := if |taken.sending| < Room(taken) then |taken.sending| else Room(taken);
    if n > 0 then Next(taken, Write(n)) else taken
  }

  /** The reader reads until a frame is complete or nothing has come in. */
  function ReadUp(p: Live): (r: Live)
    ensures Work(r) <= Work(p) && (p.pushing == None && p.wire != [] ==> Work(r) < Work(p))
    ensures p.pushing.Some? || p.wire == [] ==> r == p
    decreases |p.wire|
  {
    if p.wire == [] || p.pushing.Some? then p
    else
      StepWorks(p, ReadByte);
      ReadUp(Next(p, ReadByte))
  }

  /** One poll of the receive future: it completes a frame if it can, and puts it into the mailbox if there is
      room. */
  function PollReceive(p: Live): Live {
    var read := ReadUp(p);
    if Possible(read, PushDownload) then Next(read, PushDownload) else read
  }

  /** What the futures wait for otherwise. */
  predicate CanSend(p: Pipe) {
    if p.sending == [] then p.upload != [] else Room(p) > 0
  }

  predicate CanReceive(p: Pipe) {
    if p.pushing.Some? then Fits(p.download, |Queued(p.pushing.value)|, MAILBOX) else p.wire != []
  }

  /** A future that waits is left as it was, and one that does not gets something done. */
  lemma PollSendWorks(p: Live)
    ensures if CanSend(p) then Work(PollSend(p)) < Work(p) else PollSend(p) == p
    ensures PollSend(p).now.accepted == p.now.accepted && PollSend(p).past == p.past
  {
    if CanSend(p) {
      var taken := if p.sending == [] && p.upload != [] then Next(p, TakeUpload) else p;
      if p.sending == [] {
        StepWorks(p, TakeUpload);
      }
      if PollSend(p) != taken {
        StepWorks(taken, Write(if |taken.sending| < Room(taken) then |taken.sending| else Room(taken)));
      }
    }
  }

  lemma {:induction false} ReadUpKeeps(p: Live)
    ensures ReadUp(p).now == p.now && ReadUp(p).past == p.past && ReadUp(p).download == p.download
    decreases |p.wire|
  {
    if p.wire != [] && p.pushing == None {
      ReadUpKeeps(Next(p, ReadByte));
    }
  }

  lemma PollReceiveWorks(p: Live)
    ensures if CanReceive(p) then Work(PollReceive(p)) < Work(p) else PollReceive(p) == p
    ensures PollReceive(p).now.accepted == p.now.accepted && PollReceive(p).past == p.past
  {
    ReadUpKeeps(p);
    if Possible(ReadUp(p), PushDownload) {
      StepWorks(ReadUp(p), PushDownload);
    }
  }

  /** Polls are nothing but steps of the pipe. */
  lemma PollSendKeeps(p: Live, flight: seq<Content>, k: nat) returns (flight': seq<Content>, k': nat)
    requires Inv(p, flight, k)
    ensures Inv(PollSend(p), flight', k')
  {
    var taken := if p.sending == [] && p.upload != [] then Next(p, TakeUpload) else p;
    flight', k' := flight, k;
    if taken != p {
      flight', k' := StepKeeps(p, TakeUpload, flight, k);
    }
    if PollSend(p) != taken {
      flight', k' := StepKeeps(taken, Write(if |taken.sending| < Room(taken) then |taken.sending| else Room(taken)), flight', k');
    }
  }

  lemma {:induction false} ReadUpSound(p: Live, flight: seq<Content>, k: nat) returns (flight': seq<Content>, k': nat)
    requires Inv(p, flight, k)
    ensures Inv(ReadUp(p), flight', k')
    decreases |p.wire|
  {
    flight', k' := flight, k;
    if p.wire != [] && p.pushing == None {
      flight', k' := StepKeeps(p, ReadByte, flight, k);
      flight', k' := ReadUpSound(Next(p, ReadByte), flight', k');
    }
  }

  lemma PollReceiveKeeps(p: Live, flight: seq<Content>, k: nat) returns (flight': seq<Content>, k': nat)
    requires Inv(p, flight, k)
    ensures Inv(PollReceive(p), flight', k')
  {
    flight', k' := ReadUpSound(p, flight, k);
    flight', k' := StepKeeps(ReadUp(p), PushDownload, flight', k');
  }

  // Whole runs

  datatype Event =
    | PollA | PollB                            // the task of an end is polled
    | AdmitA(p: Packet) | AdmitB(p: Packet)    // the UART of an end offers a frame
    | ReplyA(p: Packet) | ReplyB(p: Packet)    // ... or a command, which is answered there
    | TransmitA | TransmitB                    // the UART of an end transmits a packet
    | NewSession

  function NextUp(p: Live, e: Event): Live {
    match e
    case PollA => PollSend(p)
    case PollB => PollReceive(p)
    case AdmitA(q) => Next(p, Admit(q))
    case ReplyB(q) => Next(p, LocalReply(q))
    case TransmitB => Next(p, Deliver)
    case NewSession => Next(p, Reconnect)
    case _ => p
  }

  /** The same event, with the two ends exchanged. */
  function Swapped(e: Event): Event {
    match e
    case PollA => PollB case PollB => PollA
    case AdmitA(p) => AdmitB(p) case AdmitB(p) => AdmitA(p)
    case ReplyA(p) => ReplyB(p) case ReplyB(p) => ReplyA(p)
    case TransmitA => TransmitB case TransmitB => TransmitA
    case NewSession => NewSession
  }

  /** `select` polls both futures of the end, always: A's send future on `up`, its receive future on `down`. */
  function NextDuplex(d: Duplex, e: Event): Duplex {
    Duplex(NextUp(d.up, e), NextUp(d.down, Swapped(e)))
  }

  function RunDuplex(window: Window, events: seq<Event>): Duplex {
    if events == [] then Duplex(Initial(window), Initial(window))
    else NextDuplex(RunDuplex(window, events[..|events| - 1]), events[|events| - 1])
  }

  /** At either end, a future with something to do gets it done whenever the task is polled, whatever the other
      future waits for: a full window, a full mailbox, or nothing to send. */
  lemma PollServesBoth(d: Duplex)
    ensures var a := NextDuplex(d, PollA);
            && (if CanSend(d.up) then Work(a.up) < Work(d.up) else a.up == d.up)
            && (if CanReceive(d.down) then Work(a.down) < Work(d.down) else a.down == d.down)
    ensures var b := NextDuplex(d, PollB);
            && (if CanReceive(d.up) then Work(b.up) < Work(d.up) else b.up == d.up)
            && (if CanSend(d.down) then Work(b.down) < Work(d.down) else b.down == d.down)
  {
    PollSendWorks(d.up);
    PollSendWorks(d.down);
    PollReceiveWorks(d.up);
    PollReceiveWorks(d.down);
  }

  // Safety

  ghost predicate Sound(p: Pipe) {
    exists flight: seq<Content>, k: nat :: Inv(p, flight, k)
  }

  lemma NextUpSound(p: Live, e: Event)
    requires Sound(p)
    ensures Sound(NextUp(p, e))
  {
    var flight: seq<Content>, k: nat :| Inv(p, flight, k);
    var flight', k' := flight, k;
    match e {
      case PollA => flight', k' := PollSendKeeps(p, flight, k);
      case PollB => flight', k' := PollReceiveKeeps(p, flight, k);
      case AdmitA(q) => flight', k' := StepKeeps(p, Admit(q), flight, k);
      case ReplyB(q) => flight', k' := StepKeeps(p, LocalReply(q), flight, k);
      case TransmitB => flight', k' := StepKeeps(p, Deliver, flight, k);
      case NewSession => flight', k' := StepKeeps(p, Reconnect, flight, k);
      case _ =>
    }
    assert Inv(NextUp(p, e), flight', k');
  }

  lemma {:induction false} BothSound(window: Window, events: seq<Event>)
    ensures Sound(RunDuplex(window, events).up) && Sound(RunDuplex(window, events).down)
  {
    if events == [] {
      NewSessionInv(Initial(window));
    } else {
      var n := |events| - 1;
      BothSound(window, events[..n]);
      NextUpSound(RunDuplex(window, events[..n]).up, events[n]);
      NextUpSound(RunDuplex(window, events[..n]).down, Swapped(events[n]));
    }
  }

  /** In every run, both directions deliver, session by session, byte-exact prefixes of what they accepted. */
  lemma BothDeliverPrefixes(window: Window, events: seq<Event>)
    ensures DeliversPrefixes(RunDuplex(window, events).up) && DeliversPrefixes(RunDuplex(window, events).down)
  {
    BothSound(window, events);
    var d := RunDuplex(window, events);
    var flight: seq<Content>, k: nat :| Inv(d.up, flight, k);
    InvImpliesPrefix(d.up, flight, k);
    var flight2: seq<Content>, k2: nat :| Inv(d.down, flight2, k2);
    InvImpliesPrefix(d.down, flight2, k2);
  }

  // Progress of one direction

  /** Events that bring nothing new into `up` and leave the session alone. What they do to `down` is free. */
  predicate QuietUp(e: Event) {
    !e.AdmitA? && !e.ReplyB? && !e.NewSession?
  }

  /** What could get something done on `up`. */
  predicate ActsOn(p: Pipe, e: Event) {
    match e
    case PollA => CanSend(p)
    case PollB => CanReceive(p)
    case TransmitB => p.download != []
    case _ => false
  }

  lemma QuietWorks(p: Live, e: Event)
    requires QuietUp(e)
    ensures if ActsOn(p, e) then Work(NextUp(p, e)) < Work(p) else NextUp(p, e) == p
    ensures NextUp(p, e).now.accepted == p.now.accepted && NextUp(p, e).past == p.past
  {
    PollSendWorks(p);
    PollReceiveWorks(p);
    if p.download != [] {
      StepWorks(p, Deliver);
    }
  }

  /** As long as something is on the way, one of the three can act. */
  lemma SomeoneActs(p: Pipe)
    requires !Idle(p)
    ensures ActsOn(p, PollA) || ActsOn(p, PollB) || ActsOn(p, TransmitB)
  {
  }

  function RunUp(p: Live, events: seq<Event>): Live
    decreases |events|
  {
    if events == [] then p else RunUp(NextUp(p, events[0]), events[1..])
  }

  predicate Quiet(events: seq<Event>) {
    forall i :: 0 <= i < |events| ==> QuietUp(events[i])
  }

  /** A stretch in which both tasks are polled and B's UART transmits, in any order, among anything else. */
  predicate Round(events: seq<Event>) {
    Quiet(events) && PollA in events && PollB in events && TransmitB in events
  }

  /** A stretch that gets nothing done held nothing that could act. */
  lemma {:induction false} StretchWorks(p: Live, events: seq<Event>)
    requires Quiet(events)
    ensures Work(RunUp(p, events)) < Work(p) || (RunUp(p, events) == p && NothingActs(p, events))
    ensures RunUp(p, events).now.accepted == p.now.accepted && RunUp(p, events).past == p.past
    decreases |events|
  {
    if events != [] {
      QuietWorks(p, events[0]);
      StretchWorks(NextUp(p, events[0]), events[1..]);
      FirstActs(p, events);
    }
  }

  predicate NothingActs(p: Pipe, events: seq<Event>) {
    forall i :: 0 <= i < |events| ==> !ActsOn(p, events[i])
  }

  lemma FirstActs(p: Pipe, events: seq<Event>)
    requires events != []
    ensures NothingActs(p, events) <==> !ActsOn(p, events[0]) && NothingActs(p, events[1..])
  {
    if NothingActs(p, events[1..]) {
      assert forall i :: 0 < i < |events| ==> events[i] == events[1..][i - 1];
    }
  }

  lemma RoundWorks(p: Live, events: seq<Event>)
    requires Round(events)
    ensures Idle(p) || Work(RunUp(p, events)) < Work(p)
  {
    StretchWorks(p, events);
    if !Idle(p) {
      SomeoneActs(p);
    }
  }

  lemma IdleStays(p: Live, events: seq<Event>)
    requires Quiet(events) && Idle(p)
    ensures RunUp(p, events) == p
  {
    IdleIsDone(p);
    StretchWorks(p, events);
  }

  lemma IdleIsDone(p: Pipe)
    requires Idle(p)
    ensures Work(p) == 0
  {
  }

  function Flattened(rounds: seq<seq<Event>>): seq<Event> {
    if rounds == [] then [] else rounds[0] + Flattened(rounds[1..])
  }

  lemma {:induction false} RunUpConcat(p: Live, events: seq<Event>, more: seq<Event>)
    ensures RunUp(p, events + more) == RunUp(RunUp(p, events), more)
    decreases |events|
  {
    if events == [] {
      assert events + more == more;
    } else {
      assert (events + more)[1..] == events[1..] + more;
      RunUpConcat(NextUp(p, events[0]), events[1..], more);
    }
  }

  lemma {:induction false} RoundsFinish(p: Live, rounds: seq<seq<Event>>)
    requires |rounds| >= Work(p) && forall i :: 0 <= i < |rounds| ==> Round(rounds[i])
    ensures var q := RunUp(p, Flattened(rounds)); Idle(q) && q.now.accepted == p.now.accepted && q.past == p.past
    decreases |rounds|
  {
    if rounds == [] {
      if !Idle(p) {
        var step := SomethingPossible(p);
        StepWorks(p, step);
      }
    } else {
      RunUpConcat(p, rounds[0], Flattened(rounds[1..]));
      StretchWorks(p, rounds[0]);
      RoundWorks(p, rounds[0]);
      if Idle(p) {
        IdleStays(p, rounds[0]);
        IdleIsDone(p);
      }
      RoundsFinish(RunUp(p, rounds[0]), rounds[1..]);
    }
  }

  function RunDuplexOn(d: Duplex, events: seq<Event>): Duplex
    decreases |events|
  {
    if events == [] then d else RunDuplexOn(NextDuplex(d, events[0]), events[1..])
  }

  lemma {:induction false} UpOfDuplex(d: Duplex, events: seq<Event>)
    ensures RunDuplexOn(d, events).up == RunUp(d.up, events)
    decreases |events|
  {
    if events != [] {
      UpOfDuplex(NextDuplex(d, events[0]), events[1..]);
    }
  }

  lemma {:induction false} RunUpSound(p: Live, events: seq<Event>)
    requires Sound(p)
    ensures Sound(RunUp(p, events))
    decreases |events|
  {
    if events != [] {
      NextUpSound(p, events[0]);
      RunUpSound(NextUp(p, events[0]), events[1..]);
    }
  }

  /** From every reachable state, the direction from A to B delivers everything it has accepted, as soon as both
      tasks have been polled and B's UART has transmitted often enough, in any order. Nothing is asked of the
      other direction: A's UART may never transmit, so that its mailbox, TCP's window and B's send future stay
      full and blocked for ever; or anything else may happen there. */
  lemma UploadNeverHeldUp(window: Window, events: seq<Event>, rounds: seq<seq<Event>>)
    requires |rounds| >= Work(RunDuplex(window, events).up) && forall i :: 0 <= i < |rounds| ==> Round(rounds[i])
    ensures var d := RunDuplex(window, events);
            RunDuplexOn(d, Flattened(rounds)).up.delivered == Arrivals(d.up.past) + d.up.now.accepted
  {
    var d := RunDuplex(window, events);
    BothSound(window, events);
    RunUpSound(d.up, Flattened(rounds));
    RoundsFinish(d.up, rounds);
    UpOfDuplex(d, Flattened(rounds));
    var q := RunUp(d.up, Flattened(rounds));
    var flight: seq<Content>, k: nat :| Inv(q, flight, k);
    InvImpliesPrefix(q, flight, k);
  }

  // The other direction, by exchanging the ends

  function Mirrored(events: seq<Event>): (r: seq<Event>)
    ensures |r| == |events|
  {
    seq(|events|, i requires 0 <= i < |events| => Swapped(events[i]))
  }

  function Turned(d: Duplex): Duplex {
    Duplex(d.down, d.up)
  }

  lemma TurnedStep(d: Duplex, e: Event)
    ensures NextDuplex(Turned(d), Swapped(e)) == Turned(NextDuplex(d, e))
  {
  }

  lemma {:induction false} TurnedRun(window: Window, events: seq<Event>)
    ensures RunDuplex(window, Mirrored(events)) == Turned(RunDuplex(window, events))
  {
    if events != [] {
      var n := |events| - 1;
      assert Mirrored(events)[..n] == Mirrored(events[..n]);
      TurnedRun(window, events[..n]);
      TurnedStep(RunDuplex(window, events[..n]), events[n]);
    }
  }

  lemma {:induction false} TurnedRunOn(d: Duplex, events: seq<Event>)
    ensures RunDuplexOn(Turned(d), Mirrored(events)) == Turned(RunDuplexOn(d, events))
    decreases |events|
  {
    if events != [] {
      TurnedStep(d, events[0]);
      assert Mirrored(events)[1..] == Mirrored(events[1..]);
      TurnedRunOn(NextDuplex(d, events[0]), events[1..]);
    }
  }

  function AllMirrored(rounds: seq<seq<Event>>): (r: seq<seq<Event>>)
    ensures |r| == |rounds|
  {
    seq(|rounds|, i requires 0 <= i < |rounds| => Mirrored(rounds[i]))
  }

  lemma {:induction false} FlattenedMirrored(rounds: seq<seq<Event>>)
    ensures Flattened(AllMirrored(rounds)) == Mirrored(Flattened(rounds))
  {
    if rounds != [] {
      assert AllMirrored(rounds)[1..] == AllMirrored(rounds[1..]);
      FlattenedMirrored(rounds[1..]);
      assert Mirrored(rounds[0] + Flattened(rounds[1..])) == Mirrored(rounds[0]) + Mirrored(Flattened(rounds[1..]));
    }
  }

  /** The same for the direction from B to A. */
  lemma DownloadNeverHeldUp(window: Window, events: seq<Event>, rounds: seq<seq<Event>>)
    requires |rounds| >= Work(RunDuplex(window, events).down)
    requires forall i :: 0 <= i < |rounds| ==> Round(Mirrored(rounds[i]))
    ensures var d := RunDuplex(window, events);
            RunDuplexOn(d, Flattened(rounds)).down.delivered == Arrivals(d.down.past) + d.down.now.accepted
  {
    TurnedRun(window, events);
    UploadNeverHeldUp(window, Mirrored(events), AllMirrored(rounds));
    FlattenedMirrored(rounds);
    TurnedRunOn(RunDuplex(window, events), Flattened(rounds));
  }
}
