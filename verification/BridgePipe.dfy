/** One direction of the bridge, end to end: the upload mailbox and the send loop of `forward_tcp` on one
    side, the TCP byte stream, the receive loop and the download mailbox on the other
    (src/bridge/uart_mailbox.rs, src/bridge/uart.rs). TCP is a reliable byte stream, cut anywhere, that
    takes no more bytes than its window, until the session ends, which can happen at any time. */
module BridgePipe {
  import opened Bytes
  import opened Wrappers
  import opened PacketFifo
  import opened FrameDecoder

  /** Both mailboxes hold 128 packets and 16 KiB. */
  const MAILBOX := Limits(128, 16384)

  type Content = s: seq<byte> | |s| <= MAX_PAYLOAD

  /** What was accepted and what arrived in the far mailbox during one session. */
  datatype Session = Session(accepted: seq<Content>, arrived: seq<Content>)

  /** How many bytes TCP takes before some have been read. */
  type Window = n: nat | n > 0 witness 1

  datatype Pipe = Pipe(
    window: Window,
    upload: seq<Packet>,       // accepted from the UART
    sending: seq<byte>,        // what is left to write of the frame in hand
    wire: seq<byte>,           // written, not yet read
    reader: Partial,           // read of the next frame
    pushing: Option<Packet>,   // read, waiting for room
    download: seq<Packet>,     // waiting for the UART
    now: Session, past: seq<Session>, delivered: seq<Content>,
    failed: bool)

  datatype Step =
    | Admit(p: Packet)         // the UART offers a frame, which is refused as a whole if there is no room
    | TakeUpload               // the send loop pops a packet
    | Write(n: nat)            // TCP takes n bytes
    | ReadByte                 // the receive loop reads on
    | PushDownload             // the frame in hand goes into the mailbox
    | LocalReply(p: Packet)    // the far side's own reply to a command goes into the same mailbox
    | Deliver                  // the far UART transmits a packet
    | Reconnect                // a session ends and the next one starts

  function Initial(window: Window): Pipe {
    Pipe(window, [], [], [], EMPTY, None, [], Session([], []), [], [], false)
  }

  predicate Possible(s: Pipe, step: Step) {
    match step
    case Admit(p) => Fits(s.upload, |Queued(p)|, MAILBOX)
    case TakeUpload => s.sending == [] && s.upload != []
    case Write(n) => 0 < n <= |s.sending| && |s.wire| + n <= s.window
    case ReadByte => s.pushing == None && s.wire != []
    case PushDownload => s.pushing.Some? && Fits(s.download, |Queued(s.pushing.value)|, MAILBOX)
    case LocalReply(p) => p.kind == REPLY_KIND && Fits(s.download, |Queued(p)|, MAILBOX)
    case Deliver => s.download != []
    case Reconnect => true
  }

  function Next(s: Pipe, step: Step): (r: Pipe)
    requires ValidPartial(BRIDGE, s.reader)
    ensures ValidPartial(BRIDGE, r.reader)
  {
    if !Possible(s, step) then s
    else
      match step
      case Admit(p) => s.(upload := s.upload + [p], now := s.now.(accepted := s.now.accepted + [p.payload]))
      case TakeUpload => s.(sending := Encode(BRIDGE_MAGIC, s.upload[0].payload), upload := s.upload[1..])
      case Write(n) => s.(wire := s.wire + s.sending[..n], sending := s.sending[n..])
      case ReadByte => Received(s.(wire := s.wire[1..]), Feed(BRIDGE, s.reader, Byte(s.wire[0])))
      case PushDownload =>
        s.(download := s.download + [s.pushing.value], pushing := None,
           now := s.now.(arrived := s.now.arrived + [s.pushing.value.payload]))
      case LocalReply(p) => s.(download := s.download + [p])
      case Deliver => s.(download := s.download[1..], delivered := s.delivered + DataOf([s.download[0]]))
      case Reconnect =>
        s.(upload := [], sending := [], wire := [], reader := EMPTY, pushing := None,
           past := s.past + [s.now], now := Session([], []))
  }

  /** The payloads that came through the pipe, among those queued for the UART. */
  function DataOf(q: seq<Packet>): seq<Content> {
    if q == [] then []
    else (if q[0].kind == DATA_KIND then [q[0].payload] else []) + DataOf(q[1..])
  }

  function Received(s: Pipe, r: (Partial, seq<Output>)): Pipe {
    if r.1 == [] then s.(reader := r.0)
    else if r.1[0].Frame? && |r.1[0].payload| <= MAX_PAYLOAD then
      s.(reader := r.0, pushing := Some(RawPacket(DATA_KIND, r.1[0].payload)))
    else s.(reader := r.0, failed := true)
  }

  function Run(window: Window, steps: seq<Step>): (r: Pipe)
    ensures ValidPartial(BRIDGE, r.reader)
  {
    if steps == [] then Initial(window) else Next(Run(window, steps[..|steps| - 1]), steps[|steps| - 1])
  }

  function Contents(q: seq<Packet>): (c: seq<Content>)
    ensures |c| == |q|
  {
    seq(|q|, i requires 0 <= i < |q| => q[i].payload)
  }

  function InHand(p: Option<Packet>): seq<Content> {
    match p case Some(q) => [q.payload] case None => []
  }

  /** The frames of a list of payloads, one after the other. */
  function Framed(contents: seq<Content>): seq<byte> {
    if contents == [] then [] else Encode(BRIDGE_MAGIC, contents[0]) + Framed(contents[1..])
  }

  /** The reader when it has read the first k bytes of the frame of x. */
  function Amid(x: Content, k: nat): Partial
    requires k < |Encode(BRIDGE_MAGIC, x)|
  {
    var frame := Encode(BRIDGE_MAGIC, x);
    if k < 4 then Partial(frame[..k], []) else Partial(frame[..4], frame[4..k])
  }

  /** Reading on within a frame: the frame comes out with its last byte, and not before. */
  lemma FeedInFrame(x: Content, k: nat)
    requires k < |Encode(BRIDGE_MAGIC, x)|
    ensures ValidPartial(BRIDGE, Amid(x, k))
    ensures var frame := Encode(BRIDGE_MAGIC, x);
            Feed(BRIDGE, Amid(x, k), Byte(frame[k])) ==
            if k + 1 == |frame| then (EMPTY, [Frame(BRIDGE_MAGIC.first, x)]) else (Amid(x, k + 1), [])
  {
    var frame := Encode(BRIDGE_MAGIC, x);
    assert Length(frame[..4]) == |x| && frame[4..] == x && frame[..4][0] == BRIDGE_MAGIC.first;
    if k >= 4 {
      assert frame[4..k] + [frame[k]] == frame[4..k + 1];
      assert k + 1 == |frame| ==> frame[4..k + 1] == x;
    } else {
      assert frame[..k] + [frame[k]] == frame[..k + 1];
      assert k == 3 ==> frame[4..4] == [] && (x == [] <==> |frame| == 4);
    }
  }

  /** How far the reader is into the first frame of `flight`. */
  predicate ReaderAt(reader: Partial, flight: seq<Content>, k: nat) {
    if flight == [] then k == 0 && reader == EMPTY
    else k < |Encode(BRIDGE_MAGIC, flight[0])| && reader == Amid(flight[0], k)
  }

  /** All that arrived in earlier sessions. */
  function Arrivals(past: seq<Session>): seq<Content> {
    if past == [] then [] else Arrivals(past[..|past| - 1]) + past[|past| - 1].arrived
  }

  predicate Prefixes(past: seq<Session>) {
    forall i :: 0 <= i < |past| ==> past[i].arrived <= past[i].accepted
  }

  /** Everything accepted in this session has, in order, arrived, is in hand, in flight, or still queued; the
      bytes not yet read are the rest of the frames in flight; and all that ever arrived was delivered or
      waits for the UART. */
  predicate Inv(s: Pipe, flight: seq<Content>, k: nat) {
    && !s.failed
    && s.now.accepted == s.now.arrived + InHand(s.pushing) + flight + Contents(s.upload)
    && (s.pushing.Some? ==> s.pushing.value.kind == DATA_KIND)
    && ReaderAt(s.reader, flight, k) && k <= |Framed(flight)|
    && s.wire + s.sending == Framed(flight)[k..] && |s.wire| <= s.window
    && Prefixes(s.past)
    && s.delivered + DataOf(s.download) == Arrivals(s.past) + s.now.arrived
  }

  lemma {:induction false} FramedAppend(contents: seq<Content>, x: Content)
    ensures Framed(contents + [x]) == Framed(contents) + Encode(BRIDGE_MAGIC, x)
  {
    if contents == [] {
      assert contents + [x] == [x];
    } else {
      assert (contents + [x])[1..] == contents[1..] + [x];
      FramedAppend(contents[1..], x);
    }
  }

  lemma StepTake(s: Pipe, flight: seq<Content>, k: nat) returns (flight': seq<Content>)
    requires Inv(s, flight, k) && Possible(s, TakeUpload) && ValidPartial(BRIDGE, s.reader)
    ensures Inv(Next(s, TakeUpload), flight', k)
    ensures flight' == flight + [s.upload[0].payload]
  {
    var x := s.upload[0].payload;
    flight' := flight + [x];
    TakenOnWire(s.wire, flight, k, x);
    TakenFromUpload(s.now.arrived + InHand(s.pushing), flight, s.upload);
  }

  lemma TakenOnWire(wire: seq<byte>, flight: seq<Content>, k: nat, x: Content)
    requires k <= |Framed(flight)| && wire + [] == Framed(flight)[k..]
    ensures k <= |Framed(flight + [x])| && wire + Encode(BRIDGE_MAGIC, x) == Framed(flight + [x])[k..]
  {
    FramedAppend(flight, x);
    assert Framed(flight + [x])[k..] == Framed(flight)[k..] + Encode(BRIDGE_MAGIC, x);
  }

  lemma TakenFromUpload(front: seq<Content>, flight: seq<Content>, upload: seq<Packet>)
    requires upload != []
    ensures front + flight + Contents(upload) == front + (flight + [upload[0].payload]) + Contents(upload[1..])
  {
    assert Contents(upload) == [upload[0].payload] + Contents(upload[1..]);
  }

  /** The next byte on the wire is the next byte of the frame that the reader is in. */
  lemma NextByte(s: Pipe, flight: seq<Content>, k: nat)
    requires Inv(s, flight, k) && s.wire != []
    ensures flight != [] && s.wire[0] == Encode(BRIDGE_MAGIC, flight[0])[k]
    ensures s.wire[1..] + s.sending == Framed(flight)[k + 1..]
    ensures k + 1 == |Encode(BRIDGE_MAGIC, flight[0])| ==> Framed(flight)[k + 1..] == Framed(flight[1..])
  {
    var frame := Encode(BRIDGE_MAGIC, flight[0]);
    assert Framed(flight) == frame + Framed(flight[1..]);
    assert s.wire[0] == (s.wire + s.sending)[0] == Framed(flight)[k];
    assert s.wire[1..] + s.sending == (s.wire + s.sending)[1..] == Framed(flight)[k..][1..] == Framed(flight)[k + 1..];
  }

  lemma StepRead(s: Pipe, flight: seq<Content>, k: nat) returns (flight': seq<Content>, k': nat)
    requires Inv(s, flight, k) && Possible(s, ReadByte) && ValidPartial(BRIDGE, s.reader)
    ensures Inv(Next(s, ReadByte), flight', k')
    ensures if Next(s, ReadByte).pushing == None then flight' == flight else |flight'| == |flight| - 1
  {
    NextByte(s, flight, k);
    FeedInFrame(flight[0], k);
    if k + 1 == |Encode(BRIDGE_MAGIC, flight[0])| {
      flight', k' := flight[1..], 0;
      FrameOut(s, flight);
      assert Framed(flight')[0..] == Framed(flight');
    } else {
      flight', k' := flight, k + 1;
    }
  }

  /** A frame that is complete moves from flight into the receiver's hand. */
  lemma FrameOut(s: Pipe, flight: seq<Content>)
    requires flight != [] && s.pushing == None
    requires s.now.accepted == s.now.arrived + InHand(s.pushing) + flight + Contents(s.upload)
    ensures s.now.accepted == s.now.arrived + InHand(Some(RawPacket(DATA_KIND, flight[0]))) + flight[1..] + Contents(s.upload)
  {
    var front := s.now.arrived;
    assert flight == [flight[0]] + flight[1..];
    assert front + [] + flight == front + [flight[0]] + flight[1..];
  }

  lemma {:induction false} DataOfConcat(a: seq<Packet>, b: seq<Packet>)
    ensures DataOf(a + b) == DataOf(a) + DataOf(b)
  {
    if a == [] {
      assert a + b == b;
    } else {
      assert (a + b)[1..] == a[1..] + b;
      DataOfConcat(a[1..], b);
    }
  }

  lemma StepUpload(s: Pipe, step: Step, flight: seq<Content>, k: nat)
    requires Inv(s, flight, k) && Possible(s, step) && ValidPartial(BRIDGE, s.reader)
    requires step.Admit? || step.Write?
    ensures Inv(Next(s, step), flight, k)
  {
    var s' := Next(s, step);
    match step {
      case Admit(p) => assert Contents(s'.upload) == Contents(s.upload) + [p.payload];
      case Write(n) => assert s'.wire + s'.sending == s.wire + s.sending;
    }
  }

  lemma PushedDownload(delivered: seq<Content>, download: seq<Packet>, p: Packet, earlier: seq<Content>, arrived: seq<Content>)
    requires delivered + DataOf(download) == earlier + arrived && p.kind == DATA_KIND
    ensures delivered + DataOf(download + [p]) == earlier + (arrived + [p.payload])
  {
    DataOfConcat(download, [p]);
    assert DataOf([p]) == [p.payload];
    Regrouped(delivered, DataOf(download), [p.payload]);
    Regrouped(earlier, arrived, [p.payload]);
  }

  lemma StepPush(s: Pipe, flight: seq<Content>, k: nat)
    requires Inv(s, flight, k) && Possible(s, PushDownload) && ValidPartial(BRIDGE, s.reader)
    ensures Inv(Next(s, PushDownload), flight, k)
  {
    PushedDownload(s.delivered, s.download, s.pushing.value, Arrivals(s.past), s.now.arrived);
    PushedInHand(s.now.arrived, s.pushing.value);
  }

  lemma PushedInHand(arrived: seq<Content>, p: Packet)
    ensures (arrived + [p.payload]) + InHand(None) == arrived + InHand(Some(p))
  {
  }

  lemma StepReply(s: Pipe, p: Packet, flight: seq<Content>, k: nat)
    requires Inv(s, flight, k) && Possible(s, LocalReply(p)) && ValidPartial(BRIDGE, s.reader)
    ensures Inv(Next(s, LocalReply(p)), flight, k)
  {
    DataOfConcat(s.download, [p]);
    assert DataOf([p]) == [];
    assert DataOf(s.download) + [] == DataOf(s.download);
  }

  lemma StepDeliver(s: Pipe, flight: seq<Content>, k: nat)
    requires Inv(s, flight, k) && Possible(s, Deliver) && ValidPartial(BRIDGE, s.reader)
    ensures Inv(Next(s, Deliver), flight, k)
  {
    DeliveredOne(s.delivered, s.download);
  }

  lemma DeliveredOne(delivered: seq<Content>, download: seq<Packet>)
    requires download != []
    ensures delivered + DataOf([download[0]]) + DataOf(download[1..]) == delivered + DataOf(download)
  {
    DataOfConcat([download[0]], download[1..]);
    assert download == [download[0]] + download[1..];
    Regrouped(delivered, DataOf([download[0]]), DataOf(download[1..]));
  }

  lemma Regrouped(x: seq<Content>, y: seq<Content>, z: seq<Content>)
    ensures (x + y) + z == x + (y + z)
  {
  }

  /** A session that ends has brought a prefix of what it accepted; the next one starts empty. */
  lemma StepReconnect(s: Pipe, flight: seq<Content>, k: nat)
    requires Inv(s, flight, k) && ValidPartial(BRIDGE, s.reader)
    ensures Inv(Next(s, Reconnect), [], 0)
  {
    ArrivedIsPrefix(s, flight, k);
    PastGrows(s.past, s.now);
    NewSessionInv(Next(s, Reconnect));
  }

  lemma PastGrows(past: seq<Session>, last: Session)
    ensures Arrivals(past + [last]) == Arrivals(past) + last.arrived
    ensures Prefixes(past) && last.arrived <= last.accepted ==> Prefixes(past + [last])
  {
    assert (past + [last])[..|past|] == past;
  }

  lemma NewSessionInv(s: Pipe)
    requires !s.failed && s.upload == [] && s.sending == [] && s.wire == [] && s.reader == EMPTY && s.pushing == None
    requires s.now == Session([], []) && Prefixes(s.past) && s.delivered + DataOf(s.download) == Arrivals(s.past)
    ensures Inv(s, [], 0)
  {
    assert Contents(s.upload) == [] && InHand(s.pushing) == [];
    assert s.now.accepted == s.now.arrived + InHand(s.pushing) + [] + Contents(s.upload);
    assert Arrivals(s.past) + [] == Arrivals(s.past);
  }

  lemma ArrivedIsPrefix(s: Pipe, flight: seq<Content>, k: nat)
    requires Inv(s, flight, k)
    ensures s.now.arrived <= s.now.accepted
  {
    assert s.now.accepted == s.now.arrived + (InHand(s.pushing) + flight + Contents(s.upload));
  }

  lemma StepKeeps(s: Pipe, step: Step, flight: seq<Content>, k: nat) returns (flight': seq<Content>, k': nat)
    requires Inv(s, flight, k) && ValidPartial(BRIDGE, s.reader)
    ensures Inv(Next(s, step), flight', k')
  {
    flight', k' := flight, k;
    if Possible(s, step) {
      match step {
        case TakeUpload => flight' := StepTake(s, flight, k);
        case ReadByte => flight', k' := StepRead(s, flight, k);
        case Reconnect =>
          StepReconnect(s, flight, k);
          flight', k' := [], 0;
        case Admit(_) => StepUpload(s, step, flight, k);
        case Write(_) => StepUpload(s, step, flight, k);
        case PushDownload => StepPush(s, flight, k);
        case LocalReply(p) => StepReply(s, p, flight, k);
        case Deliver => StepDeliver(s, flight, k);
      }
    }
  }

  lemma {:induction false} Invariant(window: Window, steps: seq<Step>) returns (flight: seq<Content>, k: nat)
    ensures Inv(Run(window, steps), flight, k)
  {
    if steps == [] {
      flight, k := [], 0;
      NewSessionInv(Initial(window));
    } else {
      flight, k := Invariant(window, steps[..|steps| - 1]);
      flight, k := StepKeeps(Run(window, steps[..|steps| - 1]), steps[|steps| - 1], flight, k);
    }
  }

  /** With nothing left to read or write, no frame is in flight. */
  lemma NothingInFlight(s: Pipe, flight: seq<Content>, k: nat)
    requires Inv(s, flight, k) && s.sending == [] && s.wire == []
    ensures flight == []
  {
    assert |s.wire + s.sending| == |Framed(flight)| - k;
  }

  /** Nothing on the way from one UART to the other. */
  predicate Idle(s: Pipe) {
    s.upload == [] && s.sending == [] && s.wire == [] && s.pushing == None && s.download == []
  }

  /** In every run the receiver never fails, and what the far UART gets is, session after session, a
      byte-exact prefix of what was accepted in that session, with replies to local commands in between and
      nothing else; and once nothing is on the way, all of the present session. */
  lemma SessionsDeliverPrefixes(window: Window, steps: seq<Step>)
    ensures !Run(window, steps).failed && DeliversPrefixes(Run(window, steps))
  {
    var flight, k := Invariant(window, steps);
    InvImpliesPrefix(Run(window, steps), flight, k);
  }

  predicate DeliversPrefixes(s: Pipe) {
    && Prefixes(s.past) && s.now.arrived <= s.now.accepted
    && s.delivered <= Arrivals(s.past) + s.now.arrived
    && (Idle(s) ==> s.delivered == Arrivals(s.past) + s.now.accepted)
  }

  lemma InvImpliesPrefix(s: Pipe, flight: seq<Content>, k: nat)
    requires Inv(s, flight, k)
    ensures DeliversPrefixes(s)
  {
    ArrivedIsPrefix(s, flight, k);
    if Idle(s) {
      NothingInFlight(s, flight, k);
      assert s.now.accepted == s.now.arrived + [] + [] + [];
    }
  }

  predicate OneSession(steps: seq<Step>) {
    forall i :: 0 <= i < |steps| ==> !steps[i].Reconnect?
  }

  lemma {:induction false} NoPast(window: Window, steps: seq<Step>)
    requires OneSession(steps)
    ensures Run(window, steps).past == []
  {
    if steps != [] {
      NoPast(window, steps[..|steps| - 1]);
    }
  }

  /** Within one session, what is delivered is a byte-exact prefix of what was accepted. */
  lemma DeliveredIsPrefixOfAccepted(window: Window, steps: seq<Step>)
    requires OneSession(steps)
    ensures var s := Run(window, steps);
            !s.failed && s.delivered <= s.now.accepted && (Idle(s) ==> s.delivered == s.now.accepted)
  {
    NoPast(window, steps);
    SessionsDeliverPrefixes(window, steps);
    assert [] + Run(window, steps).now.arrived == Run(window, steps).now.arrived;
    assert [] + Run(window, steps).now.accepted == Run(window, steps).now.accepted;
  }

  // Going on from any state

  function RunOn(s: Pipe, steps: seq<Step>): (r: Pipe)
    requires ValidPartial(BRIDGE, s.reader)
    ensures ValidPartial(BRIDGE, r.reader)
    decreases |steps|
  {
    if steps == [] then s else RunOn(Next(s, steps[0]), steps[1..])
  }

  lemma {:induction false} RunOnAppend(s: Pipe, steps: seq<Step>, step: Step)
    requires ValidPartial(BRIDGE, s.reader)
    ensures RunOn(s, steps + [step]) == Next(RunOn(s, steps), step)
    decreases |steps|
  {
    if steps == [] {
      assert [] + [step] == [step];
    } else {
      assert (steps + [step])[1..] == steps[1..] + [step];
      RunOnAppend(Next(s, steps[0]), steps[1..], step);
    }
  }
}
