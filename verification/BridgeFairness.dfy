/** What competes with a frame on its way through the bridge of BridgeSelect: frames accepted after it cannot hold it up,
    and local replies at the far end can. */
module BridgeFairness {
  import opened Bytes
  import opened Wrappers
  import opened PacketFifo
  import opened FrameDecoder
  import opened BridgePipe
  import opened BridgeProgress
  import opened BridgeSelect

  // Later frames

  predicate NothingToSend(q: Pipe) {
    q.upload == [] && q.sending == []
  }

  predicate NothingToPush(q: Pipe) {
    NothingToSend(q) && q.wire == [] && q.pushing == None
  }

  /** The pipe p is like q, with further frames behind those of q, at every stage. */
  predicate Behind(q: Pipe, p: Pipe) {
    && q.window == p.window && q.upload <= p.upload
    && (if NothingToSend(q) then q.wire <= p.wire else p.sending == q.sending && p.wire == q.wire)
    && (if NothingToPush(q) then q.download <= p.download
        else p.reader == q.reader && p.pushing == q.pushing && p.download == q.download)
    && (if NothingToPush(q) && q.download == [] then q.delivered <= p.delivered else p.delivered == q.delivered)
  }

  /** The two halves of a poll of the send future. */
  function Taken(p: Live): Live {
    if p.sending == [] && p.upload != [] then Next(p, TakeUpload) else p
  }

  function Written(p: Live): Live {
    var n := if |p.sending| < Room(p) then |p.sending| else Room(p);
    if n > 0 then Next(p, Write(n)) else p
  }

  lemma TakeBehind(q: Live, p: Live)
    requires Behind(q, p)
    ensures Behind(Taken(q), Taken(p))
  {
  }

  lemma WriteBehind(q: Live, p: Live)
    requires Behind(q, p)
    ensures Behind(Written(q), Written(p))
  {
    if NothingToSend(q) {
      assert Written(q) == q && p.wire <= Written(p).wire;
    }
  }

  lemma SendBehind(q: Live, p: Live)
    requires Behind(q, p)
    ensures Behind(PollSend(q), PollSend(p))
  {
    TakeBehind(q, p);
    WriteBehind(Taken(q), Taken(p));
  }

  lemma {:induction false} ReadKeeps(p: Live)
    ensures var r := ReadUp(p);
            && r.window == p.window && r.upload == p.upload && r.sending == p.sending
            && r.download == p.download && r.delivered == p.delivered
    decreases |p.wire|
  {
    if p.wire != [] && p.pushing == None {
      ReadKeeps(Next(p, ReadByte));
    }
  }

  /** Alike from the reader on, and with further frames behind before it. */
  predicate AlikeFromReader(q: Pipe, p: Pipe) {
    && q.window == p.window && q.upload <= p.upload
    && (if NothingToSend(q) then q.wire <= p.wire else p.sending == q.sending && p.wire == q.wire)
    && p.reader == q.reader && p.pushing == q.pushing && p.download == q.download && p.delivered == q.delivered
  }

  lemma AlikeIsBehind(q: Pipe, p: Pipe)
    requires AlikeFromReader(q, p)
    ensures Behind(q, p)
  {
  }

  lemma ReceivedAlike(q: Pipe, p: Pipe, r: (Partial, seq<Output>))
    requires AlikeFromReader(q, p)
    ensures AlikeFromReader(Received(q, r), Received(p, r))
  {
  }

  lemma ByteBehind(q: Live, p: Live)
    requires Behind(q, p) && !NothingToPush(q) && q.pushing == None && q.wire != []
    ensures Behind(Next(q, ReadByte), Next(p, ReadByte)) && p.pushing == None && p.wire != []
  {
    var r := Feed(BRIDGE, q.reader, Byte(q.wire[0]));
    assert q.wire <= p.wire && q.wire[1..] <= p.wire[1..];
    ReceivedAlike(q.(wire := q.wire[1..]), p.(wire := p.wire[1..]), r);
    AlikeIsBehind(Received(q.(wire := q.wire[1..]), r), Received(p.(wire := p.wire[1..]), r));
  }

  lemma NoByteBehind(q: Live, p: Live)
    requires Behind(q, p) && (NothingToPush(q) || q.pushing.Some? || q.wire == [])
    ensures Behind(q, ReadUp(p)) && ReadUp(q) == q
  {
    ReadKeeps(p);
  }

  lemma {:induction false} ReadBehind(q: Live, p: Live)
    requires Behind(q, p)
    ensures Behind(ReadUp(q), ReadUp(p))
    decreases |q.wire|
  {
    if NothingToPush(q) || q.pushing.Some? || q.wire == [] {
      NoByteBehind(q, p);
    } else {
      ByteBehind(q, p);
      ReadBehind(Next(q, ReadByte), Next(p, ReadByte));
    }
  }

  lemma ReceiveBehind(q: Live, p: Live)
    requires Behind(q, p)
    ensures Behind(PollReceive(q), PollReceive(p))
  {
    ReadBehind(q, p);
    PushBehind(ReadUp(q), ReadUp(p));
  }

  lemma PushBehind(q: Live, p: Live)
    requires Behind(q, p)
    ensures Behind(Next(q, PushDownload), Next(p, PushDownload))
  {
  }

  lemma DeliverBehind(q: Live, p: Live)
    requires Behind(q, p)
    ensures Behind(Next(q, Deliver), Next(p, Deliver))
  {
  }

  /** Anything but local replies at B and the end of the session: A's UART may offer frames. */
  predicate OpenUp(e: Event) {
    !e.ReplyB? && !e.NewSession?
  }

  /** The same event without the frame: A transmits instead, which is nothing to `up`. */
  function Stilled(e: Event): Event {
    if e.AdmitA? then TransmitA else e
  }

  lemma StepBehind(q: Live, p: Live, e: Event)
    requires Behind(q, p) && OpenUp(e)
    ensures Behind(NextUp(q, Stilled(e)), NextUp(p, e))
  {
    match e {
      case PollA => SendBehind(q, p);
      case PollB => ReceiveBehind(q, p);
      case TransmitB => DeliverBehind(q, p);
      case _ =>
    }
  }

  function AllStilled(events: seq<Event>): (r: seq<Event>)
    ensures |r| == |events|
  {
    seq(|events|, i requires 0 <= i < |events| => Stilled(events[i]))
  }

  predicate AllOpen(events: seq<Event>) {
    forall i :: 0 <= i < |events| ==> OpenUp(events[i])
  }

  lemma {:induction false} RunBehind(q: Live, p: Live, events: seq<Event>)
    requires Behind(q, p) && AllOpen(events)
    ensures Behind(RunUp(q, AllStilled(events)), RunUp(p, events))
    decreases |events|
  {
    if events != [] {
      StepBehind(q, p, events[0]);
      assert AllStilled(events)[1..] == AllStilled(events[1..]);
      RunBehind(NextUp(q, Stilled(events[0])), NextUp(p, events[0]), events[1..]);
    }
  }

  /** A stretch in which both tasks are polled and B's UART transmits, in any order, among anything else, new frames
      from A's UART included. */
  predicate OpenRound(events: seq<Event>) {
    AllOpen(events) && PollA in events && PollB in events && TransmitB in events
  }

  lemma StilledRound(events: seq<Event>)
    requires OpenRound(events)
    ensures Round(AllStilled(events))
  {
    var i, j, k :| 0 <= i < |events| && 0 <= j < |events| && 0 <= k < |events|
                   && events[i] == PollA && events[j] == PollB && events[k] == TransmitB;
    var r := AllStilled(events);
    assert r[i] == PollA && r[j] == PollB && r[k] == TransmitB;
  }

  function StilledRounds(rounds: seq<seq<Event>>): (r: seq<seq<Event>>)
    ensures |r| == |rounds|
  {
    seq(|rounds|, i requires 0 <= i < |rounds| => AllStilled(rounds[i]))
  }

  lemma {:induction false} FlattenedStilled(rounds: seq<seq<Event>>)
    requires forall i :: 0 <= i < |rounds| ==> OpenRound(rounds[i])
    ensures Flattened(StilledRounds(rounds)) == AllStilled(Flattened(rounds)) && AllOpen(Flattened(rounds))
  {
    if rounds != [] {
      assert StilledRounds(rounds)[1..] == StilledRounds(rounds[1..]);
      FlattenedStilled(rounds[1..]);
      assert OpenRound(rounds[0]);
      StilledConcat(rounds[0], Flattened(rounds[1..]));
    }
  }

  lemma StilledConcat(a: seq<Event>, b: seq<Event>)
    requires AllOpen(a) && AllOpen(b)
    ensures AllStilled(a + b) == AllStilled(a) + AllStilled(b) && AllOpen(a + b)
  {
  }

  lemma BehindItself(p: Pipe)
    ensures Behind(p, p)
  {
  }

  /** From every reachable state, everything that the direction from A to B has accepted by then arrives within a number
      of rounds that depends on that state alone, while A's UART goes on offering frames at any rate and anything at
      all happens in the other direction. */
  lemma UploadNeverOvertaken(window: Window, events: seq<Event>, rounds: seq<seq<Event>>)
    requires |rounds| >= Work(RunDuplex(window, events).up)
    requires forall i :: 0 <= i < |rounds| ==> OpenRound(rounds[i])
    ensures var d := RunDuplex(window, events);
            Arrivals(d.up.past) + d.up.now.accepted <= RunDuplexOn(d, Flattened(rounds)).up.delivered
  {
    var d, still := RunDuplex(window, events), StilledRounds(rounds);
    forall i | 0 <= i < |still|
      ensures Round(still[i])
    {
      StilledRound(rounds[i]);
    }
    UploadNeverHeldUp(window, events, still);
    UpOfDuplex(d, Flattened(still));
    UpOfDuplex(d, Flattened(rounds));
    FlattenedStilled(rounds);
    BehindItself(d.up);
    RunBehind(d.up, d.up, Flattened(rounds));
    AheadDelivers(RunUp(d.up, Flattened(still)), RunUp(d.up, Flattened(rounds)));
  }

  lemma AheadDelivers(q: Pipe, p: Pipe)
    requires Behind(q, p)
    ensures q.delivered <= p.delivered
  {
  }

  /** The same for the direction from B to A. */
  lemma DownloadNeverOvertaken(window: Window, events: seq<Event>, rounds: seq<seq<Event>>)
    requires |rounds| >= Work(RunDuplex(window, events).down)
    requires forall i :: 0 <= i < |rounds| ==> OpenRound(Mirrored(rounds[i]))
    ensures var d := RunDuplex(window, events);
            Arrivals(d.down.past) + d.down.now.accepted <= RunDuplexOn(d, Flattened(rounds)).down.delivered
  {
    TurnedRun(window, events);
    UploadNeverOvertaken(window, Mirrored(events), AllMirrored(rounds));
    FlattenedMirrored(rounds);
    TurnedRunOn(RunDuplex(window, events), Flattened(rounds));
  }

  // Local replies

  /** A short reply, 128 of which fill the mailbox in number but not in bytes. */
  type ShortReply = p: Packet | p.kind == REPLY_KIND && |p.payload| < 128 witness RawPacket(REPLY_KIND, [])

  function Copies(r: ShortReply, n: nat): (q: seq<Packet>)
    ensures |q| == n
  {
    seq(n, _ => r)
  }

  lemma {:induction false} CopiesTotal(r: ShortReply, n: nat)
    ensures Total(Copies(r, n)) <= 128 * n && DataOf(Copies(r, n)) == []
  {
    if n > 0 {
      assert Copies(r, n)[1..] == Copies(r, n - 1);
      CopiesTotal(r, n - 1);
    }
  }

  /** B's mailbox is full of replies, and the frame in hand waits for room in it. */
  predicate Starving(p: Pipe, r: ShortReply, x: Content) {
    && p.download == Copies(r, MAILBOX.slots) && p.pushing == Some(RawPacket(DATA_KIND, x))
    && p.upload == [] && p.sending == [] && p.now == Session([x], []) && p.delivered == []
  }

  /** B's UART transmits, and brings a command, which is answered; both tasks are polled. */
  function UnfairRound(r: ShortReply): seq<Event> {
    [TransmitB, ReplyB(r), PollA, PollB]
  }

  lemma Refilled(p: Live, r: ShortReply)
    requires p.download == Copies(r, MAILBOX.slots)
    ensures Next(Next(p, Deliver), LocalReply(r)) == p
  {
    var one := Next(p, Deliver);
    assert one.download == Copies(r, MAILBOX.slots - 1);
    CopiesTotal(r, MAILBOX.slots - 1);
    assert DataOf([p.download[0]]) == [] && p.delivered + [] == p.delivered;
    assert one.download + [r] == p.download;
  }

  lemma RoundStarves(p: Live, r: ShortReply, x: Content)
    requires Starving(p, r, x)
    ensures RunUp(p, UnfairRound(r)) == p
  {
    Refilled(p, r);
    assert PollSend(p) == p && PollReceive(p) == p;
    var a, b, c, d := TransmitB, ReplyB(r), PollA, PollB;
    assert UnfairRound(r)[1..] == [b, c, d] && [b, c, d][1..] == [c, d] && [c, d][1..] == [d] && [d][1..] == [];
    assert RunUp(p, [d]) == p && RunUp(p, [c, d]) == p;
  }

  function UnfairRounds(r: ShortReply, n: nat): (rounds: seq<seq<Event>>)
    ensures |rounds| == n
  {
    seq(n, _ => UnfairRound(r))
  }

  lemma {:induction false} StarvesOn(p: Live, r: ShortReply, x: Content, n: nat)
    requires Starving(p, r, x)
    ensures RunUp(p, Flattened(UnfairRounds(r, n))) == p
  {
    if n > 0 {
      assert UnfairRounds(r, n)[1..] == UnfairRounds(r, n - 1);
      RunUpConcat(p, UnfairRound(r), Flattened(UnfairRounds(r, n - 1)));
      RoundStarves(p, r, x);
      StarvesOn(p, r, x, n - 1);
    }
  }

  /** How it comes to that: 128 commands at B, then a frame from A. */
  function Commands(r: ShortReply, n: nat): (events: seq<Event>)
    ensures |events| == n
  {
    seq(n, _ => ReplyB(r))
  }

  lemma {:induction false} CommandsFill(p: Live, r: ShortReply, n: nat, m: nat)
    requires p.download == Copies(r, n) && n + m <= MAILBOX.slots
    ensures RunUp(p, Commands(r, m)) == p.(download := Copies(r, n + m))
    decreases m
  {
    if m > 0 {
      CopiesTotal(r, n);
      assert Copies(r, n) + [r] == Copies(r, n + 1);
      assert Commands(r, m)[1..] == Commands(r, m - 1);
      CommandsFill(Next(p, LocalReply(r)), r, n + 1, m - 1);
    }
  }

  lemma {:induction false} ReadsFrame(p: Live, x: Content, k: nat)
    requires k < |Encode(BRIDGE_MAGIC, x)|
    requires p.reader == Amid(x, k) && p.wire == Encode(BRIDGE_MAGIC, x)[k..] && p.pushing == None
    ensures ReadUp(p) == p.(wire := [], reader := EMPTY, pushing := Some(RawPacket(DATA_KIND, x)))
    decreases |p.wire|
  {
    FeedInFrame(x, k);
    var next := Next(p, ReadByte);
    if k + 1 < |Encode(BRIDGE_MAGIC, x)| {
      ReadsFrame(next, x, k + 1);
    } else {
      assert next.wire == [];
    }
  }

  lemma FrameSent(p: Live, x: Content)
    requires p == Initial(p.window).(download := p.download) && |Encode(BRIDGE_MAGIC, x)| <= p.window
    ensures PollSend(Next(p, Admit(RawPacket(DATA_KIND, x)))) == p.(now := Session([x], []), wire := Encode(BRIDGE_MAGIC, x))
  {
    var packet: Packet := RawPacket(DATA_KIND, x);
    var frame := Encode(BRIDGE_MAGIC, x);
    assert [] + [packet] == [packet] && [] + [x] == [x];
    assert frame[..|frame|] == frame && [] + frame == frame;
  }

  lemma FrameArrives(p: Live, r: ShortReply, x: Content)
    requires p == Initial(p.window).(download := Copies(r, MAILBOX.slots)) && |Encode(BRIDGE_MAGIC, x)| <= p.window
    ensures Starving(RunUp(p, [AdmitA(RawPacket(DATA_KIND, x)), PollA, PollB]), r, x)
  {
    var packet: Packet := RawPacket(DATA_KIND, x);
    FrameSent(p, x);
    var sent := PollSend(Next(p, Admit(packet)));
    assert Encode(BRIDGE_MAGIC, x)[0..] == Encode(BRIDGE_MAGIC, x);
    ReadsFrame(sent, x, 0);
    ThreeEvents(p, AdmitA(packet), PollA, PollB);
  }

  lemma ThreeEvents(p: Live, a: Event, b: Event, c: Event)
    ensures RunUp(p, [a, b, c]) == NextUp(NextUp(NextUp(p, a), b), c)
  {
    assert [a, b, c][1..] == [b, c] && [b, c][1..] == [c] && [c][1..] == [];
    assert RunUp(NextUp(NextUp(p, a), b), [c]) == NextUp(NextUp(NextUp(p, a), b), c);
  }

  lemma RunUpAppend(p: Live, events: seq<Event>, e: Event)
    ensures RunUp(p, events + [e]) == NextUp(RunUp(p, events), e)
  {
    RunUpConcat(p, events, [e]);
    assert [e][1..] == [];
  }

  lemma UpOfLast(window: Window, events: seq<Event>, e: Event)
    ensures RunDuplex(window, events + [e]).up == NextUp(RunDuplex(window, events).up, e)
  {
    assert (events + [e])[..|events|] == events;
  }

  lemma {:induction false} UpOfRun(window: Window, events: seq<Event>)
    ensures RunDuplex(window, events).up == RunUp(Initial(window), events)
  {
    if events == [] {
    } else {
      var before, e := events[..|events| - 1], events[|events| - 1];
      assert before + [e] == events;
      UpOfRun(window, before);
      UpOfLast(window, before, e);
      RunUpAppend(Initial(window), before, e);
    }
  }

  /** With local replies it is different: commands at B, one for each packet that B's UART transmits, keep a frame that
      is already there out of the mailbox for ever, though both tasks are polled and the UART transmits all the time. */
  lemma RepliesCanStarve(window: Window, r: ShortReply, x: Content, n: nat)
    requires |Encode(BRIDGE_MAGIC, x)| <= window
    ensures var before := Commands(r, 128) + [AdmitA(RawPacket(DATA_KIND, x)), PollA, PollB];
            var p := RunDuplex(window, before + Flattened(UnfairRounds(r, n))).up;
            p.now.accepted == [x] && p.now.arrived == [] && p.delivered == []
  {
    var frame := [AdmitA(RawPacket(DATA_KIND, x)), PollA, PollB];
    var before, p0: Live := Commands(r, 128) + frame, Initial(window);
    assert Copies(r, 0) == [];
    CommandsFill(p0, r, 0, 128);
    RunUpConcat(p0, Commands(r, 128), frame);
    FrameArrives(RunUp(p0, Commands(r, 128)), r, x);
    StarvesOn(RunUp(p0, before), r, x, n);
    RunUpConcat(p0, before, Flattened(UnfairRounds(r, n)));
    UpOfRun(window, before + Flattened(UnfairRounds(r, n)));
  }
}
