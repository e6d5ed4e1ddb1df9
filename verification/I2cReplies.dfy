/** The way back of I2C version 1, over whole runs: replies wait in the mailbox, the firmware serves one slot for
    each read by the bus master and answers some of its writes itself (src/bridge/i2c_task.rs), and the Rust host
    reads frame after frame (host/i2c_backend.rs). Reads can fail: the firmware has spent the slot then. */
module I2cReplies {
  import opened Bytes
  import opened Wrappers
  import opened I2cSlots
  import opened I2cTransfer
  import opened I2cRequests
  import R = I2cReassembly
  import F = PacketFifo
  import Q = OverwriteQueue

  // One read, on the real objects

  /** What a bridge packet of any kind is staged as. */
  function Staged(kind: byte, id: u16, payload: Bulk): Sending {
    match Reply(kind, payload)
    case Some(frame) => Sending(kind, id, frame, 0)
    case None => Sending(KIND_ERROR, id, INVALID_SLOT_MSG, 0)
  }

  /** One read by the bus master: the next packet is staged if none is under way, and a slot is given out. Whether it
      reaches the master is not looked at. */
  method ServeRead(tx: TxPacketState, replies: Q.OverwriteQueue, id: u16) returns (raw: seq<byte>)
    requires tx.Valid() && replies.Valid() && tx.payload != replies.state.bytes
    modifies tx, tx.payload, replies, replies.state
    ensures tx.Valid() && replies.Valid()
    ensures var q, t := old(replies.Contents()), old(tx.State());
            var staging := t == NothingStaged && q != [];
            var t' := if staging then Staged(q[0].kind, id, q[0].payload) else t;
            && replies.Contents() == (if staging then q[1..] else q)
            && raw == SlotNow(t') && tx.State() == AfterSlot(t')
  {
    if !tx.active {
      var item := replies.TryPop();
      match item {
        case Some(p) => StageBridgePacket(tx, id, p.kind, p.payload);
        case None =>
          tx.transferId := id;
          tx.Reset();
      }
    }
    raw := tx.NextSlotBytes();
  }

  // Whole runs

  /** A reply that fits its envelope. */
  predicate SoundReply(p: F.RawPacket) {
    && (p.kind == KIND_DATA || p.kind == KIND_COMMAND || p.kind == KIND_ERROR)
    && |p.payload| <= BRIDGE_MAX
  }

  type Answer = p: F.RawPacket | SoundReply(p) witness F.RawPacket(KIND_DATA, [])

  /** What the transmitter can carry: a reply from the mailbox, or a packet of the firmware's own. */
  datatype Item = OfMailbox(p: Answer) | Own(ownKind: byte, ownFrame: Bulk)

  function KindOf(i: Item): byte {
    match i case OfMailbox(p) => p.kind case Own(kind, _) => kind
  }

  function Carried(i: Item): Bulk {
    match i
    case OfMailbox(p) =>
      ReplyParses(p.kind, p.payload);
      Reply(p.kind, p.payload).value
    case Own(_, frame) => frame
  }

  /** What the host should make of it. */
  function Expected(i: Item): Frame {
    match i
    case OfMailbox(p) => Got(if p.kind == KIND_DATA then Data(p.payload) else Command(p.payload))
    case Own(kind, frame) => FrameOf(Complete(kind, frame))
  }

  /** How an item left the transmitter: with the host having put it together, or without. */
  datatype Fate = Completed(item: Item) | Lost(item: Item)

  /** `results` is what the host's reads have returned; `accepted` and `gone` keep the history. */
  datatype Bus = Bus(
    queue: seq<Answer>, tx: Sending, lastId: u16, rx: R.Receiving, host: HostState,
    item: Option<Item>, accepted: seq<Answer>, gone: seq<Fate>, results: seq<Frame>)

  /** `ReadFails` is a read that fails at the host, after the firmware has served it or before. `Write` brings the text
      that a local command would be answered with; `Recover` is a transfer that fails at the firmware. */
  datatype Event = Accept(p: Answer) | Read | ReadFails(served: bool) | Write(w: BusWrite, text: seq<byte>) | Recover

  const QUIET := Bus([], NothingStaged, 1, R.Nothing, HOST_START, None, [], [], [])

  predicate ValidBus(b: Bus) {
    b.tx.Sending? ==> b.tx.next <= |b.tx.payload|
  }

  function Displaced(item: Option<Item>): seq<Fate> {
    match item case Some(i) => [Lost(i)] case None => []
  }

  /** Staging a packet of the firmware's own is not guarded: it overwrites what is under way. */
  function StagedOwn(b: Bus, kind: byte, id: u16, frame: Bulk): (r: Bus)
    ensures ValidBus(r)
  {
    b.(tx := Sending(kind, id, frame, 0), item := Some(Own(kind, frame)), gone := b.gone + Displaced(b.item))
  }

  function AfterWrite(b: Bus, w: BusWrite, text: seq<byte>): (r: Bus)
    requires ValidBus(b)
    ensures ValidBus(r)
  {
    var (rx, id, reaction) := Reacts(b.rx, b.lastId, w, text);
    var b' := b.(rx := rx, lastId := id);
    if reaction.Staging? then StagedOwn(b', reaction.kind, reaction.id, reaction.frame) else b'
  }

  function AfterStaging(b: Bus): (r: Bus)
    requires ValidBus(b)
    ensures ValidBus(r)
  {
    if b.tx == NothingStaged && b.queue != [] then
      b.(queue := b.queue[1..], tx := Staged(b.queue[0].kind, b.lastId, b.queue[0].payload), item := Some(OfMailbox(b.queue[0])))
    else b
  }

  /** The host goes on with its read, or starts the next one. */
  function HostAfter(b: Bus, raw: seq<byte>): (r: Bus)
    requires ValidBus(b)
    ensures ValidBus(r)
  {
    var (host, result) := HostStep(b.host, raw);
    if result == Waiting then b.(host := host) else b.(host := HOST_START, results := b.results + [FrameOf(result)])
  }

  /** A slot is spent, and `raw` of it reaches the host. */
  function SlotSpent(b: Bus, raw: seq<byte>): (r: Bus)
    requires ValidBus(b)
    ensures ValidBus(r)
  {
    var b' := HostAfter(b, raw).(tx := AfterSlot(b.tx));
    if b'.tx == NothingStaged && b.item.Some? then
      var fate := if HostStep(b.host, raw).1.Complete? then Completed(b.item.value) else Lost(b.item.value);
      b'.(item := None, gone := b.gone + [fate])
    else b'
  }

  function SlotRead(b: Bus): (r: Bus)
    requires ValidBus(b)
    ensures ValidBus(r)
  {
    SlotSpent(b, SlotNow(b.tx))
  }

  function Next(b: Bus, e: Event): (r: Bus)
    requires ValidBus(b)
    ensures ValidBus(r)
  {
    match e
    case Accept(p) => b.(queue := b.queue + [p], accepted := b.accepted + [p])
    case Read => SlotRead(AfterStaging(b))
    case ReadFails(served) => if served then SlotSpent(AfterStaging(b), []) else HostAfter(b, [])
    case Write(w, text) => AfterWrite(b, w, text)
    case Recover => StagedOwn(b.(rx := R.Nothing), KIND_ERROR, b.lastId, INVALID_SLOT_MSG)
  }

  function Run(events: seq<Event>): (r: Bus)
    ensures ValidBus(r)
  {
    if events == [] then QUIET else Next(Run(events[..|events| - 1]), events[|events| - 1])
  }

  // Reading the history

  function Reply1(i: Item): seq<Answer> {
    match i case OfMailbox(p) => [p] case Own(_, _) => []
  }

  function UnderWay(b: Bus): seq<Answer> {
    match b.item case Some(i) => Reply1(i) case None => []
  }

  /** The mailbox's replies among the items that left, in order: all of them, and those the host got. */
  function Replies(gone: seq<Fate>): seq<Answer> {
    if gone == [] then [] else Replies(gone[..|gone| - 1]) + Reply1(gone[|gone| - 1].item)
  }

  function Received(gone: seq<Fate>): seq<Answer> {
    if gone == [] then []
    else Received(gone[..|gone| - 1]) + if gone[|gone| - 1].Completed? then Reply1(gone[|gone| - 1].item) else []
  }

  /** What the host should have made of all the items it got. */
  function ExpectedOf(gone: seq<Fate>): seq<Frame> {
    if gone == [] then []
    else ExpectedOf(gone[..|gone| - 1]) + if gone[|gone| - 1].Completed? then [Expected(gone[|gone| - 1].item)] else []
  }

  /** The frames among the results of reads, without the failures. */
  function Frames(results: seq<Frame>): seq<Frame> {
    if results == [] then []
    else Frames(results[..|results| - 1]) + if results[|results| - 1].Got? then [results[|results| - 1]] else []
  }

  lemma FramesAppend(results: seq<Frame>, f: Frame)
    ensures Frames(results + [f]) == Frames(results) + if f.Got? then [f] else []
  {
    assert (results + [f])[..|results|] == results;
  }

  lemma HistoryAppend(gone: seq<Fate>, f: Fate)
    ensures Replies(gone + [f]) == Replies(gone) + Reply1(f.item)
    ensures Received(gone + [f]) == Received(gone) + if f.Completed? then Reply1(f.item) else []
    ensures ExpectedOf(gone + [f]) == ExpectedOf(gone) + if f.Completed? then [Expected(f.item)] else []
  {
    assert (gone + [f])[..|gone|] == gone;
  }

  // The invariant

  predicate SoundItem(i: Item) {
    KindOf(i) != KIND_IDLE && Carried(i) != [] && FrameOf(Complete(KindOf(i), Carried(i))) == Expected(i)
  }

  /** The host has lost track of what is under way: it starts a read in the middle of it. */
  predicate Spoiled(b: Bus) {
    b.tx.Sending? && b.tx.next > 0 && b.host == HOST_START
  }

  /** The transmitter carries the item, and the host has taken in what was given out of it or lost track. */
  predicate Carrying(b: Bus, i: Item) {
    && b.tx.Sending? && b.tx.kind == KindOf(i) && b.tx.payload == Carried(i) && b.tx.next < |b.tx.payload|
    && (HostAt(b.host, b.tx.kind, b.tx.id, b.tx.payload, b.tx.next) || Spoiled(b))
  }

  /** Every accepted reply has left, is under way, or is still queued, in order; and the frames that the host has got
      are those of the items it completed. */
  predicate Inv(b: Bus) {
    && (match b.item case None => b.tx == NothingStaged case Some(i) => SoundItem(i) && Carrying(b, i))
    && b.accepted == Replies(b.gone) + UnderWay(b) + b.queue
    && Frames(b.results) == Frames(ExpectedOf(b.gone))
  }

  /** A reply is staged by the read that takes its first slot. */
  predicate Begun(b: Bus) {
    UnderWay(b) != [] && b.tx.Sending? ==> b.tx.next > 0
  }

  lemma MailboxItemIsSound(p: Answer)
    ensures SoundItem(OfMailbox(p))
  {
    ReplyParses(p.kind, p.payload);
  }

  lemma StagingKeeps(b: Bus)
    requires ValidBus(b) && Inv(b)
    ensures Inv(AfterStaging(b)) && AfterStaging(b).accepted == b.accepted && AfterStaging(b).gone == b.gone
  {
    if b.tx == NothingStaged && b.queue != [] {
      var p := b.queue[0];
      MailboxItemIsSound(p);
      ReplyParses(p.kind, p.payload);
      FromQueue(Replies(b.gone), b.queue);
    }
  }

  lemma FromQueue(left: seq<Answer>, queue: seq<Answer>)
    requires queue != []
    ensures left + [] + queue == left + [queue[0]] + queue[1..]
  {
  }

  lemma OwnKeeps(b: Bus, kind: byte, id: u16, frame: Bulk)
    requires ValidBus(b) && Inv(b) && kind != KIND_IDLE && frame != []
    ensures Inv(StagedOwn(b, kind, id, frame)) && Begun(StagedOwn(b, kind, id, frame))
  {
    if b.item.Some? {
      HistoryAppend(b.gone, Lost(b.item.value));
    }
    assert Replies(b.gone) + UnderWay(b) + [] == Replies(b.gone) + UnderWay(b);
    assert b.gone + [] == b.gone && ExpectedOf(b.gone) + [] == ExpectedOf(b.gone);
  }

  lemma WriteKeeps(b: Bus, w: BusWrite, text: seq<byte>)
    requires ValidBus(b) && Inv(b) && Begun(b)
    ensures Inv(AfterWrite(b, w, text)) && Begun(AfterWrite(b, w, text))
  {
    var (rx, id, reaction) := Reacts(b.rx, b.lastId, w, text);
    StagesIff(b.rx, b.lastId, w, text);
    if reaction.Staging? {
      StagedIsSound(b.rx, b.lastId, w, text);
      OwnKeeps(b.(rx := rx, lastId := id), reaction.kind, reaction.id, reaction.frame);
    }
  }

  /** An idle slot changes nothing. */
  lemma IdleSlotRead(b: Bus)
    requires ValidBus(b) && b.tx == NothingStaged && b.item == None
    ensures SlotRead(b) == b
  {
  }

  /** The last slot of an item completes the host's read, and no other one does. */
  lemma GoodSlot(b: Bus, i: Item)
    requires ValidBus(b) && SoundItem(i) && Carrying(b, i) && b.item == Some(i) && !Spoiled(b)
    ensures var b' := SlotRead(b);
            if AfterSlot(b.tx) == NothingStaged then
              b' == b.(tx := NothingStaged, item := None, host := HOST_START,
                       gone := b.gone + [Completed(i)], results := b.results + [Expected(i)])
            else Carrying(b', i) && !Spoiled(b') && b' == b.(tx := b'.tx, host := b'.host) && b'.tx == AfterSlot(b.tx)
  {
    HostNext(b.host, b.tx.kind, b.tx.id, b.tx.payload, b.tx.next);
  }

  /** A slot that ends the host's read with a failure: nothing is left to save of the item. */
  lemma BadSlot(b: Bus, i: Item, raw: seq<byte>)
    requires ValidBus(b) && SoundItem(i) && Carrying(b, i) && b.item == Some(i) && HostStep(b.host, raw).1 == Invalid
    ensures var b' := SlotSpent(b, raw);
            if AfterSlot(b.tx) == NothingStaged then
              b' == b.(tx := NothingStaged, item := None, host := HOST_START,
                       gone := b.gone + [Lost(i)], results := b.results + [Failed])
            else
              && Carrying(b', i) && Spoiled(b')
              && b' == b.(tx := AfterSlot(b.tx), host := HOST_START, results := b.results + [Failed])
  {
  }

  lemma SpoiledSlot(b: Bus, i: Item)
    requires ValidBus(b) && SoundItem(i) && Carrying(b, i) && Spoiled(b)
    ensures HostStep(b.host, SlotNow(b.tx)).1 == Invalid
  {
    SlotRoundTrip(SlotAt(b.tx.kind, b.tx.id, b.tx.payload, b.tx.next));
  }

  /** What a spent slot does, by what is under way and by whether the host gets anything of it. */
  lemma Spent(b: Bus, raw: seq<byte>)
    requires ValidBus(b) && Inv(b) && (raw == SlotNow(b.tx) || raw == [])
    ensures var b' := SlotSpent(b, raw);
            match b.item
            case None => b' == if raw == [] then b.(host := HOST_START, results := b.results + [Failed]) else b
            case Some(i) =>
              var good := raw != [] && !Spoiled(b);
              && b'.results == b.results + (if !good then [Failed]
                                            else if AfterSlot(b.tx) == NothingStaged then [Expected(i)]
                                            else [])
              && if AfterSlot(b.tx) == NothingStaged then
                   b' == b.(tx := NothingStaged, item := None, host := HOST_START, results := b'.results,
                            gone := b.gone + [if good then Completed(i) else Lost(i)])
                 else
                   && Carrying(b', i) && (Spoiled(b') <==> !good)
                   && b' == b.(tx := AfterSlot(b.tx), host := b'.host, results := b'.results)
  {
    match b.item {
      case None =>
      case Some(i) =>
        if raw == [] {
          BadSlot(b, i, raw);
        } else if Spoiled(b) {
          SpoiledSlot(b, i);
          BadSlot(b, i, raw);
        } else {
          GoodSlot(b, i);
          assert b.results + [] == b.results;
        }
    }
  }

  lemma SlotKeeps(b: Bus, raw: seq<byte>)
    requires ValidBus(b) && Inv(b) && (raw == SlotNow(b.tx) || raw == [])
    ensures Inv(SlotSpent(b, raw)) && Begun(SlotSpent(b, raw))
    ensures SlotSpent(b, raw).queue == b.queue && SlotSpent(b, raw).accepted == b.accepted
  {
    var b' := SlotSpent(b, raw);
    Spent(b, raw);
    FramesAppend(b.results, Failed);
    match b.item {
      case None =>
      case Some(i) =>
        FramesAppend(b.results, Expected(i));
        FramesAppend(ExpectedOf(b.gone), Expected(i));
        HistoryAppend(b.gone, Completed(i));
        HistoryAppend(b.gone, Lost(i));
        Leaves(b, i);
    }
  }

  lemma Leaves(b: Bus, i: Item)
    ensures Replies(b.gone) + Reply1(i) + [] + b.queue == Replies(b.gone) + Reply1(i) + b.queue
    ensures ExpectedOf(b.gone) + [] == ExpectedOf(b.gone) && Frames(b.results) + [] == Frames(b.results)
    ensures b.results + [] == b.results
  {
  }

  /** A read that fails before the firmware has served it. */
  lemma Abandoned(b: Bus)
    requires ValidBus(b)
    ensures HostAfter(b, []) == b.(host := HOST_START, results := b.results + [Failed])
  {
  }

  lemma AbandonKeeps(b: Bus)
    requires ValidBus(b) && Inv(b) && Begun(b)
    ensures Inv(HostAfter(b, [])) && Begun(HostAfter(b, []))
    ensures HostAfter(b, []) == b.(host := HOST_START, results := b.results + [Failed])
  {
    Abandoned(b);
    var b' := b.(host := HOST_START, results := b.results + [Failed]);
    FramesAppend(b.results, Failed);
    assert Frames(b.results) + [] == Frames(b.results);
    assert UnderWay(b') == UnderWay(b);
  }

  lemma NextKeeps(b: Bus, e: Event)
    requires ValidBus(b) && Inv(b) && Begun(b)
    ensures Inv(Next(b, e)) && Begun(Next(b, e))
  {
    match e {
      case Accept(p) => assert b.accepted + [p] == Replies(b.gone) + UnderWay(b) + (b.queue + [p]);
      case Read =>
        StagingKeeps(b);
        SlotKeeps(AfterStaging(b), SlotNow(AfterStaging(b).tx));
      case ReadFails(served) =>
        StagingKeeps(b);
        SlotKeeps(AfterStaging(b), []);
        AbandonKeeps(b);
      case Write(w, text) => WriteKeeps(b, w, text);
      case Recover => OwnKeeps(b.(rx := R.Nothing), KIND_ERROR, b.lastId, INVALID_SLOT_MSG);
    }
  }

  lemma {:induction false} Invariant(events: seq<Event>)
    ensures Inv(Run(events)) && Begun(Run(events))
  {
    if events != [] {
      Invariant(events[..|events| - 1]);
      NextKeeps(Run(events[..|events| - 1]), events[|events| - 1]);
    }
  }

  /** In order, each at most once, possibly with gaps. */
  predicate Subsequence<T(==)>(a: seq<T>, b: seq<T>)
    decreases |b|
  {
    if b == [] then a == []
    else
      || Subsequence(a, b[..|b| - 1])
      || (a != [] && a[|a| - 1] == b[|b| - 1] && Subsequence(a[..|a| - 1], b[..|b| - 1]))
  }

  lemma {:induction false} SubsequenceOfMore<T>(a: seq<T>, b: seq<T>, c: seq<T>)
    requires Subsequence(a, b)
    ensures Subsequence(a, b + c)
    decreases |c|
  {
    if c == [] {
      assert b + c == b;
    } else {
      SubsequenceOfMore(a, b, c[..|c| - 1]);
      assert (b + c)[..|b + c| - 1] == b + c[..|c| - 1];
    }
  }

  lemma SubsequenceAppend<T>(a: seq<T>, b: seq<T>, x: T)
    requires Subsequence(a, b)
    ensures Subsequence(a, b + [x]) && Subsequence(a + [x], b + [x])
  {
    assert (a + [x])[..|a|] == a && (b + [x])[..|b|] == b;
  }

  lemma {:induction false} ReceivedAmongReplies(gone: seq<Fate>)
    ensures Subsequence(Received(gone), Replies(gone))
  {
    if gone != [] {
      var before, f := gone[..|gone| - 1], gone[|gone| - 1];
      ReceivedAmongReplies(before);
      match f.item {
        case OfMailbox(p) =>
          SubsequenceAppend(Received(before), Replies(before), p);
          assert Received(before) + [] == Received(before);
        case Own(_, _) =>
          assert Received(before) + [] == Received(before) && Replies(before) + [] == Replies(before);
      }
    }
  }

  /** In every run, with replies arriving, slots being read, reads and transfers failing and writes of any sort in any
      order: every accepted reply has left, is under way, or is still queued, in order; the replies that the host got
      are a subsequence of the accepted ones; and the frames its reads have returned are exactly those of the items
      it got, in order and each once. */
  lemma RepliesAccountedFor(events: seq<Event>)
    ensures var b := Run(events);
            && b.accepted == Replies(b.gone) + UnderWay(b) + b.queue
            && Subsequence(Received(b.gone), b.accepted)
            && Frames(b.results) == Frames(ExpectedOf(b.gone))
  {
    Invariant(events);
    Accounted(Run(events));
  }

  lemma Accounted(b: Bus)
    requires Inv(b)
    ensures Subsequence(Received(b.gone), b.accepted)
  {
    ReceivedAmongReplies(b.gone);
    SubsequenceOfMore(Received(b.gone), Replies(b.gone), UnderWay(b));
    SubsequenceOfMore(Received(b.gone), Replies(b.gone) + UnderWay(b), b.queue);
  }

  // Which replies are lost

  /** What is under way and can still reach the host. */
  function Arriving(b: Bus): seq<Answer> {
    if Spoiled(b) then [] else UnderWay(b)
  }

  /** Nothing accepted is missing. */
  predicate Lossless(b: Bus) {
    b.accepted == Received(b.gone) + Arriving(b) + b.queue
  }

  /** A reply is under way, or staged by the same read, when the host's read fails; or one is under way when a transfer
      fails at the firmware, or when the firmware is made to speak for itself by a refused write, a local command, or
      a packet of an unknown kind. */
  predicate Hits(b: Bus, e: Event)
    requires ValidBus(b)
  {
    match e
    case ReadFails(served) => UnderWay(if served then AfterStaging(b) else b) != []
    case Write(w, _) => UnderWay(b) != [] && Provokes(b.rx, w)
    case Recover => UnderWay(b) != []
    case _ => false
  }

  function Losses(gone: seq<Fate>): nat {
    if gone == [] then 0
    else
      var f := gone[|gone| - 1];
      Losses(gone[..|gone| - 1]) + if f.Lost? && f.item.OfMailbox? then 1 else 0
  }

  lemma LossesAppend(gone: seq<Fate>, f: Fate)
    ensures Losses(gone + [f]) == Losses(gone) + if f.Lost? && f.item.OfMailbox? then 1 else 0
  {
    assert (gone + [f])[..|gone|] == gone;
  }

  lemma {:induction false} LossesCount(gone: seq<Fate>)
    ensures |Replies(gone)| == |Received(gone)| + Losses(gone)
    ensures Losses(gone) == 0 ==> Replies(gone) == Received(gone)
  {
    if gone != [] {
      LossesCount(gone[..|gone| - 1]);
      assert Replies(gone[..|gone| - 1]) + [] == Replies(gone[..|gone| - 1]);
    }
  }

  /** How many accepted replies the host cannot get any more. */
  function Missing(b: Bus): nat {
    Losses(b.gone) + if Spoiled(b) then |UnderWay(b)| else 0
  }

  lemma LosslessIff(b: Bus)
    requires Inv(b)
    ensures Lossless(b) <==> Missing(b) == 0
  {
    LossesCount(b.gone);
  }

  lemma MissingAfterStaging(b: Bus)
    requires ValidBus(b) && Inv(b)
    ensures Missing(AfterStaging(b)) == Missing(b)
  {
  }

  lemma MissingAfterSlot(b: Bus, raw: seq<byte>)
    requires ValidBus(b) && Inv(b) && (raw == SlotNow(b.tx) || raw == [])
    ensures Missing(SlotSpent(b, raw)) == if raw == [] then Losses(b.gone) + |UnderWay(b)| else Missing(b)
  {
    Spent(b, raw);
    if b.item.Some? {
      LossesAppend(b.gone, Completed(b.item.value));
      LossesAppend(b.gone, Lost(b.item.value));
    }
  }

  lemma MissingAfterOwn(b: Bus, kind: byte, id: u16, frame: Bulk)
    ensures Missing(StagedOwn(b, kind, id, frame)) == Losses(b.gone) + |UnderWay(b)|
  {
    match b.item {
      case Some(i) => LossesAppend(b.gone, Lost(i));
      case None => assert b.gone + [] == b.gone;
    }
  }

  lemma MissingRead(b: Bus)
    requires ValidBus(b) && Inv(b)
    ensures Missing(SlotRead(AfterStaging(b))) == Missing(b)
  {
    StagingKeeps(b);
    MissingAfterStaging(b);
    MissingAfterSlot(AfterStaging(b), SlotNow(AfterStaging(b).tx));
  }

  lemma MissingServed(b: Bus)
    requires ValidBus(b) && Inv(b)
    ensures Missing(SlotSpent(AfterStaging(b), [])) == Losses(b.gone) + |UnderWay(AfterStaging(b))|
    ensures |UnderWay(AfterStaging(b))| >= |UnderWay(b)|
  {
    StagingKeeps(b);
    MissingAfterSlot(AfterStaging(b), []);
  }

  lemma MissingUnserved(b: Bus)
    requires ValidBus(b) && Inv(b) && Begun(b)
    ensures Missing(HostAfter(b, [])) == Losses(b.gone) + |UnderWay(b)|
  {
    Abandoned(b);
  }

  lemma MissingWrite(b: Bus, w: BusWrite, text: seq<byte>)
    requires ValidBus(b)
    ensures Missing(AfterWrite(b, w, text)) == if Provokes(b.rx, w) then Losses(b.gone) + |UnderWay(b)| else Missing(b)
  {
    var (rx, id, reaction) := Reacts(b.rx, b.lastId, w, text);
    StagesIff(b.rx, b.lastId, w, text);
    if reaction.Staging? {
      MissingAfterOwn(b.(rx := rx, lastId := id), reaction.kind, reaction.id, reaction.frame);
    }
  }

  /** Nothing that is missing comes back, and a reply goes missing exactly when it is hit. */
  lemma MissingStep(b: Bus, e: Event)
    requires ValidBus(b) && Inv(b) && Begun(b)
    ensures Missing(Next(b, e)) == 0 <==> Missing(b) == 0 && !Hits(b, e)
  {
    match e {
      case Accept(_) =>
      case Read => MissingRead(b);
      case ReadFails(served) =>
        if served {
          MissingServed(b);
        } else {
          MissingUnserved(b);
        }
      case Write(w, text) => MissingWrite(b, w, text);
      case Recover => MissingAfterOwn(b.(rx := R.Nothing), KIND_ERROR, b.lastId, INVALID_SLOT_MSG);
    }
  }

  predicate HitAt(events: seq<Event>, k: nat)
    requires k < |events|
  {
    Hits(Run(events[..k]), events[k])
  }

  predicate NothingHit(events: seq<Event>) {
    forall j :: 0 <= j < |events| ==> !HitAt(events, j)
  }

  lemma NothingHitBefore(events: seq<Event>, e: Event)
    ensures NothingHit(events + [e]) <==> NothingHit(events) && !Hits(Run(events), e)
  {
    var longer := events + [e];
    assert longer[..|events|] == events;
    assert HitAt(longer, |events|) == Hits(Run(events), e);
    assert forall j :: 0 <= j < |events| ==> longer[..j] == events[..j];
    assert forall j :: 0 <= j < |events| ==> HitAt(longer, j) == HitAt(events, j);
  }

  lemma {:induction false} NothingMissingIff(events: seq<Event>)
    ensures Missing(Run(events)) == 0 <==> NothingHit(events)
  {
    if events != [] {
      var before, e := events[..|events| - 1], events[|events| - 1];
      NothingMissingIff(before);
      OneMore(before, e);
      assert before + [e] == events;
    }
  }

  lemma OneMore(before: seq<Event>, e: Event)
    ensures Missing(Run(before + [e])) == 0 <==> Missing(Run(before)) == 0 && !Hits(Run(before), e)
    ensures NothingHit(before + [e]) <==> NothingHit(before) && !Hits(Run(before), e)
  {
    Invariant(before);
    MissingStep(Run(before), e);
    NothingHitBefore(before, e);
    assert (before + [e])[..|before|] == before;
  }

  /** In every run, no accepted reply is missing exactly if none was under way at a failed read, a failed transfer, a
      refused write, a local command or a packet of an unknown kind, nor staged by a read that failed. */
  lemma NothingLostIff(events: seq<Event>)
    ensures Lossless(Run(events)) <==> NothingHit(events)
  {
    Invariant(events);
    LosslessIff(Run(events));
    NothingMissingIff(events);
  }

  /** What is hit is lost for good, whatever comes after. */
  lemma LostForGood(events: seq<Event>, e: Event, more: seq<Event>)
    requires Hits(Run(events), e)
    ensures !Lossless(Run(events + [e] + more))
  {
    var longer := events + [e] + more;
    assert longer[..|events|] == events && longer[|events|] == e;
    assert HitAt(longer, |events|);
    NothingLostIff(longer);
  }

  lemma AcceptedFirst(p: Answer)
    ensures Run([Accept(p)]) == QUIET.(queue := [p], accepted := [p])
  {
    assert [Accept(p)][..0] == [] && [] + [p] == [p];
  }

  /** For instance: any reply at all, and a first read of it that fails. */
  lemma FailedReadLosesReply(p: Answer, more: seq<Event>)
    ensures !Lossless(Run([Accept(p)] + [ReadFails(true)] + more))
  {
    AcceptedFirst(p);
    LostForGood([Accept(p)], ReadFails(true), more);
  }

  /** And with a reply of more than one slot, the host's next read fails as well. */
  lemma ReadAfterFailedRead(p: Answer)
    requires FRAME_HEADER + |p.payload| > SLOT_PAYLOAD
    ensures Run([Accept(p)] + [ReadFails(true)] + [Read]).results == [Failed, Failed]
  {
    var events := [Accept(p)] + [ReadFails(true)];
    RunOneMore(events, Read);
    FirstReadFailed(p);
    Invariant(events);
    Spent(Run(events), SlotNow(Run(events).tx));
  }

  lemma RunOneMore(events: seq<Event>, e: Event)
    ensures Run(events + [e]) == Next(Run(events), e)
  {
    assert (events + [e])[..|events|] == events;
  }

  lemma FirstReadFailed(p: Answer)
    requires FRAME_HEADER + |p.payload| > SLOT_PAYLOAD
    ensures var b := Run([Accept(p)] + [ReadFails(true)]);
            Spoiled(b) && b.item == Some(OfMailbox(p)) && b.results == [Failed]
  {
    RunOneMore([Accept(p)], ReadFails(true));
    FirstStaged(p);
    Spent(AfterStaging(Run([Accept(p)])), []);
  }

  lemma FirstStaged(p: Answer)
    requires FRAME_HEADER + |p.payload| > SLOT_PAYLOAD
    ensures var b := Run([Accept(p)]);
            && ValidBus(b) && Inv(AfterStaging(b)) && AfterStaging(b).item == Some(OfMailbox(p)) && !Spoiled(AfterStaging(b))
            && AfterSlot(AfterStaging(b).tx).Sending? && AfterStaging(b).results == [] && AfterStaging(b).rx == R.Nothing
  {
    AcceptedFirst(p);
    Invariant([Accept(p)]);
    StagingKeeps(Run([Accept(p)]));
    ReplyParses(p.kind, p.payload);
  }

  /** A local command in one slot: a slash. */
  const COMMAND_SLOT := Slot(KIND_COMMAND, true, true, 7, 0, 1, [47])

  /** For instance: any reply of more than one slot, one read, and a local command. */
  lemma LocalCommandLosesReply(p: Answer, text: seq<byte>, more: seq<Event>)
    requires FRAME_HEADER + |p.payload| > SLOT_PAYLOAD
    ensures !Lossless(Run([Accept(p)] + [Read] + [Write(BusWrite(EncodeSlot(COMMAND_SLOT), 0, 0), text)] + more))
  {
    CommandProvokes();
    OneSlotOut(p);
    LostAt([Accept(p)] + [Read], p, BusWrite(EncodeSlot(COMMAND_SLOT), 0, 0), text, more);
  }

  lemma CommandProvokes()
    ensures Provokes(R.Nothing, BusWrite(EncodeSlot(COMMAND_SLOT), 0, 0))
  {
    SlotRoundTrip(COMMAND_SLOT);
    assert Handle(R.Nothing, BusWrite(EncodeSlot(COMMAND_SLOT), 0, 0)).1 == R.Packet(KIND_COMMAND, 7, [47]);
  }

  lemma LostAt(events: seq<Event>, p: Answer, w: BusWrite, text: seq<byte>, more: seq<Event>)
    requires Run(events).item == Some(OfMailbox(p)) && Run(events).rx == R.Nothing && Provokes(R.Nothing, w)
    ensures !Lossless(Run(events + [Write(w, text)] + more))
  {
    LostForGood(events, Write(w, text), more);
  }

  lemma OneSlotOut(p: Answer)
    requires FRAME_HEADER + |p.payload| > SLOT_PAYLOAD
    ensures Run([Accept(p)] + [Read]).item == Some(OfMailbox(p)) && Run([Accept(p)] + [Read]).rx == R.Nothing
  {
    RunOneMore([Accept(p)], Read);
    FirstStaged(p);
    var b := AfterStaging(Run([Accept(p)]));
    Spent(b, SlotNow(b.tx));
  }

  // What the host has got by then

  function Seen(p: Answer): Frame {
    Got(if p.kind == KIND_DATA then Data(p.payload) else Command(p.payload))
  }

  function AllSeen(q: seq<Answer>): (r: seq<Frame>)
    ensures |r| == |q|
  {
    seq(|q|, i requires 0 <= i < |q| => Seen(q[i]))
  }

  /** A local command is complete: the firmware answers it itself. */
  predicate Answers(b: Bus, e: Event) {
    e.Write? && match Handle(b.rx, e.w).1 case Packet(kind, _, payload) => AnsweredLocally(kind, payload) case _ => false
  }

  predicate NothingAnswered(events: seq<Event>) {
    forall k :: 0 <= k < |events| ==> !Answers(Run(events[..k]), events[k])
  }

  predicate OwnFails(i: Item) {
    i.Own? ==> Expected(i) == Failed
  }

  predicate AllOwnFail(b: Bus) {
    && (b.item.Some? ==> OwnFails(b.item.value))
    && forall i :: 0 <= i < |b.gone| ==> OwnFails(b.gone[i].item)
  }

  lemma ErrorFails(message: Bulk)
    requires message == INVALID_SLOT_MSG || message == OVERSIZE_MSG || message == INVALID_KIND_MSG
    ensures OwnFails(Own(KIND_ERROR, message))
  {
    OwnPacketsSeen([], 0);
  }

  lemma UnansweredWrite(b: Bus, w: BusWrite, text: seq<byte>)
    requires !Answers(b, Write(w, text))
    ensures var r := Reacts(b.rx, b.lastId, w, text).2; r.Staging? ==> OwnFails(Own(r.kind, r.frame))
  {
    ErrorFails(Refusal(Cut(w.raw)));
    ErrorFails(INVALID_KIND_MSG);
  }

  lemma OwnFailAfterOwn(b: Bus, kind: byte, id: u16, frame: Bulk)
    requires AllOwnFail(b) && OwnFails(Own(kind, frame))
    ensures AllOwnFail(StagedOwn(b, kind, id, frame))
  {
  }

  lemma OwnFailAfterSlot(b: Bus, raw: seq<byte>)
    requires ValidBus(b) && Inv(b) && AllOwnFail(b) && (raw == SlotNow(b.tx) || raw == [])
    ensures AllOwnFail(SlotSpent(b, raw))
  {
    Spent(b, raw);
  }

  lemma UnansweredStep(b: Bus, e: Event)
    requires ValidBus(b) && Inv(b) && AllOwnFail(b) && !Answers(b, e)
    ensures AllOwnFail(Next(b, e))
  {
    match e {
      case Accept(_) =>
      case Read =>
        StagingKeeps(b);
        OwnFailAfterSlot(AfterStaging(b), SlotNow(AfterStaging(b).tx));
      case ReadFails(served) =>
        StagingKeeps(b);
        OwnFailAfterSlot(AfterStaging(b), []);
      case Write(w, text) =>
        var (rx, id, reaction) := Reacts(b.rx, b.lastId, w, text);
        UnansweredWrite(b, w, text);
        if reaction.Staging? {
          OwnFailAfterOwn(b.(rx := rx, lastId := id), reaction.kind, reaction.id, reaction.frame);
        }
      case Recover =>
        ErrorFails(INVALID_SLOT_MSG);
        OwnFailAfterOwn(b.(rx := R.Nothing), KIND_ERROR, b.lastId, INVALID_SLOT_MSG);
    }
  }

  lemma {:induction false} OwnFailThroughout(events: seq<Event>, k: nat)
    requires k <= |events| && NothingAnswered(events)
    ensures AllOwnFail(Run(events[..k]))
  {
    if k > 0 {
      OwnFailThroughout(events, k - 1);
      Invariant(events[..k - 1]);
      RunUpTo(events, k - 1);
      UnansweredStep(Run(events[..k - 1]), events[k - 1]);
    }
  }

  lemma RunUpTo(events: seq<Event>, k: nat)
    requires k < |events|
    ensures Run(events[..k + 1]) == Next(Run(events[..k]), events[k])
  {
    assert events[..k + 1][..k] == events[..k];
  }

  lemma AllSeenAppend(q: seq<Answer>, p: Answer)
    ensures AllSeen(q + [p]) == AllSeen(q) + [Seen(p)]
  {
  }

  lemma {:induction false} ReceivedSeen(gone: seq<Fate>)
    requires forall i :: 0 <= i < |gone| ==> OwnFails(gone[i].item)
    ensures Frames(ExpectedOf(gone)) == AllSeen(Received(gone))
  {
    if gone != [] {
      var before, f := gone[..|gone| - 1], gone[|gone| - 1];
      ReceivedSeen(before);
      FramesAppend(ExpectedOf(before), Expected(f.item));
      assert ExpectedOf(before) + [] == ExpectedOf(before) && Received(before) + [] == Received(before);
      match f.item {
        case OfMailbox(p) => AllSeenAppend(Received(before), p);
        case Own(_, _) => assert AllSeen(Received(before)) + [] == AllSeen(Received(before));
      }
    }
  }

  lemma {:induction false} SeenInOrder(a: seq<Answer>, b: seq<Answer>)
    requires Subsequence(a, b)
    ensures Subsequence(AllSeen(a), AllSeen(b))
    decreases |b|
  {
    if b != [] {
      assert AllSeen(b)[..|b| - 1] == AllSeen(b[..|b| - 1]);
      if Subsequence(a, b[..|b| - 1]) {
        SeenInOrder(a, b[..|b| - 1]);
      } else {
        assert AllSeen(a)[..|a| - 1] == AllSeen(a[..|a| - 1]);
        SeenInOrder(a[..|a| - 1], b[..|b| - 1]);
      }
    }
  }

  /** In every run without local commands, whatever fails and whatever is refused: the frames that the host's reads
      have returned are among the accepted replies, in order and each at most once. */
  lemma OnlyRepliesReceived(events: seq<Event>)
    requires NothingAnswered(events)
    ensures Subsequence(Frames(Run(events).results), AllSeen(Run(events).accepted))
  {
    RepliesAccountedFor(events);
    assert events[..|events|] == events;
    OwnFailThroughout(events, |events|);
    ReceivedSeen(Run(events).gone);
    SeenInOrder(Received(Run(events).gone), Run(events).accepted);
  }

  // Runs in which no read fails

  predicate ReadsSucceed(events: seq<Event>) {
    forall k :: 0 <= k < |events| ==> !events[k].ReadFails?
  }

  /** The host has seen exactly what was given out in full. */
  predicate Exact(b: Bus) {
    b.results == ExpectedOf(b.gone) && !Spoiled(b)
  }

  lemma ExactAfterOwn(b: Bus, kind: byte, id: u16, frame: Bulk)
    requires Exact(b)
    ensures Exact(StagedOwn(b, kind, id, frame))
  {
    if b.item.Some? {
      HistoryAppend(b.gone, Lost(b.item.value));
    }
    assert b.gone + [] == b.gone && ExpectedOf(b.gone) + [] == ExpectedOf(b.gone);
  }

  lemma ExactStep(b: Bus, e: Event)
    requires ValidBus(b) && Inv(b) && Exact(b) && !e.ReadFails?
    ensures Exact(Next(b, e))
  {
    match e {
      case Accept(_) =>
      case Read =>
        StagingKeeps(b);
        ExactAfterSlot(AfterStaging(b));
      case Write(w, text) =>
        var (rx, id, reaction) := Reacts(b.rx, b.lastId, w, text);
        if reaction.Staging? {
          ExactAfterOwn(b.(rx := rx, lastId := id), reaction.kind, reaction.id, reaction.frame);
        }
      case Recover => ExactAfterOwn(b.(rx := R.Nothing), KIND_ERROR, b.lastId, INVALID_SLOT_MSG);
    }
  }

  lemma ExactAfterSlot(b: Bus)
    requires ValidBus(b) && Inv(b) && Exact(b)
    ensures Exact(SlotRead(b))
  {
    Spent(b, SlotNow(b.tx));
    if b.item.Some? {
      ExactAppend(b, Expected(b.item.value), Completed(b.item.value));
    }
  }

  lemma ExactAppend(b: Bus, f: Frame, fate: Fate)
    requires Exact(b) && fate.Completed? && f == Expected(fate.item)
    ensures b.results + [f] == ExpectedOf(b.gone + [fate]) && b.results + [] == b.results
  {
    HistoryAppend(b.gone, fate);
  }

  /** In every run in which no read fails, the host's reads return exactly what was given out in full, the firmware's
      own answers and errors included. */
  lemma {:induction false} ReadsExact(events: seq<Event>)
    requires ReadsSucceed(events)
    ensures Exact(Run(events))
  {
    if events != [] {
      var before, e := events[..|events| - 1], events[|events| - 1];
      ReadsExact(before);
      Invariant(before);
      ExactStep(Run(before), e);
    }
  }

  // Runs in which, besides, the firmware never speaks for itself

  predicate Speaks(b: Bus, e: Event) {
    e.Recover? || (e.Write? && Provokes(b.rx, e.w))
  }

  predicate OnlyForwards(events: seq<Event>) {
    forall k :: 0 <= k < |events| ==> !Speaks(Run(events[..k]), events[k])
  }

  predicate AllReplies(b: Bus) {
    && (b.item.Some? ==> b.item.value.OfMailbox?)
    && forall i :: 0 <= i < |b.gone| ==> b.gone[i].Completed? && b.gone[i].item.OfMailbox?
  }

  lemma {:induction false} RepliesSeen(gone: seq<Fate>)
    requires forall i :: 0 <= i < |gone| ==> gone[i].Completed? && gone[i].item.OfMailbox?
    ensures ExpectedOf(gone) == AllSeen(Replies(gone))
  {
    if gone != [] {
      RepliesSeen(gone[..|gone| - 1]);
    }
  }

  lemma QuietSlot(b: Bus)
    requires ValidBus(b) && Inv(b) && Exact(b) && AllReplies(b)
    ensures AllReplies(SlotRead(b))
  {
    Spent(b, SlotNow(b.tx));
  }

  lemma QuietWrite(b: Bus, w: BusWrite, text: seq<byte>)
    requires ValidBus(b) && AllReplies(b) && !Provokes(b.rx, w)
    ensures AllReplies(AfterWrite(b, w, text))
  {
    StagesIff(b.rx, b.lastId, w, text);
  }

  lemma QuietStep(b: Bus, e: Event)
    requires ValidBus(b) && Inv(b) && Exact(b) && AllReplies(b) && !Speaks(b, e) && !e.ReadFails?
    ensures AllReplies(Next(b, e))
  {
    match e {
      case Accept(_) =>
      case Read =>
        StagingKeeps(b);
        QuietSlot(AfterStaging(b));
      case Write(w, text) => QuietWrite(b, w, text);
    }
  }

  lemma {:induction false} OnlyReplies(events: seq<Event>, k: nat)
    requires k <= |events| && OnlyForwards(events) && ReadsSucceed(events)
    ensures AllReplies(Run(events[..k]))
  {
    if k > 0 {
      OnlyReplies(events, k - 1);
      Invariant(events[..k - 1]);
      ReadsExact(events[..k - 1]);
      RunUpTo(events, k - 1);
      QuietStep(Run(events[..k - 1]), events[k - 1]);
    }
  }

  /** In every run whose writes are only forwarded and in which no read fails, the host's reads return exactly the
      accepted replies, in order and each once: a prefix of them, and all once nothing is under way. */
  lemma RepliesReceivedInOrder(events: seq<Event>)
    requires OnlyForwards(events) && ReadsSucceed(events)
    ensures var b := Run(events);
            && b.results <= AllSeen(b.accepted)
            && (b.tx == NothingStaged && b.queue == [] ==> b.results == AllSeen(b.accepted))
  {
    var b := Run(events);
    Invariant(events);
    ReadsExact(events);
    assert events[..|events|] == events;
    OnlyReplies(events, |events|);
    RepliesSeen(b.gone);
    SeenPrefix(Replies(b.gone), UnderWay(b), b.queue);
  }

  lemma SeenPrefix(left: seq<Answer>, underWay: seq<Answer>, queue: seq<Answer>)
    ensures AllSeen(left) <= AllSeen(left + underWay + queue)
    ensures underWay == [] && queue == [] ==> left + underWay + queue == left
  {
    assert left + underWay + queue == left + (underWay + queue);
    assert forall i :: 0 <= i < |left| ==> AllSeen(left)[i] == AllSeen(left + (underWay + queue))[i];
  }

  // Progress

  function Left(t: Sending): nat {
    if t.Sending? && t.next <= |t.payload| then 1 + |t.payload| - t.next else 0
  }

  function Queued(q: seq<Answer>): nat {
    if q == [] then 0 else FRAME_HEADER + |q[0].payload| + 2 + Queued(q[1..])
  }

  function Work(b: Bus): nat {
    Queued(b.queue) + Left(b.tx)
  }

  lemma StagingWorks(b: Bus)
    requires ValidBus(b)
    ensures Work(AfterStaging(b)) <= Work(b)
  {
    if b.tx == NothingStaged && b.queue != [] {
      ReplyParses(b.queue[0].kind, b.queue[0].payload);
    }
  }

  lemma NothingLeft(b: Bus)
    requires ValidBus(b)
    ensures Work(b) == 0 <==> b.tx == NothingStaged && b.queue == []
  {
  }

  /** What is still to leave the transmitter. */
  function ToCome(b: Bus): seq<Fate> {
    Ongoing(b) + Coming(b.queue)
  }

  function Ongoing(b: Bus): seq<Fate> {
    match b.item
    case Some(i) => [if Spoiled(b) then Lost(i) else Completed(i)]
    case None => []
  }

  function Coming(q: seq<Answer>): (r: seq<Fate>)
    ensures |r| == |q|
  {
    seq(|q|, i requires 0 <= i < |q| => Completed(OfMailbox(q[i])))
  }

  lemma StagingComes(b: Bus)
    requires ValidBus(b) && Inv(b)
    ensures ToCome(AfterStaging(b)) == ToCome(b)
  {
    if b.tx == NothingStaged && b.queue != [] {
      assert [] + Coming(b.queue) == [Completed(OfMailbox(b.queue[0]))] + Coming(b.queue[1..]);
    }
  }

  lemma SlotComes(b: Bus)
    requires ValidBus(b) && Inv(b)
    ensures SlotRead(b).gone + ToCome(SlotRead(b)) == b.gone + ToCome(b) && SlotRead(b).queue == b.queue
    ensures Left(SlotRead(b).tx) < Left(b.tx) || b.tx == SlotRead(b).tx == NothingStaged
  {
    Spent(b, SlotNow(b.tx));
    match b.item {
      case None =>
      case Some(i) => GoneOn(b.gone, if Spoiled(b) then Lost(i) else Completed(i), Coming(b.queue));
    }
  }

  lemma GoneOn(gone: seq<Fate>, f: Fate, coming: seq<Fate>)
    ensures (gone + [f]) + ([] + coming) == gone + ([f] + coming)
  {
  }

  /** A read gives out what is next, and nothing else leaves. */
  lemma OneRead(b: Bus)
    requires ValidBus(b) && Inv(b)
    ensures var b' := Next(b, Read);
            b'.gone + ToCome(b') == b.gone + ToCome(b) && (if Work(b) == 0 then Work(b') == 0 else Work(b') < Work(b))
  {
    StagingKeeps(b);
    StagingWorks(b);
    StagingComes(b);
    SlotComes(AfterStaging(b));
    NothingLeft(b);
    NothingLeft(AfterStaging(b));
    NothingLeft(Next(b, Read));
  }

  function Reads(n: nat): (events: seq<Event>)
    ensures |events| == n
  {
    seq(n, _ => Read)
  }

  lemma LastRead(events: seq<Event>, n: nat)
    requires n > 0
    ensures Run(events + Reads(n)) == Next(Run(events + Reads(n - 1)), Read)
  {
    var before := events + Reads(n - 1);
    assert events + Reads(n) == before + [Read] && (before + [Read])[..|before|] == before;
  }

  /** Nothing but what is next has left between the two states, and n reads' work is done unless all is. */
  predicate Worked(b: Bus, b': Bus, n: nat) {
    && b'.gone + ToCome(b') == b.gone + ToCome(b)
    && (Work(b') == 0 || Work(b') + n <= Work(b))
  }

  lemma WorkedOn(b: Bus, m: Bus, b': Bus, n: nat)
    requires Worked(b, m, n) && Worked(m, b', 1) && (Work(m) == 0 ==> Work(b') == 0)
    ensures Worked(b, b', n + 1)
  {
  }

  lemma ReadOn(events: seq<Event>, n: nat)
    requires n > 0
    ensures var b, b' := Run(events + Reads(n - 1)), Run(events + Reads(n));
            Worked(b, b', 1) && (Work(b) == 0 ==> Work(b') == 0)
  {
    LastRead(events, n);
    Invariant(events + Reads(n - 1));
    OneRead(Run(events + Reads(n - 1)));
  }

  lemma {:induction false} ReadsWork(events: seq<Event>, n: nat)
    ensures Worked(Run(events), Run(events + Reads(n)), n)
  {
    if n == 0 {
      assert events + Reads(n) == events;
    } else {
      ReadsWork(events, n - 1);
      ReadOn(events, n);
      WorkedOn(Run(events), Run(events + Reads(n - 1)), Run(events + Reads(n)), n - 1);
    }
  }

  /** What was to come has left, and the host has got what it could of that. */
  predicate Brought(b: Bus, b': Bus) {
    b'.gone == b.gone + ToCome(b) && Frames(b'.results) == Frames(ExpectedOf(b.gone + ToCome(b)))
  }

  lemma AllBrought(b: Bus, b': Bus, n: nat)
    requires Worked(b, b', n) && n >= Work(b) && ValidBus(b') && Inv(b')
    ensures Brought(b, b')
  {
    NothingLeft(b');
    assert b'.gone + ([] + []) == b'.gone;
  }

  /** From every reachable state, a bounded number of reads that succeed brings the host everything that is queued and,
      unless it has lost track of it, what is under way, in order. */
  lemma RepliesAllArrive(events: seq<Event>, n: nat)
    requires n >= Work(Run(events))
    ensures Brought(Run(events), Run(events + Reads(n)))
  {
    ReadsWork(events, n);
    Invariant(events + Reads(n));
    AllBrought(Run(events), Run(events + Reads(n)), n);
  }

  /** If no read has failed before, the host's reads have then returned exactly that. */
  lemma RepliesArriveExactly(events: seq<Event>, n: nat)
    requires n >= Work(Run(events)) && ReadsSucceed(events)
    ensures Run(events + Reads(n)).results == ExpectedOf(Run(events).gone + ToCome(Run(events)))
  {
    RepliesAllArrive(events, n);
    ReadsExact(events + Reads(n));
  }
}
