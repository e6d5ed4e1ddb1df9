/** What the firmware does with a write by the bus master (src/bridge/i2c_task.rs): it answers local commands and
    refuses bad slots on the spot, and forwards everything else to the network. */
module I2cRequests {
  import opened Bytes
  import opened Wrappers
  import opened I2cSlots
  import opened I2cTransfer
  import R = I2cReassembly
  import F = PacketFifo
  import Q = OverwriteQueue

  // "error invalid i2c kind", "error i2c payload too large"
  const INVALID_KIND_MSG: seq<byte> := [101, 114, 114, 111, 114, 32, 105, 110, 118, 97, 108, 105, 100, 32, 105, 50, 99, 32, 107, 105, 110, 100]
  const OVERSIZE_MSG: seq<byte> := [101, 114, 114, 111, 114, 32, 105, 50, 99, 32, 112, 97, 121, 108, 111, 97, 100, 32, 116, 111, 111, 32, 108, 97, 114, 103, 101]

  /** A slash, and then only printable characters and line ends. */
  predicate LooksLocal(payload: seq<byte>) {
    && payload != [] && payload[0] == 47
    && forall i :: 0 <= i < |payload| ==> payload[i] == 10 || payload[i] == 13 || 32 <= payload[i] <= 126
  }

  function NonZero(id: u16): u16 {
    if id == 0 then 1 else id
  }

  /** `Staging` puts a packet of the firmware's own into the transmitter, over whatever was there. */
  datatype Reaction = Ignored | Forwarded(payload: seq<byte>) | Staging(kind: byte, id: u16, frame: Bulk)

  /** A local command is answered with `text`. */
  function Answered(magic: byte, id: u16, text: seq<byte>): Reaction {
    match BuildFrame(magic, text, PACKET_MAX)
    case Some(frame) => Staging(KIND_COMMAND, id, frame)
    case None => Staging(KIND_ERROR, id, OVERSIZE_MSG)
  }

  /** What becomes of a complete packet. */
  function Processed(kind: byte, id: u16, payload: seq<byte>, text: seq<byte>): Reaction {
    match ParseRequest(payload)
    case Some(Command(line)) => if LooksLocal(line) then Answered(RESP_COMMAND, id, text) else Forwarded(line)
    case Some(Data(data)) => if data == [] then Ignored else Forwarded(data)
    case None =>
      if kind == KIND_COMMAND then (if LooksLocal(payload) then Answered(REQ_COMMAND, id, text) else Forwarded(payload))
      else if kind == KIND_DATA then (if payload == [] then Ignored else Forwarded(payload))
      else Staging(KIND_ERROR, id, INVALID_KIND_MSG)
  }

  function Refusal(raw: seq<byte>): Bulk {
    match DecodeSlot(raw)
    case Ok(Some(slot)) => if slot.totalLen > PACKET_MAX then OVERSIZE_MSG else INVALID_SLOT_MSG
    case _ => INVALID_SLOT_MSG
  }

  /** The receiver after a write, the transfer id that replies will carry, and the reaction. */
  function Reacts(rx: R.Receiving, lastId: u16, w: BusWrite, text: seq<byte>): (R.Receiving, u16, Reaction) {
    var (rx', r) := Handle(rx, w);
    match r
    case More => (rx', lastId, Ignored)
    case Refused => (rx', lastId, Staging(KIND_ERROR, lastId, Refusal(Cut(w.raw))))
    case Packet(kind, id, payload) => (rx', NonZero(id), Processed(kind, NonZero(id), payload, text))
  }

  predicate AnsweredLocally(kind: byte, payload: seq<byte>) {
    match ParseRequest(payload)
    case Some(Command(line)) => LooksLocal(line)
    case Some(Data(_)) => false
    case None => kind == KIND_COMMAND && LooksLocal(payload)
  }

  predicate UnknownKind(kind: byte, payload: seq<byte>) {
    ParseRequest(payload) == None && kind != KIND_COMMAND && kind != KIND_DATA
  }

  /** Writes that make the firmware speak for itself: refused ones, local commands, and packets of an unknown
      kind outside the envelope. */
  predicate Provokes(rx: R.Receiving, w: BusWrite) {
    match Handle(rx, w).1
    case More => false
    case Refused => true
    case Packet(kind, _, payload) => AnsweredLocally(kind, payload) || UnknownKind(kind, payload)
  }

  lemma StagesIff(rx: R.Receiving, lastId: u16, w: BusWrite, text: seq<byte>)
    ensures Reacts(rx, lastId, w, text).2.Staging? <==> Provokes(rx, w)
  {
  }

  /** What the firmware stages has a kind and is not empty. */
  lemma StagedIsSound(rx: R.Receiving, lastId: u16, w: BusWrite, text: seq<byte>)
    requires Provokes(rx, w)
    ensures var r := Reacts(rx, lastId, w, text).2; r.Staging? && r.kind != KIND_IDLE && r.frame != []
  {
  }

  /** The Rust host sees an answer of at most 4092 bytes as a command's, and each error message as a failed read. */
  lemma OwnPacketsSeen(text: seq<byte>, id: u16)
    requires |text| <= BRIDGE_MAX
    ensures Answered(RESP_COMMAND, id, text).Staging? && Answered(RESP_COMMAND, id, text) == Answered(REQ_COMMAND, id, text)
    ensures FrameOf(Complete(KIND_COMMAND, Answered(RESP_COMMAND, id, text).frame)) == Got(Command(text))
    ensures FrameOf(Complete(KIND_ERROR, INVALID_SLOT_MSG)) == FrameOf(Complete(KIND_ERROR, OVERSIZE_MSG)) == Failed
    ensures FrameOf(Complete(KIND_ERROR, INVALID_KIND_MSG)) == Failed
  {
    ReplyParses(KIND_COMMAND, text);
  }

  /** What a reaction does to the transmitter and to the mailbox to the network. */
  function Transmitter(t: Sending, reaction: Reaction): Sending {
    if reaction.Staging? then Sending(reaction.kind, reaction.id, reaction.frame, 0) else t
  }

  ghost predicate Forwards(before: seq<F.Packet>, after: seq<F.Packet>, limits: F.Limits, reaction: Reaction) {
    if !reaction.Forwarded? then after == before
    else
      && |reaction.payload| <= F.MAX_PAYLOAD
      && var p := F.RawPacket(KIND_DATA, reaction.payload);
         F.Evicted(before, |F.Queued(p)|, limits) <= |before| && after == F.Overwritten(before, p, limits)
  }

  /** A complete packet, on the real objects. */
  method ProcessPacket(
    tx: TxPacketState, network: Q.OverwriteQueue, kind: byte, id: u16, payload: Bulk, text: seq<byte>)
    requires tx.Valid() && network.Valid() && tx.payload != network.state.bytes
    modifies tx, tx.payload, network, network.state, network.state.bytes
    ensures tx.Valid() && network.Valid()
    ensures tx.State() == Transmitter(old(tx.State()), Processed(kind, id, payload, text))
    ensures Forwards(old(network.Contents()), network.Contents(), network.state.limits, Processed(kind, id, payload, text))
  {
    match Processed(kind, id, payload, text) {
      case Ignored =>
      case Staging(ownKind, ownId, frame) => tx.Stage(ownKind, ownId, frame);
      case Forwarded(data) =>
        var _ := network.PushOverwriting(F.RawPacket(KIND_DATA, data));
    }
  }

  /** One write on the real objects: the receiver, the transmitter and the mailbox to the network. */
  method HandleWriteSlot(
    rx: R.RxPacketState, tx: TxPacketState, lastId: u16, w: BusWrite, text: seq<byte>, network: Q.OverwriteQueue)
    returns (id: u16)
    requires rx.Valid() && tx.Valid() && network.Valid()
    requires rx.payload != tx.payload && rx.payload != network.state.bytes && tx.payload != network.state.bytes
    modifies rx, rx.payload, tx, tx.payload, network, network.state, network.state.bytes
    ensures rx.Valid() && tx.Valid() && network.Valid()
    ensures (rx.State(), id) == (Reacts(old(rx.State()), lastId, w, text).0, Reacts(old(rx.State()), lastId, w, text).1)
    ensures tx.State() == Transmitter(old(tx.State()), Reacts(old(rx.State()), lastId, w, text).2)
    ensures Forwards(old(network.Contents()), network.Contents(), network.state.limits, Reacts(old(rx.State()), lastId, w, text).2)
  {
    var r := HandleWrite(rx, w);
    id := lastId;
    match r {
      case More =>
      case Refused => tx.Stage(KIND_ERROR, lastId, Refusal(Cut(w.raw)));
      case Packet(kind, transferId, payload) =>
        id := NonZero(transferId);
        ProcessPacket(tx, network, kind, id, payload, text);
    }
  }
}
