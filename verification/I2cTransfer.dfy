/** Packets through slots, in both directions: cut by any of the three senders and put together again by
    the firmware or by the Rust host (host/i2c_backend.rs), bare and inside the envelope of
    src/protocol/i2c.rs. */
module I2cTransfer {
  import opened Bytes
  import opened Wrappers
  import opened I2cSlots
  import R = I2cReassembly

  // To the firmware

  /** A write by the bus master, handled at two readings of the clock. The firmware looks at 32 bytes of it. */
  datatype BusWrite = BusWrite(raw: seq<byte>, checked: nat, stamped: nat)

  function Cut(raw: seq<byte>): seq<byte> {
    if |raw| > SLOT_SIZE then raw[..SLOT_SIZE] else raw
  }

  predicate IsIdle(raw: seq<byte>) {
    DecodeSlot(raw) == Ok(None)
  }

  /** One write, as the firmware handles it: idle slots change nothing, broken ones are refused. */
  function Handle(s: R.Receiving, w: BusWrite): (R.Receiving, R.Outcome) {
    match DecodeSlot(Cut(w.raw))
    case Ok(None) => (s, R.More)
    case Ok(Some(slot)) => R.PushSlot(s, R.Arrival(slot, w.checked, w.stamped))
    case Err(_) => (s, R.Refused)
  }

  function Outcomes(s: R.Receiving, writes: seq<BusWrite>): (r: seq<R.Outcome>)
    ensures |r| == |writes|
    decreases |writes|
  {
    if writes == [] then [] else [Handle(s, writes[0]).1] + Outcomes(Handle(s, writes[0]).0, writes[1..])
  }

  /** The writes carry the given slots, in order, with any number of idle slots before each of them, and each
      slot is handled less than 50 ms after the one before. */
  predicate Carries(writes: seq<BusWrite>, slots: seq<seq<byte>>, last: Option<nat>)
    decreases |writes|
  {
    if writes == [] then slots == []
    else if IsIdle(Cut(writes[0].raw)) then slots != [] && Carries(writes[1..], slots, last)
    else
      && slots != [] && Cut(writes[0].raw) == slots[0]
      && (last.Some? ==> writes[0].checked - last.value < R.PARTIAL_PACKET_TIMEOUT)
      && Carries(writes[1..], slots[1..], Some(writes[0].stamped))
  }

  /** Nothing until the last write, and then exactly the packet. */
  predicate OnlyAtTheEnd(outcomes: seq<R.Outcome>, packet: R.Outcome) {
    && outcomes != [] && outcomes[|outcomes| - 1] == packet
    && forall i :: 0 <= i < |outcomes| - 1 ==> outcomes[i] == R.More
  }

  predicate MidTransfer(s: R.Receiving, kind: byte, id: u16, payload: Bulk, offset: nat, last: Option<nat>)
    requires offset <= |payload|
  {
    offset == 0 || (last.Some? && s == R.Receiving(kind, id, |payload|, payload[..offset], last.value))
  }

  lemma PushTakes(s: R.Receiving, kind: byte, id: u16, payload: Bulk, offset: nat, last: Option<nat>, checked: nat, stamped: nat)
    requires offset <= |payload| && (offset == |payload| ==> payload == [])
    requires MidTransfer(s, kind, id, payload, offset, last)
    requires last.Some? ==> checked - last.value < R.PARTIAL_PACKET_TIMEOUT
    ensures var end := CutEnd(payload, offset);
            var (s', r) := R.PushSlot(s, R.Arrival(SlotAt(kind, id, payload, offset), checked, stamped));
            if end == |payload| then r == R.Packet(kind, id, payload)
            else r == R.More && MidTransfer(s', kind, id, payload, end, Some(stamped))
  {
    var end := CutEnd(payload, offset);
    assert payload[..offset] + payload[offset..end] == payload[..end];
    assert payload[..|payload|] == payload;
    assert payload[0..end] == payload[..end];
  }

  lemma PushNext(s: R.Receiving, kind: byte, id: u16, payload: Bulk, offset: nat, last: Option<nat>, w: BusWrite)
    requires kind != KIND_IDLE && offset <= |payload| && (offset == |payload| ==> payload == [])
    requires MidTransfer(s, kind, id, payload, offset, last)
    requires Cut(w.raw) == EncodeSlot(SlotAt(kind, id, payload, offset))
    requires last.Some? ==> w.checked - last.value < R.PARTIAL_PACKET_TIMEOUT
    ensures var end := CutEnd(payload, offset);
            var (s', r) := Handle(s, w);
            if end == |payload| then r == R.Packet(kind, id, payload)
            else r == R.More && MidTransfer(s', kind, id, payload, end, Some(w.stamped))
  {
    SlotRoundTrip(SlotAt(kind, id, payload, offset));
    PushTakes(s, kind, id, payload, offset, last, w.checked, w.stamped);
  }

  lemma {:induction false} DeliversFrom(
    s: R.Receiving, kind: byte, id: u16, payload: Bulk, offset: nat, last: Option<nat>, writes: seq<BusWrite>)
    requires kind != KIND_IDLE && offset <= |payload| && (offset == |payload| ==> payload == [])
    requires MidTransfer(s, kind, id, payload, offset, last)
    requires Carries(writes, Raw(SlotsFrom(kind, id, payload, offset)), last)
    ensures OnlyAtTheEnd(Outcomes(s, writes), R.Packet(kind, id, payload))
    decreases |writes|
  {
    var slots := Raw(SlotsFrom(kind, id, payload, offset));
    FirstSlot(kind, id, payload, offset);
    var w, rest, end := writes[0], writes[1..], CutEnd(payload, offset);
    if IsIdle(Cut(w.raw)) {
      DeliversFrom(s, kind, id, payload, offset, last, rest);
      OneMore(Outcomes(s, rest), R.Packet(kind, id, payload));
    } else {
      assert Cut(w.raw) == EncodeSlot(SlotAt(kind, id, payload, offset));
      PushNext(s, kind, id, payload, offset, last, w);
      if end == |payload| {
        assert rest == [];
      } else {
        DeliversFrom(Handle(s, w).0, kind, id, payload, end, Some(w.stamped), rest);
        OneMore(Outcomes(Handle(s, w).0, rest), R.Packet(kind, id, payload));
      }
    }
  }

  lemma FirstSlot(kind: byte, id: u16, payload: Bulk, offset: nat)
    requires offset <= |payload|
    ensures var slots, end := Raw(SlotsFrom(kind, id, payload, offset)), CutEnd(payload, offset);
            && slots != [] && slots[0] == EncodeSlot(SlotAt(kind, id, payload, offset))
            && slots[1..] == if end == |payload| then [] else Raw(SlotsFrom(kind, id, payload, end))
  {
    SlotsStep(kind, id, payload, offset);
  }

  lemma OneMore(outcomes: seq<R.Outcome>, packet: R.Outcome)
    requires OnlyAtTheEnd(outcomes, packet)
    ensures OnlyAtTheEnd([R.More] + outcomes, packet)
  {
  }

  /** Slots of any sender, to a firmware receiver in any state, among idle slots and without gaps of 50 ms,
      bring nothing until the last one, and then exactly the packet. */
  lemma FirmwareReceives(s: R.Receiving, kind: byte, id: u16, payload: Bulk, writes: seq<BusWrite>)
    requires kind != KIND_IDLE && Carries(writes, Slots(kind, id, payload), None)
    ensures OnlyAtTheEnd(Outcomes(s, writes), R.Packet(kind, id, payload))
  {
    DeliversFrom(s, kind, id, payload, 0, None, writes);
  }

  /** The slots written one after the other, with no idle slots and no time in between. */
  function BackToBack(slots: seq<seq<byte>>, at: nat): (writes: seq<BusWrite>)
    ensures |writes| == |slots|
  {
    seq(|slots|, i requires 0 <= i < |slots| => BusWrite(slots[i], at, at))
  }

  lemma {:induction false} BackToBackCarries(slots: seq<seq<byte>>, at: nat, last: Option<nat>)
    requires last == None || last == Some(at)
    requires forall i :: 0 <= i < |slots| ==> |slots[i]| == SLOT_SIZE && !IsIdle(slots[i])
    ensures Carries(BackToBack(slots, at), slots, last)
  {
    if slots != [] {
      assert BackToBack(slots, at)[1..] == BackToBack(slots[1..], at);
      BackToBackCarries(slots[1..], at, Some(at));
    }
  }

  /** In particular: a packet written back to back always gets through. */
  lemma BackToBackReceived(s: R.Receiving, kind: byte, id: u16, payload: Bulk, at: nat)
    requires kind != KIND_IDLE
    ensures OnlyAtTheEnd(Outcomes(s, BackToBack(Slots(kind, id, payload), at)), R.Packet(kind, id, payload))
  {
    var slots := SlotsFrom(kind, id, payload, 0);
    forall i | 0 <= i < |slots|
      ensures |Slots(kind, id, payload)[i]| == SLOT_SIZE && !IsIdle(Slots(kind, id, payload)[i])
    {
      SlotRoundTrip(slots[i]);
    }
    BackToBackCarries(Slots(kind, id, payload), at, None);
    FirmwareReceives(s, kind, id, payload, BackToBack(Slots(kind, id, payload), at));
  }

  /** One write, on the real receiver. */
  method HandleWrite(rx: R.RxPacketState, w: BusWrite) returns (r: R.Outcome)
    requires rx.Valid()
    modifies rx, rx.payload
    ensures rx.Valid() && (rx.State(), r) == Handle(old(rx.State()), w)
    ensures r.Packet? ==> |r.payload| <= PACKET_MAX
  {
    match DecodeSlot(Cut(w.raw)) {
      case Err(_) => r := R.Refused;
      case Ok(None) => r := R.More;
      case Ok(Some(slot)) => r := rx.Push(R.Arrival(slot, w.checked, w.stamped));
    }
  }

  // To the Rust host

  datatype HostState = HostState(active: bool, kind: byte, id: u16, total: nat, next: nat, raw: seq<byte>)

  const HOST_START := HostState(false, KIND_IDLE, 0, 0, 0, [])

  datatype HostResult = Waiting | Invalid | Complete(kind: byte, raw: seq<byte>)

  /** One slot in the loop of `read_frame`. A transfer that fails brings no 32 bytes, and ends the loop. */
  function HostStep(s: HostState, raw: seq<byte>): (HostState, HostResult)
  {
    if |raw| != SLOT_SIZE then (s, Invalid)
    else
      match DecodeSlotHost(raw)
      case Err(_) => (s, Invalid)
      case Ok(None) => (s, Waiting)
      case Ok(Some(x)) => HostTake(s, x)
  }

  /** The result of reading slots until one of them ends the loop. */
  function HostRead(s: HostState, raws: seq<seq<byte>>): HostResult
    decreases |raws|
  {
    if raws == [] then Waiting
    else
      var (s', r) := HostStep(s, raws[0]);
      if r == Waiting then HostRead(s', raws[1..]) else r
  }

  /** What a read of the host returns in the end. */
  datatype Frame = NotYet | Failed | Got(request: Request)

  function FrameOf(r: HostResult): Frame {
    match r
    case Waiting => NotYet
    case Invalid => Failed
    case Complete(kind, raw) => match ParseResponse(kind, raw) case None => Failed case Some(request) => Got(request)
  }

  method ReadFrameHost(raws: seq<seq<byte>>) returns (r: Frame)
    ensures r == FrameOf(HostRead(HOST_START, raws))
  {
    var active, kind, id, raw := false, KIND_IDLE, 0, [];
    var total: nat, next: nat := 0, 0;
    for i := 0 to |raws|
      invariant HostRead(HOST_START, raws) == HostRead(HostState(active, kind, id, total, next, raw), raws[i..])
    {
      assert raws[i..][0] == raws[i] && raws[i..][1..] == raws[i + 1..];
      if |raws[i]| != SLOT_SIZE {
        return Failed;
      }
      match DecodeSlotHost(raws[i]) {
        case Err(_) => return Failed;
        case Ok(None) =>
        case Ok(Some(x)) =>
          if x.start {
            active, kind, id, total, next, raw := true, x.kind, x.transferId, x.totalLen, |x.data|, x.data;
          } else if active && x.kind == kind && x.transferId == id && x.offset == next {
            next, raw := next + |x.data|, raw + x.data;
          } else {
            return Failed;
          }
          if x.end {
            if next != total {
              return Failed;
            }
            match ParseResponse(kind, raw) {
              case None => return Failed;
              case Some(request) => return Got(request);
            }
          }
      }
    }
    return NotYet;
  }

  predicate HostAt(s: HostState, kind: byte, id: u16, payload: Bulk, offset: nat)
    requires offset <= |payload|
  {
    offset == 0 || s == HostState(true, kind, id, |payload|, offset, payload[..offset])
  }

  /** What the host does with a slot that it can decode. */
  function HostTake(s: HostState, x: Slot): (HostState, HostResult) {
    if !x.start && !(s.active && x.kind == s.kind && x.transferId == s.id && x.offset == s.next) then (s, Invalid)
    else
      var s' := if x.start then HostState(true, x.kind, x.transferId, x.totalLen, |x.data|, x.data)
                else s.(next := s.next + |x.data|, raw := s.raw + x.data);
      if !x.end then (s', Waiting)
      else if s'.next != s'.total then (s', Invalid)
      else (s', Complete(s'.kind, s'.raw))
  }

  lemma HostTakes(s: HostState, kind: byte, id: u16, payload: Bulk, offset: nat)
    requires offset <= |payload| && (offset == |payload| ==> payload == []) && HostAt(s, kind, id, payload, offset)
    ensures var end := CutEnd(payload, offset);
            var (s', r) := HostTake(s, SlotAt(kind, id, payload, offset));
            if end == |payload| then r == Complete(kind, payload) else r == Waiting && HostAt(s', kind, id, payload, end)
  {
    var end := CutEnd(payload, offset);
    assert payload[..offset] + payload[offset..end] == payload[..end];
    assert payload[..|payload|] == payload;
    assert payload[0..end] == payload[..end];
  }

  lemma HostNext(s: HostState, kind: byte, id: u16, payload: Bulk, offset: nat)
    requires kind != KIND_IDLE && offset <= |payload| && (offset == |payload| ==> payload == [])
    requires HostAt(s, kind, id, payload, offset)
    ensures var end := CutEnd(payload, offset);
            var (s', r) := HostStep(s, EncodeSlot(SlotAt(kind, id, payload, offset)));
            if end == |payload| then r == Complete(kind, payload) else r == Waiting && HostAt(s', kind, id, payload, end)
  {
    SlotRoundTrip(SlotAt(kind, id, payload, offset));
    HostTakes(s, kind, id, payload, offset);
  }

  /** Idle slots change nothing, whatever the host is in the middle of and whatever follows. */
  lemma {:induction false} IdleSlotsSkipped(s: HostState, idle: seq<seq<byte>>, more: seq<seq<byte>>)
    requires forall i :: 0 <= i < |idle| ==> IsIdle(idle[i])
    ensures HostRead(s, idle + more) == HostRead(s, more)
  {
    if idle == [] {
      assert idle + more == more;
    } else {
      assert (idle + more)[1..] == idle[1..] + more;
      IdleSlotsSkipped(s, idle[1..], more);
    }
  }

  /** The given slots, in order, with any number of idle slots before each of them. */
  predicate Among(raws: seq<seq<byte>>, slots: seq<seq<byte>>)
    decreases |raws|
  {
    if raws == [] then slots == []
    else
      && slots != []
      && (if IsIdle(raws[0]) then Among(raws[1..], slots) else raws[0] == slots[0] && Among(raws[1..], slots[1..]))
  }

  /** Every slot of a packet has a kind, so it is not an idle one. */
  lemma FirstAmong(raws: seq<seq<byte>>, kind: byte, id: u16, payload: Bulk, offset: nat)
    requires kind != KIND_IDLE && offset <= |payload|
    requires Among(raws, Raw(SlotsFrom(kind, id, payload, offset)))
    ensures raws != []
    ensures if IsIdle(raws[0]) then Among(raws[1..], Raw(SlotsFrom(kind, id, payload, offset)))
            else
              && raws[0] == EncodeSlot(SlotAt(kind, id, payload, offset))
              && Among(raws[1..], if CutEnd(payload, offset) == |payload| then [] else Raw(SlotsFrom(kind, id, payload, CutEnd(payload, offset))))
  {
    FirstSlot(kind, id, payload, offset);
  }

  lemma {:induction false} HostReadsFrom(s: HostState, kind: byte, id: u16, payload: Bulk, offset: nat, raws: seq<seq<byte>>)
    requires kind != KIND_IDLE && offset <= |payload| && (offset == |payload| ==> payload == [])
    requires HostAt(s, kind, id, payload, offset) && Among(raws, Raw(SlotsFrom(kind, id, payload, offset)))
    ensures HostRead(s, raws) == Complete(kind, payload)
    decreases |raws|
  {
    FirstAmong(raws, kind, id, payload, offset);
    if IsIdle(raws[0]) {
      HostReadsFrom(s, kind, id, payload, offset, raws[1..]);
    } else {
      HostNext(s, kind, id, payload, offset);
      var end := CutEnd(payload, offset);
      if end < |payload| {
        HostReadsFrom(HostStep(s, raws[0]).0, kind, id, payload, end, raws[1..]);
      }
    }
  }

  /** The Rust host puts any packet together again from its slots, among idle slots. */
  lemma HostReads(kind: byte, id: u16, payload: Bulk, raws: seq<seq<byte>>)
    requires kind != KIND_IDLE && Among(raws, Slots(kind, id, payload))
    ensures HostRead(HOST_START, raws) == Complete(kind, payload)
  {
    HostReadsFrom(HOST_START, kind, id, payload, 0, raws);
  }

  // The envelope

  const FRAME_HEADER := 4
  const BRIDGE_MAX := 4092
  const REQ_DATA: byte := 0xa5
  const REQ_COMMAND: byte := 0xa6
  const RESP_DATA: byte := 0x5a
  const RESP_COMMAND: byte := 0x5b
  const REQ_RAW: byte := 0xa7
  const RESP_RAW: byte := 0x7a

  function HeaderForMagic(magic: byte): Option<(byte, byte)> {
    if magic == REQ_DATA || magic == RESP_DATA then Some((REQ_DATA, RESP_DATA))
    else if magic == REQ_COMMAND || magic == RESP_COMMAND then Some((REQ_COMMAND, RESP_COMMAND))
    else if magic == REQ_RAW || magic == RESP_RAW then Some((REQ_RAW, RESP_RAW))
    else None
  }

  /** The frame built into a buffer of `room` bytes; what does not fit is cut off. */
  function BuildFrame(magic: byte, payload: seq<byte>, room: nat): (r: Option<seq<byte>>)
    ensures r.Some? ==> FRAME_HEADER <= |r.value| <= room
  {
    if HeaderForMagic(magic) == None || room < FRAME_HEADER then None
    else
      var (h0, h1) := HeaderForMagic(magic).value;
      var most := if room - FRAME_HEADER < 0xffff then room - FRAME_HEADER else 0xffff;
      var len := if |payload| < most then |payload| else most;
      Some([h0, h1] + Le16(len) + payload[..len])
  }

  datatype Request = Data(payload: seq<byte>) | Command(payload: seq<byte>)

  /** What the firmware makes of a received packet (`parse_request_bytes`). */
  function ParseRequest(frame: seq<byte>): Option<Request> {
    if |frame| < FRAME_HEADER then None
    else
      var len: nat := FromLe16(frame[2], frame[3]);
      var data := (frame[0] == REQ_DATA && frame[1] == RESP_DATA) || (frame[0] == RESP_DATA && frame[1] == REQ_DATA);
      var command := (frame[0] == REQ_COMMAND && frame[1] == RESP_COMMAND) || (frame[0] == RESP_COMMAND && frame[1] == REQ_COMMAND);
      if |frame| < FRAME_HEADER + len then None
      else if data then Some(Data(frame[FRAME_HEADER..FRAME_HEADER + len]))
      else if command then Some(Command(frame[FRAME_HEADER..FRAME_HEADER + len]))
      else None
  }

  /** What the Rust host makes of a received packet (`parse_response`). */
  function ParseResponse(kind: byte, raw: seq<byte>): Option<Request> {
    if |raw| < FRAME_HEADER then None
    else
      var magic := if raw[0] == REQ_DATA && raw[1] == RESP_DATA then RESP_DATA
                   else if raw[0] == REQ_COMMAND && raw[1] == RESP_COMMAND then RESP_COMMAND else kind;
      var len: nat := FromLe16(raw[2], raw[3]);
      if len > BRIDGE_MAX || FRAME_HEADER + len > |raw| then None
      else if magic == RESP_DATA then Some(Data(raw[FRAME_HEADER..FRAME_HEADER + len]))
      else if magic == RESP_COMMAND then Some(Command(raw[FRAME_HEADER..FRAME_HEADER + len]))
      else None
  }

  /** The reply that `stage_bridge_packet` makes of a bridge packet of a known kind. */
  function Reply(kind: byte, payload: seq<byte>): Option<seq<byte>> {
    if kind == KIND_DATA then BuildFrame(RESP_DATA, payload, PACKET_MAX)
    else if kind == KIND_COMMAND || kind == KIND_ERROR then BuildFrame(RESP_COMMAND, payload, PACKET_MAX)
    else None
  }

  // "error invalid i2c slot"
  const INVALID_SLOT_MSG: seq<byte> := [101, 114, 114, 111, 114, 32, 105, 110, 118, 97, 108, 105, 100, 32, 105, 50, 99, 32, 115, 108, 111, 116]

  /** A bridge packet is staged in its envelope, and one of an unknown kind becomes an error. */
  method StageBridgePacket(tx: TxPacketState, id: u16, kind: byte, payload: Bulk)
    requires tx.Valid()
    modifies tx, tx.payload
    ensures tx.Valid()
    ensures tx.State() == match Reply(kind, payload)
                          case Some(frame) => Sending(kind, id, frame, 0)
                          case None => Sending(KIND_ERROR, id, INVALID_SLOT_MSG, 0)
  {
    if kind == KIND_DATA {
      tx.Stage(kind, id, BuildFrame(RESP_DATA, payload, PACKET_MAX).value);
    } else if kind == KIND_COMMAND || kind == KIND_ERROR {
      tx.Stage(kind, id, BuildFrame(RESP_COMMAND, payload, PACKET_MAX).value);
    } else {
      tx.Stage(KIND_ERROR, id, INVALID_SLOT_MSG);
    }
  }

  lemma ReplyParses(kind: byte, payload: seq<byte>)
    requires kind == KIND_DATA || kind == KIND_COMMAND || kind == KIND_ERROR
    requires |payload| <= BRIDGE_MAX
    ensures Reply(kind, payload).Some? && |Reply(kind, payload).value| == FRAME_HEADER + |payload|
    ensures ParseResponse(kind, Reply(kind, payload).value) == Some(if kind == KIND_DATA then Data(payload) else Command(payload))
  {
    var frame := Reply(kind, payload).value;
    assert payload[..|payload|] == payload;
    assert frame[FRAME_HEADER..FRAME_HEADER + |payload|] == payload;
  }

  /** A bridge packet of at most 4092 bytes, staged by the firmware and read slot by slot by the Rust host
      among any number of idle slots, arrives as the same payload under the right heading. */
  lemma ReplyReachesHost(kind: byte, id: u16, payload: seq<byte>, raws: seq<seq<byte>>)
    requires kind == KIND_DATA || kind == KIND_COMMAND || kind == KIND_ERROR
    requires |payload| <= BRIDGE_MAX
    requires Reply(kind, payload).Some? && Among(raws, Slots(kind, id, Reply(kind, payload).value))
    ensures FrameOf(HostRead(HOST_START, raws)) == Got(if kind == KIND_DATA then Data(payload) else Command(payload))
  {
    ReplyParses(kind, payload);
    HostReads(kind, id, Reply(kind, payload).value, raws);
  }

  lemma RequestParses(magic: byte, payload: seq<byte>)
    requires (magic == REQ_DATA || magic == REQ_COMMAND) && |payload| <= BRIDGE_MAX
    ensures BuildFrame(magic, payload, PACKET_MAX).Some?
    ensures var frame := BuildFrame(magic, payload, PACKET_MAX).value;
            |frame| == FRAME_HEADER + |payload|
            && ParseRequest(frame) == Some(if magic == REQ_DATA then Data(payload) else Command(payload))
  {
    var frame := BuildFrame(magic, payload, PACKET_MAX).value;
    assert payload[..|payload|] == payload;
    assert frame[FRAME_HEADER..FRAME_HEADER + |payload|] == payload;
  }

  /** A request of the Rust host of at most 4092 bytes, through any firmware receiver, among idle slots and
      without gaps of 50 ms, is understood as the same payload under the right heading. */
  lemma RequestReachesFirmware(magic: byte, id: u16, payload: seq<byte>, s: R.Receiving, writes: seq<BusWrite>)
    requires (magic == REQ_DATA || magic == REQ_COMMAND) && |payload| <= BRIDGE_MAX
    requires BuildFrame(magic, payload, PACKET_MAX).Some? && |BuildFrame(magic, payload, PACKET_MAX).value| <= PACKET_MAX
    requires Carries(writes, Slots(if magic == REQ_COMMAND then KIND_COMMAND else KIND_DATA, id,
                                   BuildFrame(magic, payload, PACKET_MAX).value), None)
    ensures var outcomes := Outcomes(s, writes);
            && outcomes != [] && (forall i :: 0 <= i < |outcomes| - 1 ==> outcomes[i] == R.More)
            && outcomes[|outcomes| - 1].Packet?
            && ParseRequest(outcomes[|outcomes| - 1].payload) == Some(if magic == REQ_DATA then Data(payload) else Command(payload))
  {
    RequestParses(magic, payload);
    var kind := if magic == REQ_COMMAND then KIND_COMMAND else KIND_DATA;
    FirmwareReceives(s, kind, id, BuildFrame(magic, payload, PACKET_MAX).value, writes);
  }
}
