/** The 32-byte slots of I2C version 1: one codec, written three times (src/bridge/i2c_task.rs,
    host/i2c_backend.rs, host/python/i2c/protocol.py), and the cutting of a packet into slots. */
module I2cSlots {
  import opened Bytes
  import opened Wrappers

  const SLOT_SIZE := 32
  const SLOT_HEADER := 18
  const SLOT_PAYLOAD := 14
  const PACKET_MAX := 4096

  const MAGIC0: byte := 0x49
  const MAGIC1: byte := 0x32
  const VERSION: byte := 1
  const KIND_IDLE: byte := 0
  const KIND_DATA: byte := 1
  const KIND_COMMAND: byte := 2
  const KIND_ERROR: byte := 0x7f

  datatype Slot = Slot(kind: byte, start: bool, end: bool, transferId: u16, offset: u32, totalLen: u32, data: seq<byte>)

  /** START is bit 0 of the flags, END is bit 1. */
  function Flags(start: bool, end: bool): byte {
    (if start then 1 else 0) + (if end then 2 else 0)
  }

  function EncodeSlot(s: Slot): (raw: seq<byte>)
    requires |s.data| <= SLOT_PAYLOAD
    ensures |raw| == SLOT_SIZE
  {
    [MAGIC0, MAGIC1, VERSION, s.kind, Flags(s.start, s.end), 0] + Numbers(s)
    + (s.data + Repeat(0, SLOT_PAYLOAD - |s.data|))
  }

  /** Fills a slot in place. */
  method PutSlot(s: Slot) returns (raw: array<byte>)
    requires |s.data| <= SLOT_PAYLOAD
    ensures fresh(raw) && raw[..] == EncodeSlot(s)
  {
    raw := new byte[SLOT_SIZE](_ => 0);
    raw[0], raw[1], raw[2], raw[3], raw[4] := MAGIC0, MAGIC1, VERSION, s.kind, Flags(s.start, s.end);
    PutNumbers(raw, s);
    CopyInto(raw, SLOT_HEADER, s.data);
    assert raw[..6] == [MAGIC0, MAGIC1, VERSION, s.kind, Flags(s.start, s.end), 0];
    assert raw[6..18] == Numbers(s);
    assert raw[18..] == s.data + Repeat(0, SLOT_PAYLOAD - |s.data|);
    assert raw[..] == raw[..6] + raw[6..18] + raw[18..];
  }

  function Numbers(s: Slot): (r: seq<byte>)
    requires |s.data| <= SLOT_PAYLOAD
    ensures |r| == 12
  {
    Le32(s.offset) + Le32(s.totalLen) + Le16(|s.data|) + Le16(s.transferId)
  }

  method PutNumbers(raw: array<byte>, s: Slot)
    requires raw.Length == SLOT_SIZE && |s.data| <= SLOT_PAYLOAD
    modifies raw
    ensures forall k :: 6 <= k < 18 ==> raw[k] == Numbers(s)[k - 6]
    ensures forall k :: 0 <= k < 6 || 18 <= k < SLOT_SIZE ==> raw[k] == old(raw[k])
  {
    CopyInto(raw, 6, Le32(s.offset));
    CopyInto(raw, 10, Le32(s.totalLen));
    CopyInto(raw, 14, Le16(|s.data|));
    CopyInto(raw, 16, Le16(s.transferId));
  }

  predicate Blank(raw: seq<byte>) {
    (forall i :: 0 <= i < |raw| ==> raw[i] == 0) || (forall i :: 0 <= i < |raw| ==> raw[i] == 0xff)
  }

  function DataLength(raw: seq<byte>): nat
    requires |raw| == SLOT_SIZE
  {
    FromLe16(raw[14], raw[15])
  }

  function SlotOf(raw: seq<byte>): Slot
    requires |raw| == SLOT_SIZE && DataLength(raw) <= SLOT_PAYLOAD
  {
    Slot(raw[3], raw[4] % 2 == 1, raw[4] / 2 % 2 == 1, FromLe16(raw[16], raw[17]),
         FromLe32(raw[6], raw[7], raw[8], raw[9]), FromLe32(raw[10], raw[11], raw[12], raw[13]),
         raw[SLOT_HEADER..SLOT_HEADER + DataLength(raw)])
  }

  predicate RightMagic(raw: seq<byte>)
    requires |raw| == SLOT_SIZE
  {
    raw[0] == MAGIC0 && raw[1] == MAGIC1 && raw[2] == VERSION
  }

  /** The decoders of the firmware and of the Python host. No slot is an idle one. */
  function DecodeSlot(raw: seq<byte>): Result<Option<Slot>, ()> {
    if |raw| != SLOT_SIZE then Err(())
    else if Blank(raw) then Ok(None)
    else if !RightMagic(raw) then Err(())
    else if raw[3] == KIND_IDLE then Ok(None)
    else if DataLength(raw) > SLOT_PAYLOAD then Err(())
    else Ok(Some(SlotOf(raw)))
  }

  /** The decoder of the Rust host takes idle slots with any magic. */
  function DecodeSlotHost(raw: seq<byte>): Result<Option<Slot>, ()>
    requires |raw| == SLOT_SIZE
  {
    if Blank(raw) || raw[3] == KIND_IDLE then Ok(None)
    else if !RightMagic(raw) then Err(())
    else if DataLength(raw) > SLOT_PAYLOAD then Err(())
    else Ok(Some(SlotOf(raw)))
  }

  /** The two decoders differ on idle slots with a wrong magic and nowhere else. */
  lemma DecodersAgreeIff(raw: seq<byte>)
    requires |raw| == SLOT_SIZE
    ensures DecodeSlotHost(raw) == DecodeSlot(raw) <==> raw[3] != KIND_IDLE || RightMagic(raw) || Blank(raw)
  {
  }

  /** For instance: 1 and then only zeros. */
  const STRAY_SLOT: seq<byte> := [1] + Repeat(0, SLOT_SIZE - 1)

  lemma DecodersDiffer()
    ensures |STRAY_SLOT| == SLOT_SIZE && DecodeSlotHost(STRAY_SLOT) == Ok(None) && DecodeSlot(STRAY_SLOT) == Err(())
  {
    assert STRAY_SLOT[0] == 1 && STRAY_SLOT[3] == 0;
  }

  /** The bytes of an encoded slot, piece by piece. */
  lemma SlotPieces(s: Slot)
    requires |s.data| <= SLOT_PAYLOAD
    ensures var raw := EncodeSlot(s);
            && raw[..6] == [MAGIC0, MAGIC1, VERSION, s.kind, Flags(s.start, s.end), 0]
            && raw[6..10] == Le32(s.offset) && raw[10..14] == Le32(s.totalLen)
            && raw[14..16] == Le16(|s.data|) && raw[16..18] == Le16(s.transferId)
            && raw[18..18 + |s.data|] == s.data
  {
    var raw, numbers := EncodeSlot(s), Numbers(s);
    assert raw[6..18] == numbers;
    assert raw[6..10] == numbers[..4] && raw[10..14] == numbers[4..8] && raw[14..16] == numbers[8..10] && raw[16..18] == numbers[10..];
  }

  lemma NumbersRead(raw: seq<byte>, s: Slot)
    requires |raw| == SLOT_SIZE && |s.data| <= SLOT_PAYLOAD
    requires raw[6..10] == Le32(s.offset) && raw[10..14] == Le32(s.totalLen)
    requires raw[14..16] == Le16(|s.data|) && raw[16..18] == Le16(s.transferId)
    ensures FromLe32(raw[6], raw[7], raw[8], raw[9]) == s.offset && FromLe32(raw[10], raw[11], raw[12], raw[13]) == s.totalLen
    ensures DataLength(raw) == |s.data| && FromLe16(raw[16], raw[17]) == s.transferId
  {
    var a, b, c, d := raw[6..10], raw[10..14], raw[14..16], raw[16..18];
    assert raw[6] == a[0] && raw[7] == a[1] && raw[8] == a[2] && raw[9] == a[3];
    assert raw[10] == b[0] && raw[11] == b[1] && raw[12] == b[2] && raw[13] == b[3];
    assert raw[14] == c[0] && raw[15] == c[1] && raw[16] == d[0] && raw[17] == d[1];
    Le32RoundTrip(s.offset);
    Le32RoundTrip(s.totalLen);
  }

  /** Every slot with a kind survives the wire. */
  lemma SlotRoundTrip(s: Slot)
    requires |s.data| <= SLOT_PAYLOAD && s.kind != KIND_IDLE
    ensures DecodeSlot(EncodeSlot(s)) == Ok(Some(s)) && DecodeSlotHost(EncodeSlot(s)) == Ok(Some(s))
  {
    var raw := EncodeSlot(s);
    SlotPieces(s);
    NumbersRead(raw, s);
    var head := raw[..6];
    assert raw[0] == head[0] && raw[1] == head[1] && raw[2] == head[2] && raw[3] == head[3] && raw[4] == head[4];
    DecodedFrom(raw, s);
  }

  lemma DecodedFrom(raw: seq<byte>, s: Slot)
    requires |raw| == SLOT_SIZE && |s.data| <= SLOT_PAYLOAD && s.kind != KIND_IDLE
    requires raw[0] == MAGIC0 && raw[1] == MAGIC1 && raw[2] == VERSION && raw[3] == s.kind && raw[4] == Flags(s.start, s.end)
    requires FromLe32(raw[6], raw[7], raw[8], raw[9]) == s.offset && FromLe32(raw[10], raw[11], raw[12], raw[13]) == s.totalLen
    requires DataLength(raw) == |s.data| && FromLe16(raw[16], raw[17]) == s.transferId
    requires raw[18..18 + |s.data|] == s.data
    ensures DecodeSlot(raw) == Ok(Some(s)) && DecodeSlotHost(raw) == Ok(Some(s))
  {
  }

  // Cutting a packet into slots

  /** What the encoders of the hosts take: lengths and offsets are 32 bits wide. */
  type Sendable = s: seq<byte> | |s| < U32_RANGE

  /** What the firmware holds. */
  type Bulk = s: seq<byte> | |s| <= PACKET_MAX

  function CutEnd(payload: Sendable, offset: nat): nat
    requires offset <= |payload|
  {
    if offset + SLOT_PAYLOAD < |payload| then offset + SLOT_PAYLOAD else |payload|
  }

  function SlotAt(kind: byte, id: u16, payload: Sendable, offset: nat): Slot
    requires offset <= |payload|
  {
    var end := CutEnd(payload, offset);
    Slot(kind, offset == 0, end == |payload|, id, offset, |payload|, payload[offset..end])
  }

  function SlotsFrom(kind: byte, id: u16, payload: Sendable, offset: nat): (slots: seq<Slot>)
    requires offset <= |payload|
    ensures forall i :: 0 <= i < |slots| ==> |slots[i].data| <= SLOT_PAYLOAD && slots[i].kind == kind
    decreases |payload| - offset
  {
    var end := CutEnd(payload, offset);
    [SlotAt(kind, id, payload, offset)] + if end == |payload| then [] else SlotsFrom(kind, id, payload, end)
  }

  function Raw(slots: seq<Slot>): (raws: seq<seq<byte>>)
    requires forall i :: 0 <= i < |slots| ==> |slots[i].data| <= SLOT_PAYLOAD
    ensures |raws| == |slots|
  {
    seq(|slots|, i requires 0 <= i < |slots| => EncodeSlot(slots[i]))
  }

  /** The slots of a packet, as they go over the bus. */
  function Slots(kind: byte, id: u16, payload: Sendable): seq<seq<byte>> {
    Raw(SlotsFrom(kind, id, payload, 0))
  }

  /** There are max(1, ceil(len / 14)) slots. */
  lemma {:induction false} SlotCount(kind: byte, id: u16, payload: Sendable, offset: nat)
    requires offset <= |payload|
    ensures |SlotsFrom(kind, id, payload, offset)| ==
            if offset == |payload| then 1 else (|payload| - offset + SLOT_PAYLOAD - 1) / SLOT_PAYLOAD
    decreases |payload| - offset
  {
    if CutEnd(payload, offset) < |payload| {
      SlotCount(kind, id, payload, offset + SLOT_PAYLOAD);
    }
  }

  lemma SlotsStep(kind: byte, id: u16, payload: Sendable, offset: nat)
    requires offset <= |payload|
    ensures Raw(SlotsFrom(kind, id, payload, offset)) ==
            [EncodeSlot(SlotAt(kind, id, payload, offset))]
            + if CutEnd(payload, offset) == |payload| then [] else Raw(SlotsFrom(kind, id, payload, CutEnd(payload, offset)))
  {
  }

  lemma OneSlotMore(out: seq<seq<byte>>, kind: byte, id: u16, payload: Sendable, offset: nat)
    requires offset <= |payload|
    ensures out + Raw(SlotsFrom(kind, id, payload, offset)) ==
            out + [EncodeSlot(SlotAt(kind, id, payload, offset))]
            + if CutEnd(payload, offset) == |payload| then [] else Raw(SlotsFrom(kind, id, payload, CutEnd(payload, offset)))
  {
    SlotsStep(kind, id, payload, offset);
  }

  /** The Rust host's loop. */
  method EncodeSlotsHost(kind: byte, id: u16, payload: Sendable) returns (out: seq<seq<byte>>)
    ensures out == Slots(kind, id, payload)
  {
    out := [];
    var offset, done := 0, false;
    while !done
      invariant offset <= |payload|
      invariant if done then out == Slots(kind, id, payload)
                else Slots(kind, id, payload) == out + Raw(SlotsFrom(kind, id, payload, offset))
      decreases !done, |payload| - offset
    {
      var end := if offset + SLOT_PAYLOAD < |payload| then offset + SLOT_PAYLOAD else |payload|;
      var slot := SlotAt(kind, id, payload, offset);
      OneSlotMore(out, kind, id, payload, offset);
      out := out + [EncodeSlot(slot)];
      if end >= |payload| {
        done := true;
      } else {
        offset := end;
      }
    }
  }

  /** The Python host's loop over offsets, with its own branch for empty packets. */
  method EncodeSlotsPython(kind: byte, id: u16, payload: Sendable) returns (out: seq<seq<byte>>)
    ensures out == Slots(kind, id, payload)
  {
    SlotsStep(kind, id, payload, 0);
    if payload == [] {
      return [EncodeSlot(Slot(kind, true, true, id, 0, 0, []))];
    }
    out := [];
    var offset := 0;
    while offset < |payload|
      invariant if offset < |payload| then Slots(kind, id, payload) == out + Raw(SlotsFrom(kind, id, payload, offset))
                else out == Slots(kind, id, payload)
      decreases |payload| - offset
    {
      OneSlotMore(out, kind, id, payload, offset);
      var stop := if offset + SLOT_PAYLOAD < |payload| then offset + SLOT_PAYLOAD else |payload|;
      var chunk := payload[offset..stop];
      out := out + [EncodeSlot(Slot(kind, offset == 0, offset + |chunk| >= |payload|, id, offset, |payload|, chunk))];
      offset := offset + SLOT_PAYLOAD;
    }
  }

  // The firmware's sender

  /** A staged packet and how far it has been sent. */
  datatype Sending = NothingStaged | Sending(kind: byte, id: u16, payload: Bulk, next: nat)

  const IDLE_SLOT: seq<byte> := Repeat(0, SLOT_SIZE)

  function AfterSlot(s: Sending): Sending
    requires s.Sending? ==> s.next <= |s.payload|
  {
    if s.NothingStaged? then s
    else
      var end := CutEnd(s.payload, s.next);
      if end == |s.payload| then NothingStaged else s.(next := end)
  }

  function SlotNow(s: Sending): seq<byte>
    requires s.Sending? ==> s.next <= |s.payload|
  {
    if s.NothingStaged? then IDLE_SLOT else EncodeSlot(SlotAt(s.kind, s.id, s.payload, s.next))
  }

  class TxPacketState {
    const payload: array<byte>
    var active: bool
    var kind: byte
    var transferId: u16
    var payloadLen: nat
    var nextOffset: nat

    predicate Valid()
      reads this
    {
      payload.Length == PACKET_MAX && nextOffset <= payloadLen <= PACKET_MAX
    }

    function State(): Sending
      requires Valid()
      reads this, payload
    {
      if active then Sending(kind, transferId, payload[..payloadLen], nextOffset) else NothingStaged
    }

    constructor ()
      ensures Valid() && State() == NothingStaged && fresh(payload)
    {
      payload := new byte[PACKET_MAX](_ => 0);
      active, kind, transferId, payloadLen, nextOffset := false, KIND_IDLE, 1, 0, 0;
    }

    method Reset()
      requires Valid()
      modifies this, payload
      ensures Valid() && !active && transferId == old(transferId) && nextOffset == 0
    {
      active, kind, payloadLen, nextOffset := false, KIND_IDLE, 0, 0;
      forall i | 0 <= i < payload.Length {
        payload[i] := 0;
      }
    }

    /** Stages a packet, cut off at 4096 bytes, over whatever was there. */
    method Stage(newKind: byte, id: u16, bytes: seq<byte>)
      requires Valid()
      modifies this, payload
      ensures Valid()
      ensures State() == Sending(newKind, id, if |bytes| <= PACKET_MAX then bytes else bytes[..PACKET_MAX], 0)
    {
      Reset();
      var len := if |bytes| <= PACKET_MAX then |bytes| else PACKET_MAX;
      active, kind, transferId, payloadLen := true, newKind, id, len;
      CopyInto(payload, 0, bytes[..len]);
      assert payload[..len] == bytes[..len];
    }

    method NextSlotBytes() returns (raw: seq<byte>)
      requires Valid()
      modifies this, payload
      ensures Valid() && raw == SlotNow(old(State())) && State() == AfterSlot(old(State()))
    {
      if !active {
        return IDLE_SLOT;
      }
      var offset := nextOffset;
      var remaining := payloadLen - offset;
      var dataLen := if remaining < SLOT_PAYLOAD then remaining else SLOT_PAYLOAD;
      var end := offset + dataLen;
      var slot := Slot(kind, offset == 0, end >= payloadLen, transferId, offset, payloadLen, payload[offset..end]);
      CutOfBuffer(payload[..], payloadLen, offset, end, slot);
      var frame := PutSlot(slot);
      raw := frame[..];
      if end >= payloadLen {
        Reset();
      } else {
        nextOffset := end;
      }
    }
  }

  /** The slot that is cut out of the buffer is the slot of the packet in the buffer. */
  lemma CutOfBuffer(buffer: seq<byte>, len: nat, offset: nat, end: nat, slot: Slot)
    requires offset <= len <= |buffer| && len <= PACKET_MAX
    requires end == offset + (if len - offset < SLOT_PAYLOAD then len - offset else SLOT_PAYLOAD)
    requires slot == Slot(slot.kind, offset == 0, end >= len, slot.transferId, offset, len, buffer[offset..end])
    ensures end == CutEnd(buffer[..len], offset) && |slot.data| <= SLOT_PAYLOAD
    ensures slot == SlotAt(slot.kind, slot.transferId, buffer[..len], offset)
  {
    assert buffer[..len][offset..end] == buffer[offset..end];
  }

  /** The first n slots that the firmware gives out. */
  function GivenOut(s: Sending, n: nat): seq<seq<byte>>
    requires s.Sending? ==> s.next <= |s.payload|
    decreases n
  {
    if n == 0 then [] else [SlotNow(s)] + GivenOut(AfterSlot(s), n - 1)
  }

  /** The firmware gives out exactly the slots of the staged packet, and then idle ones. */
  lemma {:induction false} FirmwareSlots(kind: byte, id: u16, payload: Bulk, offset: nat, idle: nat)
    requires offset <= |payload|
    ensures var slots := Raw(SlotsFrom(kind, id, payload, offset));
            GivenOut(Sending(kind, id, payload, offset), |slots| + idle) == slots + GivenOut(NothingStaged, idle)
    decreases |payload| - offset
  {
    SlotsStep(kind, id, payload, offset);
    var end := CutEnd(payload, offset);
    if end < |payload| {
      FirmwareSlots(kind, id, payload, end, idle);
    }
  }
}
