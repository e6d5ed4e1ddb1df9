/** The firmware's receiver of slots (src/bridge/i2c_task.rs): what it accepts as a packet, whatever
    slots arrive at whatever times. Times are microseconds. */
module I2cReassembly {
  import opened Bytes
  import opened Wrappers
  import opened I2cSlots

  const PARTIAL_PACKET_TIMEOUT := 50_000

  /** A slot, with the two readings of the clock that the receiver takes while handling it. */
  datatype Arrival = Arrival(slot: Slot, checked: nat, stamped: nat)

  /** A packet in progress, or none. */
  datatype Receiving =
    | Nothing
    | Receiving(kind: byte, id: u16, total: nat, data: seq<byte>, touched: nat)

  datatype Outcome = Refused | More | Packet(kind: byte, id: u16, payload: seq<byte>)

  function Fresh(s: Receiving, now: nat): Receiving {
    if s.Receiving? && now - s.touched >= PARTIAL_PACKET_TIMEOUT then Nothing else s
  }

  /** After the slot's data has been taken: the packet is complete, refused, or goes on. */
  function Close(s: Receiving, end: bool): (Receiving, Outcome)
    requires s.Receiving?
  {
    if !end then (s, More)
    else if |s.data| != s.total then (Nothing, Refused)
    else (Nothing, Packet(s.kind, s.id, s.data))
  }

  function PushSlot(s: Receiving, a: Arrival): (Receiving, Outcome) {
    var s, x := Fresh(s, a.checked), a.slot;
    if x.totalLen > PACKET_MAX then (Nothing, Refused)
    else if x.start then
      if x.offset != 0 || |x.data| > x.totalLen then (Nothing, Refused)
      else Close(Receiving(x.kind, x.transferId, x.totalLen, x.data, a.stamped), x.end)
    else if s.Nothing? then (s, Refused)
    else if x.kind != s.kind || x.transferId != s.id || x.offset != |s.data| || |s.data| + |x.data| > s.total then (Nothing, Refused)
    else Close(s.(data := s.data + x.data, touched := a.stamped), x.end)
  }

  /** The receiver object, over a fixed buffer of 4096 bytes. */
  class RxPacketState {
    const payload: array<byte>
    var active: bool
    var kind: byte
    var transferId: u16
    var totalLen: nat
    var nextOffset: nat
    var startedAt: Option<nat>

    predicate Valid()
      reads this
    {
      payload.Length == PACKET_MAX && nextOffset <= PACKET_MAX
      && (active ==> nextOffset <= totalLen <= PACKET_MAX && startedAt.Some?)
    }

    function State(): Receiving
      requires Valid()
      reads this, payload
    {
      if active then Receiving(kind, transferId, totalLen, payload[..nextOffset], startedAt.value) else Nothing
    }

    constructor ()
      ensures Valid() && State() == Nothing && fresh(payload)
    {
      payload := new byte[PACKET_MAX](_ => 0);
      active, kind, transferId, totalLen, nextOffset, startedAt := false, KIND_IDLE, 0, 0, 0, None;
    }

    method Reset()
      requires Valid()
      modifies this, payload
      ensures Valid() && State() == Nothing
    {
      active, kind, transferId, totalLen, nextOffset, startedAt := false, KIND_IDLE, 0, 0, 0, None;
      forall i | 0 <= i < payload.Length {
        payload[i] := 0;
      }
    }

    method ResetIfStale(now: nat)
      requires Valid()
      modifies this, payload
      ensures Valid() && State() == Fresh(old(State()), now)
    {
      if active && now - startedAt.value >= PARTIAL_PACKET_TIMEOUT {
        Reset();
      }
    }

    method Begin(x: Slot, stamped: nat)
      requires Valid() && |x.data| <= x.totalLen <= PACKET_MAX
      modifies this, payload
      ensures Valid() && State() == Receiving(x.kind, x.transferId, x.totalLen, x.data, stamped)
    {
      active, kind, transferId, totalLen, nextOffset, startedAt := true, x.kind, x.transferId, x.totalLen, |x.data|, Some(stamped);
      CopyInto(payload, 0, x.data);
      assert payload[..nextOffset] == x.data;
    }

    method Continue(x: Slot, stamped: nat)
      requires Valid() && active && nextOffset + |x.data| <= totalLen
      modifies this, payload
      ensures Valid() && State() == Receiving(old(kind), old(transferId), old(totalLen), old(payload[..nextOffset]) + x.data, stamped)
    {
      ghost var was := payload[..nextOffset];
      CopyInto(payload, nextOffset, x.data);
      nextOffset := nextOffset + |x.data|;
      startedAt := Some(stamped);
      assert payload[..nextOffset] == was + x.data;
    }

    /** On completion the packet is the given number of bytes of the buffer. */
    method Push(a: Arrival) returns (r: Outcome)
      requires Valid()
      modifies this, payload
      ensures Valid() && (State(), r) == PushSlot(old(State()), a)
      ensures r.Packet? ==> |r.payload| <= PACKET_MAX && payload[..|r.payload|] == r.payload
    {
      var x := a.slot;
      ResetIfStale(a.checked);
      if x.totalLen > PACKET_MAX {
        Reset();
        return Refused;
      }
      if x.start {
        Reset();
        if x.offset != 0 || |x.data| > x.totalLen {
          return Refused;
        }
        Begin(x, a.stamped);
      } else {
        if !active {
          return Refused;
        }
        if x.kind != kind || x.transferId != transferId || x.offset != nextOffset || nextOffset + |x.data| > totalLen {
          Reset();
          return Refused;
        }
        Continue(x, a.stamped);
      }
      if !x.end {
        return More;
      }
      if nextOffset != totalLen {
        Reset();
        return Refused;
      }
      r := Packet(kind, transferId, payload[..totalLen]);
      active, kind, transferId, totalLen, nextOffset, startedAt := false, KIND_IDLE, 0, 0, 0, None;
    }
  }

  // Whole runs

  /** What happens to the receiver: slots, and resets by the bus recovery or by the switch to version 2. */
  datatype Event = Push(a: Arrival) | Clear

  function Next(s: Receiving, e: Event): (Receiving, Outcome) {
    match e case Push(a) => PushSlot(s, a) case Clear => (Nothing, More)
  }

  function Run(events: seq<Event>): Receiving {
    if events == [] then Nothing else Next(Run(events[..|events| - 1]), events[|events| - 1]).0
  }

  /** The pushes since the last START or reset, one after the other. */
  function Trail(events: seq<Event>): seq<Arrival> {
    if events == [] then []
    else
      match events[|events| - 1]
      case Clear => []
      case Push(a) => if a.slot.start then [a] else Trail(events[..|events| - 1]) + [a]
  }

  function Joined(trail: seq<Arrival>): seq<byte> {
    if trail == [] then [] else Joined(trail[..|trail| - 1]) + trail[|trail| - 1].slot.data
  }

  /** Slot k continues what the slots before it have brought, in time. */
  predicate Continues(trail: seq<Arrival>, k: nat)
    requires 0 < k < |trail|
  {
    var x := trail[k].slot;
    && !x.start && x.offset == |Joined(trail[..k])|
    && x.kind == trail[0].slot.kind && x.transferId == trail[0].slot.transferId
    && trail[k].checked - trail[k - 1].stamped < PARTIAL_PACKET_TIMEOUT
  }

  /** One uninterrupted run of slots of one transfer, of which only the last may be an END. */
  predicate OneTransfer(trail: seq<Arrival>) {
    && trail != [] && trail[0].slot.start && trail[0].slot.offset == 0
    && (forall k :: 0 < k < |trail| ==> Continues(trail, k))
    && (forall k :: 0 <= k < |trail| - 1 ==> !trail[k].slot.end)
    && |Joined(trail)| <= trail[0].slot.totalLen <= PACKET_MAX
  }

  predicate Inv(s: Receiving, trail: seq<Arrival>) {
    s.Receiving? ==>
      && OneTransfer(trail) && !trail[|trail| - 1].slot.end
      && s == Receiving(trail[0].slot.kind, trail[0].slot.transferId, trail[0].slot.totalLen,
                        Joined(trail), trail[|trail| - 1].stamped)
  }

  function NextTrail(trail: seq<Arrival>, a: Arrival): seq<Arrival> {
    if a.slot.start then [a] else trail + [a]
  }

  lemma JoinedAppend(trail: seq<Arrival>, a: Arrival)
    ensures Joined(trail + [a]) == Joined(trail) + a.slot.data
  {
    assert (trail + [a])[..|trail|] == trail;
  }

  lemma Extended(trail: seq<Arrival>, a: Arrival)
    requires OneTransfer(trail) && !trail[|trail| - 1].slot.end && Continues(trail + [a], |trail|)
    requires |Joined(trail + [a])| <= trail[0].slot.totalLen
    ensures OneTransfer(trail + [a])
  {
    var longer := trail + [a];
    forall k | 0 < k < |longer|
      ensures Continues(longer, k)
    {
      if k < |trail| {
        assert Continues(trail, k) && longer[..k] == trail[..k];
      }
    }
  }

  /** A packet is complete only as the whole of one transfer that ends at its declared length. */
  lemma PushKeeps(s: Receiving, trail: seq<Arrival>, a: Arrival)
    requires Inv(s, trail)
    ensures var (s', r) := PushSlot(s, a);
            var trail' := NextTrail(trail, a);
            && Inv(s', trail')
            && (r.Packet? ==>
                  && OneTransfer(trail') && a.slot.end && r.payload == Joined(trail')
                  && |r.payload| == trail'[0].slot.totalLen
                  && r.kind == trail'[0].slot.kind && r.id == trail'[0].slot.transferId)
  {
    if a.slot.start {
      JoinedAppend([], a);
      assert [] + [a] == [a] && [] + a.slot.data == a.slot.data;
    } else if PushSlot(s, a).1 != Refused {
      JoinedAppend(trail, a);
      assert (trail + [a])[..|trail|] == trail;
      Extended(trail, a);
    }
  }

  lemma {:induction false} Invariant(events: seq<Event>)
    ensures Inv(Run(events), Trail(events))
  {
    if events != [] {
      Invariant(events[..|events| - 1]);
      match events[|events| - 1] {
        case Clear =>
        case Push(a) => PushKeeps(Run(events[..|events| - 1]), Trail(events[..|events| - 1]), a);
      }
    }
  }

  /** Whatever slots arrive and whenever: a completed packet is the concatenation of one consecutive run of
      pushed slots of a single transfer, from its START at offset 0, each at the offset reached so far and
      less than 50 ms after the one before, to an END at exactly the length declared by the START. */
  lemma ReassemblySafe(events: seq<Event>, a: Arrival)
    requires PushSlot(Run(events), a).1.Packet?
    ensures var r := PushSlot(Run(events), a).1;
            var trail := Trail(events + [Push(a)]);
            && OneTransfer(trail) && trail[|trail| - 1] == a && a.slot.end
            && r == Packet(trail[0].slot.kind, trail[0].slot.transferId, Joined(trail))
            && |r.payload| == trail[0].slot.totalLen <= PACKET_MAX
  {
    assert (events + [Push(a)])[..|events|] == events;
    Invariant(events);
    PushKeeps(Run(events), Trail(events), a);
  }
}
