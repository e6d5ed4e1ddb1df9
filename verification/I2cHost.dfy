/** The Rust host's receiver of slots (host/i2c_backend.rs), and exactly where it differs from the firmware's. */
module I2cHost {
  import opened Bytes
  import opened Wrappers
  import opened I2cSlots
  import opened I2cTransfer
  import R = I2cReassembly
  import P = I2cPython

  /** What the firmware's receiver holds, as the host would hold it. */
  function View(f: R.Receiving): HostState {
    match f case Nothing => HOST_START case Receiving(kind, id, total, data, _) => HostState(true, kind, id, total, |data|, data)
  }

  predicate Follows(s: HostState, x: Slot) {
    s.active && x.kind == s.kind && x.transferId == s.id && x.offset == s.next
  }

  /** A START that is too long, not at offset 0 or with more data than it declares: the host takes it, the firmware
      does not. As an END it makes a difference if it is as long as it says. */
  predicate LooseStart(x: Slot) {
    && x.start && (x.totalLen > PACKET_MAX || x.offset != 0 || |x.data| > x.totalLen)
    && (x.end ==> |x.data| == x.totalLen)
  }

  /** A continuation that declares more than 4096 bytes or goes beyond the packet: likewise. */
  predicate LooseContinuation(s: HostState, x: Slot) {
    && !x.start && Follows(s, x) && (x.totalLen > PACKET_MAX || s.next + |x.data| > s.total)
    && (x.end ==> s.next + |x.data| == s.total)
  }

  predicate Divergent(s: HostState, x: Slot) {
    LooseStart(x) || LooseContinuation(s, x)
  }

  /** The same result for one slot, and if that leaves a packet in progress, the same packet. */
  predicate SameStep(f: R.Receiving, x: Slot, checked: nat, stamped: nat) {
    var (f', r) := R.PushSlot(f, R.Arrival(x, checked, stamped));
    var (s', q) := HostTake(View(f), x);
    P.SameResult(r, q) && (q == Waiting ==> View(f') == s')
  }

  lemma StepAgreesIff(f: R.Receiving, x: Slot, checked: nat, stamped: nat)
    requires P.InTime(f, checked)
    ensures SameStep(f, x, checked, stamped) <==> !Divergent(View(f), x)
  {
    if x.start {
      StartAgreesIff(f, x, checked, stamped);
    } else {
      ContinuationAgreesIff(f, x, checked, stamped);
    }
  }

  lemma StartAgreesIff(f: R.Receiving, x: Slot, checked: nat, stamped: nat)
    requires P.InTime(f, checked) && x.start
    ensures SameStep(f, x, checked, stamped) <==> !LooseStart(x)
  {
  }

  lemma ContinuationAgreesIff(f: R.Receiving, x: Slot, checked: nat, stamped: nat)
    requires P.InTime(f, checked) && !x.start
    ensures SameStep(f, x, checked, stamped) <==> !LooseContinuation(View(f), x)
  {
  }

  /** Whether the two receivers, from the same state on, have the same result for every slot up to the first one
      that ends the read, and hold the same packet in between. */
  predicate Agree(f: R.Receiving, s: HostState, writes: seq<BusWrite>)
    decreases |writes|
  {
    && View(f) == s
    && (writes == [] ||
        var (f', r) := Handle(f, writes[0]);
        var (s', q) := HostStep(s, Cut(writes[0].raw));
        P.SameResult(r, q) && (q == Waiting ==> Agree(f', s', writes[1..])))
  }

  /** An idle slot with a wrong magic, which only the host skips. */
  predicate StrayIdle(raw: seq<byte>) {
    |raw| == SLOT_SIZE && raw[3] == KIND_IDLE && !RightMagic(raw) && !Blank(raw)
  }

  /** Some slot, up to the first one that ends the read, is a stray idle one or one that only the host takes. */
  predicate Diverges(s: HostState, writes: seq<BusWrite>)
    decreases |writes|
  {
    && writes != []
    && var raw := Cut(writes[0].raw);
       StrayIdle(raw) ||
       match DecodeSlot(raw)
       case Err(_) => false
       case Ok(None) => Diverges(s, writes[1..])
       case Ok(Some(x)) => Divergent(s, x) || (HostTake(s, x).1 == Waiting && Diverges(HostTake(s, x).0, writes[1..]))
  }

  /** On every list of slots, broken and idle ones included, that arrive in time: the two receivers agree all the
      way up to the first result exactly if no slot up to there is one of these. */
  lemma {:induction false} ReceiversAgreeIff(f: R.Receiving, writes: seq<BusWrite>)
    requires P.Prompt(f, writes)
    ensures Agree(f, View(f), writes) <==> !Diverges(View(f), writes)
    decreases |writes|
  {
    if writes != [] {
      var w := writes[0];
      var raw := Cut(w.raw);
      if |raw| == SLOT_SIZE {
        DecodersAgreeIff(raw);
      }
      match DecodeSlot(raw) {
        case Err(_) =>
        case Ok(None) => ReceiversAgreeIff(f, writes[1..]);
        case Ok(Some(x)) =>
          StepAgreesIff(f, x, w.checked, w.stamped);
          ReceiversAgreeIff(Handle(f, w).0, writes[1..]);
      }
    }
  }

  /** Without such a slot, both read the same packet, or refuse, or wait. */
  lemma {:induction false} SameRead(f: R.Receiving, writes: seq<BusWrite>)
    requires Agree(f, View(f), writes)
    ensures P.SameResult(P.FirmwareRead(f, writes), HostRead(View(f), P.RawOf(writes)))
    decreases |writes|
  {
    if writes != [] {
      assert P.RawOf(writes)[1..] == P.RawOf(writes[1..]);
      var (f', r) := Handle(f, writes[0]);
      if r == R.More {
        SameRead(f', writes[1..]);
      }
    }
  }

  /** No slot of any sender is one of these to a host that has taken in the slots before it. */
  lemma SendersNeverDiverge(s: HostState, kind: byte, id: u16, payload: Bulk, offset: nat)
    requires offset <= |payload| && HostAt(s, kind, id, payload, offset)
    ensures !Divergent(s, SlotAt(kind, id, payload, offset))
  {
  }

  // One input of each kind

  lemma HostReadFirst(s: HostState, x: Slot, raws: seq<seq<byte>>)
    requires |x.data| <= SLOT_PAYLOAD && x.kind != KIND_IDLE
    ensures HostRead(s, [EncodeSlot(x)] + raws) ==
            if HostTake(s, x).1 == Waiting then HostRead(HostTake(s, x).0, raws) else HostTake(s, x).1
  {
    SlotRoundTrip(x);
    assert ([EncodeSlot(x)] + raws)[1..] == raws;
  }

  lemma HostTakesStartAnywhere(kind: byte, id: u16, data: seq<byte>, offset: u32)
    requires |data| <= SLOT_PAYLOAD && offset > 0 && kind != KIND_IDLE
    ensures var x := Slot(kind, true, true, id, offset, |data|, data);
            && HostRead(HOST_START, [EncodeSlot(x)] + []) == Complete(kind, data)
            && R.PushSlot(R.Nothing, R.Arrival(x, 0, 0)).1 == R.Refused
  {
    HostReadFirst(HOST_START, Slot(kind, true, true, id, offset, |data|, data), []);
  }

  /** Two slots that declare one byte and bring two: the host waits for an END. */
  lemma HostOverrunsLength(kind: byte, id: u16, a: byte, b: byte)
    requires kind != KIND_IDLE
    ensures var first, second := Slot(kind, true, false, id, 0, 1, [a]), Slot(kind, false, false, id, 1, 1, [b]);
            && HostRead(HOST_START, [EncodeSlot(first)] + ([EncodeSlot(second)] + [])) == Waiting
            && R.PushSlot(R.PushSlot(R.Nothing, R.Arrival(first, 0, 0)).0, R.Arrival(second, 0, 0)).1 == R.Refused
  {
    var first, second := Slot(kind, true, false, id, 0, 1, [a]), Slot(kind, false, false, id, 1, 1, [b]);
    HostReadFirst(HOST_START, first, [EncodeSlot(second)] + []);
    HostReadFirst(HostTake(HOST_START, first).0, second, []);
  }
}
