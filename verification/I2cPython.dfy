/** The Python host's receiver of slots (host/python/i2c/protocol.py), and exactly where it differs from the
    firmware's. */
module I2cPython {
  import opened Bytes
  import opened Wrappers
  import opened I2cSlots
  import opened I2cTransfer
  import R = I2cReassembly

  /** A packet in progress. */
  datatype PyState = PyState(kind: byte, id: u16, total: nat, next: nat, payload: seq<byte>)

  predicate CanStart(x: Slot) {
    x.start && x.offset == 0 && |x.data| <= x.totalLen
  }

  predicate Matches(a: PyState, x: Slot) {
    x.kind == a.kind && x.transferId == a.id && x.offset == a.next && |a.payload| + |x.data| <= a.total
  }

  /** What the assembly holds after a further slot: data is taken only away from offset 0. */
  function Taken(a: PyState, x: Slot): PyState {
    if x.offset != 0 then a.(next := a.next + |x.data|, payload := a.payload + x.data) else a
  }

  function PyPush(a: PyState, x: Slot): (PyState, HostResult) {
    if !Matches(a, x) then (a, Invalid)
    else
      (Taken(a, x),
       if !x.end then Waiting
       else if |Taken(a, x).payload| != a.total then Invalid
       else Complete(a.kind, Taken(a, x).payload))
  }

  /** The reassembly object. The source raises where `Invalid` is returned here. */
  class RxAssembly {
    const kind: byte
    const transferId: u16
    const totalLen: nat
    var nextOffset: nat
    var payload: seq<byte>

    function State(): PyState
      reads this
    {
      PyState(kind, transferId, totalLen, nextOffset, payload)
    }

    constructor (first: Slot)
      ensures State() == PyState(first.kind, first.transferId, first.totalLen, |first.data|, first.data)
    {
      kind, transferId, totalLen := first.kind, first.transferId, first.totalLen;
      nextOffset, payload := |first.data|, first.data;
    }

    method Push(x: Slot) returns (r: HostResult)
      modifies this
      ensures (State(), r) == PyPush(old(State()), x)
    {
      if x.kind != kind || x.transferId != transferId || x.offset != nextOffset || |payload| + |x.data| > totalLen {
        return Invalid;
      }
      if x.offset != 0 {
        payload := payload + x.data;
        nextOffset := nextOffset + |x.data|;
      }
      if x.end {
        return if |payload| != totalLen then Invalid else Complete(kind, payload);
      }
      return Waiting;
    }
  }

  /** The checks of the initialiser: without a proper START there is no assembly. */
  method NewAssembly(x: Slot) returns (assembly: RxAssembly?)
    ensures assembly != null <==> CanStart(x)
    ensures assembly != null ==>
              fresh(assembly) && assembly.State() == PyState(x.kind, x.transferId, x.totalLen, |x.data|, x.data)
  {
    if !x.start || x.offset != 0 || |x.data| > x.totalLen {
      return null;
    }
    assembly := new RxAssembly(x);
  }

  /** A slot that could be decoded, in the loop of `read_packet`. */
  function PyTake(s: Option<PyState>, x: Slot): (Option<PyState>, HostResult) {
    if x.start then
      if !CanStart(x) then (s, Invalid)
      else
        (Some(PyState(x.kind, x.transferId, x.totalLen, |x.data|, x.data)), if x.end then Complete(x.kind, x.data) else Waiting)
    else
      match s
      case None => (s, Invalid)
      case Some(a) => (Some(PyPush(a, x).0), PyPush(a, x).1)
  }

  function PyStep(s: Option<PyState>, raw: seq<byte>): (Option<PyState>, HostResult) {
    match DecodeSlot(raw)
    case Err(_) => (s, Invalid)
    case Ok(None) => (s, Waiting)
    case Ok(Some(x)) => PyTake(s, x)
  }

  function PyRead(s: Option<PyState>, raws: seq<seq<byte>>): HostResult
    decreases |raws|
  {
    if raws == [] then Waiting
    else
      var (s', r) := PyStep(s, raws[0]);
      if r == Waiting then PyRead(s', raws[1..]) else r
  }

  /** `read_packet`, for as many slots as the deadline leaves time for. */
  method ReadPacketPython(raws: seq<seq<byte>>) returns (r: HostResult)
    ensures r == PyRead(None, raws)
  {
    var assembly: RxAssembly? := null;
    for i := 0 to |raws|
      invariant assembly != null ==> fresh(assembly)
      invariant PyRead(None, raws) == PyRead(if assembly == null then None else Some(assembly.State()), raws[i..])
    {
      assert raws[i..][0] == raws[i] && raws[i..][1..] == raws[i + 1..];
      match DecodeSlot(raws[i]) {
        case Err(_) => return Invalid;
        case Ok(None) =>
        case Ok(Some(x)) =>
          if x.start {
            var started := NewAssembly(x);
            if started == null {
              return Invalid;
            }
            assembly := started;
            if x.end {
              return Complete(x.kind, x.data);
            }
          } else {
            if assembly == null {
              return Invalid;
            }
            var got := assembly.Push(x);
            if got != Waiting {
              return got;
            }
          }
      }
    }
    return Waiting;
  }

  // Packets of the senders

  predicate PyAt(s: Option<PyState>, kind: byte, id: u16, payload: Bulk, offset: nat)
    requires offset <= |payload|
  {
    offset == 0 || s == Some(PyState(kind, id, |payload|, offset, payload[..offset]))
  }

  lemma PyTakes(s: Option<PyState>, kind: byte, id: u16, payload: Bulk, offset: nat)
    requires offset <= |payload| && (offset == |payload| ==> payload == []) && PyAt(s, kind, id, payload, offset)
    ensures var end := CutEnd(payload, offset);
            var (s', r) := PyTake(s, SlotAt(kind, id, payload, offset));
            if end == |payload| then r == Complete(kind, payload) else r == Waiting && PyAt(s', kind, id, payload, end)
  {
    var end := CutEnd(payload, offset);
    assert payload[..offset] + payload[offset..end] == payload[..end];
    assert payload[..|payload|] == payload && payload[0..end] == payload[..end];
  }

  lemma {:induction false} PythonReadsFrom(s: Option<PyState>, kind: byte, id: u16, payload: Bulk, offset: nat, raws: seq<seq<byte>>)
    requires kind != KIND_IDLE && offset <= |payload| && (offset == |payload| ==> payload == [])
    requires PyAt(s, kind, id, payload, offset) && Among(raws, Raw(SlotsFrom(kind, id, payload, offset)))
    ensures PyRead(s, raws) == Complete(kind, payload)
    decreases |raws|
  {
    FirstAmong(raws, kind, id, payload, offset);
    if IsIdle(raws[0]) {
      PythonReadsFrom(s, kind, id, payload, offset, raws[1..]);
    } else {
      SlotRoundTrip(SlotAt(kind, id, payload, offset));
      PyTakes(s, kind, id, payload, offset);
      var end := CutEnd(payload, offset);
      if end < |payload| {
        PythonReadsFrom(PyStep(s, raws[0]).0, kind, id, payload, end, raws[1..]);
      }
    }
  }

  /** The Python host puts any packet together again from its slots, among idle slots. */
  lemma PythonReads(kind: byte, id: u16, payload: Bulk, raws: seq<seq<byte>>)
    requires kind != KIND_IDLE && Among(raws, Slots(kind, id, payload))
    ensures PyRead(None, raws) == Complete(kind, payload)
  {
    PythonReadsFrom(None, kind, id, payload, 0, raws);
  }

  // Agreement with the firmware's receiver

  /** A packet in one slot that is shorter than it says: Python returns it, the firmware refuses it. */
  predicate ShortPacket(x: Slot) {
    CanStart(x) && x.end && |x.data| < x.totalLen <= PACKET_MAX
  }

  /** A declared length above 4096 in a slot that is otherwise in order: Python does not mind, the firmware does. */
  predicate Oversized(s: Option<PyState>, x: Slot) {
    && x.totalLen > PACKET_MAX
    && (if x.start then CanStart(x)
        else s.Some? && Matches(s.value, x) && (x.end ==> |Taken(s.value, x).payload| == s.value.total))
  }

  /** Data at offset 0 that continues a START without data: Python drops it, the firmware takes it. As an END it
      makes a difference if it completes the packet. */
  predicate DataAtZero(s: Option<PyState>, x: Slot) {
    && x.totalLen <= PACKET_MAX && !x.start && s.Some? && Matches(s.value, x)
    && x.offset == 0 && x.data != [] && (x.end ==> |x.data| == s.value.total)
  }

  predicate Divergent(s: Option<PyState>, x: Slot) {
    ShortPacket(x) || Oversized(s, x) || DataAtZero(s, x)
  }

  /** What the firmware's receiver holds, as the Python receiver would hold it. */
  function View(f: R.Receiving): Option<PyState> {
    match f case Nothing => None case Receiving(kind, id, total, data, _) => Some(PyState(kind, id, total, |data|, data))
  }

  predicate SameResult(r: R.Outcome, q: HostResult) {
    match r
    case More => q == Waiting
    case Refused => q == Invalid
    case Packet(kind, _, payload) => q == Complete(kind, payload)
  }

  /** The same result for one slot, and if that leaves a packet in progress, the same packet. */
  predicate SameStep(f: R.Receiving, x: Slot, checked: nat, stamped: nat) {
    var (f', r) := R.PushSlot(f, R.Arrival(x, checked, stamped));
    var (s', q) := PyTake(View(f), x);
    SameResult(r, q) && (q == Waiting ==> View(f') == s')
  }

  predicate InTime(f: R.Receiving, checked: nat) {
    f.Receiving? ==> checked - f.touched < R.PARTIAL_PACKET_TIMEOUT
  }

  lemma StartAgreesIff(f: R.Receiving, x: Slot, checked: nat, stamped: nat)
    requires InTime(f, checked) && x.start
    ensures SameStep(f, x, checked, stamped) <==> !Divergent(View(f), x)
  {
  }

  lemma ContinuationAgreesIff(f: R.Receiving, x: Slot, checked: nat, stamped: nat)
    requires InTime(f, checked) && !x.start
    ensures SameStep(f, x, checked, stamped) <==> !Divergent(View(f), x)
  {
    if f.Receiving? && Matches(View(f).value, x) {
      assert x.data == [] ==> f.data + x.data == f.data;
      assert f.data == [] ==> f.data + x.data == x.data;
    }
  }

  /** Whether the two receivers, from the same state on, have the same result for every slot up to the first one
      that ends the read, and hold the same packet in between. */
  predicate Agree(f: R.Receiving, s: Option<PyState>, writes: seq<BusWrite>)
    decreases |writes|
  {
    && View(f) == s
    && (writes == [] ||
        var (f', r) := Handle(f, writes[0]);
        var (s', q) := PyStep(s, Cut(writes[0].raw));
        SameResult(r, q) && (q == Waiting ==> Agree(f', s', writes[1..])))
  }

  /** No slot is handled 50 ms or more after the one before. */
  predicate Prompt(f: R.Receiving, writes: seq<BusWrite>)
    decreases |writes|
  {
    writes != [] ==> InTime(f, writes[0].checked) && Prompt(Handle(f, writes[0]).0, writes[1..])
  }

  /** Some slot, up to the first one that ends the read, is one of the three kinds. */
  predicate Diverges(s: Option<PyState>, writes: seq<BusWrite>)
    decreases |writes|
  {
    && writes != []
    && match DecodeSlot(Cut(writes[0].raw))
       case Err(_) => false
       case Ok(None) => Diverges(s, writes[1..])
       case Ok(Some(x)) => Divergent(s, x) || (PyTake(s, x).1 == Waiting && Diverges(PyTake(s, x).0, writes[1..]))
  }

  /** On every list of slots, broken and idle ones included, that arrive in time: the two receivers agree all the
      way up to the first result exactly if no slot up to there is one of the three kinds. */
  lemma {:induction false} ReceiversAgreeIff(f: R.Receiving, writes: seq<BusWrite>)
    requires Prompt(f, writes)
    ensures Agree(f, View(f), writes) <==> !Diverges(View(f), writes)
    decreases |writes|
  {
    if writes != [] {
      var w := writes[0];
      match DecodeSlot(Cut(w.raw)) {
        case Err(_) =>
        case Ok(None) => ReceiversAgreeIff(f, writes[1..]);
        case Ok(Some(x)) =>
          if x.start {
            StartAgreesIff(f, x, w.checked, w.stamped);
          } else {
            ContinuationAgreesIff(f, x, w.checked, w.stamped);
          }
          ReceiversAgreeIff(Handle(f, w).0, writes[1..]);
      }
    }
  }

  /** The firmware's first result, in the host's terms. */
  function FirmwareRead(f: R.Receiving, writes: seq<BusWrite>): R.Outcome
    decreases |writes|
  {
    if writes == [] then R.More
    else
      var (f', r) := Handle(f, writes[0]);
      if r == R.More then FirmwareRead(f', writes[1..]) else r
  }

  function RawOf(writes: seq<BusWrite>): (raws: seq<seq<byte>>)
    ensures |raws| == |writes|
  {
    seq(|writes|, i requires 0 <= i < |writes| => Cut(writes[i].raw))
  }

  /** Without such a slot, both read the same packet, or refuse, or wait. */
  lemma {:induction false} SameRead(f: R.Receiving, writes: seq<BusWrite>)
    requires Agree(f, View(f), writes)
    ensures SameResult(FirmwareRead(f, writes), PyRead(View(f), RawOf(writes)))
    decreases |writes|
  {
    if writes != [] {
      assert RawOf(writes)[1..] == RawOf(writes[1..]);
      var (f', r) := Handle(f, writes[0]);
      if r == R.More {
        SameRead(f', writes[1..]);
      }
    }
  }

  /** A disagreement never stays hidden: the results differ at once, or for an empty slot that follows. */
  lemma DivergenceShows(f: R.Receiving, x: Slot, at: nat)
    requires Divergent(View(f), x) && InTime(f, at) && |x.data| <= SLOT_PAYLOAD
    ensures var (f', r) := R.PushSlot(f, R.Arrival(x, at, at));
            var (s', q) := PyTake(View(f), x);
            var y := Slot(x.kind, false, false, x.transferId, |x.data|, x.totalLen, []);
            !SameResult(r, q) || (q == Waiting && !SameResult(R.PushSlot(f', R.Arrival(y, at, at)).1, PyTake(s', y).1))
  {
    if x.start {
      StartAgreesIff(f, x, at, at);
    } else {
      ContinuationAgreesIff(f, x, at, at);
      assert f.data == [] ==> f.data + x.data == x.data;
    }
  }

  /** No slot of any sender is one of the three kinds, whatever the receiver holds. */
  lemma SendersNeverDiverge(s: Option<PyState>, kind: byte, id: u16, payload: Bulk, offset: nat)
    requires offset <= |payload|
    ensures !Divergent(s, SlotAt(kind, id, payload, offset))
  {
  }

  // One input of each kind

  lemma PyReadFirst(s: Option<PyState>, x: Slot, raws: seq<seq<byte>>)
    requires |x.data| <= SLOT_PAYLOAD && x.kind != KIND_IDLE
    ensures PyRead(s, [EncodeSlot(x)] + raws) ==
            if PyTake(s, x).1 == Waiting then PyRead(PyTake(s, x).0, raws) else PyTake(s, x).1
  {
    SlotRoundTrip(x);
    assert ([EncodeSlot(x)] + raws)[1..] == raws;
  }

  lemma PythonDropsDataAfterEmptyStart(kind: byte, id: u16, data: seq<byte>)
    requires 0 < |data| <= SLOT_PAYLOAD && kind != KIND_IDLE
    ensures var first, second := Slot(kind, true, false, id, 0, |data|, []), Slot(kind, false, true, id, 0, |data|, data);
            && PyRead(None, [EncodeSlot(first)] + ([EncodeSlot(second)] + [])) == Invalid
            && R.PushSlot(R.PushSlot(R.Nothing, R.Arrival(first, 0, 0)).0, R.Arrival(second, 0, 0)).1 == R.Packet(kind, id, data)
  {
    var first, second := Slot(kind, true, false, id, 0, |data|, []), Slot(kind, false, true, id, 0, |data|, data);
    PyReadFirst(None, first, [EncodeSlot(second)] + []);
    PyReadFirst(PyTake(None, first).0, second, []);
    assert [] + data == data;
  }

  lemma PythonReturnsShortPacket(kind: byte, id: u16, data: seq<byte>, total: u32)
    requires |data| <= SLOT_PAYLOAD && |data| < total <= PACKET_MAX && kind != KIND_IDLE
    ensures var x := Slot(kind, true, true, id, 0, total, data);
            && PyRead(None, [EncodeSlot(x)] + []) == Complete(kind, data)
            && R.PushSlot(R.Nothing, R.Arrival(x, 0, 0)).1 == R.Refused
  {
    PyReadFirst(None, Slot(kind, true, true, id, 0, total, data), []);
  }

  lemma PythonTakesOversizedStart(kind: byte, id: u16, data: seq<byte>, total: u32)
    requires |data| <= SLOT_PAYLOAD && total > PACKET_MAX && kind != KIND_IDLE
    ensures var x := Slot(kind, true, false, id, 0, total, data);
            && PyRead(None, [EncodeSlot(x)] + []) == Waiting
            && R.PushSlot(R.Nothing, R.Arrival(x, 0, 0)).1 == R.Refused
  {
    PyReadFirst(None, Slot(kind, true, false, id, 0, total, data), []);
  }
}
