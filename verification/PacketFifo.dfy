/** What the byte-backed mailboxes of src/bridge/overwrite_queue.rs are meant to be: a first-in,
    first-out queue of packets, bounded in number and in bytes, with two policies on overflow. */
module PacketFifo {
  import opened Bytes
  import opened Wrappers

  const MAX_PAYLOAD := 4096

  /** The kinds of packets on the UART: bridged data, and local commands and their replies. */
  const DATA_KIND: byte := 0xa5
  const REPLY_KIND: byte := 0xa6

  datatype RawPacket = RawPacket(kind: byte, payload: seq<byte>)

  type Packet = p: RawPacket | |p.payload| <= MAX_PAYLOAD witness RawPacket(0, [])

  /** The form in which a packet is queued: its kind, then its payload. */
  function Queued(p: Packet): (s: seq<byte>)
    ensures |s| == 1 + |p.payload|
  {
    [p.kind] + p.payload
  }

  /** The item trait as src/bridge/uart_mailbox.rs implements it: the bytes come in one or two slices. */
  function FromQueuedSlices(first: seq<byte>, second: seq<byte>): Option<Packet> {
    var bytes := first + second;
    if bytes == [] || |bytes| > MAX_PAYLOAD + 1 then None else Some(RawPacket(bytes[0], bytes[1..]))
  }

  /** The same for the I2C packets of src/bridge/i2c_task.rs, whose payload vector holds 4096 bytes. */
  function FromQueuedSlicesI2c(first: seq<byte>, second: seq<byte>): Option<Packet> {
    if first == [] && second == [] then None
    else if first == [] then (if |second| - 1 > MAX_PAYLOAD then None else Some(RawPacket(second[0], second[1..])))
    else if |first| - 1 > MAX_PAYLOAD || |first| - 1 + |second| > MAX_PAYLOAD then None
    else Some(RawPacket(first[0], first[1..] + second))
  }

  /** Wherever the ring wraps, both implementations give back the packet that was queued. */
  lemma QueuedRoundTrip(p: Packet, cut: nat)
    requires cut <= |Queued(p)|
    ensures FromQueuedSlices(Queued(p)[..cut], Queued(p)[cut..]) == Some(p)
    ensures FromQueuedSlicesI2c(Queued(p)[..cut], Queued(p)[cut..]) == Some(p)
  {
    var first, second := Queued(p)[..cut], Queued(p)[cut..];
    assert first + second == Queued(p) && Queued(p)[1..] == p.payload;
    if cut > 0 {
      assert first[1..] + second == p.payload;
    }
  }

  /** Two packets with the same queued form are the same. */
  lemma QueuedInjective(p: Packet, q: Packet)
    requires Queued(p) == Queued(q)
    ensures p == q
  {
    assert p.kind == Queued(p)[0] && p.payload == Queued(p)[1..];
    assert q.kind == Queued(q)[0] && q.payload == Queued(q)[1..];
  }

  function Total(q: seq<Packet>): nat {
    if q == [] then 0 else |Queued(q[0])| + Total(q[1..])
  }

  lemma {:induction false} TotalAppend(q: seq<Packet>, p: Packet)
    ensures Total(q + [p]) == Total(q) + |Queued(p)|
  {
    if q == [] {
      assert q + [p] == [p];
    } else {
      assert (q + [p])[1..] == q[1..] + [p];
      TotalAppend(q[1..], p);
    }
  }

  /** A mailbox for at most `slots` packets and `bytes` bytes. */
  datatype Limits = Limits(slots: nat, bytes: nat)

  predicate Fits(q: seq<Packet>, len: nat, limits: Limits) {
    len > 0 && |q| < limits.slots && len <= limits.bytes - Total(q)
  }

  /** Whether a packet of that size can ever be queued. */
  predicate Admissible(len: nat, limits: Limits) {
    0 < len <= limits.bytes && limits.slots > 0
  }

  lemma EmptyFits(len: nat, limits: Limits)
    ensures Admissible(len, limits) <==> Fits([], len, limits)
  {
  }

  /** How many of the oldest packets are dropped to make room. */
  function Evicted(q: seq<Packet>, len: nat, limits: Limits): nat {
    if Fits(q, len, limits) || q == [] then 0 else 1 + Evicted(q[1..], len, limits)
  }

  /** The shortest prefix whose removal makes room, and no more, is dropped. */
  lemma {:induction false} EvictedIsLeast(q: seq<Packet>, len: nat, limits: Limits)
    requires Admissible(len, limits)
    ensures var k := Evicted(q, len, limits);
            k <= |q| && Fits(q[k..], len, limits) && forall j :: 0 <= j < k ==> !Fits(q[j..], len, limits)
  {
    assert q[0..] == q;
    if !Fits(q, len, limits) && q != [] {
      EvictedIsLeast(q[1..], len, limits);
      var k := Evicted(q[1..], len, limits);
      assert q[1..][k..] == q[k + 1..];
      forall j | 0 <= j < k + 1
        ensures !Fits(q[j..], len, limits)
      {
        if j > 0 {
          assert q[j..] == q[1..][j - 1..];
        }
      }
    }
  }

  // The operations on the queue as a sequence.

  function Pushed(q: seq<Packet>, p: Packet, limits: Limits): seq<Packet> {
    if Fits(q, |Queued(p)|, limits) then q + [p] else q
  }

  function Overwritten(q: seq<Packet>, p: Packet, limits: Limits): seq<Packet>
    requires Evicted(q, |Queued(p)|, limits) <= |q|
  {
    if Admissible(|Queued(p)|, limits) then q[Evicted(q, |Queued(p)|, limits)..] + [p] else q
  }

  lemma {:induction false} EvictedBound(q: seq<Packet>, len: nat, limits: Limits)
    ensures Evicted(q, len, limits) <= |q|
  {
    if !Fits(q, len, limits) && q != [] {
      EvictedBound(q[1..], len, limits);
    }
  }

  // Conservation over runs

  datatype Op = TryPush(p: Packet) | PushOverwrite(p: Packet) | TryPop

  datatype Removal = Popped(p: Packet) | Dropped(p: Packet)

  /** A mailbox with a record of everything it accepted and everything that left it, in order. */
  datatype Ledger = Ledger(queue: seq<Packet>, accepted: seq<Packet>, removed: seq<Removal>)

  function Drops(q: seq<Packet>): (r: seq<Removal>)
    ensures |r| == |q|
  {
    seq(|q|, i requires 0 <= i < |q| => Dropped(q[i]))
  }

  function Apply(s: Ledger, op: Op, limits: Limits): Ledger {
    match op
    case TryPush(p) =>
      if Fits(s.queue, |Queued(p)|, limits) then Ledger(Pushed(s.queue, p, limits), s.accepted + [p], s.removed) else s
    case PushOverwrite(p) =>
      EvictedBound(s.queue, |Queued(p)|, limits);
      if Admissible(|Queued(p)|, limits) then
        Ledger(Overwritten(s.queue, p, limits), s.accepted + [p],
               s.removed + Drops(s.queue[..Evicted(s.queue, |Queued(p)|, limits)]))
      else s
    case TryPop =>
      if s.queue == [] then s else Ledger(s.queue[1..], s.accepted, s.removed + [Popped(s.queue[0])])
  }

  function ApplyAll(ops: seq<Op>, limits: Limits): Ledger {
    if ops == [] then Ledger([], [], []) else Apply(ApplyAll(ops[..|ops| - 1], limits), ops[|ops| - 1], limits)
  }

  function Packets(r: seq<Removal>): (q: seq<Packet>)
    ensures |q| == |r|
  {
    seq(|r|, i requires 0 <= i < |r| => r[i].p)
  }

  predicate Lossless(ops: seq<Op>) {
    forall i :: 0 <= i < |ops| ==> !ops[i].PushOverwrite?
  }

  /** In every run, what was accepted is what was popped or evicted, in order, followed by what is still
      there; and without overwriting pushes nothing is ever evicted. */
  lemma {:induction false} Conservation(ops: seq<Op>, limits: Limits)
    ensures var s := ApplyAll(ops, limits);
            && s.accepted == Packets(s.removed) + s.queue
            && Total(s.queue) <= limits.bytes && |s.queue| <= limits.slots
            && (Lossless(ops) ==> forall i :: 0 <= i < |s.removed| ==> s.removed[i].Popped?)
  {
    if ops != [] {
      var n := |ops| - 1;
      var before := ApplyAll(ops[..n], limits);
      Conservation(ops[..n], limits);
      ApplyConserves(before, ops[n], limits);
    }
  }

  lemma OverwriteConserves(s: Ledger, p: Packet, limits: Limits)
    requires s.accepted == Packets(s.removed) + s.queue && Admissible(|Queued(p)|, limits)
    ensures var s' := Apply(s, PushOverwrite(p), limits);
            && s'.accepted == Packets(s'.removed) + s'.queue
            && Total(s'.queue) <= limits.bytes && |s'.queue| <= limits.slots
  {
    EvictedIsLeast(s.queue, |Queued(p)|, limits);
    var k := Evicted(s.queue, |Queued(p)|, limits);
    TotalAppend(s.queue[k..], p);
    DropsConserve(s.removed, s.queue, k, p);
  }

  lemma DropsConserve(removed: seq<Removal>, q: seq<Packet>, k: nat, p: Packet)
    requires k <= |q|
    ensures Packets(removed) + q + [p] == Packets(removed + Drops(q[..k])) + (q[k..] + [p])
  {
    assert Packets(removed + Drops(q[..k])) == Packets(removed) + q[..k];
    assert q == q[..k] + q[k..];
  }

  lemma ApplyConserves(s: Ledger, op: Op, limits: Limits)
    requires s.accepted == Packets(s.removed) + s.queue
    requires Total(s.queue) <= limits.bytes && |s.queue| <= limits.slots
    ensures var s' := Apply(s, op, limits);
            && s'.accepted == Packets(s'.removed) + s'.queue
            && Total(s'.queue) <= limits.bytes && |s'.queue| <= limits.slots
  {
    match op {
      case TryPush(p) =>
        TotalAppend(s.queue, p);
      case PushOverwrite(p) =>
        if Admissible(|Queued(p)|, limits) {
          OverwriteConserves(s, p, limits);
        }
      case TryPop =>
        if s.queue != [] {
          assert [s.queue[0]] + s.queue[1..] == s.queue;
          assert Packets(s.removed + [Popped(s.queue[0])]) == Packets(s.removed) + [s.queue[0]];
        }
    }
  }
}
