/** For which mailboxes an overwriting push can leave a producer waiting in vain: an exact condition on the
    limits alone. */
module QueueStranding {
  import opened Bytes
  import opened PacketFifo
  import opened QueueWakeups

  const LONGEST := MAX_PAYLOAD + 1

  /** At least two packets can be in the mailbox, and they can fill it by bytes before they do by number. */
  predicate CanStrand(limits: Limits) {
    limits.slots >= 2 && 2 <= limits.bytes < limits.slots * LONGEST
  }

  lemma {:induction false} TotalBound(q: seq<Packet>)
    ensures |q| <= Total(q) <= |q| * LONGEST
  {
    if q != [] {
      TotalBound(q[1..]);
    }
  }

  // Necessary

  /** The packet evicted last must have been longer than the one that waits. */
  lemma SizesNeed(q: seq<Packet>, k: nat, n: nat, m: nat, limits: Limits)
    requires 1 <= k <= |q| && 0 < n <= LONGEST && 0 < m
    requires |q| - k + 1 < limits.slots && Total(q[k..]) + n + m <= limits.bytes
    requires !Fits(q[k - 1..], n, limits)
    ensures CanStrand(limits)
  {
    var rest := q[k..];
    assert q[k - 1..][1..] == rest && q[k - 1..][0] == q[k - 1];
    TotalBound(rest);
    assert limits.bytes < n + Len(q[k - 1]) + Total(rest) <= (|rest| + 2) * LONGEST;
    ProductGrows(|rest| + 2, limits.slots);
  }

  lemma ProductGrows(a: nat, b: nat)
    requires a <= b
    ensures a * LONGEST <= b * LONGEST
  {
  }

  lemma StrandingNeeds(s: State, step: Step, limits: Limits)
    requires !ProducerStranded(s, limits) && Strands(s, step, limits)
    ensures CanStrand(limits)
  {
    var n := Len(step.p);
    var k := Evicted(s.queue, n, limits);
    EvictedIsLeast(s.queue, n, limits);
    assert s.queue[0..] == s.queue;
    if k > 0 {
      SizesNeed(s.queue, k, n, Len(s.producer.p), limits);
    }
  }

  lemma {:induction false} NeverInOthers(steps: seq<Step>, limits: Limits)
    requires !CanStrand(limits)
    ensures !ProducerStranded(Run(steps, limits), limits)
  {
    if steps != [] {
      var n := |steps| - 1;
      NeverInOthers(steps[..n], limits);
      StrandsIff(Run(steps[..n], limits), steps[n], limits);
      if Strands(Run(steps[..n], limits), steps[n], limits) {
        StrandingNeeds(Run(steps[..n], limits), steps[n], limits);
      }
    }
  }

  // Sufficient

  function Sized(len: nat): (p: Packet)
    requires 0 < len <= LONGEST
    ensures Len(p) == len
  {
    RawPacket(0, Repeat(0, len - 1))
  }

  /** At most `count` packets that hold `total` bytes in all. */
  function Fill(count: nat, total: nat): (q: seq<Packet>)
    requires total <= count * LONGEST
    ensures Total(q) == total && |q| <= count && (total == count * LONGEST ==> |q| == count)
  {
    if total == 0 then []
    else if total <= LONGEST then [Sized(total)]
    else [Sized(LONGEST)] + Fill(count - 1, total - LONGEST)
  }

  function Pushes(q: seq<Packet>): (steps: seq<Step>)
    ensures |steps| == |q|
  {
    seq(|q|, i requires 0 <= i < |q| => OtherPush(q[i]))
  }

  lemma RunAppend(steps: seq<Step>, step: Step, limits: Limits)
    ensures Run(steps + [step], limits) == Next(Run(steps, limits), step, limits)
  {
    assert (steps + [step])[..|steps|] == steps;
  }

  lemma {:induction false} Filled(q: seq<Packet>, limits: Limits)
    requires |q| <= limits.slots && Total(q) <= limits.bytes
    ensures Run(Pushes(q), limits) == INITIAL.(queue := q, readyOwed := |q|)
  {
    if q != [] {
      var n := |q| - 1;
      assert q == q[..n] + [q[n]];
      TotalAppend(q[..n], q[n]);
      Filled(q[..n], limits);
      assert Pushes(q) == Pushes(q[..n]) + [OtherPush(q[n])];
      RunAppend(Pushes(q[..n]), OtherPush(q[n]), limits);
    }
  }

  /** A mailbox is filled, a producer parks, and an overwriting push makes room for both. */
  function Stranding(q: seq<Packet>, waiting: Packet, overwriting: Packet): seq<Step> {
    Pushes(q) + [BeginPush(waiting)] + [CheckSpace] + [OtherOverwrite(overwriting)]
  }

  lemma StrandingRun(q: seq<Packet>, k: nat, waiting: Packet, overwriting: Packet, limits: Limits)
    requires |q| <= limits.slots && Total(q) <= limits.bytes
    requires Admissible(Len(waiting), limits) && Admissible(Len(overwriting), limits)
    requires !Fits(q, Len(waiting), limits)
    requires k <= |q| && Evicted(q, Len(overwriting), limits) == k
    requires |q| - k + 1 < limits.slots && Total(q[k..]) + Len(overwriting) + Len(waiting) <= limits.bytes
    ensures ProducerStranded(Run(Stranding(q, waiting, overwriting), limits), limits)
  {
    Filled(q, limits);
    RunAppend(Pushes(q), BeginPush(waiting), limits);
    RunAppend(Pushes(q) + [BeginPush(waiting)], CheckSpace, limits);
    var parked := Pushes(q) + [BeginPush(waiting)] + [CheckSpace];
    RunAppend(parked, OtherOverwrite(overwriting), limits);
    StrandsIff(Run(parked, limits), OtherOverwrite(overwriting), limits);
  }

  /** Short packets strand each other where one long packet can fill what the others leave. */
  lemma StrandsByOne(limits: Limits)
    requires CanStrand(limits) && limits.bytes - (limits.slots - 2) * LONGEST <= LONGEST
    ensures exists steps :: ProducerStranded(Run(steps, limits), limits)
  {
    var most := (limits.slots - 2) * LONGEST;
    var held := if limits.bytes - 2 < most then limits.bytes - 2 else most;
    var rest := Fill(limits.slots - 2, held);
    var q := [Sized(limits.bytes - held)] + rest;
    assert q[1..] == rest;
    assert !Fits(q, 1, limits) && Fits(rest, 1, limits);
    StrandingRun(q, 1, Sized(1), Sized(1), limits);
  }

  /** Where even two long packets fit besides the others, a full mailbox is needed. */
  lemma StrandsByTwo(limits: Limits)
    requires CanStrand(limits) && limits.bytes - (limits.slots - 2) * LONGEST > LONGEST
    ensures exists steps :: ProducerStranded(Run(steps, limits), limits)
  {
    var held := (limits.slots - 2) * LONGEST;
    var rest := Fill(limits.slots - 2, held);
    var tail := [Sized(LONGEST)] + rest;
    var q := [Sized(1)] + tail;
    assert q[1..] == tail && tail[1..] == rest && q[2..] == rest;
    assert !Fits(q, 1, limits) && !Fits(q, LONGEST, limits) && !Fits(tail, LONGEST, limits) && Fits(rest, LONGEST, limits);
    assert Evicted(rest, LONGEST, limits) == 0 && Evicted(tail, LONGEST, limits) == 1 && Evicted(q, LONGEST, limits) == 2;
    StrandingRun(q, 2, Sized(1), Sized(LONGEST), limits);
  }

  /** A mailbox can strand a producer, in some run with overwriting pushes, exactly if it has room for two
      packets and is limited by its bytes. */
  lemma CanStrandIff(limits: Limits)
    ensures (exists steps :: ProducerStranded(Run(steps, limits), limits)) <==> CanStrand(limits)
  {
    if CanStrand(limits) {
      if limits.bytes - (limits.slots - 2) * LONGEST <= LONGEST {
        StrandsByOne(limits);
      } else {
        StrandsByTwo(limits);
      }
    } else {
      forall steps: seq<Step> ensures !ProducerStranded(Run(steps, limits), limits) {
        NeverInOthers(steps, limits);
      }
    }
  }

  const LARGE: Packet := RawPacket(0, [0, 0, 0, 0, 0, 0, 0])
  const MEDIUM: Packet := RawPacket(0, [0, 0, 0, 0])
  const SMALL: Packet := RawPacket(0, [0, 0])

  /** In four steps: a mailbox of 10 bytes holds a packet of 8, a producer of 5 bytes parks, and an overwriting
      push of 3 bytes evicts the 8. */
  lemma OverwriteStrandsProducer()
    ensures ProducerStranded(
              Run([OtherPush(LARGE), BeginPush(MEDIUM), CheckSpace, OtherOverwrite(SMALL)], Limits(4, 10)), Limits(4, 10))
  {
    var q := [LARGE];
    assert q[1..] == [] && Total(q) == 8;
    assert Pushes(q) == [OtherPush(LARGE)];
    assert Stranding(q, MEDIUM, SMALL) == [OtherPush(LARGE), BeginPush(MEDIUM), CheckSpace, OtherOverwrite(SMALL)];
    assert !Fits(q, 3, Limits(4, 10)) && Fits([], 3, Limits(4, 10));
    StrandingRun(q, 1, MEDIUM, SMALL, Limits(4, 10));
  }

  /** The mailboxes of this firmware are of that sort: for them it matters that none of them is both pushed to
      with waiting and overwritten. */
  lemma FirmwareMailboxesCanStrand()
    ensures CanStrand(Limits(128, 16384)) && CanStrand(Limits(128, 8192))
  {
  }
}
