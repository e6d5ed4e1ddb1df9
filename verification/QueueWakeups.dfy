/** The wake-up protocol of the mailboxes across two cores (src/bridge/overwrite_queue.rs): a blocked
    producer (`push`), a blocked consumer (`pop`), and any number of others that never block.
    Locking and signalling are separate steps, signals are single latches, and futures may be dropped. */
module QueueWakeups {
  import opened Bytes
  import opened Wrappers
  import opened PacketFifo

  datatype Producer =
    | NotPushing
    | Checking(p: Packet)   // about to ask for space
    | AwaitingSpace(p: Packet)
    | Inserting(p: Packet)  // has seen space, not yet used it

  datatype Consumer = NotPopping | Taking | AwaitingPacket

  /** `readyOwed` and `spaceOwed` count those who have released the lock but not signalled yet. */
  datatype State = State(
    queue: seq<Packet>, ready: bool, space: bool, readyOwed: nat, spaceOwed: nat,
    producer: Producer, consumer: Consumer)

  datatype Step =
    | BeginPush(p: Packet) | CheckSpace | PollSpace | TryInsert | CancelPush
    | BeginPop | TryTake | PollReady | CancelPop
    | OtherPush(p: Packet) | OtherPop | OtherOverwrite(p: Packet)
    | SignalReady | SignalSpace

  const INITIAL := State([], false, false, 0, 0, NotPushing, NotPopping)

  function Len(p: Packet): nat { |Queued(p)| }

  /** The effect of a step; a step that is not possible changes nothing. */
  function Next(s: State, step: Step, limits: Limits): State {
    match step
    case BeginPush(p) =>
      if s.producer.NotPushing? && Admissible(Len(p), limits) then s.(producer := Checking(p)) else s
    case CheckSpace =>
      if !s.producer.Checking? then s
      else if Fits(s.queue, Len(s.producer.p), limits) then s.(producer := Inserting(s.producer.p))
      else s.(producer := AwaitingSpace(s.producer.p))
    case PollSpace =>
      if s.producer.AwaitingSpace? && s.space then s.(space := false, producer := Checking(s.producer.p)) else s
    case TryInsert =>
      if !s.producer.Inserting? then s
      else if Fits(s.queue, Len(s.producer.p), limits) then
        s.(queue := s.queue + [s.producer.p], readyOwed := s.readyOwed + 1, producer := NotPushing)
      else s.(producer := Checking(s.producer.p))
    case CancelPush => if s.producer.AwaitingSpace? then s.(producer := NotPushing) else s
    case BeginPop => if s.consumer.NotPopping? then s.(consumer := Taking) else s
    case TryTake =>
      if !s.consumer.Taking? then s
      else if s.queue == [] then s.(consumer := AwaitingPacket)
      else s.(queue := s.queue[1..], spaceOwed := s.spaceOwed + 1, consumer := NotPopping)
    case PollReady =>
      if s.consumer.AwaitingPacket? && s.ready then s.(ready := false, consumer := Taking) else s
    case CancelPop => if s.consumer.AwaitingPacket? then s.(consumer := NotPopping) else s
    case OtherPush(p) =>
      if Fits(s.queue, Len(p), limits) then s.(queue := s.queue + [p], readyOwed := s.readyOwed + 1) else s
    case OtherPop => if s.queue == [] then s else s.(queue := s.queue[1..], spaceOwed := s.spaceOwed + 1)
    case OtherOverwrite(p) =>
      EvictedBound(s.queue, Len(p), limits);
      if Admissible(Len(p), limits) then s.(queue := Overwritten(s.queue, p, limits), readyOwed := s.readyOwed + 1) else s
    case SignalReady => if s.readyOwed > 0 then s.(readyOwed := s.readyOwed - 1, ready := true) else s
    case SignalSpace => if s.spaceOwed > 0 then s.(spaceOwed := s.spaceOwed - 1, space := true) else s
  }

  function Run(steps: seq<Step>, limits: Limits): State {
    if steps == [] then INITIAL else Next(Run(steps[..|steps| - 1], limits), steps[|steps| - 1], limits)
  }

  /** A consumer that waits in vain: parked, its latch clear, nobody about to signal, a packet there. */
  predicate ConsumerStranded(s: State) {
    s.consumer.AwaitingPacket? && !s.ready && s.readyOwed == 0 && s.queue != []
  }

  /** A producer that waits in vain: parked, its latch clear, nobody about to signal, room for its packet. */
  predicate ProducerStranded(s: State, limits: Limits) {
    s.producer.AwaitingSpace? && !s.space && s.spaceOwed == 0 && Fits(s.queue, Len(s.producer.p), limits)
  }

  /** Nobody can move: both are parked, and no signal is latched or on its way. */
  predicate Deadlocked(s: State) {
    && s.producer.AwaitingSpace? && s.consumer.AwaitingPacket?
    && !s.ready && !s.space && s.readyOwed == 0 && s.spaceOwed == 0
  }

  predicate NoOverwrites(steps: seq<Step>) {
    forall i :: 0 <= i < |steps| ==> !steps[i].OtherOverwrite?
  }

  predicate Serious(s: State, limits: Limits) {
    !s.producer.NotPushing? ==> Admissible(Len(s.producer.p), limits)
  }

  /** A push leaves less room than there was. */
  lemma PushLeavesLess(q: seq<Packet>, p: Packet, len: nat, limits: Limits)
    requires Fits(q + [p], len, limits)
    ensures Fits(q, len, limits)
  {
    TotalAppend(q, p);
  }

  lemma ConsumerStep(s: State, step: Step, limits: Limits)
    requires !ConsumerStranded(s) && Serious(s, limits)
    ensures !ConsumerStranded(Next(s, step, limits)) && Serious(Next(s, step, limits), limits)
  {
  }

  lemma {:induction false} ConsumerNeverStranded(steps: seq<Step>, limits: Limits)
    ensures !ConsumerStranded(Run(steps, limits)) && Serious(Run(steps, limits), limits)
  {
    if steps != [] {
      var n := |steps| - 1;
      ConsumerNeverStranded(steps[..n], limits);
      ConsumerStep(Run(steps[..n], limits), steps[n], limits);
    }
  }

  lemma ProducerStep(s: State, step: Step, limits: Limits)
    requires !ProducerStranded(s, limits) && !step.OtherOverwrite?
    ensures !ProducerStranded(Next(s, step, limits), limits)
  {
    if s.producer.AwaitingSpace? && step.OtherPush? && Fits(s.queue + [step.p], Len(s.producer.p), limits) {
      PushLeavesLess(s.queue, step.p, Len(s.producer.p), limits);
    }
  }

  lemma {:induction false} ProducerNeverStranded(steps: seq<Step>, limits: Limits)
    requires NoOverwrites(steps)
    ensures !ProducerStranded(Run(steps, limits), limits)
  {
    if steps != [] {
      var n := |steps| - 1;
      ProducerNeverStranded(steps[..n], limits);
      ProducerStep(Run(steps[..n], limits), steps[n], limits);
    }
  }

  /** A parked producer that no signal will reach waits behind packets, so that the next pop wakes it. */
  predicate WaitsBehindPackets(s: State) {
    s.producer.AwaitingSpace? && !s.space && s.spaceOwed == 0 ==> s.queue != []
  }

  lemma BehindPacketsStep(s: State, step: Step, limits: Limits)
    requires WaitsBehindPackets(s) && Serious(s, limits)
    ensures WaitsBehindPackets(Next(s, step, limits))
  {
    if step.CheckSpace? && s.producer.Checking? {
      EmptyFits(Len(s.producer.p), limits);
    }
  }

  lemma {:induction false} AlwaysBehindPackets(steps: seq<Step>, limits: Limits)
    ensures WaitsBehindPackets(Run(steps, limits))
  {
    if steps != [] {
      var n := |steps| - 1;
      AlwaysBehindPackets(steps[..n], limits);
      ConsumerNeverStranded(steps[..n], limits);
      BehindPacketsStep(Run(steps[..n], limits), steps[n], limits);
    }
  }

  /** In every run, with overwriting pushes too, producer and consumer are never both stuck. */
  lemma NeverBothStuck(steps: seq<Step>, limits: Limits)
    ensures WaitsBehindPackets(Run(steps, limits)) && !Deadlocked(Run(steps, limits))
  {
    AlwaysBehindPackets(steps, limits);
    ConsumerNeverStranded(steps, limits);
  }

  /** No lost wake-up: in every run without overwriting pushes, nobody waits in vain, and producer and
      consumer are never both stuck. */
  lemma NoLostWakeup(steps: seq<Step>, limits: Limits)
    requires NoOverwrites(steps)
    ensures var s := Run(steps, limits);
            !ConsumerStranded(s) && !ProducerStranded(s, limits) && !Deadlocked(s)
  {
    ConsumerNeverStranded(steps, limits);
    ProducerNeverStranded(steps, limits);
    NeverBothStuck(steps, limits);
  }

  /** A parked producer with room gets going again: by its latch now, or by a signal that is on its way. */
  lemma ProducerWakes(steps: seq<Step>, limits: Limits)
    requires NoOverwrites(steps)
    requires var s := Run(steps, limits); s.producer.AwaitingSpace? && Fits(s.queue, Len(s.producer.p), limits)
    ensures var s := Run(steps, limits);
            var t := if s.space then s else Next(s, SignalSpace, limits);
            Next(Next(t, PollSpace, limits), CheckSpace, limits).producer == Inserting(s.producer.p)
  {
    ProducerNeverStranded(steps, limits);
  }

  // With overwriting pushes

  /** An overwriting push meets a producer that no signal will reach, and the sizes are such that the packets
      it evicts leave room for itself and for the producer's packet. */
  predicate Strands(s: State, step: Step, limits: Limits) {
    && step.OtherOverwrite? && Admissible(Len(step.p), limits)
    && s.producer.AwaitingSpace? && !s.space && s.spaceOwed == 0
    && var k := Evicted(s.queue, Len(step.p), limits);
       && k <= |s.queue| && |s.queue| - k + 1 < limits.slots
       && Total(s.queue[k..]) + Len(step.p) + Len(s.producer.p) <= limits.bytes
  }

  /** Nothing else can strand a producer. */
  lemma StrandsIff(s: State, step: Step, limits: Limits)
    requires !ProducerStranded(s, limits)
    ensures ProducerStranded(Next(s, step, limits), limits) <==> Strands(s, step, limits)
  {
    match step {
      case OtherOverwrite(p) =>
        EvictedBound(s.queue, Len(p), limits);
        TotalAppend(s.queue[Evicted(s.queue, Len(p), limits)..], p);
      case _ => ProducerStep(s, step, limits);
    }
  }

  predicate NeverStranded(steps: seq<Step>, limits: Limits) {
    forall k :: 0 <= k <= |steps| ==> !ProducerStranded(Run(steps[..k], limits), limits)
  }

  predicate NothingStrands(steps: seq<Step>, limits: Limits) {
    forall k :: 0 <= k < |steps| ==> !Strands(Run(steps[..k], limits), steps[k], limits)
  }

  lemma RunUpTo(steps: seq<Step>, k: nat, limits: Limits)
    requires k < |steps|
    ensures Run(steps[..k + 1], limits) == Next(Run(steps[..k], limits), steps[k], limits)
  {
    assert steps[..k + 1][..k] == steps[..k];
  }

  lemma {:induction false} FreeUpTo(steps: seq<Step>, k: nat, limits: Limits)
    requires k <= |steps| && NothingStrands(steps, limits)
    ensures !ProducerStranded(Run(steps[..k], limits), limits)
  {
    if k > 0 {
      FreeUpTo(steps, k - 1, limits);
      RunUpTo(steps, k - 1, limits);
      StrandsIff(Run(steps[..k - 1], limits), steps[k - 1], limits);
    }
  }

  /** Over any run with overwriting pushes: no producer is ever left waiting in vain exactly when no
      overwriting push leaves room for a parked producer without a signal on its way. */
  lemma NeverStrandedIff(steps: seq<Step>, limits: Limits)
    ensures NeverStranded(steps, limits) <==> NothingStrands(steps, limits)
  {
    if NeverStranded(steps, limits) {
      forall k | 0 <= k < |steps|
        ensures !Strands(Run(steps[..k], limits), steps[k], limits)
      {
        assert !ProducerStranded(Run(steps[..k], limits), limits) && !ProducerStranded(Run(steps[..k + 1], limits), limits);
        RunUpTo(steps, k, limits);
        StrandsIff(Run(steps[..k], limits), steps[k], limits);
      }
    }
    if NothingStrands(steps, limits) {
      forall k | 0 <= k <= |steps|
        ensures !ProducerStranded(Run(steps[..k], limits), limits)
      {
        FreeUpTo(steps, k, limits);
      }
    }
  }
}
