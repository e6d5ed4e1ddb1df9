/** The pipe of BridgePipe never gets stuck and never goes round in circles: whatever it does next, in whatever
    order, it delivers what it has accepted. */
module BridgeProgress {
  import opened Bytes
  import opened Wrappers
  import opened PacketFifo
  import opened FrameDecoder
  import opened BridgePipe

  /** What is still to be done: bytes count for more the farther they are from the end. */
  function Work(s: Pipe): nat {
    Pending(s.upload) + 4 * |s.sending| + 3 * |s.wire| + (if s.pushing.Some? then 2 else 0) + |s.download|
  }

  function Pending(q: seq<Packet>): nat {
    if q == [] then 0 else 1 + 4 * |Encode(BRIDGE_MAGIC, q[0].payload)| + Pending(q[1..])
  }

  /** Steps that bring nothing new and do not break the session off. */
  predicate Forwarding(step: Step) {
    !step.Admit? && !step.LocalReply? && !step.Reconnect?
  }

  lemma StepWorks(s: Pipe, step: Step)
    requires ValidPartial(BRIDGE, s.reader) && Possible(s, step) && Forwarding(step)
    ensures Work(Next(s, step)) < Work(s)
    ensures Next(s, step).now.accepted == s.now.accepted && Next(s, step).past == s.past && Next(s, step).window == s.window
  {
  }

  /** Whatever is on the way can go on, without new frames and without a new session. */
  lemma SomethingPossible(s: Pipe) returns (step: Step)
    requires !Idle(s)
    ensures Possible(s, step) && Forwarding(step)
  {
    if s.download != [] {
      step := Deliver;
    } else if s.pushing.Some? {
      step := PushDownload;
    } else if s.wire != [] {
      step := ReadByte;
    } else if s.sending != [] {
      step := Write(1);
    } else {
      step := TakeUpload;
    }
  }

  /** A schedule all of whose steps forward something and are possible when they are taken. */
  predicate Schedule(s: Pipe, more: seq<Step>)
    requires ValidPartial(BRIDGE, s.reader)
    decreases |more|
  {
    more != [] ==> Forwarding(more[0]) && Possible(s, more[0]) && Schedule(Next(s, more[0]), more[1..])
  }

  /** Nothing can be forwarded any more. */
  ghost predicate Finished(s: Pipe) {
    forall step :: Forwarding(step) ==> !Possible(s, step)
  }

  lemma FinishedIff(s: Pipe)
    ensures Finished(s) <==> Idle(s)
  {
    if !Idle(s) {
      var step := SomethingPossible(s);
    }
  }

  lemma {:induction false} ScheduleWorks(s: Pipe, flight: seq<Content>, k: nat, more: seq<Step>)
    returns (flight': seq<Content>, k': nat)
    requires ValidPartial(BRIDGE, s.reader) && Inv(s, flight, k) && Schedule(s, more)
    ensures Inv(RunOn(s, more), flight', k') && |more| + Work(RunOn(s, more)) <= Work(s)
    ensures RunOn(s, more).now.accepted == s.now.accepted && RunOn(s, more).past == s.past
    decreases |more|
  {
    flight', k' := flight, k;
    if more != [] {
      StepWorks(s, more[0]);
      flight', k' := StepKeeps(s, more[0], flight, k);
      flight', k' := ScheduleWorks(Next(s, more[0]), flight', k', more[1..]);
    }
  }

  /** From every reachable state, every schedule is finite, and one that cannot be continued has delivered
      everything accepted in the present session. */
  lemma EveryScheduleDelivers(window: Window, steps: seq<Step>, more: seq<Step>)
    requires Schedule(Run(window, steps), more)
    ensures var s := Run(window, steps);
            && |more| <= Work(s)
            && (Finished(RunOn(s, more)) ==> RunOn(s, more).delivered == Arrivals(s.past) + s.now.accepted)
  {
    var flight, k := Invariant(window, steps);
    flight, k := ScheduleWorks(Run(window, steps), flight, k, more);
    InvImpliesPrefix(RunOn(Run(window, steps), more), flight, k);
    FinishedIff(RunOn(Run(window, steps), more));
  }

  lemma {:induction false} CanFinish(s: Pipe) returns (more: seq<Step>)
    requires ValidPartial(BRIDGE, s.reader)
    ensures Schedule(s, more) && Finished(RunOn(s, more))
    decreases Work(s)
  {
    FinishedIff(s);
    if Idle(s) {
      more := [];
    } else {
      var step := SomethingPossible(s);
      StepWorks(s, step);
      var rest := CanFinish(Next(s, step));
      more := [step] + rest;
      assert more[1..] == rest;
    }
  }

  /** And there is such a schedule. */
  lemma AcceptedCanBeDelivered(window: Window, steps: seq<Step>)
    ensures var s := Run(window, steps);
            exists more :: Schedule(s, more) && RunOn(s, more).delivered == Arrivals(s.past) + s.now.accepted
  {
    var more := CanFinish(Run(window, steps));
    EveryScheduleDelivers(window, steps, more);
  }
}
