/** The conflict rate limit of section 9 of RFC 3927, over whole runs: between restarts of DHCP, any
    eleven candidates in a row take at least 60000 ms, also when the attempt counter wraps around. */
module AddressRateLimit {
  import opened Bytes
  import opened Wrappers
  import opened AutoAddress
  import opened ArpGuard
  import opened AddressRun
  import opened AddressTrace

  function CandidateTimes(t: seq<Observation>): seq<nat> {
    if t == [] then []
    else
      var o := t[|t| - 1];
      CandidateTimes(t[..|t| - 1]) + if o.Acted? && o.action.Candidate? then [o.now] else []
  }

  lemma {:induction false} CandidateTimesConcat(t: seq<Observation>, u: seq<Observation>)
    ensures CandidateTimes(t + u) == CandidateTimes(t) + CandidateTimes(u)
  {
    if u == [] {
      assert t + u == t;
    } else {
      assert (t + u)[..|t + u| - 1] == t + u[..|u| - 1];
      CandidateTimesConcat(t, u[..|u| - 1]);
    }
  }

  /** Any eleven in a row span the interval. */
  predicate Limited(times: seq<nat>) {
    forall i :: 0 <= i && i + 10 < |times| ==> times[i] + RATE_LIMIT_INTERVAL <= times[i + 10]
  }

  predicate Ordered(times: seq<nat>, clock: nat) {
    && (forall i :: 1 <= i < |times| ==> times[i - 1] <= times[i])
    && (times != [] ==> times[|times| - 1] <= clock)
  }

  /** The attempt counter as it stood right after the candidate at position i of `times`. */
  function CounterAfter(attempt: u32, times: seq<nat>, i: nat): int
    requires i < |times|
  {
    (attempt - (|times| - 1 - i)) % U32_RANGE
  }

  /** Where the counter was a multiple of ten, the next candidate was a full interval away. */
  predicate Paused(attempt: u32, times: seq<nat>) {
    forall i :: 0 <= i && i + 1 < |times| && CounterAfter(attempt, times, i) % 10 == 0
                ==> times[i] + RATE_LIMIT_INTERVAL <= times[i + 1]
  }

  predicate Inv(p: Policy, clock: nat, times: seq<nat>) {
    && Ordered(times, clock) && Paused(p.attempt, times)
    && match p.phase
       case AwaitLease(_) => times == []
       case Choose(after) =>
         times != [] && p.attempt % 10 == 0 ==> times[|times| - 1] + RATE_LIMIT_INTERVAL <= after
       case _ => true
  }

  /** Ten counter values in a row contain a multiple of ten, even across the wrap-around to zero. */
  lemma SomeTen(v: u32) returns (r: nat)
    ensures r < 10 && (v + r) % U32_RANGE % 10 == 0
  {
    r := (10 - v % 10) % 10;
    if v + r >= U32_RANGE {
      r := U32_RANGE - v;
    }
  }

  lemma {:induction false} OrderedSpan(times: seq<nat>, clock: nat, i: nat, j: nat)
    requires Ordered(times, clock) && i <= j < |times|
    ensures times[i] <= times[j]
  {
    if i < j {
      OrderedSpan(times, clock, i, j - 1);
    }
  }

  lemma CounterAhead(attempt: u32, times: seq<nat>, i: nat, r: nat)
    requires i + r < |times|
    ensures CounterAfter(attempt, times, i + r) == (CounterAfter(attempt, times, i) + r) % U32_RANGE
  {
    WrapsAround(attempt - (|times| - 1 - i), r);
    assert attempt - (|times| - 1 - i) + r == attempt - (|times| - 1 - (i + r));
  }

  lemma PausedIsLimited(attempt: u32, clock: nat, times: seq<nat>)
    requires Ordered(times, clock) && Paused(attempt, times)
    ensures Limited(times)
  {
    forall i | 0 <= i && i + 10 < |times|
      ensures times[i] + RATE_LIMIT_INTERVAL <= times[i + 10]
    {
      var r := SomeTen(CounterAfter(attempt, times, i));
      CounterAhead(attempt, times, i, r);
      OrderedSpan(times, clock, i, i + r);
      OrderedSpan(times, clock, i + r + 1, i + 10);
    }
  }

  function NextTimes(times: seq<nat>, o: Observation): seq<nat> {
    if o.Acted? && o.action.Dhcp? then []
    else if o.Acted? && o.action.Candidate? then times + [o.now]
    else times
  }

  lemma NextTimesRead(part: seq<Observation>, o: Observation)
    ensures CandidateTimes(NextPart(part, AtDhcp, o)) == NextTimes(CandidateTimes(part), o)
  {
    assert (part + [o])[..|part|] == part;
    assert [o][..0] == [];
  }

  /** Counting on moves every earlier counter value one place back. */
  lemma CounterShift(attempt: u32, times: seq<nat>, now: nat, i: nat)
    requires i < |times|
    ensures CounterAfter((attempt + 1) % U32_RANGE, times + [now], i) == CounterAfter(attempt, times, i)
  {
    var k := |times| - 1 - i;
    WrapsAround(attempt + 1, -(k + 1));
    assert attempt + 1 - (k + 1) == attempt - k;
  }

  lemma Counted(attempt: u32, times: seq<nat>, now: nat)
    requires Paused(attempt, times)
    requires times != [] && attempt % 10 == 0 ==> times[|times| - 1] + RATE_LIMIT_INTERVAL <= now
    ensures Paused((attempt + 1) % U32_RANGE, times + [now])
  {
    var times', attempt' := times + [now], (attempt + 1) % U32_RANGE;
    forall i | 0 <= i && i + 1 < |times'| && CounterAfter(attempt', times', i) % 10 == 0
      ensures times'[i] + RATE_LIMIT_INTERVAL <= times'[i + 1]
    {
      CounterShift(attempt, times, now, i);
    }
  }

  lemma ChoiceKeeps(attempt: u32, clock: nat, times: seq<nat>, now: nat)
    requires Ordered(times, clock) && Paused(attempt, times) && clock <= now
    requires times != [] && attempt % 10 == 0 ==> times[|times| - 1] + RATE_LIMIT_INTERVAL <= now
    ensures Ordered(times + [now], now) && Paused((attempt + 1) % U32_RANGE, times + [now])
  {
    Counted(attempt, times, now);
  }

  lemma KeptOnline(p: Policy, s: Shared, clock: nat, times: seq<nat>, e: Event)
    requires Inv(p, clock, times) && e.Iterate? && clock <= e.now && p.phase.Online?
    ensures Inv(Decide(p, s, e).0, e.now, NextTimes(times, Acting(p, s, e)))
  {
    OnlineOutcome(p, InputsOf(e, s));
  }

  lemma KeptByChoice(p: Policy, s: Shared, clock: nat, times: seq<nat>, e: Event)
    requires Inv(p, clock, times) && e.Iterate? && clock <= e.now && p.phase.Choose?
    ensures Inv(Decide(p, s, e).0, e.now, NextTimes(times, Acting(p, s, e)))
  {
    var p' := Decide(p, s, e).0;
    ChoiceOutcome(p, InputsOf(e, s));
    if e.link && p.phase.after <= e.now {
      Chosen(p, p', clock, e.now, times);
    } else if p' == p {
      assert Inv(p, e.now, times);
    } else {
      CarriedOver(p, p', clock, e.now, times);
    }
  }

  lemma ChoiceOutcome(p: Policy, i: Inputs)
    requires p.phase.Choose?
    ensures var (p', action) := Tick(p, i);
            if i.link && p.phase.after <= i.now then
              action.Candidate? && p'.phase.ProbeDelay? && p'.attempt == (p.attempt + 1) % U32_RANGE
            else !action.Candidate? && !action.Dhcp? && p'.attempt == p.attempt && (p' == p || p'.phase.Down?)
  {
  }

  lemma Chosen(p: Policy, p': Policy, clock: nat, now: nat, times: seq<nat>)
    requires Inv(p, clock, times) && clock <= now && p.phase.Choose? && p.phase.after <= now
    requires p'.phase.ProbeDelay? && p'.attempt == (p.attempt + 1) % U32_RANGE
    ensures Inv(p', now, times + [now])
  {
    ChoiceKeeps(p.attempt, clock, times, now);
  }

  lemma KeptBefore(p: Policy, s: Shared, clock: nat, times: seq<nat>, e: Event)
    requires Inv(p, clock, times) && e.Iterate? && clock <= e.now
    requires p.phase.Down? || p.phase.StartDhcp? || p.phase.AwaitLease?
    ensures Inv(Decide(p, s, e).0, e.now, NextTimes(times, Acting(p, s, e)))
  {
  }

  /** Probing ends in a claim or goes back to a choice, which then waits if the counter says so. */
  lemma ProbingOutcome(p: Policy, i: Inputs)
    requires p.phase.ProbeDelay? || p.phase.ProbeTx? || p.phase.ClaimDelay?
    ensures var (p', action) := Tick(p, i);
            && p'.attempt == p.attempt && !action.Dhcp? && !action.Candidate? && !p'.phase.AwaitLease?
            && (p'.phase.Choose? && p.attempt % 10 == 0 ==> i.now + RATE_LIMIT_INTERVAL <= p'.phase.after)
  {
  }

  lemma KeptProbing(p: Policy, s: Shared, clock: nat, times: seq<nat>, e: Event)
    requires Inv(p, clock, times) && e.Iterate? && clock <= e.now
    requires p.phase.ProbeDelay? || p.phase.ProbeTx? || p.phase.ClaimDelay?
    ensures Inv(Decide(p, s, e).0, e.now, NextTimes(times, Acting(p, s, e)))
  {
    ProbingOutcome(p, InputsOf(e, s));
    CarriedOver(p, Decide(p, s, e).0, clock, e.now, times);
  }

  lemma CarriedOver(p: Policy, p': Policy, clock: nat, now: nat, times: seq<nat>)
    requires Inv(p, clock, times) && clock <= now && p'.attempt == p.attempt && !p'.phase.AwaitLease?
    requires p'.phase.Choose? && p.attempt % 10 == 0 ==> now + RATE_LIMIT_INTERVAL <= p'.phase.after
    ensures Inv(p', now, times)
  {
  }

  lemma IterateKeeps(p: Policy, s: Shared, clock: nat, times: seq<nat>, e: Event)
    requires Inv(p, clock, times) && e.Iterate? && clock <= e.now
    ensures Inv(Decide(p, s, e).0, e.now, NextTimes(times, Acting(p, s, e)))
  {
    if p.phase.Online? {
      KeptOnline(p, s, clock, times, e);
    } else if p.phase.Choose? {
      KeptByChoice(p, s, clock, times, e);
    } else if p.phase.ProbeDelay? || p.phase.ProbeTx? || p.phase.ClaimDelay? {
      KeptProbing(p, s, clock, times, e);
    } else {
      KeptBefore(p, s, clock, times, e);
    }
  }

  function TimesOf(s: System): seq<nat> {
    CandidateTimes(Since(s.trace, AtDhcp))
  }

  predicate LimitedAt(t: seq<Observation>, b: nat)
    requires b <= |t|
  {
    Limited(CandidateTimes(Since(t[..b], AtDhcp)))
  }

  predicate AlwaysLimited(t: seq<Observation>) {
    forall b :: 0 <= b <= |t| ==> LimitedAt(t, b)
  }

  lemma TimesExtend(t: seq<Observation>, o: Observation)
    ensures CandidateTimes(Since(t + [o], AtDhcp)) == NextTimes(CandidateTimes(Since(t, AtDhcp)), o)
  {
    SinceAppend(t, AtDhcp, o);
    NextTimesRead(Since(t, AtDhcp), o);
  }

  lemma LimitedBefore(t: seq<Observation>, o: Observation, b: nat)
    requires b <= |t| && LimitedAt(t, b)
    ensures LimitedAt(t + [o], b)
  {
    assert (t + [o])[..b] == t[..b];
  }

  lemma Extend(t: seq<Observation>, o: Observation)
    requires AlwaysLimited(t) && Limited(NextTimes(CandidateTimes(Since(t, AtDhcp)), o))
    ensures AlwaysLimited(t + [o])
  {
    forall b | 0 <= b <= |t + [o]|
      ensures LimitedAt(t + [o], b)
    {
      if b <= |t| {
        LimitedBefore(t, o, b);
      } else {
        assert (t + [o])[..b] == t + [o];
        TimesExtend(t, o);
      }
    }
  }

  predicate InvAt(s: System) {
    Inv(s.policy, s.clock, TimesOf(s)) && AlwaysLimited(s.trace)
  }

  lemma StepIterate(s: System, e: Event)
    requires InvAt(s) && e.Iterate? && s.clock <= e.now
    ensures InvAt(AfterIterate(s, e))
  {
    var o, p' := Acting(s.policy, s.shared, e), Decide(s.policy, s.shared, e).0;
    IterateKeeps(s.policy, s.shared, s.clock, TimesOf(s), e);
    PausedIsLimited(p'.attempt, e.now, NextTimes(TimesOf(s), o));
    Extend(s.trace, o);
    TimesExtend(s.trace, o);
  }

  lemma StepOther(s: System, o: Observation, shared: Shared)
    requires InvAt(s) && !o.Acted? && s.clock <= o.now
    ensures InvAt(System(s.policy, shared, o.now, s.trace + [o]))
  {
    PausedIsLimited(s.policy.attempt, s.clock, TimesOf(s));
    Extend(s.trace, o);
    TimesExtend(s.trace, o);
  }

  lemma StepKeeps(s: System, e: Event)
    requires InvAt(s) && s.clock <= e.now
    ensures InvAt(Step(s, e))
  {
    match e {
      case Receive(now, frame) => StepOther(s, Received(now, frame), Inspected(s.shared, frame));
      case Drive(now, linkUp, txReady) =>
        match ServiceFrame(s.shared, linkUp, txReady) {
          case None =>
          case Some(frame) => StepOther(s, Sent(now, frame), Serviced(s.shared, linkUp, txReady));
        }
      case Iterate(_, _, _, _) => StepIterate(s, e);
    }
  }

  lemma {:induction false} Invariant(mac: Mac, events: seq<Event>)
    requires Timely(events)
    ensures InvAt(Run(mac, events))
  {
    if events != [] {
      LastIsTimely(mac, events);
      Invariant(mac, events[..|events| - 1]);
      StepKeeps(Run(mac, events[..|events| - 1]), events[|events| - 1]);
    }
  }

  predicate RestartsDhcp(o: Observation) {
    o.Acted? && o.action.Dhcp?
  }

  /** A stretch without a restart of DHCP lies within the part since the last restart. */
  lemma {:induction false} StretchIsSuffix(t: seq<Observation>, a: nat)
    requires a <= |t| && forall k :: a <= k < |t| ==> !RestartsDhcp(t[k])
    ensures exists u :: Since(t, AtDhcp) == u + t[a..]
  {
    if a == |t| {
      assert Since(t, AtDhcp) == Since(t, AtDhcp) + t[a..];
    } else {
      var n := |t| - 1;
      StretchIsSuffix(t[..n], a);
      var u :| Since(t[..n], AtDhcp) == u + t[..n][a..];
      assert t[a..] == t[..n][a..] + [t[n]];
      assert Since(t, AtDhcp) == u + t[a..];
    }
  }

  /** In every run and every stretch of it without a `Dhcp` action, any eleven candidates in a row span
      at least 60000 ms. */
  lemma CandidatesRateLimited(mac: Mac, events: seq<Event>, a: nat, b: nat)
    requires Timely(events) && a <= b <= |Run(mac, events).trace|
    requires forall k :: a <= k < b ==> !RestartsDhcp(Run(mac, events).trace[k])
    ensures Limited(CandidateTimes(Run(mac, events).trace[a..b]))
  {
    Invariant(mac, events);
    assert LimitedAt(Run(mac, events).trace, b);
    LimitedStretch(Run(mac, events).trace[..b], a);
    assert Run(mac, events).trace[..b][a..] == Run(mac, events).trace[a..b];
  }

  lemma LimitedStretch(t: seq<Observation>, a: nat)
    requires a <= |t| && forall k :: a <= k < |t| ==> !RestartsDhcp(t[k])
    requires Limited(CandidateTimes(Since(t, AtDhcp)))
    ensures Limited(CandidateTimes(t[a..]))
  {
    StretchIsSuffix(t, a);
    var u :| Since(t, AtDhcp) == u + t[a..];
    CandidateTimesConcat(u, t[a..]);
    LimitedSuffix(CandidateTimes(u), CandidateTimes(t[a..]));
  }

  lemma LimitedSuffix(first: seq<nat>, rest: seq<nat>)
    requires Limited(first + rest)
    ensures Limited(rest)
  {
    assert forall i :: 0 <= i < |rest| ==> rest[i] == (first + rest)[|first| + i];
  }
}
