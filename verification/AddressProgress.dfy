/** Bounded progress: on a quiet link without DHCP an address is claimed in bounded time, and then
    announced twice in bounded time. */
module AddressProgress {
  import opened Bytes
  import opened Wrappers
  import opened AutoAddress
  import opened ArpGuard
  import opened AddressRun
  import opened AddressTrace
  import opened AddressStay

  function Max(a: nat, b: nat): nat { if a < b then b else a }

  /** From the tick that sees the k-th probe transmitted to the claim, with ticks at most d apart. */
  function AfterProbe(mac: Mac, k: nat, d: nat): nat
    requires 1 <= k <= 3
    decreases 3 - k
  {
    if k == 3 then ClaimGap(mac) + d else ProbeGap(mac) + 2 * d + AfterProbe(mac, k + 1, d)
  }

  function AfterChoice(mac: Mac, d: nat): nat {
    mac[5] as nat * 3 + 2 * d + AfterProbe(mac, 1, d)
  }

  predicate Acquiring(p: Policy) {
    !p.phase.Online? && (p.phase.ProbeDelay? || p.phase.ProbeTx? ==> p.phase.sent < 3)
  }

  /** The latest time of the claim, seen from the last tick at time `last`. It only ever moves earlier. */
  function Deadline(p: Policy, last: nat, d: nat): nat
    requires Acquiring(p)
  {
    match p.phase
    case Down | StartDhcp => last + d + LEASE_WAIT + 2 * d + AfterChoice(p.mac, d)
    case AwaitLease(until) => Max(until, last) + 2 * d + AfterChoice(p.mac, d)
    case Choose(after) => Max(after, last) + d + AfterChoice(p.mac, d)
    case ProbeDelay(until, sent) => Max(until, last) + 2 * d + AfterProbe(p.mac, sent + 1, d)
    case ProbeTx(_, sent) => last + d + AfterProbe(p.mac, sent + 1, d)
    case ClaimDelay(until) => Max(until, last) + d
  }

  /** No lease, no conflict, the link up, and every requested frame already transmitted. */
  predicate Quiet(i: Inputs) {
    i.link && !i.configured && !i.pending && !i.conflict
  }

  /** What a quiet tick must bring: a claim, or a deadline no later than before. */
  predicate Progressed(p: Policy, i: Inputs, last: nat, d: nat)
    requires Acquiring(p)
  {
    var (p', action) := Tick(p, i);
    && p'.mac == p.mac && i.now <= Deadline(p, last, d)
    && (if action.Claim? then InFallback(p') && p'.phase.announceAt == Some(Announcement(i.now, 2))
        else Acquiring(p') && Deadline(p', i.now, d) <= Deadline(p, last, d))
  }

  lemma ProgressToChoice(p: Policy, i: Inputs, last: nat, d: nat)
    requires Acquiring(p) && Quiet(i) && last <= i.now <= last + d
    requires p.phase.Down? || p.phase.StartDhcp? || p.phase.AwaitLease? || p.phase.Choose?
    ensures Progressed(p, i, last, d)
  {
  }

  lemma ProgressInProbing(p: Policy, i: Inputs, last: nat, d: nat)
    requires Acquiring(p) && Quiet(i) && last <= i.now <= last + d && (p.phase.ProbeDelay? || p.phase.ProbeTx?)
    ensures Progressed(p, i, last, d)
  {
  }

  lemma TickProgress(p: Policy, i: Inputs, last: nat, d: nat)
    requires Acquiring(p) && Quiet(i) && last <= i.now <= last + d
    ensures Progressed(p, i, last, d)
  {
    match p.phase {
      case ClaimDelay(_) =>
      case ProbeDelay(_, _) => ProgressInProbing(p, i, last, d);
      case ProbeTx(_, _) => ProgressInProbing(p, i, last, d);
      case _ => ProgressToChoice(p, i, last, d);
    }
  }

  /** Events from state `s` on, whose iterations are quiet and at most `d` after one another. */
  ghost predicate Calm(s: System, last: nat, events: seq<Event>, d: nat)
    decreases |events|
  {
    events == [] ||
    var e := events[0];
    && s.clock <= e.now
    && (e.Iterate? ==> Quiet(InputsOf(e, s.shared)) && last <= e.now <= last + d)
    && Calm(Step(s, e), if e.Iterate? then e.now else last, events[1..], d)
  }

  function LastTick(events: seq<Event>, last: nat): nat {
    if events == [] then last
    else LastTick(events[1..], if events[0].Iterate? then events[0].now else last)
  }

  /** Some claim was made by time `limit` in a run from `s`. */
  ghost predicate ClaimedBy(s: System, events: seq<Event>, limit: nat)
    decreases |events|
  {
    && events != []
    && var e := events[0];
       || (e.Iterate? && Acting(s.policy, s.shared, e).action.Claim? && e.now <= limit)
       || ClaimedBy(Step(s, e), events[1..], limit)
  }

  lemma {:induction false} ClaimedByDeadline(s: System, last: nat, events: seq<Event>, d: nat, limit: nat)
    requires Acquiring(s.policy) && Calm(s, last, events, d) && last <= limit && Deadline(s.policy, last, d) <= limit
    ensures ClaimedBy(s, events, limit) || LastTick(events, last) <= limit
    decreases |events|
  {
    if events != [] {
      var e := events[0];
      if e.Iterate? {
        TickProgress(s.policy, InputsOf(e, s.shared), last, d);
        if !Acting(s.policy, s.shared, e).action.Claim? {
          ClaimedByDeadline(Step(s, e), e.now, events[1..], d, limit);
        }
      } else {
        ClaimedByDeadline(Step(s, e), last, events[1..], d, limit);
      }
    }
  }

  /** From the first tick with the link up, at time t: a quiet run either has claimed an address by
      t + 10000 + 3*mac[5] + 2*(1000 + mac[4]) + 3000 + mac[4] + 9*d, or has not gone on for that long. */
  lemma BoundedAcquisition(s: System, events: seq<Event>, d: nat)
    requires s.policy.phase.Down? || s.policy.phase.StartDhcp?
    requires events != [] && events[0].Iterate? && Calm(s, events[0].now, events, d)
    ensures var mac, t := s.policy.mac, events[0].now;
            var limit := t + LEASE_WAIT + 3 * mac[5] as nat + 2 * ProbeGap(mac) + ClaimGap(mac) + 9 * d;
            ClaimedBy(s, events, limit) || LastTick(events, t) <= limit
  {
    var e, s' := events[0], Step(s, events[0]);
    assert s'.policy.phase == AwaitLease(e.now + LEASE_WAIT) && s'.policy.mac == s.policy.mac;
    AcquisitionTime(s.policy.mac, d);
    var limit := e.now + LEASE_WAIT + 3 * s.policy.mac[5] as nat + 2 * ProbeGap(s.policy.mac) + ClaimGap(s.policy.mac) + 9 * d;
    ClaimedByDeadline(s', e.now, events[1..], d, limit);
  }

  lemma AcquisitionTime(mac: Mac, d: nat)
    ensures 2 * d + AfterChoice(mac, d) == 3 * mac[5] as nat + 2 * ProbeGap(mac) + ClaimGap(mac) + 9 * d
  {
    assert AfterProbe(mac, 2, d) == ProbeGap(mac) + 2 * d + AfterProbe(mac, 3, d);
  }

  // Announcements

  /** The latest time by which both announcements are made. */
  function AnnounceDeadline(due: Option<Announcement>, last: nat, d: nat): nat {
    match due
    case None => last
    case Some(Announcement(at, remaining)) =>
      if remaining > 1 then Max(at, last) + d + ANNOUNCE_GAP + d else Max(at, last) + d
  }

  /** Events that keep a stay going: every iteration leaves the policy in fallback, at most `d` after
      the one before, and every requested frame has been transmitted by then. */
  ghost predicate Staying(s: System, last: nat, events: seq<Event>, d: nat)
    decreases |events|
  {
    events == [] ||
    var e := events[0];
    && s.clock <= e.now
    && (e.Iterate? ==> s.shared.command == NoCommand && last <= e.now <= last + d && InFallback(AfterIterate(s, e).policy))
    && Staying(Step(s, e), if e.Iterate? then e.now else last, events[1..], d)
  }

  ghost function RunOn(s: System, events: seq<Event>): System
    decreases |events|
  {
    if events == [] then s else RunOn(Step(s, events[0]), events[1..])
  }

  lemma TickAnnounces(p: Policy, i: Inputs, last: nat, d: nat)
    requires InFallback(p) && !i.pending && last <= i.now <= last + d && !TickEnds(p, i)
    requires p.phase.announceAt.Some? ==> p.phase.announceAt.value.remaining <= 2
    ensures var p' := Tick(p, i).0;
            && InFallback(p') && (p'.phase.announceAt.Some? ==> p'.phase.announceAt.value.remaining <= 2)
            && (p.phase.announceAt.None? ==> p'.phase.announceAt.None?)
            && (p'.phase.announceAt.Some? ==>
                  i.now <= AnnounceDeadline(p.phase.announceAt, last, d)
                  && AnnounceDeadline(p'.phase.announceAt, i.now, d) <= AnnounceDeadline(p.phase.announceAt, last, d))
  {
  }

  lemma {:induction false} AnnouncedByDeadline(s: System, last: nat, events: seq<Event>, d: nat)
    requires InFallback(s.policy) && Staying(s, last, events, d)
    requires s.policy.phase.announceAt.Some? ==> s.policy.phase.announceAt.value.remaining <= 2
    ensures var s' := RunOn(s, events);
            InFallback(s'.policy) &&
            (s'.policy.phase.announceAt.Some? ==>
               s.policy.phase.announceAt.Some?
               && LastTick(events, last) <= AnnounceDeadline(s.policy.phase.announceAt, last, d))
    decreases |events|
  {
    if events != [] {
      var e := events[0];
      if e.Iterate? {
        FallbackTick(s.policy, InputsOf(e, s.shared));
        TickAnnounces(s.policy, InputsOf(e, s.shared), last, d);
        AnnouncedByDeadline(Step(s, e), e.now, events[1..], d);
      } else {
        AnnouncedByDeadline(Step(s, e), last, events[1..], d);
      }
    }
  }

  lemma {:induction false} RunOnIsRun(mac: Mac, before: seq<Event>, events: seq<Event>)
    ensures RunOn(Run(mac, before), events) == Run(mac, before + events)
    decreases |events|
  {
    if events == [] {
      assert before + events == before;
    } else {
      assert (before + [events[0]])[..|before|] == before;
      RunOnIsRun(mac, before + [events[0]], events[1..]);
      assert before + [events[0]] + events[1..] == before + events;
    }
  }

  /** A stay that has lasted more than 2000 ms + 2*d since the claim has made exactly two announcements,
      at least 2000 ms apart. */
  lemma AnnouncedTwice(mac: Mac, before: seq<Event>, events: seq<Event>, d: nat)
    requires Timely(before + events)
    requires var s := Run(mac, before);
             && InFallback(s.policy) && s.policy.phase.announceAt == Some(Announcement(s.clock, 2))
             && Staying(s, s.clock, events, d) && LastTick(events, s.clock) > s.clock + ANNOUNCE_GAP + 2 * d
    ensures var stay := StayOf(Run(mac, before + events));
            var made := Announcements(stay);
            stay != [] && |made| == 2 && made[0] >= stay[0].now && made[1] >= made[0] + ANNOUNCE_GAP
  {
    var s := Run(mac, before);
    assert before == (before + events)[..|before|];
    AnnouncedByDeadline(s, s.clock, events, d);
    RunOnIsRun(mac, before, events);
    Invariant(mac, before + events);
  }
}
