/** Life at an address: what a stay at a link-local address consists of, and exactly what ends it;
    and that a leased address is left alone. */
module AddressStay {
  import opened Bytes
  import opened Wrappers
  import opened AutoAddress
  import opened ArpGuard
  import opened AddressRun
  import opened AddressTrace
  import opened AddressClaim

  const ANNOUNCE_GAP := 2_000

  /** The times of the claim and of the DHCP probes of a stay. */
  function Starts(stay: seq<Observation>): seq<nat> {
    if stay == [] then []
    else
      var o := stay[|stay| - 1];
      Starts(stay[..|stay| - 1]) + if o.Acted? && (o.action.Claim? || o.action.DhcpProbe?) then [o.now] else []
  }

  /** The times of the announcements of a stay. */
  function Announcements(stay: seq<Observation>): seq<nat> {
    if stay == [] then []
    else
      var o := stay[|stay| - 1];
      Announcements(stay[..|stay| - 1]) + if o.Acted? && o.action.Announce? then [o.now] else []
  }

  /** When the session was last seen connected, or else the time of the claim. */
  function LastActive(stay: seq<Observation>): nat {
    if stay == [] then 0
    else
      var o := stay[|stay| - 1];
      if o.Acted? && (o.connected || o.action.Claim?) then o.now else LastActive(stay[..|stay| - 1])
  }

  /** What may be decided during a stay. Nothing of it touches the address. */
  predicate PartOfStay(o: Observation) {
    o.Acted? ==>
      && o.link && o.configured && !o.migrated
      && (o.action.Idle? || o.action.Announce? || o.action.DhcpProbe? || o.action.StopDhcpProbe?)
  }

  predicate Stay(stay: seq<Observation>, ip: Ip) {
    && stay != [] && stay[0].Acted? && stay[0].action == Claim(ip)
    && forall k :: 1 <= k < |stay| ==> PartOfStay(stay[k])
  }

  /** The announcements still due after those made: two in all, 2000 ms apart, none before the claim. */
  predicate AnnouncementsDue(made: seq<nat>, due: Option<Announcement>, claimed: nat) {
    match due
    case None => |made| == 2 && made[0] >= claimed && made[1] >= made[0] + ANNOUNCE_GAP
    case Some(Announcement(at, remaining)) =>
      if remaining == 2 then made == [] && at == claimed
      else remaining == 1 && |made| == 1 && made[0] >= claimed && at == made[0] + ANNOUNCE_GAP
  }

  /** In fallback, the policy's fields are what the stay's history says they should be. */
  predicate Settled(p: Policy, stay: seq<Observation>, starts: seq<nat>, announced: seq<nat>, active: nat)
    requires InFallback(p)
  {
    && Stay(stay, p.address)
    && starts != [] && Spaced(starts, ProbeInterval(p))
    && p.nextDhcpProbe == starts[|starts| - 1] + ProbeInterval(p)
    && AnnouncementsDue(announced, p.phase.announceAt, stay[0].now)
    && p.phase.idleSince == active
  }

  predicate Inv(p: Policy, clock: nat, stay: seq<Observation>, starts: seq<nat>, announced: seq<nat>, active: nat) {
    && (p.phase.Online? && !p.phase.fallback ==> p.phase.announceAt == None)
    && (InFallback(p) ==> Settled(p, stay, starts, announced, active) && stay[0].now <= clock)
  }

  function StayOf(s: System): seq<Observation> {
    Since(s.trace, AtClaim)
  }

  predicate InvAt(s: System) {
    var stay := StayOf(s);
    Inv(s.policy, s.clock, stay, Starts(stay), Announcements(stay), LastActive(stay))
  }

  // How one more observation changes what is read off a stay.

  function NextStarts(starts: seq<nat>, o: Observation): seq<nat> {
    if o.Acted? && o.action.Claim? then [o.now]
    else if o.Acted? && o.action.DhcpProbe? then starts + [o.now]
    else starts
  }

  function NextAnnouncements(announced: seq<nat>, o: Observation): seq<nat> {
    if o.Acted? && o.action.Claim? then []
    else if o.Acted? && o.action.Announce? then announced + [o.now]
    else announced
  }

  function NextActive(active: nat, o: Observation): nat {
    if o.Acted? && (o.connected || o.action.Claim?) then o.now else active
  }

  lemma ReadOff(stay: seq<Observation>, o: Observation)
    ensures var next := NextPart(stay, AtClaim, o);
            && Starts(next) == NextStarts(Starts(stay), o)
            && Announcements(next) == NextAnnouncements(Announcements(stay), o)
            && LastActive(next) == NextActive(LastActive(stay), o)
  {
    assert (stay + [o])[..|stay|] == stay;
    assert [o][..0] == [];
  }

  /** What an iteration must establish. */
  predicate Kept(
    p: Policy, s: Shared, stay: seq<Observation>, starts: seq<nat>, announced: seq<nat>, active: nat, e: Event)
    requires e.Iterate?
  {
    var o, p' := Acting(p, s, e), Decide(p, s, e).0;
    Inv(p', e.now, NextPart(stay, AtClaim, o), NextStarts(starts, o), NextAnnouncements(announced, o), NextActive(active, o))
  }

  lemma KeptOffline(
    p: Policy, s: Shared, clock: nat, stay: seq<Observation>, starts: seq<nat>, announced: seq<nat>, active: nat, e: Event)
    requires Inv(p, clock, stay, starts, announced, active) && e.Iterate? && clock <= e.now
    requires !p.phase.Online? || !p.phase.fallback
    ensures Kept(p, s, stay, starts, announced, active, e)
  {
    OfflineOutcome(p, InputsOf(e, s));
  }

  /** Outside the fallback, a tick enters it only by claiming an address, and online means leased otherwise. */
  lemma OfflineOutcome(p: Policy, i: Inputs)
    requires !InFallback(p) && (p.phase.Online? ==> p.phase.announceAt == None)
    ensures var (p', action) := Tick(p, i);
            if action.Claim? then
              && p' == p.(phase := Online(true, i.now, Some(Announcement(i.now, 2))), nextDhcpProbe := i.now + ProbeInterval(p), dhcpProbeUntil := None)
              && action == Claim(p.address)
            else
              && (p'.phase.Online? ==> !p'.phase.fallback && p'.phase.announceAt == None)
              && !action.DhcpProbe? && !action.Announce?
  {
  }

  lemma KeptInFallback(
    p: Policy, s: Shared, clock: nat, stay: seq<Observation>, starts: seq<nat>, announced: seq<nat>, active: nat, e: Event)
    requires Inv(p, clock, stay, starts, announced, active) && e.Iterate? && clock <= e.now && InFallback(p)
    ensures Kept(p, s, stay, starts, announced, active, e)
  {
    if !Migrates(p, s, e) {
      FallbackTick(p, InputsOf(e, s));
    }
  }

  lemma StepIterate(s: System, e: Event)
    requires InvAt(s) && e.Iterate? && s.clock <= e.now
    ensures InvAt(AfterIterate(s, e))
  {
    var stay, o := StayOf(s), Acting(s.policy, s.shared, e);
    if InFallback(s.policy) {
      KeptInFallback(s.policy, s.shared, s.clock, stay, Starts(stay), Announcements(stay), LastActive(stay), e);
    } else {
      KeptOffline(s.policy, s.shared, s.clock, stay, Starts(stay), Announcements(stay), LastActive(stay), e);
    }
    SinceAppend(s.trace, AtClaim, o);
    ReadOff(stay, o);
  }

  lemma StepOther(s: System, o: Observation)
    requires InvAt(s) && !o.Acted? && s.clock <= o.now
    ensures InvAt(s.(trace := s.trace + [o], clock := o.now))
  {
    SinceAppend(s.trace, AtClaim, o);
    ReadOff(StayOf(s), o);
  }

  lemma StepKeeps(s: System, e: Event)
    requires InvAt(s) && s.clock <= e.now
    ensures InvAt(Step(s, e))
  {
    match e {
      case Receive(now, frame) => StepOther(s, Received(now, frame));
      case Drive(now, linkUp, txReady) =>
        match ServiceFrame(s.shared, linkUp, txReady) {
          case None =>
          case Some(frame) => StepOther(s, Sent(now, frame));
        }
      case Iterate(_, _, _, _) => StepIterate(s, e);
    }
  }

  lemma {:induction false} Invariant(mac: Mac, events: seq<Event>)
    requires Timely(events)
    ensures InvAt(Run(mac, events))
  {
    if events != [] {
      LastIsTimely(mac, events);
      Invariant(mac, events[..|events| - 1]);
      StepKeeps(Run(mac, events[..|events| - 1]), events[|events| - 1]);
    }
  }

  lemma ProbeIntervalRange(p: Policy)
    ensures 15_000 <= ProbeInterval(p) <= 241_020
  {
    var x := 15_000;
    assert Shifted(x, 1) == 30_000 && Shifted(x, 2) == 60_000;
    assert Shifted(x, 3) == 2 * Shifted(x, 2) && Shifted(x, 4) == 2 * Shifted(x, 3);
  }

  /** In every run and during every stay: DHCP probes keep the probe interval (15000 to 241020 ms) from the
      claim and from one another, and at most two announcements are made, 2000 ms apart. */
  lemma StayDiscipline(mac: Mac, events: seq<Event>)
    requires Timely(events) && InFallback(Run(mac, events).policy)
    ensures var s := Run(mac, events);
            var made := Announcements(StayOf(s));
            && Stay(StayOf(s), s.policy.address)
            && Spaced(Starts(StayOf(s)), ProbeInterval(s.policy)) && 15_000 <= ProbeInterval(s.policy) <= 241_020
            && |made| <= 2 && Spaced(made, ANNOUNCE_GAP)
  {
    Invariant(mac, events);
    ProbeIntervalRange(Run(mac, events).policy);
    TwoAtMost(Announcements(StayOf(Run(mac, events))), Run(mac, events).policy.phase.announceAt, StayOf(Run(mac, events))[0].now);
  }

  lemma TwoAtMost(made: seq<nat>, due: Option<Announcement>, claimed: nat)
    requires AnnouncementsDue(made, due, claimed)
    ensures |made| <= 2 && Spaced(made, ANNOUNCE_GAP)
  {
  }

  /** An OFFER is accepted now. */
  predicate OfferAccepted(s: System, now: nat) {
    s.shared.dhcpOffer && s.policy.dhcpProbeUntil.Some? && now < s.policy.dhcpProbeUntil.value
  }

  /** In every run, an iteration gives a link-local address up exactly on link loss, lost configuration,
      a conflict, an accepted OFFER, or 60000 ms without a connection. */
  lemma FallbackEndsIff(mac: Mac, events: seq<Event>, e: Event)
    requires Timely(events) && InFallback(Run(mac, events).policy) && e.Iterate?
    ensures var s := Run(mac, events);
            !InFallback(AfterIterate(s, e).policy) <==>
              || !e.link || !e.configured || s.shared.conflict || OfferAccepted(s, e.now)
              || (!e.connected && e.now - LastActive(StayOf(s)) >= IDLE_LIMIT)
    ensures var s := Run(mac, events);
            !InFallback(AfterIterate(s, e).policy) <==> Acting(s.policy, s.shared, e).action == Clear
  {
    Invariant(mac, events);
    var s := Run(mac, events);
    if !OfferAccepted(s, e.now) {
      FallbackTick(s.policy, InputsOf(e, s.shared));
    }
  }

  ghost function RunFrom(s: System, events: seq<Event>): System {
    if events == [] then s else Step(RunFrom(s, events[..|events| - 1]), events[|events| - 1])
  }

  predicate Healthy(events: seq<Event>) {
    forall i :: 0 <= i < |events| && events[i].Iterate? ==> events[i].link && events[i].configured
  }

  predicate Leased(p: Policy) {
    p.phase.Online? && !p.phase.fallback
  }

  lemma LeasedStep(s: System, e: Event)
    requires Leased(s.policy) && s.policy.phase.announceAt == None && (e.Iterate? ==> e.link && e.configured)
    ensures var s' := Step(s, e);
            && Leased(s'.policy) && s'.policy.phase.announceAt == None
            && (s'.trace == s.trace || exists o :: s'.trace == s.trace + [o] && (o.Acted? ==> o.action == Idle))
  {
  }

  /** While link and lease hold, a leased address is never touched, whatever else happens. */
  lemma {:induction false} LeasedSessionUninterrupted(mac: Mac, before: seq<Event>, events: seq<Event>)
    requires Timely(before) && Leased(Run(mac, before).policy) && Healthy(events)
    ensures var s, s' := Run(mac, before), RunFrom(Run(mac, before), events);
            && Leased(s'.policy) && s'.policy.phase.announceAt == None
            && |s.trace| <= |s'.trace|
            && forall k :: |s.trace| <= k < |s'.trace| && s'.trace[k].Acted? ==> s'.trace[k].action == Idle
  {
    if events == [] {
      Invariant(mac, before);
    } else {
      LeasedSessionUninterrupted(mac, before, events[..|events| - 1]);
      LeasedStep(RunFrom(Run(mac, before), events[..|events| - 1]), events[|events| - 1]);
    }
  }
}
