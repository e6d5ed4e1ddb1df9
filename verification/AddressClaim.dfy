/** No link-local address is claimed before the wire was asked three times (RFC 3927, section 2.2.1). */
module AddressClaim {
  import opened Bytes
  import opened Wrappers
  import opened Ipv4ll
  import opened AutoAddress
  import opened ArpGuard
  import opened AddressRun
  import opened AddressTrace

  /** What may be seen after a candidate was chosen while it is being probed. */
  predicate PartOfProbing(o: Observation, mac: Mac, ip: Ip) {
    match o
    case Acted(_, link, _, _, _, action) => link && (action.Idle? || action.Probe?)
    case Sent(_, frame) => frame == Arp(mac, ip, false)
    case Received(_, _) => true
  }

  /** A stretch of trace that starts with the choice of `ip` and has only probed for it since. */
  predicate Probing(part: seq<Observation>, mac: Mac, ip: Ip) {
    && LinkLocal(ip)
    && part != [] && part[0].Acted? && part[0].link && part[0].action == Candidate(ip)
    && forall k :: 1 <= k < |part| ==> PartOfProbing(part[k], mac, ip)
  }

  predicate Undisturbed(part: seq<Observation>, mac: Mac, ip: Ip) {
    forall k :: 0 <= k < |part| && part[k].Received? ==> !ArpConflict(part[k].frame, mac, ip)
  }

  predicate Spaced(times: seq<nat>, gap: nat) {
    forall k :: 1 <= k < |times| ==> times[k - 1] + gap <= times[k]
  }

  /** Everything that must have happened on the wire before a claim: exactly three frames were sent since
      the candidate was chosen, all of them probes for it, far enough apart and long enough ago; nobody
      answered or probed for the same address; and the link was up throughout. */
  predicate Justified(part: seq<Observation>, claim: Observation, mac: Mac, ip: Ip) {
    var times := SendTimes(part);
    && Probing(part, mac, ip) && Undisturbed(part, mac, ip)
    && |times| == 3 && Spaced(times, ProbeGap(mac))
    && claim.Acted? && claim.link && times[2] + ClaimGap(mac) <= claim.now
  }

  predicate Claims(o: Observation) {
    o.Acted? && o.action.Claim?
  }

  predicate AllClaimsJustified(t: seq<Observation>, mac: Mac) {
    forall i :: 0 <= i < |t| && Claims(t[i]) ==> Justified(Since(t[..i], AtCandidate), t[i], mac, t[i].action.ip)
  }

  /** Candidate `p.address` is being probed: `part` is the trace since it was chosen, and `times` are the
      times at which frames were sent in that part. */
  predicate Trying(p: Policy, s: Shared, part: seq<Observation>, times: seq<nat>, sent: nat) {
    && Probing(part, p.mac, p.address)
    && s.candidate == p.address
    && s.dhcpXid == 0 && !s.dhcpPending && !s.dhcpOffer
    && |times| == sent && Spaced(times, ProbeGap(p.mac))
    && (!s.conflict ==> Undisturbed(part, p.mac, p.address))
  }

  predicate LastBefore(times: seq<nat>, gap: nat, limit: nat) {
    times != [] ==> times[|times| - 1] + gap <= limit
  }

  predicate Inv(p: Policy, s: Shared, clock: nat, part: seq<Observation>, times: seq<nat>) {
    && p.mac == s.mac
    && match p.phase
       case Down | StartDhcp | AwaitLease(_) | Choose(_) => s == Cleared(p.mac)
       case ProbeDelay(until, sent) =>
         sent < 3 && Trying(p, s, part, times, sent) && s.command == NoCommand && LastBefore(times, ProbeGap(p.mac), until)
       case ProbeTx(_, sent) =>
         && sent < 3
         && (if s.command == NoCommand then Trying(p, s, part, times, sent + 1) && LastBefore(times, 0, clock)
             else s.command == SendProbe && Trying(p, s, part, times, sent) && LastBefore(times, ProbeGap(p.mac), clock))
       case ClaimDelay(until) =>
         Trying(p, s, part, times, 3) && s.command == NoCommand && LastBefore(times, ClaimGap(p.mac), until)
       case Online(_, _, _) => true
  }

  function Part(s: System): seq<Observation> {
    Since(s.trace, AtCandidate)
  }

  predicate InvAt(s: System) {
    Inv(s.policy, s.shared, s.clock, Part(s), SendTimes(Part(s)))
  }

  lemma PartAfterFrame(t: seq<Observation>, o: Observation)
    requires !o.Acted?
    ensures Since(t + [o], AtCandidate) == Since(t, AtCandidate) + [o]
    ensures SendTimes(Since(t + [o], AtCandidate)) ==
            if o.Sent? then SendTimes(Since(t, AtCandidate)) + [o.now] else SendTimes(Since(t, AtCandidate))
  {
    SinceAppend(t, AtCandidate, o);
    SendTimesAppend(Since(t, AtCandidate), o);
  }

  lemma StepReceive(s: System, e: Event)
    requires InvAt(s) && e.Receive? && s.clock <= e.now
    ensures InvAt(AfterReceive(s, e))
  {
    InspectedOnly(s.shared, e.frame);
    StepReceiveAs(s, e, Inspected(s.shared, e.frame));
  }

  lemma StepReceiveAs(s: System, e: Event, s': Shared)
    requires InvAt(s) && e.Receive? && s.clock <= e.now
    requires (s.shared.dhcpXid == 0 ==> s' == s.shared.(conflict := s'.conflict)) && s'.mac == s.shared.mac
    requires s'.conflict <==> s.shared.conflict || (s.shared.candidate != ZERO_IP && ArpConflict(e.frame, s.shared.mac, s.shared.candidate))
    ensures InvAt(System(s.policy, s', e.now, s.trace + [Received(e.now, e.frame)]))
  {
    var o := Received(e.now, e.frame);
    PartAfterFrame(s.trace, o);
    ReceiveKeeps(s.policy, s.shared, s', Part(s), SendTimes(Part(s)), o, s.clock);
  }

  /** With no transaction open, inspection can only raise the conflict flag. */
  lemma InspectedOnly(s: Shared, frame: seq<byte>)
    ensures var s' := Inspected(s, frame);
            && (s.dhcpXid == 0 ==> s' == s.(conflict := s'.conflict))
            && s'.mac == s.mac
            && (s'.conflict <==> s.conflict || (s.candidate != ZERO_IP && ArpConflict(frame, s.mac, s.candidate)))
  {
  }

  lemma ReceiveKeeps(
    p: Policy, s: Shared, s': Shared, part: seq<Observation>, times: seq<nat>, o: Observation, clock: nat)
    requires Inv(p, s, clock, part, times) && o.Received? && clock <= o.now
    requires (s.dhcpXid == 0 ==> s' == s.(conflict := s'.conflict)) && s'.mac == s.mac
    requires s'.conflict <==> s.conflict || (s.candidate != ZERO_IP && ArpConflict(o.frame, s.mac, s.candidate))
    ensures Inv(p, s', o.now, part + [o], times)
  {
  }

  lemma DriveKeeps(
    p: Policy, s: Shared, part: seq<Observation>, times: seq<nat>, clock: nat, now: nat, linkUp: bool, txReady: bool)
    requires Inv(p, s, clock, part, times) && clock <= now
    ensures var s' := Serviced(s, linkUp, txReady);
            match ServiceFrame(s, linkUp, txReady)
            case None => Inv(p, s', now, part, times)
            case Some(frame) => Inv(p, s', now, part + [Sent(now, frame)], times + [now])
  {
  }

  lemma StepDrive(s: System, e: Event)
    requires InvAt(s) && e.Drive? && s.clock <= e.now
    ensures InvAt(AfterDrive(s, e))
  {
    DriveKeeps(s.policy, s.shared, Part(s), SendTimes(Part(s)), s.clock, e.now, e.linkUp, e.txReady);
    match ServiceFrame(s.shared, e.linkUp, e.txReady) {
      case None =>
      case Some(frame) =>
        PartAfterFrame(s.trace, Sent(e.now, frame));
    }
  }

  /** What an iteration must establish. */
  predicate Kept(p: Policy, s: Shared, part: seq<Observation>, times: seq<nat>, e: Event)
    requires e.Iterate?
  {
    var o, p' := Acting(p, s, e), Decide(p, s, e).0;
    && Inv(p', Applied(s.(dhcpOffer := false), o.action), e.now, NextPart(part, AtCandidate, o),
           if Marks(AtCandidate, o) then [] else times)
    && (Claims(o) ==> o.action.ip == p.address && o.link && p.phase.ClaimDelay? && p.phase.until <= o.now && !s.conflict)
  }

  lemma KeptBeforeChoice(p: Policy, s: Shared, part: seq<Observation>, times: seq<nat>, clock: nat, e: Event)
    requires Inv(p, s, clock, part, times) && e.Iterate? && clock <= e.now && (p.phase.Down? || p.phase.StartDhcp? || p.phase.AwaitLease?)
    ensures Kept(p, s, part, times, e)
  {
  }

  lemma KeptByChoice(p: Policy, s: Shared, part: seq<Observation>, times: seq<nat>, clock: nat, e: Event)
    requires Inv(p, s, clock, part, times) && e.Iterate? && clock <= e.now && p.phase.Choose?
    ensures Kept(p, s, part, times, e)
  {
    CandidateIsLinkLocal(p.mac, p.attempt);
  }

  /** Probing is given up when the link is lost or somebody objects. */
  lemma KeptGivingUp(p: Policy, s: Shared, part: seq<Observation>, times: seq<nat>, clock: nat, e: Event)
    requires Inv(p, s, clock, part, times) && e.Iterate? && clock <= e.now
    requires p.phase.ProbeDelay? || p.phase.ProbeTx? || p.phase.ClaimDelay?
    requires !e.link || s.conflict
    ensures Kept(p, s, part, times, e)
  {
  }

  lemma KeptInProbeDelay(p: Policy, s: Shared, part: seq<Observation>, times: seq<nat>, clock: nat, e: Event)
    requires Inv(p, s, clock, part, times) && e.Iterate? && clock <= e.now && p.phase.ProbeDelay? && e.link && !s.conflict
    ensures Kept(p, s, part, times, e)
  {
  }

  lemma KeptInProbeTx(p: Policy, s: Shared, part: seq<Observation>, times: seq<nat>, clock: nat, e: Event)
    requires Inv(p, s, clock, part, times) && e.Iterate? && clock <= e.now && p.phase.ProbeTx? && e.link && !s.conflict
    ensures Kept(p, s, part, times, e)
  {
    if s.command == NoCommand {
      KeptWhenSent(p, s, part, times, clock, e);
    } else {
      KeptWhenUnsent(p, s, part, times, clock, e);
    }
  }

  lemma KeptWhenSent(p: Policy, s: Shared, part: seq<Observation>, times: seq<nat>, clock: nat, e: Event)
    requires Inv(p, s, clock, part, times) && e.Iterate? && clock <= e.now && p.phase.ProbeTx?
    requires e.link && !s.conflict && s.command == NoCommand
    ensures Kept(p, s, part, times, e)
  {
  }

  lemma KeptWhenUnsent(p: Policy, s: Shared, part: seq<Observation>, times: seq<nat>, clock: nat, e: Event)
    requires Inv(p, s, clock, part, times) && e.Iterate? && clock <= e.now && p.phase.ProbeTx?
    requires e.link && !s.conflict && s.command != NoCommand
    ensures Kept(p, s, part, times, e)
  {
  }

  lemma KeptInClaimDelay(p: Policy, s: Shared, part: seq<Observation>, times: seq<nat>, clock: nat, e: Event)
    requires Inv(p, s, clock, part, times) && e.Iterate? && clock <= e.now && p.phase.ClaimDelay? && e.link && !s.conflict
    ensures Kept(p, s, part, times, e)
  {
  }

  lemma KeptWhileProbing(p: Policy, s: Shared, part: seq<Observation>, times: seq<nat>, clock: nat, e: Event)
    requires Inv(p, s, clock, part, times) && e.Iterate? && clock <= e.now
    requires p.phase.ProbeDelay? || p.phase.ProbeTx? || p.phase.ClaimDelay?
    ensures Kept(p, s, part, times, e)
  {
    if !e.link || s.conflict {
      KeptGivingUp(p, s, part, times, clock, e);
    } else if p.phase.ProbeDelay? {
      KeptInProbeDelay(p, s, part, times, clock, e);
    } else if p.phase.ProbeTx? {
      KeptInProbeTx(p, s, part, times, clock, e);
    } else {
      KeptInClaimDelay(p, s, part, times, clock, e);
    }
  }

  lemma KeptOnline(p: Policy, s: Shared, part: seq<Observation>, times: seq<nat>, clock: nat, e: Event)
    requires Inv(p, s, clock, part, times) && e.Iterate? && clock <= e.now && p.phase.Online?
    ensures Kept(p, s, part, times, e)
  {
    OnlineOutcome(p, InputsOf(e, s));
  }

  lemma IterateKeeps(p: Policy, s: Shared, part: seq<Observation>, times: seq<nat>, clock: nat, e: Event)
    requires Inv(p, s, clock, part, times) && e.Iterate? && clock <= e.now
    ensures Kept(p, s, part, times, e)
  {
    match p.phase {
      case Choose(_) => KeptByChoice(p, s, part, times, clock, e);
      case ProbeDelay(_, _) => KeptWhileProbing(p, s, part, times, clock, e);
      case ProbeTx(_, _) => KeptWhileProbing(p, s, part, times, clock, e);
      case ClaimDelay(_) => KeptWhileProbing(p, s, part, times, clock, e);
      case Online(_, _, _) => KeptOnline(p, s, part, times, clock, e);
      case _ => KeptBeforeChoice(p, s, part, times, clock, e);
    }
  }

  lemma ClaimJustified(p: Policy, s: Shared, part: seq<Observation>, clock: nat, o: Observation)
    requires Inv(p, s, clock, part, SendTimes(part)) && Claims(o) && o.link
    requires p.phase.ClaimDelay? && p.phase.until <= o.now && !s.conflict
    ensures Justified(part, o, p.mac, p.address)
  {
  }

  lemma StepIterate(s: System, e: Event)
    requires InvAt(s) && e.Iterate? && s.clock <= e.now
    ensures InvAt(AfterIterate(s, e))
    ensures var o := Acting(s.policy, s.shared, e);
            Claims(o) ==> Justified(Part(s), o, s.policy.mac, o.action.ip)
  {
    var o, times := Acting(s.policy, s.shared, e), SendTimes(Part(s));
    IterateKeeps(s.policy, s.shared, Part(s), times, s.clock, e);
    SinceAppend(s.trace, AtCandidate, o);
    NextTimes(Part(s), o);
    assert AfterIterate(s, e).trace == s.trace + [o];
    if Claims(o) {
      ClaimJustified(s.policy, s.shared, Part(s), s.clock, o);
    }
  }

  lemma NextTimes(part: seq<Observation>, o: Observation)
    requires o.Acted?
    ensures SendTimes(NextPart(part, AtCandidate, o)) == if Marks(AtCandidate, o) then [] else SendTimes(part)
  {
    SendTimesAppend(part, o);
    SendTimesAppend([], o);
    assert [] + [o] == [o];
  }

  lemma {:induction false} Invariant(mac: Mac, events: seq<Event>)
    requires Timely(events)
    ensures InvAt(Run(mac, events)) && Run(mac, events).policy.mac == mac
    ensures AllClaimsJustified(Run(mac, events).trace, mac)
  {
    if events != [] {
      var n := |events| - 1;
      var before, e := Run(mac, events[..n]), events[n];
      LastIsTimely(mac, events);
      Invariant(mac, events[..n]);
      StepKeeps(before, e, mac);
    }
  }

  lemma StepKeeps(s: System, e: Event, mac: Mac)
    requires InvAt(s) && s.policy.mac == mac && s.clock <= e.now && AllClaimsJustified(s.trace, mac)
    ensures InvAt(Step(s, e)) && Step(s, e).policy.mac == mac
    ensures AllClaimsJustified(Step(s, e).trace, mac)
  {
    match e {
      case Receive(_, _) => StepReceive(s, e);
      case Drive(_, _, _) => StepDrive(s, e);
      case Iterate(_, _, _, _) => StepIterate(s, e);
    }
    MacKept(s, e);
    ClaimsKept(s, e, mac);
  }

  lemma ClaimsKept(s: System, e: Event, mac: Mac)
    requires AllClaimsJustified(s.trace, mac)
    requires e.Iterate? ==> var o := Acting(s.policy, s.shared, e); Claims(o) ==> Justified(Part(s), o, mac, o.action.ip)
    ensures AllClaimsJustified(Step(s, e).trace, mac)
  {
    match e {
      case Receive(now, frame) => ClaimsStayJustified(s.trace, Received(now, frame), mac);
      case Drive(now, linkUp, txReady) =>
        match ServiceFrame(s.shared, linkUp, txReady) {
          case None =>
          case Some(frame) => ClaimsStayJustified(s.trace, Sent(now, frame), mac);
        }
      case Iterate(_, _, _, _) => ClaimsStayJustified(s.trace, Acting(s.policy, s.shared, e), mac);
    }
  }

  lemma ClaimsStayJustified(t: seq<Observation>, o: Observation, mac: Mac)
    requires AllClaimsJustified(t, mac)
    requires Claims(o) ==> Justified(Since(t, AtCandidate), o, mac, o.action.ip)
    ensures AllClaimsJustified(t + [o], mac)
  {
    var t' := t + [o];
    assert t'[..|t|] == t;
    assert forall i :: 0 <= i < |t| ==> t'[i] == t[i] && t'[..i] == t[..i];
  }

  /** In every run, every claim is justified by what happened since its candidate was chosen. */
  lemma ClaimOnlyAfterProbing(mac: Mac, events: seq<Event>)
    requires Timely(events)
    ensures AllClaimsJustified(Run(mac, events).trace, mac)
  {
    Invariant(mac, events);
  }
}
