/** A working link-local address is given up for DHCP only because of a fresh, matching OFFER. */
module AddressMigration {
  import opened Bytes
  import opened Wrappers
  import opened AutoAddress
  import opened ArpGuard
  import opened AddressRun
  import opened AddressTrace
  import DhcpProbe

  /** The trace from a request for a DHCP probe on, while its window is open: nothing but announcements
      has been decided since, and in particular no other probe, no other migration, no end of the window. */
  predicate Window(part: seq<Observation>, xid: u32) {
    && part != [] && part[0].Acted? && part[0].action == DhcpProbe(xid) && !part[0].migrated && xid != 0
    && forall k :: 1 <= k < |part| && part[k].Acted? ==> (part[k].action.Idle? || part[k].action.Announce?) && !part[k].migrated
  }

  predicate AskedAt(part: seq<Observation>, d: int, mac: Mac, xid: u32) {
    1 <= d < |part| && part[d].Sent? && part[d].frame == DhcpProbe.Discover(mac, xid)
  }

  ghost predicate AnsweredAt(part: seq<Observation>, r: int, mac: Mac, xid: u32) {
    1 <= r < |part| && part[r].Received? && DhcpProbe.Offer(part[r].frame, mac, xid)
  }

  ghost predicate Asked(part: seq<Observation>, mac: Mac, xid: u32) {
    exists d :: AskedAt(part, d, mac, xid)
  }

  /** The DISCOVER of this transaction went out, and after it an OFFER for this transaction came in. */
  ghost predicate Answered(part: seq<Observation>, mac: Mac, xid: u32) {
    exists d, r :: d < r && AskedAt(part, d, mac, xid) && AnsweredAt(part, r, mac, xid)
  }

  /** What must have happened before a migration, since the last request for a DHCP probe. */
  ghost predicate Caused(part: seq<Observation>, o: Observation, mac: Mac) {
    && part != [] && part[0].Acted? && part[0].action.DhcpProbe?
    && Window(part, part[0].action.xid) && Answered(part, mac, part[0].action.xid)
    && o.now < part[0].now + DHCP_WINDOW
  }

  predicate Migration(o: Observation) {
    o.Acted? && o.migrated
  }

  ghost predicate AllMigrationsCaused(t: seq<Observation>, mac: Mac) {
    forall i :: 0 <= i < |t| && Migration(t[i]) ==> Caused(Since(t[..i], AtDhcpProbe), t[i], mac)
  }

  ghost predicate Inv(p: Policy, s: Shared, part: seq<Observation>) {
    && p.mac == s.mac
    && (s.dhcpXid != 0 <==> InFallback(p) && p.dhcpProbeUntil.Some?)
    && (s.dhcpXid == 0 ==> !s.dhcpPending && !s.dhcpOffer)
    && (s.dhcpXid != 0 ==>
          && Window(part, s.dhcpXid) && p.dhcpProbeUntil.value == part[0].now + DHCP_WINDOW
          && (!s.dhcpPending ==> Asked(part, p.mac, s.dhcpXid))
          && (s.dhcpOffer ==> Answered(part, p.mac, s.dhcpXid)))
  }

  function Part(s: System): seq<Observation> {
    Since(s.trace, AtDhcpProbe)
  }

  ghost predicate InvAt(s: System) {
    Inv(s.policy, s.shared, Part(s))
  }

  /** What was asked and answered in a part stays so when the part grows. */
  lemma Longer(part: seq<Observation>, o: Observation, mac: Mac, xid: u32)
    ensures Asked(part, mac, xid) ==> Asked(part + [o], mac, xid)
    ensures Answered(part, mac, xid) ==> Answered(part + [o], mac, xid)
    ensures Asked(part, mac, xid) && o.Received? && DhcpProbe.Offer(o.frame, mac, xid) && part != []
            ==> Answered(part + [o], mac, xid)
    ensures part != [] && o.Sent? && o.frame == DhcpProbe.Discover(mac, xid) ==> Asked(part + [o], mac, xid)
  {
    var longer := part + [o];
    if Asked(part, mac, xid) {
      var d :| AskedAt(part, d, mac, xid);
      assert AskedAt(longer, d, mac, xid);
      if o.Received? && DhcpProbe.Offer(o.frame, mac, xid) {
        assert AnsweredAt(longer, |part|, mac, xid);
      }
    }
    if Answered(part, mac, xid) {
      var d, r :| d < r && AskedAt(part, d, mac, xid) && AnsweredAt(part, r, mac, xid);
      assert AskedAt(longer, d, mac, xid) && AnsweredAt(longer, r, mac, xid);
    }
    if part != [] && o.Sent? && o.frame == DhcpProbe.Discover(mac, xid) {
      assert AskedAt(longer, |part|, mac, xid);
    }
  }

  lemma ReceiveKeeps(p: Policy, s: Shared, part: seq<Observation>, now: nat, frame: seq<byte>)
    requires Inv(p, s, part)
    ensures Inv(p, Inspected(s, frame), part + [Received(now, frame)])
  {
    Longer(part, Received(now, frame), p.mac, s.dhcpXid);
  }

  lemma DriveKeeps(p: Policy, s: Shared, part: seq<Observation>, now: nat, linkUp: bool, txReady: bool)
    requires Inv(p, s, part)
    ensures var s' := Serviced(s, linkUp, txReady);
            match ServiceFrame(s, linkUp, txReady)
            case None => Inv(p, s', part)
            case Some(frame) => Inv(p, s', part + [Sent(now, frame)])
  {
    match ServiceFrame(s, linkUp, txReady) {
      case None =>
      case Some(frame) => Longer(part, Sent(now, frame), p.mac, s.dhcpXid);
    }
  }

  /** What an iteration must establish. */
  ghost predicate Kept(p: Policy, s: Shared, part: seq<Observation>, e: Event)
    requires e.Iterate?
  {
    var o, p' := Acting(p, s, e), Decide(p, s, e).0;
    && Inv(p', Applied(s.(dhcpOffer := false), o.action), NextPart(part, AtDhcpProbe, o))
    && (Migration(o) ==> Caused(part, o, p.mac))
  }

  lemma KeptOffline(p: Policy, s: Shared, part: seq<Observation>, e: Event)
    requires Inv(p, s, part) && e.Iterate? && !p.phase.Online?
    ensures Kept(p, s, part, e)
  {
  }

  lemma KeptMigrating(p: Policy, s: Shared, part: seq<Observation>, e: Event)
    requires Inv(p, s, part) && e.Iterate? && Migrates(p, s, e)
    ensures Kept(p, s, part, e)
  {
  }

  /** How an online tick may change the window. */
  predicate WindowChange(p: Policy, p': Policy, action: Action, now: nat) {
    && p'.mac == p.mac
    && match action
       case Clear => !p'.phase.Online?
       case DhcpProbe(xid) =>
         xid != 0 && InFallback(p') && p.dhcpProbeUntil.None? && p'.dhcpProbeUntil == Some(now + DHCP_WINDOW)
       case StopDhcpProbe => p'.dhcpProbeUntil.None?
       case _ => (action.Idle? || action.Announce?) && InFallback(p') == InFallback(p) && p'.dhcpProbeUntil == p.dhcpProbeUntil
  }

  lemma OnlineWindow(p: Policy, i: Inputs)
    requires p.phase.Online?
    ensures WindowChange(p, Tick(p, i).0, Tick(p, i).1, i.now)
  {
  }

  lemma WindowKept(p: Policy, p': Policy, s: Shared, part: seq<Observation>, o: Observation)
    requires Inv(p, s, part) && o.Acted? && !o.migrated && WindowChange(p, p', o.action, o.now)
    ensures Inv(p', Applied(s.(dhcpOffer := false), o.action), NextPart(part, AtDhcpProbe, o))
  {
    Longer(part, o, p.mac, s.dhcpXid);
  }

  lemma KeptOnline(p: Policy, s: Shared, part: seq<Observation>, e: Event)
    requires Inv(p, s, part) && e.Iterate? && p.phase.Online? && !Migrates(p, s, e)
    ensures Kept(p, s, part, e)
  {
    OnlineWindow(p, InputsOf(e, s));
    WindowKept(p, Decide(p, s, e).0, s, part, Acting(p, s, e));
  }

  lemma IterateKeeps(p: Policy, s: Shared, part: seq<Observation>, e: Event)
    requires Inv(p, s, part) && e.Iterate?
    ensures Kept(p, s, part, e)
  {
    if !p.phase.Online? {
      KeptOffline(p, s, part, e);
    } else if Migrates(p, s, e) {
      KeptMigrating(p, s, part, e);
    } else {
      KeptOnline(p, s, part, e);
    }
  }

  lemma StepReceive(s: System, e: Event)
    requires InvAt(s) && e.Receive?
    ensures InvAt(AfterReceive(s, e))
  {
    ReceiveKeeps(s.policy, s.shared, Part(s), e.now, e.frame);
    SinceAppend(s.trace, AtDhcpProbe, Received(e.now, e.frame));
  }

  lemma StepDrive(s: System, e: Event)
    requires InvAt(s) && e.Drive?
    ensures InvAt(AfterDrive(s, e))
  {
    DriveKeeps(s.policy, s.shared, Part(s), e.now, e.linkUp, e.txReady);
    match ServiceFrame(s.shared, e.linkUp, e.txReady) {
      case None =>
      case Some(frame) => SinceAppend(s.trace, AtDhcpProbe, Sent(e.now, frame));
    }
  }

  lemma StepIterate(s: System, e: Event)
    requires InvAt(s) && e.Iterate?
    ensures InvAt(AfterIterate(s, e))
    ensures var o := Acting(s.policy, s.shared, e); Migration(o) ==> Caused(Part(s), o, s.policy.mac)
  {
    IterateKeeps(s.policy, s.shared, Part(s), e);
    SinceAppend(s.trace, AtDhcpProbe, Acting(s.policy, s.shared, e));
  }

  lemma Extend(t: seq<Observation>, o: Observation, mac: Mac)
    requires AllMigrationsCaused(t, mac)
    requires Migration(o) ==> Caused(Since(t, AtDhcpProbe), o, mac)
    ensures AllMigrationsCaused(t + [o], mac)
  {
    var t' := t + [o];
    assert t'[..|t|] == t;
    assert forall i :: 0 <= i < |t| ==> t'[i] == t[i] && t'[..i] == t[..i];
  }

  lemma StepKeeps(s: System, e: Event, mac: Mac)
    requires InvAt(s) && s.policy.mac == mac && AllMigrationsCaused(s.trace, mac)
    ensures InvAt(Step(s, e)) && Step(s, e).policy.mac == mac && AllMigrationsCaused(Step(s, e).trace, mac)
  {
    match e {
      case Receive(_, _) => StepReceive(s, e);
      case Drive(_, _, _) => StepDrive(s, e);
      case Iterate(_, _, _, _) => StepIterate(s, e);
    }
    MacKept(s, e);
    CausesKept(s, e, mac);
  }

  lemma CausesKept(s: System, e: Event, mac: Mac)
    requires AllMigrationsCaused(s.trace, mac)
    requires e.Iterate? ==> var o := Acting(s.policy, s.shared, e); Migration(o) ==> Caused(Part(s), o, mac)
    ensures AllMigrationsCaused(Step(s, e).trace, mac)
  {
    match e {
      case Receive(now, frame) => Extend(s.trace, Received(now, frame), mac);
      case Drive(now, linkUp, txReady) =>
        match ServiceFrame(s.shared, linkUp, txReady) {
          case None =>
          case Some(frame) => Extend(s.trace, Sent(now, frame), mac);
        }
      case Iterate(_, _, _, _) => Extend(s.trace, Acting(s.policy, s.shared, e), mac);
    }
  }

  lemma {:induction false} Invariant(mac: Mac, events: seq<Event>)
    ensures InvAt(Run(mac, events)) && Run(mac, events).policy.mac == mac
    ensures AllMigrationsCaused(Run(mac, events).trace, mac)
  {
    if events != [] {
      var n := |events| - 1;
      Invariant(mac, events[..n]);
      StepKeeps(Run(mac, events[..n]), events[n], mac);
    }
  }

  /** In every run, every migration was caused by an OFFER that answers the DISCOVER of the last request,
      in a window of 4000 ms that no other request, migration or stop has touched. So each request causes
      at most one migration, and windows do not overlap. */
  lemma MigrationOnlyOnFreshOffer(mac: Mac, events: seq<Event>)
    ensures AllMigrationsCaused(Run(mac, events).trace, mac)
  {
    Invariant(mac, events);
  }

  /** Two migrations are never caused by the same request: the request behind the second one is later
      than the first migration. */
  lemma OneMigrationPerRequest(mac: Mac, events: seq<Event>, i: nat, j: nat)
    requires var t := Run(mac, events).trace; i < j < |t| && Migration(t[i]) && Migration(t[j])
    ensures var t := Run(mac, events).trace; |Since(t[..j], AtDhcpProbe)| < j - i
  {
    var t := Run(mac, events).trace;
    Invariant(mac, events);
    NoMigrationInside(Since(t[..j], AtDhcpProbe), t[j], mac);
    SinceBefore(t, i, j);
  }

  lemma SinceBefore(t: seq<Observation>, i: nat, j: nat)
    requires i < j < |t| && Migration(t[i])
    requires forall k :: 0 <= k < |Since(t[..j], AtDhcpProbe)| ==> !Migration(Since(t[..j], AtDhcpProbe)[k])
    ensures |Since(t[..j], AtDhcpProbe)| < j - i
  {
    SinceIsSuffix(t[..j], AtDhcpProbe);
    var part := Since(t[..j], AtDhcpProbe);
    assert forall k :: 0 <= k < |part| ==> part[k] == t[j - |part| + k];
  }

  lemma NoMigrationInside(part: seq<Observation>, o: Observation, mac: Mac)
    requires Caused(part, o, mac)
    ensures forall k :: 0 <= k < |part| ==> !Migration(part[k])
  {
  }
}
