/** The address policy of src/protocol/auto_address.rs: DHCP first, then a probed IPv4
    link-local address, with DHCP-presence probing while the fallback is in use.
    Times are milliseconds. `Tick` and `Offered` specify the methods of the class. */
module AutoAddress {
  import opened Bytes
  import opened Wrappers
  import Ipv4ll

  datatype Action =
    | Idle
    | Clear
    | Dhcp
    | Candidate(ip: Ip)
    | Probe
    | Claim(ip: Ip)
    | Announce
    | DhcpProbe(xid: u32)
    | StopDhcpProbe

  datatype Phase =
    | Down
    | StartDhcp
    | AwaitLease(until: nat)
    | Choose(after: nat)
    | ProbeDelay(until: nat, sent: nat)
    | ProbeTx(until: nat, sent: nat)
    | ClaimDelay(until: nat)
    | Online(fallback: bool, idleSince: nat, announceAt: Option<Announcement>)

  datatype Announcement = Announcement(at: nat, remaining: nat)

  datatype Policy = Policy(
    mac: Mac, phase: Phase, attempt: u32, address: Ip, nextDhcpProbe: nat,
    dhcpProbeUntil: Option<nat>, migrating: bool, failedMigrations: byte)

  /** What one iteration sees: the clock, the link, the stack, the session and the driver. */
  datatype Inputs = Inputs(now: nat, link: bool, configured: bool, connected: bool, pending: bool, conflict: bool)

  const LEASE_WAIT := 10_000
  const PROBE_WAIT := 2_000
  const IDLE_LIMIT := 60_000
  const DHCP_WINDOW := 4_000
  const RATE_LIMIT_INTERVAL := 60_000

  function ProbeGap(mac: Mac): nat { 1_000 + mac[4] as nat }
  function ClaimGap(mac: Mac): nat { 3_000 + mac[4] as nat }

  function New(mac: Mac): Policy {
    Policy(mac, Down, 0, ZERO_IP, 0, None, false, 0)
  }

  predicate InFallback(p: Policy) {
    p.phase.Online? && p.phase.fallback
  }

  function Min(a: nat, b: nat): nat { if a < b then a else b }

  function Shifted(x: nat, k: nat): nat {
    if k == 0 then x else 2 * Shifted(x, k - 1)
  }

  function ProbeInterval(p: Policy): nat {
    Shifted(15_000, Min(p.failedMigrations, 4)) + p.mac[5] as nat * 4
  }

  /** Transaction ids mix the clock with the hardware address, and are never zero. */
  function TransactionId(mac: Mac, now: nat): (xid: u32)
    ensures xid != 0
  {
    var x := Xor32(now % U32_RANGE * 1664525 % U32_RANGE, FromBe32(mac[2], mac[3], mac[4], mac[5]));
    if x == 0 then 1 else x
  }

  function Offered(p: Policy, now: nat): (Policy, Action) {
    if InFallback(p) && p.dhcpProbeUntil.Some? && now < p.dhcpProbeUntil.value then
      (p.(dhcpProbeUntil := None, migrating := true, phase := StartDhcp), Clear)
    else (p, Idle)
  }

  function Retry(p: Policy, now: nat): (Policy, Action) {
    (p.(phase := Choose(now + if p.attempt % 10 == 0 then RATE_LIMIT_INTERVAL else 0)), Clear)
  }

  function TickAwaitLease(p: Policy, i: Inputs): (Policy, Action)
    requires p.phase.AwaitLease?
  {
    if i.configured then
      (p.(migrating := false, failedMigrations := 0, phase := Online(false, i.now, None)), Idle)
    else if i.now >= p.phase.until then
      (p.(failedMigrations := if p.migrating then Min(p.failedMigrations + 1, 255) else p.failedMigrations,
          migrating := false, phase := Choose(i.now)), Clear)
    else (p, Idle)
  }

  function TickChoose(p: Policy, i: Inputs): (Policy, Action) {
    var ip := Ipv4ll.Candidate(p.mac, p.attempt);
    (p.(address := ip, attempt := (p.attempt + 1) % U32_RANGE, phase := ProbeDelay(i.now + p.mac[5] as nat * 3, 0)), Candidate(ip))
  }

  function TickProbeTx(p: Policy, i: Inputs): (Policy, Action)
    requires p.phase.ProbeTx?
  {
    if !i.pending then
      if p.phase.sent + 1 == 3 then (p.(phase := ClaimDelay(i.now + ClaimGap(p.mac))), Idle)
      else (p.(phase := ProbeDelay(i.now + ProbeGap(p.mac), p.phase.sent + 1)), Idle)
    else if i.now >= p.phase.until then Retry(p, i.now)
    else (p, Idle)
  }

  function TickClaim(p: Policy, i: Inputs): (Policy, Action) {
    (p.(nextDhcpProbe := i.now + ProbeInterval(p), dhcpProbeUntil := None,
        phase := Online(true, i.now, Some(Announcement(i.now, 2)))), Claim(p.address))
  }

  function TickOnline(p: Policy, i: Inputs): (Policy, Action)
    requires p.phase.Online?
  {
    var fallback := p.phase.fallback;
    var idleSince := if i.connected then i.now else p.phase.idleSince;
    if (fallback && i.conflict) || !i.configured then (p.(phase := StartDhcp), Clear)
    else if fallback && i.now - idleSince >= IDLE_LIMIT then (p.(phase := StartDhcp), Clear)
    else
      match p.phase.announceAt
      case Some(Announcement(at, remaining)) =>
        if i.now >= at && !i.pending then
          (p.(phase := Online(fallback, idleSince,
                              if remaining > 1 then Some(Announcement(i.now + 2_000, remaining - 1)) else None)), Announce)
        else TickProbing(p.(phase := Online(fallback, idleSince, p.phase.announceAt)), i)
      case None => TickProbing(p.(phase := Online(fallback, idleSince, None)), i)
  }

  function TickProbing(p: Policy, i: Inputs): (Policy, Action)
    requires p.phase.Online?
  {
    if p.phase.fallback && p.dhcpProbeUntil.Some? && i.now >= p.dhcpProbeUntil.value then
      (p.(dhcpProbeUntil := None), StopDhcpProbe)
    else if p.phase.fallback && p.dhcpProbeUntil.None? && i.now >= p.nextDhcpProbe && !i.pending then
      (p.(nextDhcpProbe := i.now + ProbeInterval(p), dhcpProbeUntil := Some(i.now + DHCP_WINDOW)),
       DhcpProbe(TransactionId(p.mac, i.now)))
    else (p, Idle)
  }

  function Tick(p: Policy, i: Inputs): (Policy, Action) {
    if !i.link then
      if p.phase.Down? then (p, Idle) else (p.(phase := Down), Clear)
    else
      match p.phase
      case Down | StartDhcp => (p.(dhcpProbeUntil := None, phase := AwaitLease(i.now + LEASE_WAIT)), Dhcp)
      case AwaitLease(_) => TickAwaitLease(p, i)
      case Choose(after) => if i.now >= after then TickChoose(p, i) else (p, Idle)
      case ProbeDelay(until, sent) =>
        if i.conflict then Retry(p, i.now)
        else if i.now >= until then (p.(phase := ProbeTx(i.now + PROBE_WAIT, sent)), Probe)
        else (p, Idle)
      case ProbeTx(_, _) => if i.conflict then Retry(p, i.now) else TickProbeTx(p, i)
      case ClaimDelay(until) =>
        if i.conflict then Retry(p, i.now)
        else if i.now >= until then TickClaim(p, i)
        else (p, Idle)
      case Online(_, _, _) => TickOnline(p, i)
  }

  /** An online tick either stays online or gives the address up; it never claims one. */
  lemma OnlineOutcome(p: Policy, i: Inputs)
    requires p.phase.Online?
    ensures var (p', action) := Tick(p, i);
            && p'.mac == p.mac && p'.address == p.address && p'.attempt == p.attempt
            && (action.Idle? || action.Clear? || action.Announce? || action.DhcpProbe? || action.StopDhcpProbe?)
            && (if action.Clear? then p'.phase.Down? || p'.phase.StartDhcp?
                else p'.phase.Online? && p'.phase.fallback == p.phase.fallback)
  {
  }

  /** What ends a stay at a link-local address, apart from an accepted offer. */
  predicate TickEnds(p: Policy, i: Inputs)
    requires InFallback(p)
  {
    !i.link || !i.configured || i.conflict || (!i.connected && i.now - p.phase.idleSince >= IDLE_LIMIT)
  }

  /** What a tick decides when nothing ends the stay. */
  predicate Staying(p: Policy, i: Inputs, p': Policy, action: Action)
    requires InFallback(p)
  {
    && InFallback(p') && p'.address == p.address && p'.mac == p.mac && p'.failedMigrations == p.failedMigrations
    && p'.phase.idleSince == (if i.connected then i.now else p.phase.idleSince)
    && (if action.Announce? then
          && p.phase.announceAt.Some? && p.phase.announceAt.value.at <= i.now
          && p'.phase.announceAt == (if p.phase.announceAt.value.remaining > 1
                                     then Some(Announcement(i.now + 2_000, p.phase.announceAt.value.remaining - 1)) else None)
        else p'.phase.announceAt == p.phase.announceAt)
    && (if action.DhcpProbe? then p.nextDhcpProbe <= i.now && p'.nextDhcpProbe == i.now + ProbeInterval(p)
        else p'.nextDhcpProbe == p.nextDhcpProbe)
    && (action.Idle? || action.Announce? || action.DhcpProbe? || action.StopDhcpProbe?)
  }

  lemma ProbingStays(p: Policy, q: Policy, i: Inputs)
    requires InFallback(p) && InFallback(q) && q == p.(phase := q.phase)
    requires q.phase.announceAt == p.phase.announceAt && q.phase.idleSince == (if i.connected then i.now else p.phase.idleSince)
    ensures Staying(p, i, TickProbing(q, i).0, TickProbing(q, i).1)
  {
  }

  lemma FallbackTick(p: Policy, i: Inputs)
    requires InFallback(p)
    ensures var (p', action) := Tick(p, i);
            if TickEnds(p, i) then action == Clear && !p'.phase.Online? else Staying(p, i, p', action)
  {
    if !TickEnds(p, i) {
      var idleSince := if i.connected then i.now else p.phase.idleSince;
      ProbingStays(p, p.(phase := Online(true, idleSince, p.phase.announceAt)), i);
    }
  }

  /** The policy object of the firmware. Its time arithmetic is exact: clocks stay far below 2^64. */
  class AutoAddress {
    const mac: Mac
    var phase: Phase
    var attempt: u32
    var address: Ip
    var nextDhcpProbe: nat
    var dhcpProbeUntil: Option<nat>
    var migrating: bool
    var failedMigrations: byte

    function State(): Policy
      reads this
    {
      Policy(mac, phase, attempt, address, nextDhcpProbe, dhcpProbeUntil, migrating, failedMigrations)
    }

    constructor (mac: Mac)
      ensures State() == New(mac)
    {
      this.mac := mac;
      phase := Down;
      attempt := 0;
      address := ZERO_IP;
      nextDhcpProbe := 0;
      dhcpProbeUntil := None;
      migrating := false;
      failedMigrations := 0;
    }

    method DhcpOffered(now: nat) returns (action: Action)
      modifies this
      ensures (State(), action) == Offered(old(State()), now)
    {
      if phase.Online? && phase.fallback && dhcpProbeUntil.Some? && now < dhcpProbeUntil.value {
        dhcpProbeUntil := None;
        migrating := true;
        phase := StartDhcp;
        return Clear;
      }
      return Idle;
    }

    method TickPolicy(i: Inputs) returns (action: Action)
      modifies this
      ensures (State(), action) == Tick(old(State()), i)
    {
      var now := i.now;
      if !i.link {
        if !phase.Down? {
          phase := Down;
          return Clear;
        }
        return Idle;
      }
      match phase {
        case Down | StartDhcp =>
          dhcpProbeUntil := None;
          phase := AwaitLease(now + LEASE_WAIT);
          return Dhcp;
        case AwaitLease(until) =>
          if i.configured {
            migrating := false;
            failedMigrations := 0;
            phase := Online(false, now, None);
          } else if now >= until {
            if migrating {
              failedMigrations := Min(failedMigrations + 1, 255);
              migrating := false;
            }
            phase := Choose(now);
            return Clear;
          }
          return Idle;
        case Choose(after) =>
          if now < after {
            return Idle;
          }
          address := Ipv4ll.LinkLocalCandidate(mac, attempt);
          attempt := (attempt + 1) % U32_RANGE;
          phase := ProbeDelay(now + mac[5] as nat * 3, 0);
          return Candidate(address);
        case ProbeDelay(until, sent) =>
          if i.conflict {
            action := RetryPolicy(now);
            return;
          }
          if now >= until {
            phase := ProbeTx(now + PROBE_WAIT, sent);
            return Probe;
          }
          return Idle;
        case ProbeTx(until, sent) =>
          if i.conflict {
            action := RetryPolicy(now);
            return;
          }
          if !i.pending {
            phase := if sent + 1 == 3 then ClaimDelay(now + ClaimGap(mac)) else ProbeDelay(now + ProbeGap(mac), sent + 1);
          } else if now >= until {
            action := RetryPolicy(now);
            return;
          }
          return Idle;
        case ClaimDelay(until) =>
          if i.conflict {
            action := RetryPolicy(now);
            return;
          }
          if now >= until {
            nextDhcpProbe := now + ProbeInterval(State());
            dhcpProbeUntil := None;
            phase := Online(true, now, Some(Announcement(now, 2)));
            return Claim(address);
          }
          return Idle;
        case Online(fallback, idle, announceAt) =>
          action := OnlineTick(i);
      }
    }

    method OnlineTick(i: Inputs) returns (action: Action)
      requires phase.Online?
      modifies this
      ensures (State(), action) == TickOnline(old(State()), i)
    {
      var now, fallback, idleSince, announceAt := i.now, phase.fallback, phase.idleSince, phase.announceAt;
      if (fallback && i.conflict) || !i.configured {
        phase := StartDhcp;
        return Clear;
      }
      if i.connected {
        idleSince := now;
      }
      if fallback && now - idleSince >= IDLE_LIMIT {
        phase := StartDhcp;
        return Clear;
      }
      if announceAt.Some? && now >= announceAt.value.at && !i.pending {
        var remaining := announceAt.value.remaining;
        phase := Online(fallback, idleSince,
                        if remaining > 1 then Some(Announcement(now + 2_000, remaining - 1)) else None);
        return Announce;
      }
      phase := Online(fallback, idleSince, announceAt);
      action := ProbingTick(i);
    }

    /** The end of an online tick: the DHCP-presence probes of the fallback. */
    method ProbingTick(i: Inputs) returns (action: Action)
      requires phase.Online?
      modifies this
      ensures (State(), action) == TickProbing(old(State()), i)
    {
      if phase.fallback {
        if dhcpProbeUntil.Some? && i.now >= dhcpProbeUntil.value {
          dhcpProbeUntil := None;
          return StopDhcpProbe;
        }
        if dhcpProbeUntil.None? && i.now >= nextDhcpProbe && !i.pending {
          nextDhcpProbe := i.now + ProbeInterval(State());
          dhcpProbeUntil := Some(i.now + DHCP_WINDOW);
          return DhcpProbe(TransactionId(mac, i.now));
        }
      }
      return Idle;
    }

    method RetryPolicy(now: nat) returns (action: Action)
      modifies this
      ensures (State(), action) == Retry(old(State()), now)
    {
      phase := Choose(now + if attempt % 10 == 0 then RATE_LIMIT_INTERVAL else 0);
      return Clear;
    }
  }
}
