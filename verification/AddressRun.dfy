/** The address protocol as a whole: iterations of `auto_address_task` (src/net.rs), calls of the
    driver, and received frames, in any order, over a clock that never goes back.
    The trace records everything that can be observed from outside. */
module AddressRun {
  import opened Bytes
  import opened Wrappers
  import opened AutoAddress
  import opened ArpGuard

  datatype Event =
    | Iterate(now: nat, link: bool, configured: bool, connected: bool)
    | Drive(now: nat, linkUp: bool, txReady: bool)
    | Receive(now: nat, frame: seq<byte>)

  /** `migrated` says that an offer, not a tick, caused the action. */
  datatype Observation =
    | Acted(now: nat, link: bool, configured: bool, connected: bool, migrated: bool, action: Action)
    | Sent(now: nat, frame: seq<byte>)
    | Received(now: nat, frame: seq<byte>)

  datatype System = System(policy: Policy, shared: Shared, clock: nat, trace: seq<Observation>)

  function Start(mac: Mac): System {
    System(New(mac), Cleared(mac), 0, [])
  }

  /** What `auto_address_task` does to the shared state for each action. */
  function Applied(s: Shared, action: Action): Shared {
    match action
    case Idle => s
    case Clear => Cleared(s.mac)
    case Dhcp => Cleared(s.mac)
    case Candidate(ip) => WithCandidate(s, ip)
    case Probe => WithRequest(s, false)
    case Claim(_) => s
    case Announce => WithRequest(s, true)
    case DhcpProbe(xid) => WithDhcpProbe(s, xid)
    case StopDhcpProbe => WithoutDhcpProbe(s)
  }

  /** How the network stack is configured. A link-local address has a 16-bit prefix, no gateway and no DNS. */
  datatype StackConfig = Unconfigured | ViaDhcp | WithAddress(address: Ip, prefixLen: nat)

  function Configured(c: StackConfig, action: Action): StackConfig {
    match action
    case Clear => Unconfigured
    case Dhcp => ViaDhcp
    case Claim(ip) => WithAddress(ip, 16)
    case _ => c
  }

  /** The stack, and whether a peer found on the network is remembered. */
  class NetStack {
    var config: StackConfig
    var peerKnown: bool

    constructor ()
      ensures config == Unconfigured && !peerKnown
    {
      config, peerKnown := Unconfigured, false;
    }

    method ClearPeer()
      modifies this
      ensures !peerKnown && config == old(config)
    {
      peerKnown := false;
    }

    method SetConfig(c: StackConfig)
      modifies this
      ensures config == c && peerKnown == old(peerKnown)
    {
      config := c;
    }
  }

  function InputsOf(e: Event, s: Shared): Inputs
    requires e.Iterate?
  {
    Inputs(e.now, e.link, e.configured, e.connected, s.command != NoCommand, s.conflict)
  }

  predicate Migrates(p: Policy, s: Shared, e: Event) {
    s.dhcpOffer && Offered(p, e.now).1 != Idle
  }

  function Decide(p: Policy, s: Shared, e: Event): (Policy, Action)
    requires e.Iterate?
  {
    if Migrates(p, s, e) then Offered(p, e.now) else Tick(p, InputsOf(e, s))
  }

  function Acting(p: Policy, s: Shared, e: Event): Observation
    requires e.Iterate?
  {
    Acted(e.now, e.link, e.configured, e.connected, Migrates(p, s, e), Decide(p, s, e).1)
  }

  function AfterIterate(s: System, e: Event): System
    requires e.Iterate?
  {
    var (policy, action) := Decide(s.policy, s.shared, e);
    System(policy, Applied(s.shared.(dhcpOffer := false), action), e.now, s.trace + [Acting(s.policy, s.shared, e)])
  }

  function AfterDrive(s: System, e: Event): System
    requires e.Drive?
  {
    System(s.policy, Serviced(s.shared, e.linkUp, e.txReady), e.now,
           match ServiceFrame(s.shared, e.linkUp, e.txReady)
           case Some(frame) => s.trace + [Sent(e.now, frame)]
           case None => s.trace)
  }

  ghost function AfterReceive(s: System, e: Event): System
    requires e.Receive?
  {
    System(s.policy, Inspected(s.shared, e.frame), e.now, s.trace + [Received(e.now, e.frame)])
  }

  ghost function Step(s: System, e: Event): System {
    match e
    case Iterate(_, _, _, _) => AfterIterate(s, e)
    case Drive(_, _, _) => AfterDrive(s, e)
    case Receive(_, _) => AfterReceive(s, e)
  }

  ghost function Run(mac: Mac, events: seq<Event>): System {
    if events == [] then Start(mac)
    else Step(Run(mac, events[..|events| - 1]), events[|events| - 1])
  }

  /** The hardware address never changes. */
  lemma MacKept(s: System, e: Event)
    ensures Step(s, e).policy.mac == s.policy.mac
  {
    if e.Iterate? && s.policy.phase.Online? {
      OnlineOutcome(s.policy, InputsOf(e, s.shared));
    }
  }

  predicate Timely(events: seq<Event>) {
    forall i, j :: 0 <= i < j < |events| ==> events[i].now <= events[j].now
  }

  /** The last event of a timely run does not precede what the run had reached before it. */
  lemma LastIsTimely(mac: Mac, events: seq<Event>)
    requires events != [] && Timely(events)
    ensures var before := events[..|events| - 1];
            Timely(before) && Run(mac, before).clock <= events[|events| - 1].now
  {
    var before := events[..|events| - 1];
    if before != [] {
      assert Run(mac, before).clock == before[|before| - 1].now;
    }
  }

  /** One iteration of `auto_address_task`, on the real objects. */
  method Iteration(policy: AutoAddress, probe: ProbeState, stack: NetStack, e: Event) returns (action: Action)
    requires e.Iterate?
    modifies policy, probe, stack
    ensures (policy.State(), action) == Decide(old(policy.State()), old(probe.State()), e)
    ensures probe.State() == Applied(old(probe.State()).(dhcpOffer := false), action)
    ensures stack.config == Configured(old(stack.config), action)
    ensures stack.peerKnown == (old(stack.peerKnown) && !action.Clear? && !action.Dhcp?)
  {
    action := Idle;
    var offered := probe.TakeDhcpOffer();
    if offered {
      action := policy.DhcpOffered(e.now);
    }
    if action == Idle {
      action := policy.TickPolicy(InputsOf(e, probe.State()));
    }
    Perform(probe, stack, action);
  }

  /** What an action asks of the driver and of the stack. */
  method Perform(probe: ProbeState, stack: NetStack, action: Action)
    modifies probe, stack
    ensures probe.State() == Applied(old(probe.State()), action)
    ensures stack.config == Configured(old(stack.config), action)
    ensures stack.peerKnown == (old(stack.peerKnown) && !action.Clear? && !action.Dhcp?)
  {
    match action {
      case Idle =>
      case Clear =>
        probe.Clear();
        stack.ClearPeer();
        stack.SetConfig(Unconfigured);
      case Dhcp =>
        probe.Clear();
        stack.ClearPeer();
        stack.SetConfig(ViaDhcp);
      case Candidate(ip) => probe.SetCandidate(ip);
      case Probe => probe.Request(false);
      case Claim(ip) => stack.SetConfig(WithAddress(ip, 16));
      case Announce => probe.Request(true);
      case DhcpProbe(xid) => probe.RequestDhcpProbe(xid);
      case StopDhcpProbe => probe.StopDhcpProbe();
    }
  }
}
