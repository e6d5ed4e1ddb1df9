/** What the network stack is told: it has a link-local address exactly while the policy claims one, and runs
    DHCP exactly while the policy waits for or uses a lease. */
module AddressConfig {
  import opened Bytes
  import opened Wrappers
  import opened AutoAddress
  import opened ArpGuard
  import opened AddressRun

  /** The configuration that the actions of a trace add up to. */
  function ConfigOf(t: seq<Observation>): StackConfig {
    if t == [] then Unconfigured
    else
      var o := t[|t| - 1];
      if o.Acted? then Configured(ConfigOf(t[..|t| - 1]), o.action) else ConfigOf(t[..|t| - 1])
  }

  function ConfigFor(p: Policy): StackConfig {
    match p.phase
    case AwaitLease(_) => ViaDhcp
    case Online(fallback, _, _) => if fallback then WithAddress(p.address, 16) else ViaDhcp
    case _ => Unconfigured
  }

  lemma ConfigAppend(t: seq<Observation>, o: Observation)
    ensures ConfigOf(t + [o]) == if o.Acted? then Configured(ConfigOf(t), o.action) else ConfigOf(t)
  {
    assert (t + [o])[..|t|] == t;
  }

  lemma TickConfigures(p: Policy, i: Inputs)
    requires !p.phase.Online?
    ensures Configured(ConfigFor(p), Tick(p, i).1) == ConfigFor(Tick(p, i).0)
  {
  }

  lemma DecisionConfigures(p: Policy, s: Shared, e: Event)
    requires e.Iterate?
    ensures Configured(ConfigFor(p), Decide(p, s, e).1) == ConfigFor(Decide(p, s, e).0)
  {
    if !Migrates(p, s, e) {
      if p.phase.Online? {
        OnlineOutcome(p, InputsOf(e, s));
      } else {
        TickConfigures(p, InputsOf(e, s));
      }
    }
  }

  lemma StepConfigures(s: System, e: Event)
    requires ConfigOf(s.trace) == ConfigFor(s.policy)
    ensures ConfigOf(Step(s, e).trace) == ConfigFor(Step(s, e).policy)
  {
    match e {
      case Receive(now, frame) => ConfigAppend(s.trace, Received(now, frame));
      case Drive(now, linkUp, txReady) =>
        match ServiceFrame(s.shared, linkUp, txReady) {
          case None =>
          case Some(frame) => ConfigAppend(s.trace, Sent(now, frame));
        }
      case Iterate(_, _, _, _) =>
        ConfigAppend(s.trace, Acting(s.policy, s.shared, e));
        DecisionConfigures(s.policy, s.shared, e);
    }
  }

  /** In every run, after every step. */
  lemma {:induction false} StackFollowsPolicy(mac: Mac, events: seq<Event>)
    ensures ConfigOf(Run(mac, events).trace) == ConfigFor(Run(mac, events).policy)
  {
    if events != [] {
      StackFollowsPolicy(mac, events[..|events| - 1]);
      StepConfigures(Run(mac, events[..|events| - 1]), events[|events| - 1]);
    }
  }
}
