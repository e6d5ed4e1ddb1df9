/** The state shared between the policy and the network driver (src/arp_guard.rs), the driver's
    transmissions on the policy's behalf, and its inspection of received frames. */
module ArpGuard {
  import opened Bytes
  import opened Wrappers
  import opened Ipv4ll
  import DhcpProbe

  datatype Command = NoCommand | SendProbe | SendAnnouncement

  /** `candidate` and `dhcpXid` are zero when there is none. */
  datatype Shared = Shared(
    mac: Mac, candidate: Ip, command: Command, conflict: bool,
    dhcpXid: u32, dhcpPending: bool, dhcpOffer: bool)

  function Cleared(mac: Mac): Shared {
    Shared(mac, ZERO_IP, NoCommand, false, 0, false, false)
  }

  function WithCandidate(s: Shared, ip: Ip): Shared {
    s.(conflict := false, candidate := ip)
  }

  function WithRequest(s: Shared, announce: bool): Shared {
    s.(command := if announce then SendAnnouncement else SendProbe)
  }

  function WithDhcpProbe(s: Shared, xid: u32): Shared {
    s.(dhcpOffer := false, dhcpXid := xid, dhcpPending := true)
  }

  function WithoutDhcpProbe(s: Shared): Shared {
    s.(dhcpXid := 0, dhcpPending := false, dhcpOffer := false)
  }

  /** Records what a received frame says about the current candidate and transaction. */
  ghost function Inspected(s: Shared, frame: seq<byte>): Shared {
    s.(dhcpOffer := s.dhcpOffer || (s.dhcpXid != 0 && !s.dhcpPending && DhcpProbe.Offer(frame, s.mac, s.dhcpXid)),
       conflict := s.conflict || (s.candidate != ZERO_IP && ArpConflict(frame, s.mac, s.candidate)))
  }

  /** The frame, if any, that a call of the driver transmits before its own work. */
  function ServiceFrame(s: Shared, linkUp: bool, txReady: bool): Option<seq<byte>> {
    if !linkUp || !txReady then None
    else if s.command != NoCommand && s.candidate != ZERO_IP then
      Some(Arp(s.mac, s.candidate, s.command == SendAnnouncement))
    else if s.dhcpPending then Some(DhcpProbe.Discover(s.mac, s.dhcpXid))
    else None
  }

  function Serviced(s: Shared, linkUp: bool, txReady: bool): Shared {
    if !linkUp || !txReady then s
    else if s.command != NoCommand && s.candidate != ZERO_IP then s.(command := NoCommand)
    else s.(dhcpPending := false)
  }

  /** The shared object. Each method is one step of the cooperative executor of core 0. */
  class ProbeState {
    const mac: Mac
    var candidate: Ip
    var command: Command
    var conflict: bool
    var dhcpXid: u32
    var dhcpPending: bool
    var dhcpOffer: bool

    function State(): Shared
      reads this
    {
      Shared(mac, candidate, command, conflict, dhcpXid, dhcpPending, dhcpOffer)
    }

    constructor (mac: Mac)
      ensures State() == Cleared(mac)
    {
      this.mac := mac;
      candidate, command, conflict := ZERO_IP, NoCommand, false;
      dhcpXid, dhcpPending, dhcpOffer := 0, false, false;
    }

    method SetCandidate(ip: Ip)
      modifies this
      ensures State() == WithCandidate(old(State()), ip)
    {
      conflict := false;
      candidate := ip;
    }

    method Clear()
      modifies this
      ensures State() == Cleared(mac)
    {
      StopDhcpProbe();
      command := NoCommand;
      candidate := ZERO_IP;
      conflict := false;
    }

    method Request(announce: bool)
      modifies this
      ensures State() == WithRequest(old(State()), announce)
    {
      command := if announce then SendAnnouncement else SendProbe;
    }

    method RequestDhcpProbe(xid: u32)
      modifies this
      ensures State() == WithDhcpProbe(old(State()), xid)
    {
      dhcpOffer := false;
      dhcpXid := xid;
      dhcpPending := true;
    }

    method StopDhcpProbe()
      modifies this
      ensures State() == WithoutDhcpProbe(old(State()))
    {
      dhcpXid := 0;
      dhcpPending := false;
      dhcpOffer := false;
    }

    method TakeDhcpOffer() returns (taken: bool)
      modifies this
      ensures taken == old(dhcpOffer) && State() == old(State()).(dhcpOffer := false)
    {
      taken := dhcpOffer;
      dhcpOffer := false;
    }

    method Inspect(frame: seq<byte>)
      modifies this
      ensures State() == Inspected(old(State()), frame)
    {
      if dhcpXid != 0 && !dhcpPending {
        var offer := DhcpProbe.IsOffer(frame, mac, dhcpXid);
        if offer {
          dhcpOffer := true;
        }
      }
      if candidate != ZERO_IP && ArpConflict(frame, mac, candidate) {
        conflict := true;
      }
    }

    method Service(linkUp: bool, txReady: bool) returns (sent: Option<seq<byte>>)
      modifies this
      ensures sent == ServiceFrame(old(State()), linkUp, txReady)
      ensures State() == Serviced(old(State()), linkUp, txReady)
    {
      if !linkUp {
        return None;
      }
      if command != NoCommand && candidate != ZERO_IP {
        if txReady {
          var frame := ArpProbe(mac, candidate, command == SendAnnouncement);
          command := NoCommand;
          return Some(frame[..]);
        }
      } else if dhcpPending {
        if txReady {
          var frame := DhcpProbe.BuildDiscover(mac, dhcpXid);
          dhcpPending := false;
          return Some(frame[..]);
        }
      }
      return None;
    }
  }
}
