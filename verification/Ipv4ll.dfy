/** Link-local candidates and ARP frames (src/protocol/ipv4ll.rs, RFC 3927). */
module Ipv4ll {
  import opened Bytes

  const ARP_SIZE := 42

  /** Hardware type Ethernet, protocol IPv4, address lengths 6 and 4, after EtherType ARP. */
  const ARP_SHAPE: seq<byte> := [8, 6, 0, 1, 8, 0, 6, 4]

  function HashStep(hash: u32, b: byte): u32 {
    Xor32(hash * 16777619 % U32_RANGE, b)
  }

  function Hash(bytes: seq<byte>, attempt: u32): u32 {
    if bytes == [] then attempt * 0x9e3779b9 % U32_RANGE
    else HashStep(Hash(bytes[..|bytes| - 1], attempt), bytes[|bytes| - 1])
  }

  function Candidate(mac: Mac, attempt: u32): Ip {
    var hash := Hash(mac, attempt);
    [169, 254, 1 + hash % 254, hash / 256 % 256]
  }

  method LinkLocalCandidate(mac: Mac, attempt: u32) returns (ip: Ip)
    ensures ip == Candidate(mac, attempt)
  {
    var hash := attempt * 0x9e3779b9 % U32_RANGE;
    for i := 0 to |mac|
      invariant hash == Hash(mac[..i], attempt)
    {
      assert mac[..i + 1][..i] == mac[..i];
      hash := Xor32(hash * 16777619 % U32_RANGE, mac[i]);
    }
    assert mac[..|mac|] == mac;
    ip := [169, 254, 1 + hash % 254, hash / 256 % 256];
  }

  /** The range of section 2.1 of RFC 3927: 169.254.1.0 to 169.254.254.255. */
  predicate LinkLocal(ip: Ip) {
    ip[0] == 169 && ip[1] == 254 && 1 <= ip[2] <= 254
  }

  lemma CandidateIsLinkLocal(mac: Mac, attempt: u32)
    ensures LinkLocal(Candidate(mac, attempt))
  {
  }

  function Arp(mac: Mac, ip: Ip, announce: bool): (frame: seq<byte>)
    ensures |frame| == ARP_SIZE
  {
    Repeat(0xff, 6) + mac + ARP_SHAPE + [0, 1] + mac + (if announce then ip else ZERO_IP) + Repeat(0, 6) + ip
  }

  /** Fills an ARP request in place: a probe, or an announcement. */
  method ArpProbe(mac: Mac, ip: Ip, announce: bool) returns (frame: array<byte>)
    ensures fresh(frame) && frame[..] == Arp(mac, ip, announce)
  {
    frame := new byte[ARP_SIZE](_ => 0);
    CopyInto(frame, 0, Repeat(0xff, 6));
    CopyInto(frame, 6, mac);
    CopyInto(frame, 12, ARP_SHAPE + [0, 1]);
    CopyInto(frame, 22, mac);
    if announce {
      CopyInto(frame, 28, ip);
    }
    CopyInto(frame, 38, ip);
  }

  /** Another host uses, or probes for, address `ip`. */
  predicate ArpConflict(frame: seq<byte>, mac: Mac, ip: Ip) {
    && |frame| >= ARP_SIZE
    && frame[12..20] == ARP_SHAPE
    && (frame[20..22] == [0, 1] || frame[20..22] == [0, 2])
    && frame[22..28] != mac
    && (frame[28..32] == ip || (frame[28..32] == ZERO_IP && frame[38..42] == ip))
  }

  /** A probe or an announcement is a conflict exactly for the other hosts that want the same address. */
  lemma ConflictIff(sender: Mac, wanted: Ip, announce: bool, mac: Mac, ip: Ip)
    requires ip != ZERO_IP
    ensures ArpConflict(Arp(sender, wanted, announce), mac, ip) <==> sender != mac && wanted == ip
  {
    var f := Arp(sender, wanted, announce);
    assert f[12..20] == ARP_SHAPE && f[20..22] == [0, 1] && f[22..28] == sender;
    assert f[28..32] == (if announce then wanted else ZERO_IP) && f[38..42] == wanted;
  }
}
