/** DHCP-presence probes (src/protocol/dhcp_probe.rs): the DISCOVER frame that is sent and
    the strict recogniser of a matching OFFER. */
module DhcpProbe {
  import opened Bytes
  import opened InternetChecksum

  const ETHER := 14
  const IP := 20
  const UDP := 8
  const BOOTP := ETHER + IP + UDP
  const FRAME_SIZE := BOOTP + 300
  const COOKIE: seq<byte> := [99, 130, 83, 99]
  const BROADCAST: Mac := [255, 255, 255, 255, 255, 255]

  // DISCOVER

  function IpHeader(checksum: u16): (s: seq<byte>)
    ensures |s| == IP
  {
    [0x45, 0] + Be16(IP + UDP + 300) + [0, 0, 0, 0, 64, 17] + Be16(checksum) + ZERO_IP + [255, 255, 255, 255]
  }

  const UDP_HEADER: seq<byte> := Be16(68) + Be16(67) + Be16(UDP + 300) + [0, 0]

  function Fixed(mac: Mac, xid: u32): (s: seq<byte>)
    ensures |s| == 240
  {
    [1, 1, 6, 0] + Be32(xid) + [0, 0, 0x80, 0] + Repeat(0, 16) + mac + Repeat(0, 202) + COOKIE
  }

  function Options(mac: Mac): (s: seq<byte>)
    ensures |s| == 60
  {
    [53, 1, 1, 61, 7, 1] + mac + [55, 3, 1, 3, 6, 255] + Repeat(0, 42)
  }

  function Discover(mac: Mac, xid: u32): (s: seq<byte>)
    ensures |s| == FRAME_SIZE
  {
    BROADCAST + mac + [8, 0] + IpHeader(Finished(Words(IpHeader(0)))) + UDP_HEADER + Fixed(mac, xid) + Options(mac)
  }

  /** Fills the DISCOVER frame in place. The header checksum is computed while its field is zero. */
  method BuildDiscover(mac: Mac, xid: u32) returns (frame: array<byte>)
    ensures fresh(frame) && frame[..] == Discover(mac, xid)
  {
    frame := new byte[FRAME_SIZE](_ => 0);
    PutEthernet(frame, mac);
    PutIpHeader(frame);
    CopyInto(frame, 34, UDP_HEADER);
    PutFixed(frame, mac, xid);
    PutOptions(frame, mac);
    var header := IpHeader(Finished(Words(IpHeader(0))));
    Assembled(frame[..], BROADCAST + mac + [8, 0], header, UDP_HEADER, Fixed(mac, xid), Options(mac));
  }

  /** A frame is what its parts are. */
  lemma Assembled(s: seq<byte>, ether: seq<byte>, ip: seq<byte>, udp: seq<byte>, fixed: seq<byte>, options: seq<byte>)
    requires |s| == FRAME_SIZE && |ether| == 14 && |ip| == 20 && |udp| == 8 && |fixed| == 240 && |options| == 60
    requires forall k :: 0 <= k < 14 ==> s[k] == ether[k]
    requires forall k :: 14 <= k < 34 ==> s[k] == ip[k - 14]
    requires forall k :: 34 <= k < BOOTP ==> s[k] == udp[k - 34]
    requires forall k :: BOOTP <= k < BOOTP + 240 ==> s[k] == fixed[k - BOOTP]
    requires forall k :: BOOTP + 240 <= k < FRAME_SIZE ==> s[k] == options[k - BOOTP - 240]
    ensures s == ether + ip + udp + fixed + options
  {
  }

  method PutEthernet(frame: array<byte>, mac: Mac)
    requires frame.Length == FRAME_SIZE
    modifies frame
    ensures forall k :: 0 <= k < 14 ==> frame[k] == (BROADCAST + mac + [8, 0])[k]
    ensures forall k :: 14 <= k < FRAME_SIZE ==> frame[k] == old(frame[k])
  {
    CopyInto(frame, 0, BROADCAST);
    CopyInto(frame, 6, mac);
    CopyInto(frame, 12, [8, 0]);
  }

  method PutIpHeader(frame: array<byte>)
    requires frame.Length == FRAME_SIZE && forall k :: 14 <= k < FRAME_SIZE ==> frame[k] == 0
    modifies frame
    ensures forall k :: 14 <= k < 34 ==> frame[k] == IpHeader(Finished(Words(IpHeader(0))))[k - 14]
    ensures forall k :: 0 <= k < 14 || 34 <= k < FRAME_SIZE ==> frame[k] == old(frame[k])
  {
    PutZeroSum(frame);
    assert frame[14..34] == IpHeader(0);
    ghost var zeroed := frame[14..34];
    PutChecksum(frame);
    IpHeaderPatched(Finished(Words(zeroed)));
  }

  /** Sums the header while its checksum field is zero, and then fills the field. */
  method PutChecksum(frame: array<byte>)
    requires frame.Length == FRAME_SIZE
    modifies frame
    ensures var zeroed, c := old(frame[14..34]), Finished(Words(old(frame[14..34])));
            forall k :: 14 <= k < 34 ==> frame[k] == zeroed[10 := c / 256][11 := c % 256][k - 14]
    ensures forall k :: 0 <= k < 14 || 34 <= k < FRAME_SIZE ==> frame[k] == old(frame[k])
  {
    var checksum := Checksum(frame[14..34], 0);
    CopyInto(frame, 24, Be16(checksum));
  }

  lemma IpHeaderPatched(checksum: u16)
    ensures IpHeader(checksum) == IpHeader(0)[10 := checksum / 256][11 := checksum % 256]
    ensures IpHeader(0)[10] == IpHeader(0)[11] == 0
  {
  }

  method PutZeroSum(frame: array<byte>)
    requires frame.Length == FRAME_SIZE && forall k :: 14 <= k < FRAME_SIZE ==> frame[k] == 0
    modifies frame
    ensures forall k :: 14 <= k < 34 ==> frame[k] == IpHeader(0)[k - 14]
    ensures forall k :: 0 <= k < 14 || 34 <= k < FRAME_SIZE ==> frame[k] == old(frame[k])
  {
    frame[14] := 0x45;
    CopyInto(frame, 16, Be16(IP + UDP + 300));
    frame[22] := 64;
    frame[23] := 17;
    CopyInto(frame, 30, [255, 255, 255, 255]);
  }

  method PutFixed(frame: array<byte>, mac: Mac, xid: u32)
    requires frame.Length == FRAME_SIZE && forall k :: BOOTP <= k < FRAME_SIZE ==> frame[k] == 0
    modifies frame
    ensures forall k :: BOOTP <= k < BOOTP + 240 ==> frame[k] == Fixed(mac, xid)[k - BOOTP]
    ensures forall k :: 0 <= k < BOOTP || BOOTP + 240 <= k < FRAME_SIZE ==> frame[k] == old(frame[k])
  {
    CopyInto(frame, BOOTP, [1, 1, 6]);
    CopyInto(frame, BOOTP + 4, Be32(xid));
    frame[BOOTP + 10] := 0x80;
    CopyInto(frame, BOOTP + 28, mac);
    CopyInto(frame, BOOTP + 236, COOKIE);
  }

  method PutOptions(frame: array<byte>, mac: Mac)
    requires frame.Length == FRAME_SIZE && forall k :: BOOTP + 240 <= k < FRAME_SIZE ==> frame[k] == 0
    modifies frame
    ensures forall k :: BOOTP + 240 <= k < FRAME_SIZE ==> frame[k] == Options(mac)[k - BOOTP - 240]
    ensures forall k :: 0 <= k < BOOTP + 240 ==> frame[k] == old(frame[k])
  {
    CopyInto(frame, BOOTP + 240, [53, 1, 1, 61, 7, 1]);
    CopyInto(frame, BOOTP + 246, mac);
    CopyInto(frame, BOOTP + 252, [55, 3, 1, 3, 6, 255]);
  }

  /** Every DISCOVER frame carries a valid IPv4 header checksum. */
  lemma DiscoverHeaderVerifies(mac: Mac, xid: u32)
    ensures Finished(Words(Discover(mac, xid)[14..34])) == 0
  {
    FilledHeaderVerifies(IpHeader(0), IpHeader(Finished(Words(IpHeader(0))))) by {
      IpHeaderPatched(Finished(Words(IpHeader(0))));
    }
    DiscoverHeader(mac, xid);
  }

  lemma FilledHeaderVerifies(zeroed: seq<byte>, filled: seq<byte>)
    requires |zeroed| == IP && zeroed[10] == zeroed[11] == 0
    requires var c := Finished(Words(zeroed)); filled == zeroed[10 := c / 256][11 := c % 256]
    ensures Finished(Words(filled)) == 0
  {
    FilledRegionVerifies(0, zeroed, 10);
  }

  lemma DiscoverHeader(mac: Mac, xid: u32)
    ensures Discover(mac, xid)[14..34] == IpHeader(Finished(Words(IpHeader(0))))
  {
  }

  // DHCP options (sections 2 and 3 of RFC 2132), as a grammar.

  datatype Item = Pad | Option(kind: byte, value: seq<byte>)

  predicate ValidItem(item: Item) {
    item.Option? ==> item.kind != 0 && item.kind != 255 && |item.value| < 256
  }

  predicate ValidItems(items: seq<Item>) {
    forall i :: 0 <= i < |items| ==> ValidItem(items[i])
  }

  function EncodeItem(item: Item): seq<byte>
    requires ValidItem(item)
  {
    match item case Pad => [0] case Option(kind, value) => [kind, |value|] + value
  }

  function EncodeItems(items: seq<Item>): seq<byte>
    requires ValidItems(items)
  {
    if items == [] then [] else EncodeItem(items[0]) + EncodeItems(items[1..])
  }

  /** The values of all options of one kind, in order. */
  function Values(items: seq<Item>, kind: byte): seq<seq<byte>> {
    if items == [] then []
    else (if items[0].Option? && items[0].kind == kind then [items[0].value] else []) + Values(items[1..], kind)
  }

  predicate Unicast(ip: seq<byte>) {
    |ip| == 4 && ip[0] != 0 && ip[0] != 127 && ip[0] < 224
  }

  /** A string of options that is ended by END and says OFFER once and names one unicast server. */
  ghost predicate OffersLease(options: seq<byte>) {
    exists items: seq<Item>, tail: seq<byte> ::
      ValidItems(items) && options == EncodeItems(items) + ([255] + tail) && Announces(items, false, false)
  }

  /** What the items still to come must say, given what was already seen. */
  predicate Announces(items: seq<Item>, offer: bool, server: bool) {
    && Values(items, 53) == (if offer then [] else [[2]])
    && (if server then Values(items, 54) == [] else |Values(items, 54)| == 1 && Unicast(Values(items, 54)[0]))
  }

  /** The option walk as a recursion over what is left. */
  predicate Walk(options: seq<byte>, offer: bool, server: bool)
    decreases |options|
  {
    if options == [] then false
    else if options[0] == 255 then offer && server
    else if options[0] == 0 then Walk(options[1..], offer, server)
    else if |options| < 2 || |options| - 2 < options[1] then false
    else
      var value, rest := options[2..2 + options[1]], options[2 + options[1]..];
      if options[0] == 53 then !offer && value == [2] && Walk(rest, true, server)
      else if options[0] == 54 then !server && Unicast(value) && Walk(rest, offer, true)
      else Walk(rest, offer, server)
  }

  /** One step of the walk consumes one item of the grammar. */
  lemma WalkStep(item: Item, rest: seq<byte>, offer: bool, server: bool)
    requires ValidItem(item)
    ensures Walk(EncodeItem(item) + rest, offer, server) <==>
            if item == Pad then Walk(rest, offer, server)
            else if item.kind == 53 then !offer && item.value == [2] && Walk(rest, true, server)
            else if item.kind == 54 then !server && Unicast(item.value) && Walk(rest, offer, true)
            else Walk(rest, offer, server)
  {
    var options := EncodeItem(item) + rest;
    match item {
      case Pad => assert options[1..] == rest;
      case Option(kind, value) => assert options[2..2 + |value|] == value && options[2 + |value|..] == rest;
    }
  }

  lemma ValuesStep(items: seq<Item>, kind: byte)
    requires items != []
    ensures var rest := Values(items[1..], kind);
            if items[0].Option? && items[0].kind == kind then
              |Values(items, kind)| == 1 + |rest| && Values(items, kind)[0] == items[0].value && Values(items, kind)[1..] == rest
            else Values(items, kind) == rest
  {
  }

  lemma AnnouncesStep(items: seq<Item>, offer: bool, server: bool)
    requires items != []
    ensures Announces(items, offer, server) <==>
            if items[0] == Pad then Announces(items[1..], offer, server)
            else if items[0].kind == 53 then !offer && items[0].value == [2] && Announces(items[1..], true, server)
            else if items[0].kind == 54 then !server && Unicast(items[0].value) && Announces(items[1..], offer, true)
            else Announces(items[1..], offer, server)
  {
    ValuesStep(items, 53);
    ValuesStep(items, 54);
    var now, rest := Values(items, 53), Values(items[1..], 53);
    if items[0].Option? && items[0].kind == 53 {
      assert now == [now[0]] + now[1..];
      assert now == [[2]] <==> now[0] == [2] && rest == [];
    }
  }

  lemma {:induction false} WalkComplete(items: seq<Item>, tail: seq<byte>, offer: bool, server: bool)
    requires ValidItems(items) && Announces(items, offer, server)
    ensures Walk(EncodeItems(items) + ([255] + tail), offer, server)
  {
    if items != [] {
      var item, rest := items[0], EncodeItems(items[1..]) + ([255] + tail);
      assert EncodeItems(items) + ([255] + tail) == EncodeItem(item) + rest;
      WalkStep(item, rest, offer, server);
      AnnouncesStep(items, offer, server);
      WalkComplete(items[1..], tail,
                   offer || (item.Option? && item.kind == 53), server || (item.Option? && item.kind == 54));
    }
  }

  lemma {:induction false} WalkSound(options: seq<byte>, offer: bool, server: bool)
    returns (items: seq<Item>, tail: seq<byte>)
    requires Walk(options, offer, server)
    ensures ValidItems(items) && options == EncodeItems(items) + ([255] + tail) && Announces(items, offer, server)
    decreases |options|
  {
    if options[0] == 255 {
      items, tail := [], options[1..];
    } else {
      var first, rest := FirstItem(options, offer, server);
      WalkStep(first, rest, offer, server);
      var offer', server' := offer || (first.Option? && first.kind == 53), server || (first.Option? && first.kind == 54);
      var more;
      more, tail := WalkSound(rest, offer', server');
      items := [first] + more;
      Extended(options, first, more, tail, offer, server);
    }
  }

  lemma Extended(options: seq<byte>, first: Item, more: seq<Item>, tail: seq<byte>, offer: bool, server: bool)
    requires ValidItem(first) && ValidItems(more)
    requires options == EncodeItem(first) + (EncodeItems(more) + ([255] + tail)) && Walk(options, offer, server)
    requires Announces(more, offer || (first.Option? && first.kind == 53), server || (first.Option? && first.kind == 54))
    ensures var items := [first] + more;
            ValidItems(items) && options == EncodeItems(items) + ([255] + tail) && Announces(items, offer, server)
  {
    EncodeMore(first, more, tail);
    AnnouncesMore(first, more, offer, server) by {
      WalkStep(first, EncodeItems(more) + ([255] + tail), offer, server);
    }
  }

  lemma EncodeMore(first: Item, more: seq<Item>, tail: seq<byte>)
    requires ValidItem(first) && ValidItems(more)
    ensures ValidItems([first] + more)
    ensures EncodeItems([first] + more) + ([255] + tail) == EncodeItem(first) + (EncodeItems(more) + ([255] + tail))
  {
    assert ([first] + more)[1..] == more;
  }

  lemma AnnouncesMore(first: Item, more: seq<Item>, offer: bool, server: bool)
    requires Announces(more, offer || (first.Option? && first.kind == 53), server || (first.Option? && first.kind == 54))
    requires first.Option? && first.kind == 53 ==> !offer && first.value == [2]
    requires first.Option? && first.kind == 54 ==> !server && Unicast(first.value)
    ensures Announces([first] + more, offer, server)
  {
    assert ([first] + more)[1..] == more;
    AnnouncesStep([first] + more, offer, server);
  }

  lemma FirstItem(options: seq<byte>, offer: bool, server: bool) returns (first: Item, rest: seq<byte>)
    requires Walk(options, offer, server) && options[0] != 255
    ensures ValidItem(first) && options == EncodeItem(first) + rest && |rest| < |options|
  {
    if options[0] == 0 {
      first, rest := Pad, options[1..];
    } else {
      first, rest := Option(options[0], options[2..2 + options[1]]), options[2 + options[1]..];
    }
  }

  /** The walk accepts exactly the strings of the grammar that offer a lease. */
  lemma WalkIffOffersLease(options: seq<byte>)
    ensures Walk(options, false, false) <==> OffersLease(options)
  {
    if Walk(options, false, false) {
      var items, tail := WalkSound(options, false, false);
    }
    if OffersLease(options) {
      var items: seq<Item>, tail: seq<byte> :|
        ValidItems(items) && options == EncodeItems(items) + ([255] + tail) && Announces(items, false, false);
      WalkComplete(items, tail, false, false);
    }
  }

  // OFFER

  /** Addressed to this host or to all, and carrying IPv4. */
  predicate EthernetMatches(frame: seq<byte>, mac: Mac)
    requires |frame| >= ETHER
  {
    (frame[..6] == mac || frame[..6] == BROADCAST) && frame[12..14] == [8, 0]
  }

  function HeaderLength(ip: seq<byte>): nat
    requires |ip| >= IP
  {
    ip[0] % 16 * 4
  }

  function TotalLength(ip: seq<byte>): nat
    requires |ip| >= IP
  {
    FromBe16(ip[2], ip[3])
  }

  /** Unfragmented, UDP, and from a unicast address. */
  predicate UnicastUdp(ip: seq<byte>)
    requires |ip| >= IP
  {
    ip[9] == 17 && FromBe16(ip[6], ip[7]) % 0x4000 == 0 && Unicast(ip[12..16])
  }

  /** A whole, unfragmented UDP datagram from a unicast source under a verified header. */
  predicate Ipv4Matches(ip: seq<byte>)
    requires |ip| >= IP
  {
    && ip[0] / 16 == 4
    && IP <= HeaderLength(ip)
    && HeaderLength(ip) + UDP + 243 <= TotalLength(ip) <= |ip|
    && UnicastUdp(ip)
    && Finished(Words(ip[..HeaderLength(ip)])) == 0
  }

  /** From the server port to the client port, with a checksum that verifies or is absent. */
  predicate UdpMatches(udp: seq<byte>, addresses: seq<byte>)
    requires |udp| >= UDP
  {
    && udp[..4] == [0, 67, 0, 68]
    && FromBe16(udp[4], udp[5]) == |udp|
    && |udp| >= UDP + 243
    && (udp[6..8] == [0, 0] || Finished(17 + |udp| + Words(addresses) + Words(udp)) == 0)
  }

  /** A reply in transaction `xid` to hardware address `mac` that offers a routable unicast address. */
  predicate BootpMatches(bootp: seq<byte>, mac: Mac, xid: u32)
    requires |bootp| >= 243
  {
    && bootp[..3] == [2, 1, 6]
    && bootp[4..8] == Be32(xid)
    && bootp[28..34] == mac
    && Unicast(bootp[16..20])
    && bootp[16..18] != [169, 254]
    && bootp[236..240] == COOKIE
  }

  /** The datagram that an IPv4 packet carries. */
  function Datagram(ip: seq<byte>): seq<byte>
    requires |ip| >= IP && Ipv4Matches(ip)
  {
    ip[HeaderLength(ip)..TotalLength(ip)]
  }

  /** The specified OFFER, field by field, with its options given by the grammar. */
  ghost predicate Offer(frame: seq<byte>, mac: Mac, xid: u32) {
    && xid != 0
    && |frame| >= BOOTP + 243
    && EthernetMatches(frame, mac)
    && Ipv4Matches(frame[ETHER..])
    && UdpMatches(Datagram(frame[ETHER..]), frame[ETHER + 12..ETHER + 20])
    && BootpMatches(Datagram(frame[ETHER..])[UDP..], mac, xid)
    && OffersLease(Datagram(frame[ETHER..])[UDP + 240..])
  }

  /** The recogniser: it stays in bounds on every byte string, and accepts exactly the OFFERs. */
  method IsOffer(frame: seq<byte>, mac: Mac, xid: u32) returns (r: bool)
    ensures r <==> Offer(frame, mac, xid)
  {
    if xid == 0 || |frame| < BOOTP + 243 || frame[12..14] != [8, 0]
       || (frame[..6] != mac && frame[..6] != BROADCAST) {
      return false;
    }
    var ip := frame[ETHER..];
    var ok := Ipv4Check(ip);
    if !ok {
      return false;
    }
    var udp := Datagram(ip);
    assert ip[12..20] == frame[ETHER + 12..ETHER + 20];
    ok := UdpCheck(udp, ip[12..20]);
    if !ok {
      return false;
    }
    var bootp := udp[UDP..];
    if bootp[..3] != [2, 1, 6] || bootp[4..8] != Be32(xid) || bootp[28..34] != mac || !Unicast(bootp[16..20])
       || bootp[16..18] == [169, 254] || bootp[236..240] != COOKIE {
      return false;
    }
    assert bootp[240..] == udp[UDP + 240..];
    r := AnnouncesOffer(bootp[240..]);
  }

  method Ipv4Check(ip: seq<byte>) returns (r: bool)
    requires |ip| >= IP
    ensures r <==> Ipv4Matches(ip)
  {
    var ihl := ip[0] % 16 * 4;
    var total: nat := FromBe16(ip[2], ip[3]);
    if ip[0] / 16 != 4 || ihl < IP || total < ihl + UDP + 243 || total > |ip| || ip[9] != 17
       || FromBe16(ip[6], ip[7]) % 0x4000 != 0 || !Unicast(ip[12..16]) {
      return false;
    }
    var check := Checksum(ip[..ihl], 0);
    r := check == 0;
  }

  method UdpCheck(udp: seq<byte>, addresses: seq<byte>) returns (r: bool)
    requires UDP <= |udp| <= 0xffff && |addresses| == 8
    ensures r <==> UdpMatches(udp, addresses)
  {
    var length: nat := FromBe16(udp[4], udp[5]);
    if udp[..4] != [0, 67, 0, 68] || length < UDP + 243 || length != |udp| {
      return false;
    }
    if udp[6..8] != [0, 0] {
      WordsBound(addresses);
      var pseudo := Sum(addresses, 17 + length);
      assert pseudo == 17 + length + Words(addresses);
      var check := Checksum(udp, pseudo);
      return check == 0;
    }
    r := true;
  }

  /** The TLV walk: PAD is skipped, every length is respected, END decides. */
  method AnnouncesOffer(all: seq<byte>) returns (r: bool)
    ensures r <==> OffersLease(all)
  {
    WalkIffOffersLease(all);
    var options, offer, server := all, false, false;
    while options != []
      invariant Walk(options, offer, server) == Walk(all, false, false)
      decreases |options|
    {
      var kind := options[0];
      options := options[1..];
      if kind == 255 {
        return offer && server;
      }
      if kind != 0 {
        if options == [] {
          return false;
        }
        var length := options[0];
        var rest := options[1..];
        if |rest| < length {
          return false;
        }
        var value := rest[..length];
        options := rest[length..];
        if kind == 53 {
          if offer || value != [2] {
            return false;
          }
          offer := true;
        } else if kind == 54 {
          if server || !Unicast(value) {
            return false;
          }
          server := true;
        }
      }
    }
    return false;
  }
}
