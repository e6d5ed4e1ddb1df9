/** What the OFFER recogniser of src/protocol/dhcp_probe.rs makes of a server's reply, of the host's own
    DISCOVER, and of a reply with one byte changed on the way. */
module DhcpReply {
  import opened Bytes
  import opened InternetChecksum
  import opened DhcpProbe

  // What a server answers

  function ReplyIpHeader(server: Ip, checksum: u16): (s: seq<byte>)
    ensures |s| == IP
  {
    [0x45, 0] + Be16(IP + UDP + 250) + [0, 0, 0, 0, 64, 17] + Be16(checksum) + server + [255, 255, 255, 255]
  }

  const REPLY_UDP_HEADER: seq<byte> := [0, 67, 0, 68] + Be16(UDP + 250) + [0, 0]

  function ReplyFixed(mac: Mac, xid: u32, yours: Ip): (s: seq<byte>)
    ensures |s| == 240
  {
    ReplyStart(xid, yours) + (Repeat(0, 8) + mac + Repeat(0, 202) + COOKIE)
  }

  function ReplyStart(xid: u32, yours: Ip): (s: seq<byte>)
    ensures |s| == 20 && s[..3] == [2, 1, 6] && s[4..8] == Be32(xid) && s[16..] == yours
  {
    [2, 1, 6, 0] + Be32(xid) + (Repeat(0, 8) + yours)
  }

  function ReplyOptions(server: Ip): (s: seq<byte>)
    ensures |s| == 10
  {
    EncodeItem(Option(53, [2])) + (EncodeItem(Option(54, server)) + [255])
  }

  /** A minimal OFFER of address `yours`, as a server would send it to `mac`, without a UDP checksum. */
  function ServerReply(mac: Mac, xid: u32, sender: Mac, server: Ip, yours: Ip): (s: seq<byte>)
    ensures |s| == BOOTP + 250
  {
    mac + sender + [8, 0] + (ReplyIpHeader(server, Finished(Words(ReplyIpHeader(server, 0))))
    + (REPLY_UDP_HEADER + (ReplyFixed(mac, xid, yours) + ReplyOptions(server))))
  }

  lemma ReplyHeaderPatched(server: Ip, checksum: u16)
    ensures ReplyIpHeader(server, checksum) == ReplyIpHeader(server, 0)[10 := checksum / 256][11 := checksum % 256]
    ensures ReplyIpHeader(server, 0)[10] == ReplyIpHeader(server, 0)[11] == 0
  {
  }

  lemma ReplyHeaderMatches(server: Ip, rest: seq<byte>)
    requires Unicast(server) && |rest| == UDP + 250
    ensures var ip := ReplyIpHeader(server, Finished(Words(ReplyIpHeader(server, 0)))) + rest;
            Ipv4Matches(ip) && Datagram(ip) == rest
  {
    var c := Finished(Words(ReplyIpHeader(server, 0)));
    ReplyHeaderPatched(server, c);
    FilledHeaderVerifies(ReplyIpHeader(server, 0), ReplyIpHeader(server, c));
    var ip := ReplyIpHeader(server, c) + rest;
    assert ip[..IP] == ReplyIpHeader(server, c) && ip[IP..] == rest;
    assert ip[12..16] == server;
  }

  lemma ReplyFixedMatches(mac: Mac, xid: u32, yours: Ip, options: seq<byte>)
    requires Unicast(yours) && yours[..2] != [169, 254] && |options| == 10
    ensures BootpMatches(ReplyFixed(mac, xid, yours) + options, mac, xid)
  {
    var bootp := ReplyFixed(mac, xid, yours) + options;
    assert bootp[..20] == ReplyStart(xid, yours);
    assert bootp[..3] == bootp[..20][..3] && bootp[4..8] == bootp[..20][4..8] && bootp[16..20] == bootp[..20][16..];
    assert bootp[16..18] == bootp[16..20][..2];
    assert bootp[28..34] == mac && bootp[236..240] == COOKIE;
  }

  lemma ReplyOptionsOffer(server: Ip)
    requires Unicast(server)
    ensures OffersLease(ReplyOptions(server))
  {
    WalkStep(Option(53, [2]), EncodeItem(Option(54, server)) + [255], false, false);
    WalkStep(Option(54, server), [255], true, false);
    WalkIffOffersLease(ReplyOptions(server));
  }

  /** The recogniser is not too strict: every such reply is taken, for every address a server may offer. */
  lemma ServerReplyIsOffer(mac: Mac, xid: u32, sender: Mac, server: Ip, yours: Ip)
    requires xid != 0 && Unicast(server) && Unicast(yours) && yours[..2] != [169, 254]
    ensures Offer(ServerReply(mac, xid, sender, server, yours), mac, xid)
  {
    var frame := ServerReply(mac, xid, sender, server, yours);
    var options := ReplyOptions(server);
    var bootp := ReplyFixed(mac, xid, yours) + options;
    var udp := REPLY_UDP_HEADER + bootp;
    assert frame[..6] == mac && frame[12..14] == [8, 0];
    assert frame[ETHER..] == ReplyIpHeader(server, Finished(Words(ReplyIpHeader(server, 0)))) + udp;
    ReplyHeaderMatches(server, udp);
    assert udp[UDP..] == bootp && udp[UDP + 240..] == options;
    assert udp[..4] == [0, 67, 0, 68] && udp[6..8] == [0, 0];
    ReplyFixedMatches(mac, xid, yours, options);
    ReplyOptionsOffer(server);
  }

  /** A DISCOVER, our own or another client's, is never taken for an OFFER. */
  lemma DiscoverIsNotOffer(sender: Mac, sent: u32, mac: Mac, xid: u32)
    ensures !Offer(Discover(sender, sent), mac, xid)
  {
    var f := Discover(sender, sent);
    var ip := f[ETHER..];
    assert ip[12] == 0 && ip[12..16][0] == ip[12];
  }

  /** Changing the first byte of a header of length h that verifies to b makes it verify at length h'. */
  predicate VerifiesAt(ip: seq<byte>, h: nat, h': nat, b: byte)
    requires ip != [] && h <= |ip| && h' <= |ip|
  {
    if h < h' then ip[0] < b && (Words(ip[h..h']) + 256 * (b - ip[0]) as nat) % 0xffff == 0
    else b < ip[0] && (Words(ip[h'..h]) + 256 * (ip[0] - b) as nat) % 0xffff == 0
  }

  /** The first byte is changed so that the header gets another legal length, at which it verifies again. */
  predicate Resized(ip: seq<byte>, b: byte)
    requires |ip| >= IP && Ipv4Matches(ip)
  {
    var h' := b % 16 * 4;
    && b / 16 == 4 && IP <= h' && h' + UDP + 243 <= TotalLength(ip) && VerifiesAt(ip, HeaderLength(ip), h', b)
  }

  /** A region with its first byte raised and something appended, or cut short and its first byte lowered. */
  lemma LongerRegion(header: seq<byte>, more: seq<byte>, b: byte)
    requires |header| >= 2 && |header| % 2 == 0 && header[0] < b
    ensures Words(header[0 := b] + more) == Words(header) + (Words(more) + 256 * (b - header[0]) as nat)
  {
    WordsUpdate(header, 0, b);
    WordsSplit(header[0 := b], more);
  }

  lemma ShorterRegion(kept: seq<byte>, cut: seq<byte>, b: byte)
    requires |kept| >= 2 && |kept| % 2 == 0 && b < kept[0]
    ensures Words(kept + cut) == Words(kept[0 := b]) + (Words(cut) + 256 * (kept[0] - b) as nat)
  {
    WordsUpdate(kept, 0, b);
    WordsSplit(kept, cut);
  }

  lemma SomeWords(bytes: seq<byte>)
    requires |bytes| >= 2 && bytes[0] > 0
    ensures Words(bytes) > 0
  {
  }

  lemma LongerHeader(ip: seq<byte>, h: nat, h': nat, b: byte)
    requires 2 <= h < h' <= |ip| && h % 2 == 0 && 0 < ip[0] < b && Finished(Words(ip[..h])) == 0
    ensures Finished(Words(ip[0 := b][..h'])) == 0 <==> VerifiesAt(ip, h, h', b)
  {
    assert ip[0 := b][..h'] == ip[..h][0 := b] + ip[h..h'];
    LongerRegion(ip[..h], ip[h..h'], b);
    SomeWords(ip[0 := b][..h']);
    StillVerifiesIff(Words(ip[..h]), Words(ip[0 := b][..h']), Words(ip[h..h']) + 256 * (b - ip[0]) as nat);
  }

  lemma ShorterHeader(ip: seq<byte>, h: nat, h': nat, b: byte)
    requires 2 <= h' < h <= |ip| && h' % 2 == 0 && 0 < b < ip[0] && Finished(Words(ip[..h])) == 0
    ensures Finished(Words(ip[0 := b][..h'])) == 0 <==> VerifiesAt(ip, h, h', b)
  {
    assert ip[..h] == ip[..h'] + ip[h'..h];
    assert ip[0 := b][..h'] == ip[..h'][0 := b];
    ShorterRegion(ip[..h'], ip[h'..h], b);
    SomeWords(ip[..h'][0 := b]);
    StillVerifiesIff(Words(ip[..h]), Words(ip[..h'][0 := b]), Words(ip[h'..h]) + 256 * (ip[0] - b) as nat);
  }

  /** With its first byte changed, the packet has this header length, and its other fields are as they were. */
  lemma OtherFieldsKept(ip: seq<byte>, b: byte)
    requires |ip| >= IP && Ipv4Matches(ip) && b / 16 == 4 && IP <= b % 16 * 4 && b % 16 * 4 + UDP + 243 <= TotalLength(ip)
    ensures Ipv4Matches(ip[0 := b]) <==> Finished(Words(ip[0 := b][..b % 16 * 4])) == 0
  {
    FieldsKept(ip, b);
  }

  lemma FieldsKept(ip: seq<byte>, b: byte)
    requires |ip| >= IP
    ensures UnicastUdp(ip[0 := b]) == UnicastUdp(ip) && TotalLength(ip[0 := b]) == TotalLength(ip)
    ensures HeaderLength(ip[0 := b]) == b % 16 * 4
  {
    assert ip[0 := b][12..16] == ip[12..16];
  }

  lemma LengthsOrdered(a: byte, b: byte)
    requires a / 16 == 4 && b / 16 == 4 && a != b
    ensures (a % 16 * 4 < b % 16 * 4 <==> a < b) && a % 16 * 4 != b % 16 * 4 && a % 16 * 4 % 2 == 0 && a > 0
  {
  }

  lemma OtherLength(ip: seq<byte>, h: nat, h': nat, b: byte)
    requires 2 <= h <= |ip| && 2 <= h' <= |ip| && h % 2 == 0 && h' % 2 == 0 && h != h' && (h < h' <==> ip[0] < b)
    requires 0 < ip[0] && 0 < b && b != ip[0] && Finished(Words(ip[..h])) == 0
    ensures Finished(Words(ip[0 := b][..h'])) == 0 <==> VerifiesAt(ip, h, h', b)
  {
    if h < h' {
      LongerHeader(ip, h, h', b);
    } else {
      ShorterHeader(ip, h, h', b);
    }
  }

  lemma SameLengthNoticed(ip: seq<byte>, i: nat, b: byte)
    requires |ip| >= IP && Ipv4Matches(ip) && i < HeaderLength(ip) && b != ip[i]
    requires HeaderLength(ip[i := b]) == HeaderLength(ip)
    ensures !Ipv4Matches(ip[i := b])
  {
    var h := HeaderLength(ip);
    assert ip[i := b][..h] == ip[..h][i := b];
    OneByteChangeDetected(0, ip[..h], i, b);
  }

  /** One changed byte anywhere in a verified IPv4 header is noticed, except for a change of the header's length
      that happens to verify. */
  lemma HeaderChangeNoticedIff(ip: seq<byte>, i: nat, b: byte)
    requires |ip| >= IP && Ipv4Matches(ip) && i < HeaderLength(ip) && b != ip[i]
    ensures Ipv4Matches(ip[i := b]) <==> i == 0 && Resized(ip, b)
  {
    if i > 0 {
      SameLengthNoticed(ip, i, b);
    } else if b / 16 == 4 && IP <= b % 16 * 4 && b % 16 * 4 + UDP + 243 <= TotalLength(ip) {
      OtherFieldsKept(ip, b);
      LengthsOrdered(ip[0], b);
      LengthsOrdered(b, ip[0]);
      OtherLength(ip, HeaderLength(ip), b % 16 * 4, b);
    }
  }

  /** A header of 24 bytes whose four option bytes make up for one byte's change of the first byte. */
  function OptionHeader(server: Ip, checksum: u16): (s: seq<byte>)
    ensures |s| == 24
  {
    [0x46, 0] + Be16(24 + UDP + 250) + [0, 0, 0, 0, 64, 17] + Be16(checksum) + server + [255, 255, 255, 255, 0xfe, 0xff, 0, 0]
  }

  lemma OptionHeaderFilled(server: Ip)
    ensures var c := Finished(Words(OptionHeader(server, 0))); Finished(Words(OptionHeader(server, c))) == 0
  {
    var c := Finished(Words(OptionHeader(server, 0)));
    OptionHeaderPatched(server, c);
    FilledRegionVerifies(0, OptionHeader(server, 0), 10);
  }

  lemma OptionHeaderPatched(server: Ip, checksum: u16)
    ensures OptionHeader(server, checksum) == OptionHeader(server, 0)[10 := checksum / 256][11 := checksum % 256]
    ensures OptionHeader(server, 0)[10] == OptionHeader(server, 0)[11] == 0
  {
  }

  /** Among IPv4 packets that exception is real: for every server and every datagram there is such a packet. For OFFERs
      see DhcpResize. */
  lemma HeaderChangeCanVerify(server: Ip, rest: seq<byte>)
    requires Unicast(server) && |rest| == UDP + 250
    ensures var ip := OptionHeader(server, Finished(Words(OptionHeader(server, 0)))) + rest;
            Ipv4Matches(ip) && ip[0] == 0x46 && Ipv4Matches(ip[0 := 0x45])
  {
    OptionHeaderFilled(server);
    OptionPacketMatches(server, Finished(Words(OptionHeader(server, 0))), rest);
    HeaderChangeNoticedIff(OptionHeader(server, Finished(Words(OptionHeader(server, 0)))) + rest, 0, 0x45);
  }

  lemma OptionPacketMatches(server: Ip, c: u16, rest: seq<byte>)
    requires Unicast(server) && |rest| == UDP + 250 && Finished(Words(OptionHeader(server, c))) == 0
    ensures var ip := OptionHeader(server, c) + rest; Ipv4Matches(ip) && ip[0] == 0x46 && Resized(ip, 0x45)
  {
    var ip := OptionHeader(server, c) + rest;
    assert ip[..24] == OptionHeader(server, c) && ip[12..16] == server;
    assert ip[20..24] == [0xfe, 0xff, 0, 0];
    OptionWords();
  }

  lemma OptionWords()
    ensures Words([0xfe, 0xff, 0, 0]) == 65279
  {
    assert [0xfe, 0xff, 0, 0][2..] == [0, 0] && [0, 0][2..] == [];
  }

  /** So an OFFER with one changed byte in its IPv4 header stays accepted exactly if the header's length changed,
      it verifies at its new length, and what then is the datagram is an OFFER's. */
  lemma HeaderCorruptionRejectedUnless(frame: seq<byte>, mac: Mac, xid: u32, i: nat, b: byte)
    requires Offer(frame, mac, xid) && i < HeaderLength(frame[ETHER..]) && b != frame[ETHER + i]
    ensures Offer(frame[ETHER + i := b], mac, xid) <==>
            && i == 0 && Resized(frame[ETHER..], b)
            && var udp := frame[ETHER..][b % 16 * 4..TotalLength(frame[ETHER..])];
               UdpMatches(udp, frame[ETHER + 12..ETHER + 20]) && BootpMatches(udp[UDP..], mac, xid) && OffersLease(udp[UDP + 240..])
  {
    var bad := frame[ETHER + i := b];
    assert bad[ETHER..] == frame[ETHER..][i := b];
    HeaderChangeNoticedIff(frame[ETHER..], i, b);
    if i == 0 && Resized(frame[ETHER..], b) {
      assert Datagram(bad[ETHER..]) == frame[ETHER..][b % 16 * 4..TotalLength(frame[ETHER..])];
      assert bad[..ETHER] == frame[..ETHER] && bad[ETHER + 12..ETHER + 20] == frame[ETHER + 12..ETHER + 20];
      SameHeadings(frame, bad, mac);
    }
  }

  /** The frame with byte i of its datagram replaced. */
  function Altered(frame: seq<byte>, i: nat, b: byte): seq<byte>
    requires |frame| >= ETHER + IP && Ipv4Matches(frame[ETHER..]) && i < |Datagram(frame[ETHER..])|
  {
    frame[ETHER + HeaderLength(frame[ETHER..]) + i := b]
  }

  /** Replacing a byte of the datagram leaves everything before the datagram as it was. */
  lemma AlteredDatagram(frame: seq<byte>, i: nat, b: byte)
    requires |frame| >= ETHER + IP && Ipv4Matches(frame[ETHER..]) && i < |Datagram(frame[ETHER..])|
    ensures var bad := Altered(frame, i, b);
            && Ipv4Matches(bad[ETHER..]) && Datagram(bad[ETHER..]) == Datagram(frame[ETHER..])[i := b]
            && bad[..ETHER] == frame[..ETHER] && bad[ETHER + 12..ETHER + 20] == frame[ETHER + 12..ETHER + 20]
  {
    var ip, bad := frame[ETHER..], Altered(frame, i, b)[ETHER..];
    var h := HeaderLength(ip);
    assert bad == ip[h + i := b];
    assert bad[..h] == ip[..h] && bad[12..16] == ip[12..16];
    assert Datagram(ip) == ip[h..TotalLength(ip)];
  }

  /** With a UDP checksum present, one changed byte anywhere in the datagram is noticed, except when the
      change turns the checksum field itself into zero, which says that there is no checksum. */
  lemma DatagramCorruptionRejected(frame: seq<byte>, mac: Mac, xid: u32, i: nat, b: byte)
    requires Offer(frame, mac, xid)
    requires var udp := Datagram(frame[ETHER..]);
             i < |udp| && b != udp[i] && udp[6..8] != [0, 0] && udp[i := b][6..8] != [0, 0]
    ensures !Offer(Altered(frame, i, b), mac, xid)
  {
    AlteredDatagram(frame, i, b);
    UdpCorruptionRejected(Datagram(frame[ETHER..]), frame[ETHER + 12..ETHER + 20], i, b);
  }

  lemma UdpCorruptionRejected(udp: seq<byte>, addresses: seq<byte>, i: nat, b: byte)
    requires |udp| >= UDP && UdpMatches(udp, addresses) && udp[6..8] != [0, 0]
    requires i < |udp| && b != udp[i] && udp[i := b][6..8] != [0, 0]
    ensures !UdpMatches(udp[i := b], addresses)
  {
    OneByteChangeDetected(17 + |udp| + Words(addresses), udp, i, b);
  }

  /** The exception: an OFFER whose checksum is blanked by a change of one byte stays accepted. */
  lemma BlankedChecksumAccepted(frame: seq<byte>, mac: Mac, xid: u32, i: nat)
    requires Offer(frame, mac, xid)
    requires 6 <= i < 8 && Datagram(frame[ETHER..])[i := 0][6..8] == [0, 0]
    ensures Offer(Altered(frame, i, 0), mac, xid)
  {
    var udp, bad := Datagram(frame[ETHER..]), Altered(frame, i, 0);
    AlteredDatagram(frame, i, 0);
    var udp' := udp[i := 0];
    assert udp'[..4] == udp[..4] && udp'[UDP..] == udp[UDP..] && udp'[UDP + 240..] == udp[UDP + 240..];
    assert bad[..6] == bad[..ETHER][..6] && frame[..6] == frame[..ETHER][..6];
    assert bad[12..14] == bad[..ETHER][12..14] && frame[12..14] == frame[..ETHER][12..14];
  }

  /** With a UDP checksum present, one changed byte of the datagram goes unnoticed exactly when it blanks the
      checksum. */
  lemma DatagramCorruptionDetectedIff(frame: seq<byte>, mac: Mac, xid: u32, i: nat, b: byte)
    requires Offer(frame, mac, xid)
    requires var udp := Datagram(frame[ETHER..]); i < |udp| && b != udp[i] && udp[6..8] != [0, 0]
    ensures Offer(Altered(frame, i, b), mac, xid) <==> Datagram(frame[ETHER..])[i := b][6..8] == [0, 0]
  {
    var udp := Datagram(frame[ETHER..]);
    if udp[i := b][6..8] == [0, 0] {
      BlankingByte(udp, i, b);
      BlankedChecksumAccepted(frame, mac, xid, i);
    } else {
      DatagramCorruptionRejected(frame, mac, xid, i, b);
    }
  }

  lemma BlankingByte(udp: seq<byte>, i: nat, b: byte)
    requires |udp| >= UDP && i < |udp| && udp[6..8] != [0, 0] && udp[i := b][6..8] == [0, 0]
    ensures 6 <= i < 8 && b == 0
  {
    var blank := udp[i := b];
    assert udp[6..8] == [udp[6], udp[7]] && blank[6..8] == [blank[6], blank[7]];
  }

  /** A datagram without a checksum, marked with the checksum [1, 0], and balanced in two unused bytes so that
      it verifies. */
  function Marked(udp: seq<byte>): (marked: seq<byte>)
    requires |udp| >= UDP
    ensures |marked| == |udp|
  {
    udp[6 := 1]
  }

  function Balance(udp: seq<byte>, addresses: seq<byte>): u16
    requires |udp| >= UDP
  {
    Finished(17 + |udp| + Words(addresses) + Words(Marked(udp)))
  }

  function Balanced(udp: seq<byte>, addresses: seq<byte>): (balanced: seq<byte>)
    requires |udp| >= UDP + 243
    ensures |balanced| == |udp|
  {
    var c := Balance(udp, addresses);
    Marked(udp)[52 := c / 256][53 := c % 256]
  }

  lemma BalancedVerifies(udp: seq<byte>, addresses: seq<byte>)
    requires |udp| >= UDP + 243 && udp[6..8] == [0, 0] && udp[52] == udp[53] == 0
    ensures var balanced := Balanced(udp, addresses);
            && balanced[6..8] == [1, 0] && Finished(17 + |udp| + Words(addresses) + Words(balanced)) == 0
            && forall k :: 0 <= k < |udp| && k != 6 && k != 52 && k != 53 ==> balanced[k] == udp[k]
  {
    assert udp[7] == udp[6..8][1];
    FilledRegionVerifies(17 + |udp| + Words(addresses), Marked(udp), 52);
  }

  lemma SameUdp(udp: seq<byte>, other: seq<byte>, addresses: seq<byte>)
    requires |udp| == |other| >= UDP && UdpMatches(udp, addresses)
    requires forall k :: 0 <= k < 6 ==> other[k] == udp[k]
    requires Finished(17 + |udp| + Words(addresses) + Words(other)) == 0
    ensures UdpMatches(other, addresses)
  {
    SamePiece(udp, other, 0, 4);
  }

  lemma BalancedMatches(udp: seq<byte>, addresses: seq<byte>, mac: Mac, xid: u32)
    requires |udp| >= UDP + 243 && udp[6..8] == [0, 0] && udp[52] == udp[53] == 0
    requires UdpMatches(udp, addresses) && BootpMatches(udp[UDP..], mac, xid) && OffersLease(udp[UDP + 240..])
    ensures var balanced := Balanced(udp, addresses);
            && UdpMatches(balanced, addresses) && BootpMatches(balanced[UDP..], mac, xid) && OffersLease(balanced[UDP + 240..])
            && balanced[6..8] == [1, 0]
  {
    BalancedVerifies(udp, addresses);
    SameUdp(udp, Balanced(udp, addresses), addresses);
    SameBootp(udp, Balanced(udp, addresses), mac, xid);
  }

  /** An OFFER with a checksum that accepts a change of its byte i. */
  ghost predicate Unnoticed(frame: seq<byte>, mac: Mac, xid: u32, i: nat, b: byte) {
    && Offer(frame, mac, xid)
    && i < |Datagram(frame[ETHER..])| && b != Datagram(frame[ETHER..])[i] && Datagram(frame[ETHER..])[6..8] != [0, 0]
    && Offer(Altered(frame, i, b), mac, xid)
  }

  /** The exception is real: for every host and transaction there are such OFFERs. */
  lemma CorruptionCanGoUnnoticed(mac: Mac, xid: u32, sender: Mac, server: Ip, yours: Ip)
    requires xid != 0 && Unicast(server) && Unicast(yours) && yours[..2] != [169, 254]
    ensures exists frame :: Unnoticed(frame, mac, xid, 6, 0)
  {
    var f0 := ServerReply(mac, xid, sender, server, yours);
    ServerReplyIsOffer(mac, xid, sender, server, yours);
    ReplyDatagram(mac, xid, sender, server, yours);
    var f3 := Signed(f0, mac, xid);
    BlankedByte(Datagram(f3[ETHER..]));
    DatagramCorruptionDetectedIff(f3, mac, xid, 6, 0);
    assert Unnoticed(f3, mac, xid, 6, 0);
  }

  /** An OFFER without a checksum, and with two unused bytes, given the checksum [1, 0]. */
  lemma Signed(frame: seq<byte>, mac: Mac, xid: u32) returns (signed: seq<byte>)
    requires Offer(frame, mac, xid)
    requires var udp := Datagram(frame[ETHER..]); udp[6..8] == [0, 0] && udp[52] == udp[53] == 0
    ensures Offer(signed, mac, xid) && Datagram(signed[ETHER..])[6..8] == [1, 0]
  {
    var udp, addresses := Datagram(frame[ETHER..]), frame[ETHER + 12..ETHER + 20];
    BalancedMatches(udp, addresses, mac, xid);
    signed := BalancedFrame(frame);
    SameHeadings(frame, signed, mac);
    IsOfferWith(signed, Balanced(udp, addresses), mac, xid);
  }

  lemma BalancedFrame(frame: seq<byte>) returns (balanced: seq<byte>)
    requires |frame| >= ETHER + IP && Ipv4Matches(frame[ETHER..])
    ensures |balanced| == |frame| && Ipv4Matches(balanced[ETHER..])
    ensures Datagram(balanced[ETHER..]) == Balanced(Datagram(frame[ETHER..]), frame[ETHER + 12..ETHER + 20])
    ensures balanced[..ETHER] == frame[..ETHER] && balanced[ETHER + 12..ETHER + 20] == frame[ETHER + 12..ETHER + 20]
  {
    var c := Balance(Datagram(frame[ETHER..]), frame[ETHER + 12..ETHER + 20]);
    balanced := AlteredThrice(frame, 6, 1, 52, c / 256, 53, c % 256);
  }

  /** An OFFER, put together from its parts. */
  lemma IsOfferWith(frame: seq<byte>, udp: seq<byte>, mac: Mac, xid: u32)
    requires xid != 0 && |frame| >= BOOTP + 243 && EthernetMatches(frame, mac)
    requires Ipv4Matches(frame[ETHER..]) && Datagram(frame[ETHER..]) == udp
    requires UdpMatches(udp, frame[ETHER + 12..ETHER + 20])
    requires BootpMatches(udp[UDP..], mac, xid) && OffersLease(udp[UDP + 240..])
    ensures Offer(frame, mac, xid)
  {
  }

  lemma AlteredThrice(frame: seq<byte>, i: nat, b: byte, j: nat, c: byte, k: nat, d: byte) returns (bad: seq<byte>)
    requires |frame| >= ETHER + IP && Ipv4Matches(frame[ETHER..])
    requires var n := |Datagram(frame[ETHER..])|; i < n && j < n && k < n
    ensures |bad| == |frame| && Ipv4Matches(bad[ETHER..])
    ensures Datagram(bad[ETHER..]) == Datagram(frame[ETHER..])[i := b][j := c][k := d]
    ensures bad[..ETHER] == frame[..ETHER] && bad[ETHER + 12..ETHER + 20] == frame[ETHER + 12..ETHER + 20]
  {
    AlteredDatagram(frame, i, b);
    bad := Altered(frame, i, b);
    AlteredDatagram(bad, j, c);
    bad := Altered(bad, j, c);
    AlteredDatagram(bad, k, d);
    bad := Altered(bad, k, d);
  }

  lemma BlankedByte(udp: seq<byte>)
    requires |udp| >= UDP && udp[6..8] == [1, 0]
    ensures udp[6 := 0][6..8] == [0, 0] && udp[6] == 1
  {
    assert udp[6] == udp[6..8][0] && udp[7] == udp[6..8][1];
  }

  lemma ReplyDatagram(mac: Mac, xid: u32, sender: Mac, server: Ip, yours: Ip)
    requires xid != 0 && Unicast(server) && Unicast(yours) && yours[..2] != [169, 254]
    ensures var frame := ServerReply(mac, xid, sender, server, yours);
            && Ipv4Matches(frame[ETHER..]) && |Datagram(frame[ETHER..])| == UDP + 250
            && Datagram(frame[ETHER..])[6..8] == [0, 0]
            && Datagram(frame[ETHER..])[52] == Datagram(frame[ETHER..])[53] == 0
  {
    var frame := ServerReply(mac, xid, sender, server, yours);
    var udp := REPLY_UDP_HEADER + (ReplyFixed(mac, xid, yours) + ReplyOptions(server));
    assert frame[ETHER..] == ReplyIpHeader(server, Finished(Words(ReplyIpHeader(server, 0)))) + udp;
    ReplyHeaderMatches(server, udp);
  }

  lemma SameHeadings(frame: seq<byte>, other: seq<byte>, mac: Mac)
    requires |frame| >= ETHER && |other| >= ETHER && other[..ETHER] == frame[..ETHER] && EthernetMatches(frame, mac)
    ensures EthernetMatches(other, mac)
  {
    assert other[..6] == other[..ETHER][..6] && frame[..6] == frame[..ETHER][..6];
    assert other[12..14] == other[..ETHER][12..14] && frame[12..14] == frame[..ETHER][12..14];
  }

  lemma SameBootp(udp: seq<byte>, other: seq<byte>, mac: Mac, xid: u32)
    requires |udp| == |other| >= UDP + 243
    requires forall k :: 8 <= k < |udp| && k != 52 && k != 53 ==> other[k] == udp[k]
    requires BootpMatches(udp[UDP..], mac, xid) && OffersLease(udp[UDP + 240..])
    ensures BootpMatches(other[UDP..], mac, xid) && OffersLease(other[UDP + 240..])
  {
    SameFields(udp[UDP..], other[UDP..], mac, xid);
    SamePiece(udp, other, UDP + 240, |udp|);
  }

  lemma SameFields(bootp: seq<byte>, changed: seq<byte>, mac: Mac, xid: u32)
    requires |bootp| == |changed| >= 243 && BootpMatches(bootp, mac, xid)
    requires forall k :: 0 <= k < |bootp| && k != 44 && k != 45 ==> changed[k] == bootp[k]
    ensures BootpMatches(changed, mac, xid)
  {
    SamePiece(bootp, changed, 0, 3);
    SamePiece(bootp, changed, 4, 8);
    SamePiece(bootp, changed, 16, 18);
    SamePiece(bootp, changed, 16, 20);
    SamePiece(bootp, changed, 28, 34);
    SamePiece(bootp, changed, 236, 240);
  }

  lemma SamePiece(a: seq<byte>, b: seq<byte>, from: nat, to: nat)
    requires from <= to <= |a| == |b| && forall k :: from <= k < to ==> a[k] == b[k]
    ensures a[from..to] == b[from..to]
  {
  }
}
