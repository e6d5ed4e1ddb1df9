/** OFFERs whose IPv4 header changes its length on the way, by a change of its first byte: the recogniser of
    src/protocol/dhcp_probe.rs can take such a frame before and after, but only if the datagram moves by 16 bytes or
    more. */
module DhcpResize {
  import opened Bytes
  import opened InternetChecksum
  import opened DhcpProbe
  import opened DhcpReply

  /** What of a datagram does not depend on the addresses. */
  predicate Fields(udp: seq<byte>, mac: Mac, xid: u32) {
    && |udp| >= UDP + 243 && udp[..4] == [0, 67, 0, 68] && FromBe16(udp[4], udp[5]) == |udp|
    && BootpMatches(udp[UDP..], mac, xid)
  }

  lemma FieldBytes(udp: seq<byte>, mac: Mac, xid: u32)
    requires Fields(udp, mac, xid)
    ensures udp[0] == 0 && udp[1] == 67 && udp[8] == 2 && udp[12] == Be32(xid)[0] && udp[24] != 0
  {
    var bootp := udp[UDP..];
    assert udp[0] == udp[..4][0] && udp[1] == udp[..4][1] && udp[8] == bootp[..3][0];
    assert udp[12] == bootp[4..8][0] && udp[24] == bootp[16..20][0];
  }

  /** The fields rule a short move out: the ports would be read as the length, or the message as the ports, or the
      ports would be the transaction and the transaction the offered address. */
  lemma NoShortMove(udp: seq<byte>, d: nat, mac: Mac, xid: u32)
    requires Fields(udp, mac, xid) && (d == 4 || d == 8 || d == 12)
    ensures !Fields(udp[d..], mac, xid)
  {
    FieldBytes(udp, mac, xid);
    if Fields(udp[d..], mac, xid) {
      FieldBytes(udp[d..], mac, xid);
    }
  }

  lemma OfferFields(frame: seq<byte>, mac: Mac, xid: u32)
    requires Offer(frame, mac, xid)
    ensures Fields(Datagram(frame[ETHER..]), mac, xid)
  {
  }

  /** One datagram is the end of the other. */
  lemma Moved(ip: seq<byte>, b: byte)
    requires |ip| >= IP && Ipv4Matches(ip) && Ipv4Matches(ip[0 := b])
    ensures var u, v, h, h' := Datagram(ip), Datagram(ip[0 := b]), HeaderLength(ip), b % 16 * 4;
            if h <= h' then h' - h <= |u| && v == u[h' - h..] else h - h' <= |v| && u == v[h - h'..]
  {
    FieldsKept(ip, b);
    OneEndsTheOther(ip, b, HeaderLength(ip), b % 16 * 4, TotalLength(ip));
  }

  lemma OneEndsTheOther(ip: seq<byte>, b: byte, h: nat, h': nat, total: nat)
    requires 0 < h <= total <= |ip| && 0 < h' <= total
    ensures var u, v := ip[h..total], ip[0 := b][h'..total];
            if h <= h' then h' - h <= |u| && v == u[h' - h..] else h - h' <= |v| && u == v[h - h'..]
  {
    assert ip[0 := b][h'..total] == ip[h'..total];
  }

  lemma ApartBy(a: byte, b: byte)
    requires a / 16 == 4 && b / 16 == 4
    ensures b % 16 * 4 - a % 16 * 4 == (b - a) * 4
  {
  }

  lemma AcceptedMove(ip: seq<byte>, b: byte, mac: Mac, xid: u32)
    requires |ip| >= IP && Ipv4Matches(ip) && Ipv4Matches(ip[0 := b]) && b != ip[0]
    requires Fields(Datagram(ip), mac, xid) && Fields(Datagram(ip[0 := b]), mac, xid)
    ensures b >= ip[0] + 4 || ip[0] >= b + 4
    ensures HeaderLength(ip[0 := b]) - HeaderLength(ip) == (b - ip[0]) * 4
  {
    Moved(ip, b);
    FieldsKept(ip, b);
    ApartBy(ip[0], b);
    SmallMove(Datagram(ip), Datagram(ip[0 := b]), b - ip[0], mac, xid);
  }

  /** An OFFER with one changed byte in its IPv4 header that is still an OFFER has got a header that is 16 bytes or
      more longer or shorter. */
  lemma AcceptedResizeIsLarge(frame: seq<byte>, mac: Mac, xid: u32, i: nat, b: byte)
    requires Offer(frame, mac, xid) && i < HeaderLength(frame[ETHER..]) && b != frame[ETHER + i]
    requires Offer(frame[ETHER + i := b], mac, xid)
    ensures i == 0
    ensures var h, h' := HeaderLength(frame[ETHER..]), HeaderLength(frame[ETHER + i := b][ETHER..]);
            h' >= h + 16 || h >= h' + 16
  {
    var ip := frame[ETHER..];
    assert frame[ETHER + i := b][ETHER..] == ip[i := b];
    OfferFields(frame, mac, xid);
    OfferFields(frame[ETHER + i := b], mac, xid);
    HeaderChangeNoticedIff(ip, i, b);
    AcceptedMove(ip, b, mac, xid);
  }

  lemma SmallMove(u: seq<byte>, v: seq<byte>, words: int, mac: Mac, xid: u32)
    requires Fields(u, mac, xid) && Fields(v, mac, xid) && words != 0
    requires if words >= 0 then 4 * words <= |u| && v == u[4 * words..] else -4 * words <= |v| && u == v[-4 * words..]
    ensures words >= 4 || words <= -4
  {
    if 0 < words < 4 {
      NoShortMove(u, 4 * words, mac, xid);
    } else if -4 < words < 0 {
      NoShortMove(v, -4 * words, mac, xid);
    }
  }

  // An OFFER within an OFFER

  const TWICE: u32 := 61798

  function TwiceIpHeader(server: Ip, checksum: u16): (s: seq<byte>)
    ensures |s| == IP
  {
    [0x45, 0] + Be16(294) + [0, 0, 0, 0, 64, 17] + Be16(checksum) + server + [255, 255, 255, 255]
  }

  /** The UDP header and the first 8 bytes of the message, which make up for the change of the first byte. */
  const OUTER_START: seq<byte> := [0, 67, 0, 68] + Be16(274) + [0, 0] + [2, 1, 6, 255] + Be32(TWICE)

  /** Also the next 8 bytes of the message. */
  const INNER_UDP: seq<byte> := [0, 67, 0, 68] + Be16(258) + [0, 0]

  /** Up to the options of the outer message, from the address it offers on, which is where the inner one begins.
      The inner one offers an address that starts with the end of the hardware address. */
  function TwiceFixed(mac: Mac): (s: seq<byte>)
    ensures |s| == 224
    ensures s[..4] == [2, 1, 6, 0] && s[4..8] == Be32(TWICE) && s[12..18] == mac && s[16..20] == mac[4..] + [0, 0]
    ensures s[28..34] == mac && s[220..224] == COOKIE
  {
    [2, 1, 6, 0] + Be32(TWICE) + Repeat(0, 4) + mac + Repeat(0, 10) + mac + Repeat(0, 186) + COOKIE
  }

  /** A vendor option that holds the cookie and the options of the inner message. */
  function Hidden(server: Ip): (s: seq<byte>)
    ensures |s| == 14 && s[1..5] == COOKIE && s[5..] == ReplyOptions(server)[..9]
  {
    [0] + COOKIE + ReplyOptions(server)[..9]
  }

  function TwiceOptions(server: Ip): (s: seq<byte>)
    ensures |s| == 26
  {
    EncodeItem(Option(53, [2])) + (EncodeItem(Option(54, server)) + (EncodeItem(Option(43, Hidden(server))) + [255]))
  }

  lemma Embedded(front: seq<byte>, head: seq<byte>, hidden: seq<byte>, last: seq<byte>)
    requires |front| == 9 && |head| == 2 && |hidden| == 14
    ensures var options := front + ((head + hidden) + last);
            options[12..16] == hidden[1..5] && options[16..] == hidden[5..] + last
  {
  }

  lemma Grouped(a: seq<byte>, b: seq<byte>, c: seq<byte>, d: seq<byte>)
    ensures a + (b + (c + d)) == (a + b) + (c + d)
  {
  }

  lemma ReplyOptionsEnd(server: Ip)
    ensures ReplyOptions(server)[..9] + [255] == ReplyOptions(server)
  {
    var s := ReplyOptions(server);
    assert s[9] == 255 && s[..9] + [s[9]] == s;
  }

  lemma InnerInOuterOptions(server: Ip)
    ensures TwiceOptions(server)[12..16] == COOKIE && TwiceOptions(server)[16..] == ReplyOptions(server)
  {
    var first, second, hidden := EncodeItem(Option(53, [2])), EncodeItem(Option(54, server)), Hidden(server);
    Embedded(first + second, [43, 14], hidden, [255]);
    Grouped(first, second, [43, 14] + hidden, [255]);
    ReplyOptionsEnd(server);
  }

  lemma TwiceOptionsOffer(server: Ip)
    requires Unicast(server)
    ensures OffersLease(TwiceOptions(server))
  {
    var hidden := EncodeItem(Option(43, Hidden(server))) + [255];
    WalkStep(Option(53, [2]), EncodeItem(Option(54, server)) + hidden, false, false);
    WalkStep(Option(54, server), hidden, true, false);
    WalkStep(Option(43, Hidden(server)), [255], true, true);
    WalkIffOffersLease(TwiceOptions(server));
  }

  function InnerDatagram(mac: Mac, server: Ip): (s: seq<byte>)
    ensures |s| == 258
  {
    INNER_UDP + (TwiceFixed(mac) + TwiceOptions(server))
  }

  /** A hardware address whose last two bytes can begin an address that a server may offer. */
  predicate Offerable(mac: Mac) {
    Unicast(mac[4..] + [0, 0]) && mac[4..] != [169, 254]
  }

  lemma InnerMatches(mac: Mac, server: Ip, addresses: seq<byte>)
    requires Unicast(server) && Offerable(mac)
    ensures var udp := InnerDatagram(mac, server);
            UdpMatches(udp, addresses) && BootpMatches(udp[UDP..], mac, TWICE) && OffersLease(udp[UDP + 240..])
  {
    var udp, bootp := InnerDatagram(mac, server), TwiceFixed(mac) + TwiceOptions(server);
    assert udp[..4] == [0, 67, 0, 68] && udp[6..8] == [0, 0] && udp[UDP..] == bootp;
    InnerFields(mac, server);
    assert udp[UDP + 240..] == bootp[240..];
    ReplyOptionsOffer(server);
  }

  /** The fields from the pieces they lie in. */
  lemma FieldsFrom(bootp: seq<byte>, mac: Mac, yours: seq<byte>)
    requires |bootp| >= 243 && bootp[..4] == [2, 1, 6, bootp[3]] && bootp[4..8] == Be32(TWICE) && bootp[28..34] == mac
    requires bootp[16..20] == yours && Unicast(yours) && yours[..2] != [169, 254] && bootp[236..240] == COOKIE
    ensures BootpMatches(bootp, mac, TWICE)
  {
    assert bootp[..3] == bootp[..4][..3] && bootp[16..18] == bootp[16..20][..2];
  }

  lemma InnerPlaces(fixed: seq<byte>, options: seq<byte>)
    requires |fixed| == 224 && |options| == 26
    ensures var bootp := fixed + options;
            && bootp[..4] == fixed[..4] && bootp[4..8] == fixed[4..8] && bootp[16..20] == fixed[16..20]
            && bootp[28..34] == fixed[28..34] && bootp[236..240] == options[12..16] && bootp[240..] == options[16..]
  {
  }

  lemma InnerFields(mac: Mac, server: Ip)
    requires Offerable(mac)
    ensures var bootp := TwiceFixed(mac) + TwiceOptions(server);
            BootpMatches(bootp, mac, TWICE) && bootp[240..] == ReplyOptions(server)
  {
    InnerPlaces(TwiceFixed(mac), TwiceOptions(server));
    InnerInOuterOptions(server);
    var yours := mac[4..] + [0, 0];
    assert yours[..2] == mac[4..];
    FieldsFrom(TwiceFixed(mac) + TwiceOptions(server), mac, yours);
  }

  lemma OuterStart(inner: seq<byte>)
    requires |inner| == 258
    ensures var udp := OUTER_START + inner;
            && udp[..4] == [0, 67, 0, 68] && FromBe16(udp[4], udp[5]) == |udp| && udp[6..8] == [0, 0]
            && udp[..16] == OUTER_START && udp[16..] == inner
  {
  }

  lemma Pieces(head: seq<byte>, fixed: seq<byte>, options: seq<byte>)
    requires |head| == 8 && |fixed| == 224
    ensures (head + (fixed + options))[8..232] == fixed && (head + (fixed + options))[232..] == options
  {
    var all := head + (fixed + options);
    assert all[8..] == fixed + options;
    assert all[8..232] == (fixed + options)[..224] && all[232..] == (fixed + options)[224..];
  }

  lemma OuterMatches(mac: Mac, server: Ip, addresses: seq<byte>)
    requires Unicast(server)
    ensures var udp := OUTER_START + InnerDatagram(mac, server);
            UdpMatches(udp, addresses) && BootpMatches(udp[UDP..], mac, TWICE) && OffersLease(udp[UDP + 240..])
  {
    var inner := InnerDatagram(mac, server);
    var udp := OUTER_START + inner;
    OuterStart(inner);
    Pieces(INNER_UDP, TwiceFixed(mac), TwiceOptions(server));
    assert udp[24..248] == inner[8..232] && udp[248..] == inner[232..];
    OuterFields(udp, mac);
    TwiceOptionsOffer(server);
  }

  lemma OuterFields(udp: seq<byte>, mac: Mac)
    requires |udp| == 274 && udp[..16] == OUTER_START && udp[24..248] == TwiceFixed(mac)
    ensures BootpMatches(udp[UDP..], mac, TWICE)
  {
    var start, bootp := udp[..16], udp[UDP..];
    assert bootp[..4] == start[8..12] && bootp[4..8] == start[12..];
    assert bootp[16..240] == TwiceFixed(mac);
    PieceOf(bootp, 16, 240, 12, 18);
    PieceOf(bootp, 16, 240, 220, 224);
    PieceOf(bootp, 16, 240, 0, 4);
    FieldsFrom(bootp, mac, [2, 1, 6, 0]);
  }

  lemma PieceOf(s: seq<byte>, a: nat, b: nat, c: nat, d: nat)
    requires c <= d && a + d <= b <= |s|
    ensures s[a..b][c..d] == s[a + c..a + d]
  {
    assert forall k :: c <= k < d ==> s[a..b][k] == s[a + k];
  }

  lemma TwoWords(a: byte, b: byte, c: byte, d: byte)
    ensures Words([a, b, c, d]) == FromBe16(a, b) + FromBe16(c, d)
  {
    var all: seq<byte>, last: seq<byte> := [a, b, c, d], [c, d];
    assert last[2..] == [] && Words(last) == FromBe16(c, d);
    assert all[2..] == last;
  }

  lemma OuterStartSum()
    ensures Words(OUTER_START) == 64511
  {
    var a: seq<byte>, b: seq<byte> := [0, 67, 0, 68], [1, 18, 0, 0];
    var c: seq<byte>, d: seq<byte> := [2, 1, 6, 255], [0, 0, 241, 102];
    assert OUTER_START == a + (b + (c + d));
    WordsSplit(a, b + (c + d));
    WordsSplit(b, c + d);
    WordsSplit(c, d);
    TwoWords(0, 67, 0, 68);
    TwoWords(1, 18, 0, 0);
    TwoWords(2, 1, 6, 255);
    TwoWords(0, 0, 241, 102);
  }

  lemma TwiceHeaderVerifies(server: Ip)
    ensures var c := Finished(Words(TwiceIpHeader(server, 0))); Finished(Words(TwiceIpHeader(server, c))) == 0
  {
    var c := Finished(Words(TwiceIpHeader(server, 0)));
    TwiceHeaderPatched(server, c);
    FilledHeaderVerifies(TwiceIpHeader(server, 0), TwiceIpHeader(server, c));
  }

  lemma TwiceHeaderPatched(server: Ip, checksum: u16)
    ensures TwiceIpHeader(server, checksum) == TwiceIpHeader(server, 0)[10 := checksum / 256][11 := checksum % 256]
    ensures TwiceIpHeader(server, 0)[10] == TwiceIpHeader(server, 0)[11] == 0
  {
  }

  lemma TwicePacket(server: Ip, c: u16, inner: seq<byte>)
    requires Unicast(server) && |inner| == 258 && Finished(Words(TwiceIpHeader(server, c))) == 0
    ensures var ip := TwiceIpHeader(server, c) + (OUTER_START + inner);
            && Ipv4Matches(ip) && ip[0] == 0x45 && Datagram(ip) == OUTER_START + inner
            && Ipv4Matches(ip[0 := 0x49]) && Datagram(ip[0 := 0x49]) == inner
  {
    var ip := TwiceIpHeader(server, c) + (OUTER_START + inner);
    assert ip[..IP] == TwiceIpHeader(server, c) && ip[12..16] == server;
    assert ip[IP..] == OUTER_START + inner && ip[20..36] == OUTER_START && ip[36..] == inner;
    OuterStartSum();
    HeaderChangeNoticedIff(ip, 0, 0x49);
    FieldsKept(ip, 0x49);
  }

  /** An OFFER to `mac` in transaction 61798, with another OFFER 16 bytes further on. */
  function OfferTwice(mac: Mac, sender: Mac, server: Ip): (s: seq<byte>)
    ensures |s| == 308
  {
    mac + sender + [8, 0]
    + (TwiceIpHeader(server, Finished(Words(TwiceIpHeader(server, 0)))) + (OUTER_START + InnerDatagram(mac, server)))
  }

  /** The exception is real too: for such a host and every server, changing the first byte of this OFFER's header from
      0x45 to 0x49 leaves an OFFER, by the least move possible. */
  lemma ResizedOfferAccepted(mac: Mac, sender: Mac, server: Ip)
    requires Unicast(server) && Offerable(mac)
    ensures var frame := OfferTwice(mac, sender, server);
            frame[ETHER] == 0x45 && Offer(frame, mac, TWICE) && Offer(frame[ETHER := 0x49], mac, TWICE)
  {
    var frame, c := OfferTwice(mac, sender, server), Finished(Words(TwiceIpHeader(server, 0)));
    var ip := TwiceIpHeader(server, c) + (OUTER_START + InnerDatagram(mac, server));
    TwiceHeaderVerifies(server);
    TwicePacket(server, c, InnerDatagram(mac, server));
    Framed(mac, sender, ip, 0x49);
    OuterMatches(mac, server, frame[ETHER + 12..ETHER + 20]);
    InnerMatches(mac, server, frame[ETHER := 0x49][ETHER + 12..ETHER + 20]);
    IsOfferWith(frame, OUTER_START + InnerDatagram(mac, server), mac, TWICE);
    IsOfferWith(frame[ETHER := 0x49], InnerDatagram(mac, server), mac, TWICE);
  }

  lemma Framed(mac: Mac, sender: Mac, ip: seq<byte>, b: byte)
    requires ip != []
    ensures var frame := mac + sender + [8, 0] + ip;
            && EthernetMatches(frame, mac) && frame[ETHER..] == ip
            && EthernetMatches(frame[ETHER := b], mac) && frame[ETHER := b][ETHER..] == ip[0 := b]
  {
    var frame := mac + sender + [8, 0] + ip;
    assert frame[..6] == mac && frame[12..14] == [8, 0];
    assert frame[ETHER := b][..6] == mac && frame[ETHER := b][12..14] == [8, 0];
  }
}
