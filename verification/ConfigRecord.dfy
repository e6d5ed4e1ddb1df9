/** The 64-byte flash record holding the bridge configuration (src/config_record.rs).
    It ends in a 32-bit FNV-1a hash of everything before it. */
module ConfigRecord {
  import opened Bytes
  import opened Wrappers

  const RECORD_SIZE := 64
  const CONFIG_MAGIC: seq<byte> := [0x50, 0x43, 0x46, 0x47]
  const CONFIG_VERSION: byte := 2
  const FNV_BASIS: u32 := 0x811c9dc5
  const FNV_PRIME: u32 := 0x0100_0193
  // The inverse of FNV_PRIME modulo 2^32.
  const FNV_INVERSE: u32 := 0x359c449b

  datatype AddressMode =
    | Auto
    | Dhcp
    | Static(address: Ip, prefixLen: byte, gateway: Ip, dns: Ip)

  datatype BridgeMode =
    | TcpClient(host: Ip, port: u16)
    | TcpServer(port: u16)

  datatype UpstreamMode = Uart | I2c | Usb | Test | Spi | SpiEcho | SpiStatic | SpiLineHigh

  datatype UartPort = Uart0 | Uart1

  datatype BridgeConfig = BridgeConfig(
    discovery: bool, mac: Mac, addressMode: AddressMode, bridgeMode: BridgeMode,
    upstreamMode: UpstreamMode, uartPort: UartPort)

  function AddressModeTag(m: AddressMode): byte {
    match m case Dhcp => 0 case Auto => 2 case Static(_, _, _, _) => 1
  }

  function BridgeModeTag(m: BridgeMode): byte {
    match m case TcpClient(_, _) => 0 case TcpServer(_) => 1
  }

  function UpstreamModeTag(m: UpstreamMode): byte {
    match m
    case Uart => 0 case I2c => 1 case Usb => 2 case Test => 3
    case Spi => 4 case SpiEcho => 5 case SpiStatic => 6 case SpiLineHigh => 7
  }

  function UartPortTag(p: UartPort): byte {
    match p case Uart0 => 0 case Uart1 => 1
  }

  function FnvStep(hash: u32, b: byte): u32 {
    Xor32(hash, b) * FNV_PRIME % U32_RANGE
  }

  function Fnv(bytes: seq<byte>): u32 {
    if bytes == [] then FNV_BASIS else FnvStep(Fnv(bytes[..|bytes| - 1]), bytes[|bytes| - 1])
  }

  method Checksum32(bytes: seq<byte>) returns (hash: u32)
    ensures hash == Fnv(bytes)
  {
    hash := FNV_BASIS;
    for i := 0 to |bytes|
      invariant hash == Fnv(bytes[..i])
    {
      assert bytes[..i + 1][..i] == bytes[..i];
      hash := Xor32(hash, bytes[i]);
      hash := hash * FNV_PRIME % U32_RANGE;
    }
    assert bytes[..|bytes|] == bytes;
  }

  // Layout of the record, part after part.

  function Head(c: BridgeConfig): (s: seq<byte>)
    ensures |s| == 12
  {
    CONFIG_MAGIC + [CONFIG_VERSION] + c.mac + [AddressModeTag(c.addressMode)]
  }

  function AddressField(m: AddressMode): (s: seq<byte>)
    ensures |s| == 13
  {
    match m
    case Static(address, prefixLen, gateway, dns) => address + [prefixLen] + gateway + dns
    case _ => Repeat(0xff, 13)
  }

  function BridgeField(m: BridgeMode): (s: seq<byte>)
    ensures |s| == 7
  {
    match m
    case TcpClient(host, port) => [BridgeModeTag(m)] + host + Le16(port)
    case TcpServer(port) => [BridgeModeTag(m)] + Repeat(0xff, 4) + Le16(port)
  }

  function Tail(c: BridgeConfig): (s: seq<byte>)
    ensures |s| == 28
  {
    [UpstreamModeTag(c.upstreamMode), UartPortTag(c.uartPort), if c.discovery then 0xa5 else 0] + Repeat(0xff, 25)
  }

  function Body(c: BridgeConfig): (s: seq<byte>)
    ensures |s| == 60
  {
    Head(c) + AddressField(c.addressMode) + BridgeField(c.bridgeMode) + Tail(c)
  }

  function Encode(c: BridgeConfig): (s: seq<byte>)
    ensures |s| == RECORD_SIZE
  {
    Body(c) + Le32(Fnv(Body(c)))
  }

  /** Fills the record in place, field by field, as the firmware does. */
  method EncodeRecord(c: BridgeConfig) returns (buf: array<byte>)
    ensures fresh(buf) && buf[..] == Encode(c)
  {
    buf := new byte[RECORD_SIZE](_ => 0xff);
    PutHead(buf, c);
    PutAddress(buf, c.addressMode);
    PutBridge(buf, c.bridgeMode);
    PutTail(buf, c);
    BodyOf(buf[..], c);
    var checksum := Checksum32(buf[..60]);
    ghost var before := buf[..];
    CopyInto(buf, 60, Le32(checksum));
    Sealing(before, buf[..], c);
  }

  /** The four fields make up the body. */
  lemma BodyOf(s: seq<byte>, c: BridgeConfig)
    requires |s| == RECORD_SIZE
    requires forall k :: 0 <= k < 12 ==> s[k] == Head(c)[k]
    requires forall k :: 12 <= k < 25 ==> s[k] == AddressField(c.addressMode)[k - 12]
    requires forall k :: 25 <= k < 32 ==> s[k] == BridgeField(c.bridgeMode)[k - 25]
    requires forall k :: 32 <= k < 60 ==> s[k] == Tail(c)[k - 32]
    ensures s[..60] == Body(c)
  {
    assert s[..12] == Head(c) && s[12..25] == AddressField(c.addressMode);
    assert s[25..32] == BridgeField(c.bridgeMode) && s[32..60] == Tail(c);
    assert s[..60] == s[..12] + s[12..25] + s[25..32] + s[32..60];
  }

  /** The checksum completes the record. */
  lemma Sealing(before: seq<byte>, after: seq<byte>, c: BridgeConfig)
    requires |before| == |after| == RECORD_SIZE && before[..60] == Body(c)
    requires forall k :: 0 <= k < 60 ==> after[k] == before[k]
    requires forall k :: 60 <= k < RECORD_SIZE ==> after[k] == Le32(Fnv(Body(c)))[k - 60]
    ensures after == Encode(c)
  {
    assert after[..60] == before[..60] && after[60..] == Le32(Fnv(Body(c)));
    assert after == after[..60] + after[60..];
  }

  method PutHead(buf: array<byte>, c: BridgeConfig)
    requires buf.Length == RECORD_SIZE
    modifies buf
    ensures forall k :: 0 <= k < 12 ==> buf[k] == Head(c)[k]
    ensures forall k :: 12 <= k < RECORD_SIZE ==> buf[k] == old(buf[k])
  {
    CopyInto(buf, 0, CONFIG_MAGIC);
    buf[4] := CONFIG_VERSION;
    CopyInto(buf, 5, c.mac);
    buf[11] := AddressModeTag(c.addressMode);
  }

  method PutAddress(buf: array<byte>, m: AddressMode)
    requires buf.Length == RECORD_SIZE && forall k :: 12 <= k < 25 ==> buf[k] == 0xff
    modifies buf
    ensures forall k :: 12 <= k < 25 ==> buf[k] == AddressField(m)[k - 12]
    ensures forall k :: 0 <= k < 12 || 25 <= k < RECORD_SIZE ==> buf[k] == old(buf[k])
  {
    match m {
      case Static(address, prefixLen, gateway, dns) =>
        CopyInto(buf, 12, address);
        buf[16] := prefixLen;
        CopyInto(buf, 17, gateway);
        CopyInto(buf, 21, dns);
      case _ =>
    }
  }

  method PutBridge(buf: array<byte>, m: BridgeMode)
    requires buf.Length == RECORD_SIZE && forall k :: 25 <= k < 32 ==> buf[k] == 0xff
    modifies buf
    ensures forall k :: 25 <= k < 32 ==> buf[k] == BridgeField(m)[k - 25]
    ensures forall k :: 0 <= k < 25 || 32 <= k < RECORD_SIZE ==> buf[k] == old(buf[k])
  {
    buf[25] := BridgeModeTag(m);
    match m {
      case TcpClient(host, port) =>
        CopyInto(buf, 26, host);
        CopyInto(buf, 30, Le16(port));
      case TcpServer(port) =>
        CopyInto(buf, 30, Le16(port));
    }
  }

  method PutTail(buf: array<byte>, c: BridgeConfig)
    requires buf.Length == RECORD_SIZE && forall k :: 32 <= k < 60 ==> buf[k] == 0xff
    modifies buf
    ensures forall k :: 32 <= k < 60 ==> buf[k] == Tail(c)[k - 32]
    ensures forall k :: 0 <= k < 32 || 60 <= k < RECORD_SIZE ==> buf[k] == old(buf[k])
  {
    buf[32] := UpstreamModeTag(c.upstreamMode);
    buf[33] := UartPortTag(c.uartPort);
    buf[34] := if c.discovery then 0xa5 else 0;
  }

  function DecodeAddressMode(buf: seq<byte>): Option<AddressMode>
    requires |buf| == RECORD_SIZE
  {
    match buf[11]
    case 0 => Some(Dhcp)
    case 2 => Some(Auto)
    case 1 => Some(Static(buf[12..16], buf[16], buf[17..21], buf[21..25]))
    case _ => None
  }

  function DecodeBridgeMode(buf: seq<byte>): Option<BridgeMode>
    requires |buf| == RECORD_SIZE
  {
    match buf[25]
    case 0 => Some(TcpClient(buf[26..30], FromLe16(buf[30], buf[31])))
    case 1 => Some(TcpServer(FromLe16(buf[30], buf[31])))
    case _ => None
  }

  function DecodeUpstreamMode(tag: byte): Option<UpstreamMode> {
    match tag
    case 0 => Some(Uart) case 1 => Some(I2c) case 2 => Some(Usb) case 3 => Some(Test)
    case 4 => Some(Spi) case 5 => Some(SpiEcho) case 6 => Some(SpiStatic) case 7 => Some(SpiLineHigh)
    case _ => None
  }

  function DecodeUartPort(tag: byte): Option<UartPort> {
    match tag case 0 => Some(Uart0) case 1 => Some(Uart1) case _ => None
  }

  predicate Sealed(buf: seq<byte>)
    requires |buf| == RECORD_SIZE
  {
    buf[..4] == CONFIG_MAGIC && buf[4] == CONFIG_VERSION
    && FromLe32(buf[60], buf[61], buf[62], buf[63]) == Fnv(buf[..60])
  }

  function Decode(buf: seq<byte>): Option<BridgeConfig>
    requires |buf| == RECORD_SIZE
  {
    if !Sealed(buf) then None
    else
      match (DecodeAddressMode(buf), DecodeBridgeMode(buf), DecodeUpstreamMode(buf[32]), DecodeUartPort(buf[33]))
      case (Some(a), Some(b), Some(u), Some(p)) => Some(BridgeConfig(buf[34] == 0xa5, buf[5..11], a, b, u, p))
      case _ => None
  }

  /** Every configuration survives being written to flash and read back. */
  lemma DecodeEncode(c: BridgeConfig)
    ensures Decode(Encode(c)) == Some(c)
  {
    var buf := Encode(c);
    EncodeParts(c);
    HeadRoundTrip(c, buf);
    AddressFieldRoundTrip(c.addressMode, buf);
    BridgeFieldRoundTrip(c.bridgeMode, buf);
    TailRoundTrip(c, buf);
  }

  lemma EncodeParts(c: BridgeConfig)
    ensures var buf := Encode(c);
            && buf[..12] == Head(c) && buf[12..25] == AddressField(c.addressMode)
            && buf[25..32] == BridgeField(c.bridgeMode) && buf[32..60] == Tail(c)
            && buf[..60] == Body(c) && buf[60..] == Le32(Fnv(Body(c)))
  {
    BodyPieces(Head(c), AddressField(c.addressMode), BridgeField(c.bridgeMode), Tail(c));
    EncodedBody(Body(c), Le32(Fnv(Body(c))));
  }

  lemma BodyPieces(head: seq<byte>, address: seq<byte>, bridge: seq<byte>, tail: seq<byte>)
    requires |head| == 12 && |address| == 13 && |bridge| == 7 && |tail| == 28
    ensures var body := head + address + bridge + tail;
            body[..12] == head && body[12..25] == address && body[25..32] == bridge && body[32..60] == tail
  {
  }

  lemma EncodedBody(body: seq<byte>, checksum: seq<byte>)
    requires |body| == 60
    ensures var buf := body + checksum;
            && buf[..60] == body && buf[60..] == checksum
            && buf[..12] == body[..12] && buf[12..25] == body[12..25] && buf[25..32] == body[25..32] && buf[32..60] == body[32..60]
  {
  }

  lemma TailRoundTrip(c: BridgeConfig, buf: seq<byte>)
    requires |buf| == RECORD_SIZE && buf[32..60] == Tail(c) && buf[..60] == Body(c) && buf[60..] == Le32(Fnv(Body(c)))
    ensures DecodeUpstreamMode(buf[32]) == Some(c.upstreamMode) && DecodeUartPort(buf[33]) == Some(c.uartPort)
    ensures buf[34] == 0xa5 <==> c.discovery
    ensures FromLe32(buf[60], buf[61], buf[62], buf[63]) == Fnv(buf[..60])
  {
    var f, g := buf[32..60], buf[60..];
    assert buf[32] == f[0] && buf[33] == f[1] && buf[34] == f[2];
    Le32RoundTrip(Fnv(Body(c)));
    assert buf[60] == g[0] && buf[61] == g[1] && buf[62] == g[2] && buf[63] == g[3];
  }

  lemma HeadRoundTrip(c: BridgeConfig, buf: seq<byte>)
    requires |buf| == RECORD_SIZE && buf[..12] == Head(c)
    ensures buf[..4] == CONFIG_MAGIC && buf[4] == CONFIG_VERSION && buf[5..11] == c.mac
    ensures buf[11] == AddressModeTag(c.addressMode)
  {
    var f := buf[..12];
    assert buf[..4] == f[..4] && buf[4] == f[4] && buf[5..11] == f[5..11] && buf[11] == f[11];
  }

  lemma AddressFieldRoundTrip(m: AddressMode, buf: seq<byte>)
    requires |buf| == RECORD_SIZE
    requires buf[11] == AddressModeTag(m) && buf[12..25] == AddressField(m)
    ensures DecodeAddressMode(buf) == Some(m)
  {
    var f := buf[12..25];
    match m {
      case Static(address, prefixLen, gateway, dns) =>
        assert buf[12..16] == f[..4] == address;
        assert buf[16] == f[4] == prefixLen;
        assert buf[17..21] == f[5..9] == gateway;
        assert buf[21..25] == f[9..] == dns;
      case _ =>
    }
  }

  lemma BridgeFieldRoundTrip(m: BridgeMode, buf: seq<byte>)
    requires |buf| == RECORD_SIZE
    requires buf[25..32] == BridgeField(m)
    ensures DecodeBridgeMode(buf) == Some(m)
  {
    var f := buf[25..32];
    assert buf[25] == f[0] && buf[30] == f[5] && buf[31] == f[6];
    match m {
      case TcpClient(host, port) =>
        assert forall k :: 0 <= k < 4 ==> buf[26..30][k] == f[1 + k] == host[k];
        assert buf[26..30] == host;
      case TcpServer(_) =>
    }
  }

  /** Multiplying by the odd prime can be undone modulo 2^32. */
  lemma MultiplyInjective(x: u32, y: u32)
    requires x * FNV_PRIME % U32_RANGE == y * FNV_PRIME % U32_RANGE
    ensures x == y
  {
    var k := x * FNV_PRIME / U32_RANGE - y * FNV_PRIME / U32_RANGE;
    assert (x - y) * FNV_PRIME == k * U32_RANGE;
    var t := 3513497;
    assert FNV_PRIME * FNV_INVERSE == 1 + t * U32_RANGE;
    assert x - y == U32_RANGE * (k * FNV_INVERSE - t * (x - y));
  }

  /** One step of the hash loses nothing: not the running hash, not the byte. */
  lemma FnvStepInjective(h: u32, g: u32, a: byte, b: byte)
    requires FnvStep(h, a) == FnvStep(g, b)
    ensures a == b ==> h == g
    ensures h == g ==> a == b
  {
    MultiplyInjective(Xor32(h, a), Xor32(g, b));
    if a == b {
      XorInjectiveLeft(h, g, a);
    }
    if h == g {
      XorInjectiveRight(h, a, b);
    }
  }

  /** Strings that differ in exactly one byte have different hashes. */
  lemma {:induction false} FnvDetectsOneByte(s: seq<byte>, i: nat, b: byte)
    requires i < |s| && s[i] != b
    ensures Fnv(s[i := b]) != Fnv(s)
  {
    var n := |s| - 1;
    var t := s[i := b];
    assert i == n ==> t[..n] == s[..n];
    if Fnv(t) == Fnv(s) {
      FnvStepInjective(Fnv(t[..n]), Fnv(s[..n]), t[n], s[n]);
      if i < n {
        assert t[..n] == s[..n][i := b];
        FnvDetectsOneByte(s[..n], i, b);
      }
    }
  }

  /** A record with any one byte replaced by a different value is refused. */
  lemma OneByteCorruptionRejected(buf: seq<byte>, i: nat, b: byte)
    requires |buf| == RECORD_SIZE && Decode(buf).Some?
    requires i < RECORD_SIZE && b != buf[i]
    ensures Decode(buf[i := b]) == None
  {
    var bad := buf[i := b];
    if i < 60 {
      assert bad[..60] == buf[..60][i := b];
      FnvDetectsOneByte(buf[..60], i, b);
    } else {
      assert bad[..60] == buf[..60];
      Le32Digits(buf[60], buf[61], buf[62], buf[63]);
      Le32Digits(bad[60], bad[61], bad[62], bad[63]);
    }
  }
}
