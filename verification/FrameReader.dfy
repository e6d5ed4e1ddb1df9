/** The frame reader object of src/protocol/stream.rs and the frame writer of src/bridge/uart_mailbox.rs.
    A read that cannot go on returns; the caller may drop it and call again with the same buffer. */
module FrameReader {
  import opened Bytes
  import opened FrameDecoder

  /** What an input delivers next: nothing for now, or bytes, or, with no bytes, its end or failure. */
  datatype Chunk = Stall | Data(bytes: seq<byte>)

  function StreamOf(chunk: Chunk): seq<Symbol> {
    match chunk
    case Stall => []
    case Data(bytes) => if bytes == [] then [Broken] else Symbols(bytes)
  }

  /** The symbols of a script of chunks, whatever their sizes and the stalls between them. */
  function Stream(script: seq<Chunk>): seq<Symbol> {
    if script == [] then [] else StreamOf(script[0]) + Stream(script[1..])
  }

  function Size(script: seq<Chunk>): nat {
    if script == [] then 0
    else 1 + (match script[0] case Stall => 0 case Data(bytes) => |bytes|) + Size(script[1..])
  }

  /** Taking the front of a first chunk leaves its end. */
  lemma ChunkCut(script: seq<Chunk>, max: nat)
    requires script != [] && script[0].Data? && 0 < max < |script[0].bytes|
    ensures var bytes := script[0].bytes;
            var left := [Data(bytes[max..])] + script[1..];
            Stream(script) == Symbols(bytes[..max]) + Stream(left) && Size(left) < Size(script)
  {
    var bytes, rest := script[0].bytes, script[1..];
    assert ([Data(bytes[max..])] + rest)[1..] == rest;
    SymbolsConcat(bytes[..max], bytes[max..]);
    assert bytes[..max] + bytes[max..] == bytes;
    Front(Symbols(bytes[..max]), Symbols(bytes[max..]), Stream(rest));
  }

  lemma Front(a: seq<Symbol>, b: seq<Symbol>, c: seq<Symbol>)
    ensures (a + b) + c == a + (b + c)
  {
  }

  datatype ReadResult = Pending | Got(bytes: seq<byte>) | Ended

  /** An input whose reads are cut at arbitrary places. A pending read consumes no bytes. */
  class ByteSource {
    var script: seq<Chunk>

    constructor (script: seq<Chunk>)
      ensures this.script == script
    {
      this.script := script;
    }

    method ReadSome(max: nat) returns (r: ReadResult)
      requires max > 0
      modifies this
      ensures r.Pending? ==> Stream(script) == old(Stream(script))
      ensures r.Got? ==> 0 < |r.bytes| <= max && old(Stream(script)) == Symbols(r.bytes) + Stream(script)
      ensures r.Ended? ==> old(Stream(script)) == [Broken] + Stream(script)
      ensures old(script) != [] ==> Size(script) < old(Size(script))
      ensures old(script) == [] ==> r.Pending? && script == []
    {
      if script == [] {
        return Pending;
      }
      match script[0] {
        case Stall =>
          script := script[1..];
          return Pending;
        case Data(bytes) =>
          if bytes == [] {
            script := script[1..];
            return Ended;
          }
          if |bytes| <= max {
            script := script[1..];
            return Got(bytes);
          }
          ChunkCut(script, max);
          script := [Data(bytes[max..])] + script[1..];
          return Got(bytes[..max]);
      }
    }
  }

  /** Decoding `xs` from `s` ends in `f` and reports `outs`. */
  predicate Ran(c: Config, s: Partial, xs: seq<Symbol>, f: Partial, outs: seq<Output>) {
    ValidPartial(c, s) && Final(c, s, xs) == f && Outputs(c, s, xs) == outs
  }

  lemma RanMore(c: Config, s: Partial, xs: seq<Symbol>, f: Partial, outs: seq<Output>,
                ys: seq<Symbol>, g: Partial, more: seq<Output>)
    requires Ran(c, s, xs, f, outs) && Ran(c, f, ys, g, more)
    ensures Ran(c, s, xs + ys, g, outs + more)
  {
    DecodeConcat(c, s, xs, ys);
  }

  /** The same, where nothing had been reported yet. */
  lemma RanOn(c: Config, s: Partial, xs: seq<Symbol>, f: Partial, ys: seq<Symbol>, g: Partial, more: seq<Output>)
    requires Ran(c, s, xs, f, []) && Ran(c, f, ys, g, more)
    ensures Ran(c, s, xs + ys, g, more)
  {
    RanMore(c, s, xs, f, [], ys, g, more);
    assert [] + more == more;
  }

  /** Consuming `ys` of what was left after `xs`. */
  lemma ConsumedMore(all: seq<Symbol>, xs: seq<Symbol>, left: seq<Symbol>, ys: seq<Symbol>, rest: seq<Symbol>)
    requires all == xs + left && left == ys + rest
    ensures all == (xs + ys) + rest
  {
  }

  lemma RanOne(c: Config, s: Partial, x: Symbol)
    requires ValidPartial(c, s)
    ensures Ran(c, s, [x], Feed(c, s, x).0, Feed(c, s, x).1)
  {
    DecodeLast(c, s, [], x);
    assert [] + [x] == [x];
  }

  datatype Poll = Unfinished | Finished(kind: byte, len: nat) | Error

  class FrameReader {
    const m0: Magic
    const m1: Magic
    const resync: bool
    const header: array<byte>
    var headerLen: nat
    var payloadRead: nat

    function ConfigFor(payload: array<byte>): Config {
      Config(m0, m1, resync, payload.Length)
    }

    /** What the reader and the retained buffer together hold of the current frame. */
    function Held(payload: array<byte>): Partial
      requires headerLen <= header.Length && payloadRead <= payload.Length
      reads this, header, payload
    {
      Partial(header[..headerLen], payload[..payloadRead])
    }

    predicate Valid(payload: array<byte>)
      reads this, header, payload
    {
      && header.Length == 4 && header != payload
      && headerLen <= 4 && payloadRead <= payload.Length
      && ValidPartial(ConfigFor(payload), Held(payload))
    }

    constructor (c: Config)
      ensures m0 == c.m0 && m1 == c.m1 && resync == c.resync
      ensures headerLen == 0 && payloadRead == 0 && header.Length == 4 && fresh(header)
    {
      m0, m1, resync := c.m0, c.m1, c.resync;
      header := new byte[4](_ => 0);
      headerLen, payloadRead := 0, 0;
    }

    method Reset()
      modifies this
      ensures headerLen == 0 && payloadRead == 0
    {
      headerLen, payloadRead := 0, 0;
    }

    /** What has been decided once all four header bytes are there. */
    ghost predicate HeaderDecided(payload: array<byte>, s: Partial, outs: seq<Output>)
      requires header.Length == 4 && payloadRead <= payload.Length
      reads this, header, payload
    {
      var len := Length(header[..]);
      if len > payload.Length then payloadRead == 0 && s == EMPTY && outs == [Failed]
      else if len == 0 then payloadRead == 0 && s == EMPTY && outs == [Frame(header[0], [])]
      else payloadRead < len && s == Partial(header[..], payload[..payloadRead]) && outs == []
    }

    /** Commits one header byte, and drops what cannot start a frame. */
    method TakeHeaderByte(b: byte, payload: array<byte>) returns (failed: bool)
      requires header.Length == 4 && header != payload && headerLen < 4 && payloadRead == 0
      modifies this, header
      ensures headerLen <= 4 && payloadRead == 0 && (failed ==> headerLen == 0)
      ensures var (s, outs) := Header(ConfigFor(payload), old(header[..headerLen]), b);
              if headerLen == 4 then !failed && HeaderDecided(payload, s, outs)
              else Held(payload) == s && outs == if failed then [Failed] else []
    {
      ghost var was := header[..headerLen];
      header[headerLen] := b;
      headerLen := headerLen + 1;
      assert header[..headerLen] == was + [b];
      failed := false;
      if headerLen == 1 && m0.first != b && m1.first != b {
        Reset();
        failed := !resync;
      } else if headerLen == 2 && m0 != Magic(header[0], b) && m1 != Magic(header[0], b) {
        Reset();
        failed := !resync;
        if resync && (m0.first == b || m1.first == b) {
          header[0] := b;
          headerLen := 1;
          assert header[..1] == [b];
        }
      }
      assert headerLen == 4 ==> header[..headerLen] == header[..];
    }

    /** One read of the header loop. */
    method HeaderStep(input: ByteSource, payload: array<byte>)
      returns (got: ReadResult, failed: bool, ghost xs: seq<Symbol>, ghost f: Partial, ghost outs: seq<Output>)
      requires Valid(payload) && headerLen < 4
      modifies this, header, input
      ensures headerLen <= 4 && payloadRead == 0 && payload[..] == old(payload[..]) && (failed ==> headerLen == 0)
      ensures old(Stream(input.script)) == xs + Stream(input.script)
      ensures got.Pending? ==> headerLen < 4 && !failed
      ensures if old(input.script) == [] then got.Pending? && input.script == [] else Size(input.script) < old(Size(input.script))
      ensures Ran(ConfigFor(payload), old(Held(payload)), xs, f, outs)
      ensures if headerLen < 4 then Held(payload) == f && outs == (if failed then [Failed] else [])
              else !failed && HeaderDecided(payload, f, outs)
    {
      got := input.ReadSome(1);
      match got {
        case Pending =>
          failed := false;
          xs, f, outs := [], Held(payload), [];
        case Ended =>
          xs, f, outs := [Broken], EMPTY, [Failed];
          RanOne(ConfigFor(payload), Held(payload), Broken);
          Reset();
          failed := true;
        case Got(bytes) =>
          xs := [Byte(bytes[0])];
          assert Symbols(bytes) == xs;
          f, outs := Header(ConfigFor(payload), header[..headerLen], bytes[0]).0, Header(ConfigFor(payload), header[..headerLen], bytes[0]).1;
          RanOne(ConfigFor(payload), Held(payload), Byte(bytes[0]));
          failed := TakeHeaderByte(bytes[0], payload);
      }
    }

    /** Reads header bytes one by one, committing each before the next. */
    method ReadHeader(input: ByteSource, payload: array<byte>)
      returns (stop: bool, failed: bool, ghost consumed: seq<Symbol>, ghost f: Partial, ghost outs: seq<Output>)
      requires Valid(payload)
      modifies this, header, input
      ensures headerLen <= 4 && payloadRead <= payload.Length && payload[..] == old(payload[..])
      ensures failed ==> headerLen == 0 && payloadRead == 0
      ensures old(Stream(input.script)) == consumed + Stream(input.script)
      ensures Ran(ConfigFor(payload), old(Held(payload)), consumed, f, outs)
      ensures if stop then Held(payload) == f && outs == (if failed then [Failed] else [])
              else headerLen == 4 && HeaderDecided(payload, f, outs)
      ensures Size(input.script) <= old(Size(input.script))
      ensures if old(headerLen) == 4 then !stop && input.script == old(input.script)
              else if old(input.script) == [] then stop && !failed && input.script == []
              else Size(input.script) < old(Size(input.script))
    {
      consumed, f, outs := [], Held(payload), [];
      failed := false;
      assert headerLen == 4 ==> header[..headerLen] == header[..];
      while headerLen < 4
        invariant headerLen <= 4 && payloadRead <= payload.Length && payload[..] == old(payload[..])
        invariant headerLen < 4 ==> payloadRead == 0 && !failed
        invariant old(Stream(input.script)) == consumed + Stream(input.script)
        invariant Ran(ConfigFor(payload), old(Held(payload)), consumed, f, outs)
        invariant if headerLen < 4 then Held(payload) == f && outs == [] else HeaderDecided(payload, f, outs)
        invariant Size(input.script) <= old(Size(input.script))
        invariant (input.script == old(input.script) && headerLen == old(headerLen))
                  || (old(headerLen) < 4 && old(input.script) != [] && Size(input.script) < old(Size(input.script)))
        decreases Size(input.script), 4 - headerLen
      {
        var got;
        ghost var xs, g, more;
        ghost var left := Stream(input.script);
        got, failed, xs, g, more := HeaderStep(input, payload);
        ConsumedMore(old(Stream(input.script)), consumed, left, xs, Stream(input.script));
        RanOn(ConfigFor(payload), old(Held(payload)), consumed, f, xs, g, more);
        consumed, f, outs := consumed + xs, g, more;
        if got.Pending? || failed {
          return true, failed, consumed, f, outs;
        }
      }
      stop, failed := false, false;
    }

    ghost predicate PayloadSoFar(payload: array<byte>, len: nat, s: Partial, outs: seq<Output>)
      requires header.Length == 4 && payloadRead <= len <= payload.Length
      reads this, header, payload
    {
      if payloadRead < len then s == Partial(header[..], payload[..payloadRead]) && outs == []
      else s == EMPTY && outs == [Frame(header[0], payload[..len])]
    }

    /** Stores some payload bytes and commits them. */
    method StorePayload(payload: array<byte>, len: nat, bytes: seq<byte>) returns (ghost f: Partial, ghost outs: seq<Output>)
      requires header.Length == 4 && header != payload && len == Length(header[..]) <= payload.Length
      requires payloadRead + |bytes| <= len && payloadRead < len
      modifies this, payload
      ensures payloadRead == old(payloadRead) + |bytes| && headerLen == old(headerLen)
      ensures Ran(ConfigFor(payload), Partial(header[..], old(payload[..payloadRead])), Symbols(bytes), f, outs)
      ensures PayloadSoFar(payload, len, f, outs)
    {
      ghost var c, s := ConfigFor(payload), Partial(header[..], payload[..payloadRead]);
      DecodePayload(c, s, bytes);
      f, outs := Final(c, s, Symbols(bytes)), Outputs(c, s, Symbols(bytes));
      CopyInto(payload, payloadRead, bytes);
      payloadRead := payloadRead + |bytes|;
      assert payload[..payloadRead] == s.payload + bytes;
    }

    /** One read of the payload loop: as many bytes as there are, committed at once. */
    method PayloadStep(input: ByteSource, payload: array<byte>, len: nat)
      returns (got: ReadResult, ghost xs: seq<Symbol>, ghost f: Partial, ghost outs: seq<Output>)
      requires header.Length == 4 && header != payload && headerLen == 4 && Length(header[..]) == len <= payload.Length
      requires payloadRead < len
      modifies this, payload, input
      ensures old(Stream(input.script)) == xs + Stream(input.script)
      ensures Size(input.script) <= old(Size(input.script))
      ensures if old(input.script) == [] then got.Pending? && input.script == [] else Size(input.script) < old(Size(input.script))
      ensures header[..] == old(header[..])
      ensures Ran(ConfigFor(payload), old(Partial(header[..], payload[..payloadRead])), xs, f, outs)
      ensures if got.Ended? then headerLen == 0 && payloadRead == 0 && f == EMPTY && outs == [Failed]
              else headerLen == 4 && payloadRead <= len && PayloadSoFar(payload, len, f, outs)
      ensures if got.Pending? then payloadRead == old(payloadRead) else got.Got? ==> payloadRead > old(payloadRead)
    {
      ghost var c, s := ConfigFor(payload), Partial(header[..], payload[..payloadRead]);
      got := input.ReadSome(len - payloadRead);
      match got {
        case Pending => xs, f, outs := [], s, [];
        case Ended =>
          RanOne(c, s, Broken);
          xs, f, outs := [Broken], EMPTY, [Failed];
          Reset();
        case Got(bytes) =>
          xs := Symbols(bytes);
          f, outs := StorePayload(payload, len, bytes);
      }
    }

    method ReadPayload(input: ByteSource, payload: array<byte>, len: nat)
      returns (r: Poll, ghost consumed: seq<Symbol>, ghost f: Partial)
      requires header.Length == 4 && header != payload && headerLen == 4 && Length(header[..]) == len <= payload.Length
      requires payloadRead < len
      modifies this, payload, input
      ensures old(Stream(input.script)) == consumed + Stream(input.script)
      ensures headerLen <= 4 && payloadRead <= payload.Length && Held(payload) == f
      ensures r.Finished? ==> r.len <= payload.Length
      ensures !r.Unfinished? ==> headerLen == 0 && payloadRead == 0
      ensures Ran(ConfigFor(payload), old(Partial(header[..], payload[..payloadRead])), consumed, f, Reported(r, payload))
      ensures Size(input.script) <= old(Size(input.script))
      ensures if old(input.script) == [] then r.Unfinished? && input.script == [] else Size(input.script) < old(Size(input.script))
    {
      ghost var c, s := ConfigFor(payload), Partial(header[..], payload[..payloadRead]);
      ghost var outs: seq<Output> := [];
      consumed, f := [], s;
      while payloadRead < len
        invariant headerLen == 4 && header[..] == old(header[..]) && payloadRead <= len
        invariant old(Stream(input.script)) == consumed + Stream(input.script)
        invariant Ran(c, s, consumed, f, outs) && PayloadSoFar(payload, len, f, outs)
        invariant Size(input.script) <= old(Size(input.script))
        invariant (payloadRead == old(payloadRead) && input.script == old(input.script))
                  || (old(input.script) != [] && Size(input.script) < old(Size(input.script)))
        decreases len - payloadRead
      {
        var got;
        ghost var xs, g, more;
        ghost var left := Stream(input.script);
        got, xs, g, more := PayloadStep(input, payload, len);
        ConsumedMore(old(Stream(input.script)), consumed, left, xs, Stream(input.script));
        RanOn(c, s, consumed, f, xs, g, more);
        consumed, f, outs := consumed + xs, g, more;
        if got.Pending? {
          assert header[..4] == header[..];
          return Unfinished, consumed, f;
        } else if got.Ended? {
          return Error, consumed, f;
        }
      }
      var kind := header[0];
      Reset();
      return Finished(kind, len), consumed, f;
    }

    /** What a result of a call says was reported. */
    function Reported(r: Poll, payload: array<byte>): seq<Output>
      reads payload
    {
      match r
      case Unfinished => []
      case Error => [Failed]
      case Finished(kind, len) => if len <= payload.Length then [Frame(kind, payload[..len])] else []
    }

    /** One call of the reader: until the frame is complete, or refused, or the input has nothing. Whatever
        the cuts, it consumes a piece of the stream and does to it what the decoder does; and having reported
        something, it holds no bytes back. */
    method Read(input: ByteSource, payload: array<byte>) returns (r: Poll, ghost consumed: seq<Symbol>)
      requires Valid(payload)
      modifies this, header, payload, input
      ensures Valid(payload)
      ensures old(Stream(input.script)) == consumed + Stream(input.script)
      ensures Ran(ConfigFor(payload), old(Held(payload)), consumed, Held(payload), Reported(r, payload))
      ensures r.Finished? ==> r.len <= payload.Length
      ensures !r.Unfinished? ==> headerLen == 0 && payloadRead == 0
      ensures if old(input.script) == [] then r.Unfinished? && input.script == [] else Size(input.script) < old(Size(input.script))
    {
      ghost var c, s := ConfigFor(payload), Held(payload);
      var stop, failed;
      ghost var f, outs;
      stop, failed, consumed, f, outs := ReadHeader(input, payload);
      if stop {
        return if failed then Error else Unfinished, consumed;
      }
      var len := Length(header[..]);
      if len > payload.Length {
        Reset();
        return Error, consumed;
      }
      if len == 0 {
        var kind := header[0];
        Reset();
        return Finished(kind, 0), consumed;
      }
      ghost var more, g;
      ghost var left := Stream(input.script);
      r, more, g := ReadPayload(input, payload, len);
      ConsumedMore(old(Stream(input.script)), consumed, left, more, Stream(input.script));
      RanOn(c, s, consumed, f, more, g, Reported(r, payload));
      consumed := consumed + more;
    }
  }

  /** Calls the reader again and again, always with the same buffer, until its input has nothing more. */
  method Drain(reader: FrameReader, input: ByteSource, payload: array<byte>) returns (outs: seq<Output>)
    requires reader.Valid(payload) && reader.Held(payload) == EMPTY
    modifies reader, reader.header, payload, input
    ensures outs == Outputs(reader.ConfigFor(payload), EMPTY, old(Stream(input.script)))
  {
    ghost var c, all := reader.ConfigFor(payload), Stream(input.script);
    ghost var done: seq<Symbol> := [];
    outs := [];
    while input.script != []
      invariant reader.Valid(payload) && all == done + Stream(input.script)
      invariant Ran(c, EMPTY, done, reader.Held(payload), outs)
      decreases Size(input.script)
    {
      ghost var left, held := Stream(input.script), reader.Held(payload);
      var r;
      ghost var more;
      r, more := reader.Read(input, payload);
      ConsumedMore(all, done, left, more, Stream(input.script));
      RanMore(c, EMPTY, done, held, outs, more, reader.Held(payload), reader.Reported(r, payload));
      done, outs := done + more, outs + reader.Reported(r, payload);
    }
    assert done + [] == done;
  }

  // Writing

  /** An output that takes as many bytes of each write as it likes, or fails. */
  class ByteSink {
    var data: seq<byte>

    constructor ()
      ensures data == []
    {
      data := [];
    }

    method WriteSome(bytes: seq<byte>) returns (n: nat, ok: bool)
      requires bytes != []
      modifies this
      ensures n <= |bytes| && (ok ==> n > 0) && data == old(data) + bytes[..n]
    {
      n :| 0 <= n <= |bytes|;
      ok := n > 0;
      data := data + bytes[..n];
    }

    /** Writes all of it, or fails after a prefix. */
    method WriteAll(bytes: seq<byte>) returns (ok: bool, ghost written: nat)
      modifies this
      ensures written <= |bytes| && data == old(data) + bytes[..written] && (ok ==> written == |bytes|)
    {
      written := 0;
      var left := bytes;
      ok := true;
      while left != []
        invariant written <= |bytes| && left == bytes[written..] && data == old(data) + bytes[..written]
        decreases |left|
      {
        var n;
        n, ok := WriteSome(left);
        assert bytes[..written] + left[..n] == bytes[..written + n];
        assert old(data) + bytes[..written] + left[..n] == old(data) + (bytes[..written] + left[..n]);
        written := written + n;
        left := left[n..];
        if !ok {
          return;
        }
      }
      assert bytes[..written] == bytes;
    }
  }

  const INLINE_MAX := 508

  /** Writes one frame: small ones in one piece, large ones in two. */
  method WriteFrame(sink: ByteSink, magic: Magic, payload: Payload) returns (ok: bool, ghost written: nat)
    modifies sink
    ensures written <= |Encode(magic, payload)| && sink.data == old(sink.data) + Encode(magic, payload)[..written]
    ensures ok ==> written == |Encode(magic, payload)|
  {
    var n := |payload|;
    var header: seq<byte> := [magic.first, magic.second, n % 256, n / 256];
    ghost var all := Encode(magic, payload);
    assert all == header + payload;
    if n <= INLINE_MAX {
      var bytes := new byte[512](_ => 0);
      CopyInto(bytes, 0, header);
      CopyInto(bytes, 4, payload);
      assert bytes[..4 + n] == all;
      ok, written := sink.WriteAll(bytes[..4 + n]);
    } else {
      ok, written := sink.WriteAll(header);
      assert header[..written] == all[..written];
      if !ok {
        return;
      }
      ghost var more;
      ok, more := sink.WriteAll(payload);
      assert all[..4 + more] == header + payload[..more];
      assert old(sink.data) + header + payload[..more] == old(sink.data) + (header + payload[..more]);
      assert header[..4] == header;
      written := 4 + more;
    }
  }
}
