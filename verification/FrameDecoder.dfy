/** What the frame reader of src/protocol/stream.rs computes, byte by byte: frames of two magic bytes,
    a little-endian length and a payload, with or without resynchronisation. */
module FrameDecoder {
  import opened Bytes

  datatype Magic = Magic(first: byte, second: byte)

  /** Two accepted magics, the policy on garbage, and the size of the payload buffer. */
  datatype Config = Config(m0: Magic, m1: Magic, resync: bool, capacity: nat)

  const BRIDGE_MAGIC := Magic(0xb5, 0x4e)
  const DATA_MAGIC := Magic(0xa5, 0x5a)
  const COMMAND_MAGIC := Magic(0xa6, 0x5b)

  /** The reader of the TCP leg, and the reader of the UART. */
  const BRIDGE := Config(BRIDGE_MAGIC, BRIDGE_MAGIC, false, 4096)
  const UART := Config(DATA_MAGIC, COMMAND_MAGIC, true, 4096)

  /** A byte of the stream, or its end or failure. */
  datatype Symbol = Byte(b: byte) | Broken

  datatype Output = Frame(kind: byte, payload: seq<byte>) | Failed

  /** What has been read of the current frame. */
  datatype Partial = Partial(header: seq<byte>, payload: seq<byte>)

  const EMPTY := Partial([], [])

  predicate IsFirst(c: Config, b: byte) {
    b == c.m0.first || b == c.m1.first
  }

  predicate IsPair(c: Config, a: byte, b: byte) {
    Magic(a, b) == c.m0 || Magic(a, b) == c.m1
  }

  function Length(header: seq<byte>): nat
    requires |header| == 4
  {
    FromLe16(header[2], header[3])
  }

  predicate ValidPartial(c: Config, s: Partial) {
    && |s.header| <= 4
    && (|s.header| < 4 ==> s.payload == [])
    && (|s.header| == 4 ==> |s.payload| < Length(s.header) <= c.capacity)
  }

  /** The effect of one header byte: what is held now, and what is reported. */
  function Header(c: Config, header: seq<byte>, b: byte): (Partial, seq<Output>)
    requires |header| < 4
  {
    var h := header + [b];
    if |h| == 1 && !IsFirst(c, b) then (EMPTY, if c.resync then [] else [Failed])
    else if |h| == 2 && !IsPair(c, h[0], b) then
      if !c.resync then (EMPTY, [Failed])
      else (if IsFirst(c, b) then Partial([b], []) else EMPTY, [])
    else if |h| < 4 then (Partial(h, []), [])
    else if Length(h) > c.capacity then (EMPTY, [Failed])
    else if Length(h) == 0 then (EMPTY, [Frame(h[0], [])])
    else (Partial(h, []), [])
  }

  function Feed(c: Config, s: Partial, x: Symbol): (r: (Partial, seq<Output>))
    requires ValidPartial(c, s)
    ensures ValidPartial(c, r.0)
  {
    match x
    case Broken => (EMPTY, [Failed])
    case Byte(b) =>
      if |s.header| < 4 then Header(c, s.header, b)
      else
        var payload := s.payload + [b];
        if |payload| == Length(s.header) then (EMPTY, [Frame(s.header[0], payload)])
        else (Partial(s.header, payload), [])
  }

  // Feeding a whole stream: what is held in the end, and what is reported on the way.

  function Final(c: Config, s: Partial, xs: seq<Symbol>): (r: Partial)
    requires ValidPartial(c, s)
    ensures ValidPartial(c, r)
    decreases |xs|
  {
    if xs == [] then s else Final(c, Feed(c, s, xs[0]).0, xs[1..])
  }

  function Outputs(c: Config, s: Partial, xs: seq<Symbol>): seq<Output>
    requires ValidPartial(c, s)
    decreases |xs|
  {
    if xs == [] then [] else Feed(c, s, xs[0]).1 + Outputs(c, Feed(c, s, xs[0]).0, xs[1..])
  }

  /** Decoding goes on where it left off. */
  lemma {:induction false} DecodeConcat(c: Config, s: Partial, xs: seq<Symbol>, ys: seq<Symbol>)
    requires ValidPartial(c, s)
    ensures Final(c, s, xs + ys) == Final(c, Final(c, s, xs), ys)
    ensures Outputs(c, s, xs + ys) == Outputs(c, s, xs) + Outputs(c, Final(c, s, xs), ys)
    decreases |xs|
  {
    if xs == [] {
      assert xs + ys == ys;
    } else {
      assert (xs + ys)[1..] == xs[1..] + ys;
      DecodeConcat(c, Feed(c, s, xs[0]).0, xs[1..], ys);
    }
  }

  lemma DecodeFirst(c: Config, s: Partial, x: Symbol, xs: seq<Symbol>)
    requires ValidPartial(c, s)
    ensures Final(c, s, [x] + xs) == Final(c, Feed(c, s, x).0, xs)
    ensures Outputs(c, s, [x] + xs) == Feed(c, s, x).1 + Outputs(c, Feed(c, s, x).0, xs)
  {
    assert ([x] + xs)[1..] == xs;
  }

  lemma DecodeLast(c: Config, s: Partial, xs: seq<Symbol>, x: Symbol)
    requires ValidPartial(c, s)
    ensures Final(c, s, xs + [x]) == Feed(c, Final(c, s, xs), x).0
    ensures Outputs(c, s, xs + [x]) == Outputs(c, s, xs) + Feed(c, Final(c, s, xs), x).1
  {
    DecodeConcat(c, s, xs, [x]);
    assert [x][1..] == [];
  }

  /** Without resynchronisation every byte is kept or reported: a call that reports once and then holds
      nothing has stopped right there. */
  lemma ReportEndsTheRead(c: Config, s: Partial, xs: seq<Symbol>)
    requires !c.resync && ValidPartial(c, s)
    requires Final(c, s, xs) == EMPTY && |Outputs(c, s, xs)| == 1
    ensures xs != [] && Outputs(c, s, xs[..|xs| - 1]) == []
  {
    var n := |xs| - 1;
    assert xs == xs[..n] + [xs[n]];
    DecodeLast(c, s, xs[..n], xs[n]);
  }

  function Symbols(bytes: seq<byte>): (xs: seq<Symbol>)
    ensures |xs| == |bytes|
  {
    seq(|bytes|, i requires 0 <= i < |bytes| => Byte(bytes[i]))
  }

  lemma SymbolsConcat(a: seq<byte>, b: seq<byte>)
    ensures Symbols(a + b) == Symbols(a) + Symbols(b)
  {
  }

  /** Payload bytes accumulate, and the last one completes the frame. */
  lemma {:induction false} DecodePayload(c: Config, s: Partial, bytes: seq<byte>)
    requires ValidPartial(c, s) && |s.header| == 4 && |s.payload| + |bytes| <= Length(s.header)
    ensures var all := s.payload + bytes;
            && Final(c, s, Symbols(bytes)) == (if |all| == Length(s.header) then EMPTY else Partial(s.header, all))
            && Outputs(c, s, Symbols(bytes)) == (if |all| == Length(s.header) then [Frame(s.header[0], all)] else [])
    decreases |bytes|
  {
    if bytes == [] {
      assert s.payload + bytes == s.payload;
    } else {
      var x, rest := bytes[0], bytes[1..];
      assert Symbols(bytes) == [Byte(x)] + Symbols(rest);
      assert (s.payload + [x]) + rest == s.payload + bytes;
      DecodeFirst(c, s, Byte(x), Symbols(rest));
      if |s.payload| + 1 < Length(s.header) {
        DecodePayload(c, Partial(s.header, s.payload + [x]), rest);
      } else {
        assert rest == [] && Symbols(rest) == [] && s.payload + [x] == s.payload + bytes;
      }
    }
  }

  // Encoding

  type Payload = s: seq<byte> | |s| < 0x1_0000

  function Encode(m: Magic, payload: Payload): seq<byte> {
    [m.first, m.second] + Le16(|payload|) + payload
  }

  predicate Accepts(c: Config, m: Magic, payload: Payload) {
    (m == c.m0 || m == c.m1) && |payload| <= c.capacity
  }

  lemma FeedHeader(c: Config, header: seq<byte>, b: byte)
    requires 2 <= |header| < 4
    ensures var h := header + [b];
            Feed(c, Partial(header, []), Byte(b)) ==
            if |h| == 3 then (Partial(h, []), [])
            else if Length(h) > c.capacity then (EMPTY, [Failed])
            else if Length(h) == 0 then (EMPTY, [Frame(h[0], [])])
            else (Partial(h, []), [])
  {
  }

  /** A frame is read from its length on, once the magic has been recognised. */
  lemma DecodeRest(c: Config, m: Magic, payload: Payload)
    requires Accepts(c, m, payload)
    ensures var s, xs := Partial([m.first, m.second], []), Symbols(Le16(|payload|) + payload);
            Final(c, s, xs) == EMPTY && Outputs(c, s, xs) == [Frame(m.first, payload)]
  {
    var low: byte, high: byte := |payload| % 256, |payload| / 256;
    var h2, h3, h4 := [m.first, m.second], [m.first, m.second, low], [m.first, m.second, low, high];
    assert h2 + [low] == h3 && h3 + [high] == h4 && Length(h4) == |payload|;
    FeedHeader(c, h2, low);
    FeedHeader(c, h3, high);
    SymbolsOfRest(low, high, payload);
    assert Le16(|payload|) + payload == [low, high] + payload;
    DecodeFirst(c, Partial(h2, []), Byte(low), [Byte(high)] + Symbols(payload));
    DecodeFirst(c, Partial(h3, []), Byte(high), Symbols(payload));
    if payload != [] {
      DecodePayload(c, Partial(h4, []), payload);
      assert [] + payload == payload;
    } else {
      assert Symbols(payload) == [];
    }
  }

  lemma SymbolsOfRest(low: byte, high: byte, payload: seq<byte>)
    ensures Symbols([low, high] + payload) == [Byte(low)] + ([Byte(high)] + Symbols(payload))
  {
  }

  /** A recognised magic leaves the reader inside the header. */
  lemma DecodeMagic(c: Config, m: Magic)
    requires m == c.m0 || m == c.m1
    ensures var xs := [Byte(m.first), Byte(m.second)];
            Final(c, EMPTY, xs) == Partial([m.first, m.second], []) && Outputs(c, EMPTY, xs) == []
  {
    var x, y := Byte(m.first), Byte(m.second);
    assert [x, y] == [x] + [y] && [y] == [y] + [];
    assert [] + [m.first] == [m.first] && [m.first] + [m.second] == [m.first, m.second];
    DecodeFirst(c, EMPTY, x, [y]);
    DecodeFirst(c, Partial([m.first], []), y, []);
  }

  /** Round trip of one frame, with or without resynchronisation. */
  lemma DecodeEncode(c: Config, m: Magic, payload: Payload)
    requires Accepts(c, m, payload)
    ensures Final(c, EMPTY, Symbols(Encode(m, payload))) == EMPTY
    ensures Outputs(c, EMPTY, Symbols(Encode(m, payload))) == [Frame(m.first, payload)]
  {
    var first, rest := [Byte(m.first), Byte(m.second)], Symbols(Le16(|payload|) + payload);
    assert Symbols(Encode(m, payload)) == first + rest;
    DecodeMagic(c, m);
    DecodeRest(c, m, payload);
    DecodeConcat(c, EMPTY, first, rest);
  }

  // Resynchronisation

  /** No two neighbours form a magic. */
  predicate NoPair(c: Config, s: seq<byte>) {
    forall i :: 0 <= i && i + 1 < |s| ==> !IsPair(c, s[i], s[i + 1])
  }

  function HeldAfterGarbage(c: Config, s: seq<byte>): Partial {
    if s != [] && IsFirst(c, s[|s| - 1]) then Partial([s[|s| - 1]], []) else EMPTY
  }

  /** While no magic has occurred, at most its first byte is held, and nothing is reported. */
  lemma {:induction false} ScanGarbage(c: Config, s: seq<byte>)
    requires c.resync && NoPair(c, s)
    ensures Final(c, EMPTY, Symbols(s)) == HeldAfterGarbage(c, s) && Outputs(c, EMPTY, Symbols(s)) == []
  {
    if s != [] {
      var n := |s| - 1;
      ScanGarbage(c, s[..n]);
      assert Symbols(s) == Symbols(s[..n]) + [Byte(s[n])];
      DecodeLast(c, EMPTY, Symbols(s[..n]), Byte(s[n]));
      if n > 0 {
        assert !IsPair(c, s[n - 1], s[n - 1 + 1]);
      }
    }
  }

  /** The reader locks on to a magic exactly at the leftmost pair of neighbours that forms one. */
  lemma LocksOnLeftmostPair(c: Config, s: seq<byte>)
    requires c.resync && |s| >= 2 && NoPair(c, s[..|s| - 1])
    ensures Outputs(c, EMPTY, Symbols(s)) == []
    ensures Final(c, EMPTY, Symbols(s)) ==
            if IsPair(c, s[|s| - 2], s[|s| - 1]) then Partial([s[|s| - 2], s[|s| - 1]], []) else HeldAfterGarbage(c, s)
  {
    var n := |s| - 1;
    ScanGarbage(c, s[..n]);
    assert Symbols(s) == Symbols(s[..n]) + [Byte(s[n])];
    DecodeLast(c, EMPTY, Symbols(s[..n]), Byte(s[n]));
    assert [s[n - 1]] + [s[n]] == [s[n - 1], s[n]];
  }

  /** Garbage, then a frame. */
  datatype Segment = Segment(garbage: seq<byte>, magic: Magic, payload: Payload)

  /** The garbage holds no magic, and neither do its last byte and the frame's first together. */
  predicate Clear(c: Config, g: Segment) {
    Accepts(c, g.magic, g.payload) && NoPair(c, g.garbage + [g.magic.first])
  }

  function Wire(segments: seq<Segment>): seq<byte> {
    if segments == [] then []
    else segments[0].garbage + Encode(segments[0].magic, segments[0].payload) + Wire(segments[1..])
  }

  function Frames(segments: seq<Segment>): (f: seq<Output>)
    ensures |f| == |segments|
  {
    seq(|segments|, i requires 0 <= i < |segments| => Frame(segments[i].magic.first, segments[i].payload))
  }

  lemma DecodeSegment(c: Config, g: Segment)
    requires c.resync && Clear(c, g)
    ensures var xs := Symbols(g.garbage + Encode(g.magic, g.payload));
            Final(c, EMPTY, xs) == EMPTY && Outputs(c, EMPTY, xs) == [Frame(g.magic.first, g.payload)]
  {
    var m := g.magic;
    var start, rest := g.garbage + [m.first, m.second], Le16(|g.payload|) + g.payload;
    assert start[..|start| - 1] == g.garbage + [m.first];
    LocksOnLeftmostPair(c, start);
    DecodeRest(c, m, g.payload);
    DecodeConcat(c, EMPTY, Symbols(start), Symbols(rest));
    SymbolsConcat(start, rest);
    assert start + rest == g.garbage + Encode(m, g.payload);
  }

  lemma FirstSegment(c: Config, segments: seq<Segment>, tail: seq<byte>)
    requires c.resync && segments != [] && Clear(c, segments[0])
    ensures Outputs(c, EMPTY, Symbols(Wire(segments) + tail)) ==
            [Frame(segments[0].magic.first, segments[0].payload)] + Outputs(c, EMPTY, Symbols(Wire(segments[1..]) + tail))
  {
    var g, rest := segments[0], Wire(segments[1..]) + tail;
    var first := g.garbage + Encode(g.magic, g.payload);
    assert (first + Wire(segments[1..])) + tail == first + rest;
    SymbolsConcat(first, rest);
    DecodeSegment(c, g);
    DecodeConcat(c, EMPTY, Symbols(first), Symbols(rest));
  }

  lemma FramesFirst(segments: seq<Segment>)
    requires segments != []
    ensures Frames(segments) == [Frame(segments[0].magic.first, segments[0].payload)] + Frames(segments[1..])
  {
  }

  /** Garbage without a magic, anywhere between frames that fit the buffer, is skipped: exactly the
      frames come out. */
  lemma {:induction false} ResyncDecodesExactlyTheFrames(c: Config, segments: seq<Segment>, tail: seq<byte>)
    requires c.resync && NoPair(c, tail)
    requires forall i :: 0 <= i < |segments| ==> Clear(c, segments[i])
    ensures Outputs(c, EMPTY, Symbols(Wire(segments) + tail)) == Frames(segments)
  {
    if segments == [] {
      assert Wire(segments) + tail == tail;
      ScanGarbage(c, tail);
    } else {
      FirstSegment(c, segments, tail);
      FramesFirst(segments);
      ResyncDecodesExactlyTheFrames(c, segments[1..], tail);
    }
  }

  /** On the UART no magic can straddle garbage and a frame, so garbage only has to be free of magics. */
  lemma UartGarbage(g: Segment)
    requires Accepts(UART, g.magic, g.payload) && NoPair(UART, g.garbage)
    ensures Clear(UART, g)
  {
    var s := g.garbage + [g.magic.first];
    forall i | 0 <= i && i + 1 < |s|
      ensures !IsPair(UART, s[i], s[i + 1])
    {
      if i + 1 < |g.garbage| {
        assert !IsPair(UART, g.garbage[i], g.garbage[i + 1]);
      }
    }
  }

  predicate Plain(c: Config, segments: seq<Segment>) {
    forall i :: 0 <= i < |segments| ==> segments[i].garbage == [] && Accepts(c, segments[i].magic, segments[i].payload)
  }

  /** Without garbage, any concatenation of frames comes out as it went in, resynchronising or not. */
  lemma {:induction false} DecodeFrames(c: Config, segments: seq<Segment>)
    requires Plain(c, segments)
    ensures Final(c, EMPTY, Symbols(Wire(segments))) == EMPTY
    ensures Outputs(c, EMPTY, Symbols(Wire(segments))) == Frames(segments)
  {
    if segments != [] {
      DecodeFrames(c, segments[1..]);
      FirstPlain(c, segments);
      FramesFirst(segments);
    }
  }

  lemma FirstPlain(c: Config, segments: seq<Segment>)
    requires Plain(c, segments) && segments != []
    ensures var g, rest := segments[0], Symbols(Wire(segments[1..]));
            && Final(c, EMPTY, Symbols(Wire(segments))) == Final(c, EMPTY, rest)
            && Outputs(c, EMPTY, Symbols(Wire(segments))) == [Frame(g.magic.first, g.payload)] + Outputs(c, EMPTY, rest)
  {
    var g, rest := segments[0], Wire(segments[1..]);
    var first := Encode(g.magic, g.payload);
    assert [] + first == first;
    SymbolsConcat(first, rest);
    DecodeEncode(c, g.magic, g.payload);
    DecodeConcat(c, EMPTY, Symbols(first), Symbols(rest));
  }
}
