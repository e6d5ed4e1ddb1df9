/** The host's buffering decoder of bridge frames (host/python/bridge_framing.py), and its agreement with
    the firmware's reader. */
module BridgeFraming {
  import opened Bytes
  import opened Wrappers
  import opened FrameDecoder

  const HEADER_SIZE := 4

  /** All complete frames at the front of a buffer, what is left, and whether that starts wrongly. */
  datatype Parsed = Parsed(frames: seq<seq<byte>>, rest: seq<byte>, bad: bool)

  predicate Complete(buf: seq<byte>) {
    |buf| >= HEADER_SIZE && |buf| >= HEADER_SIZE + FromLe16(buf[2], buf[3])
  }

  predicate StartsRight(buf: seq<byte>)
    requires |buf| >= 2
  {
    Magic(buf[0], buf[1]) == BRIDGE_MAGIC
  }

  function FirstPayload(buf: seq<byte>): seq<byte>
    requires Complete(buf)
  {
    buf[HEADER_SIZE..HEADER_SIZE + FromLe16(buf[2], buf[3]) as nat]
  }

  function AfterFirst(buf: seq<byte>): seq<byte>
    requires Complete(buf)
  {
    buf[HEADER_SIZE + FromLe16(buf[2], buf[3]) as nat..]
  }

  function Parse(buf: seq<byte>): Parsed
    decreases |buf|
  {
    if |buf| < HEADER_SIZE then Parsed([], buf, false)
    else if !StartsRight(buf) then Parsed([], buf, true)
    else if !Complete(buf) then Parsed([], buf, false)
    else
      var more := Parse(AfterFirst(buf));
      Parsed([FirstPayload(buf)] + more.frames, more.rest, more.bad)
  }

  /** Of all the bytes, the frames in `out` have been taken and `buf` is left. */
  predicate ParsedSoFar(all: seq<byte>, out: seq<seq<byte>>, buf: seq<byte>) {
    Parse(all) == Parsed(out + Parse(buf).frames, Parse(buf).rest, Parse(buf).bad)
  }

  lemma ParsedOneMore(all: seq<byte>, out: seq<seq<byte>>, buf: seq<byte>)
    requires ParsedSoFar(all, out, buf) && Complete(buf) && StartsRight(buf)
    ensures ParsedSoFar(all, out + [FirstPayload(buf)], AfterFirst(buf))
  {
    ParseStep(buf);
    Regrouped(out, [FirstPayload(buf)], Parse(AfterFirst(buf)).frames);
  }

  class BridgeFrameDecoder {
    var buf: seq<byte>

    constructor ()
      ensures buf == []
    {
      buf := [];
    }

    /** Adds a chunk and returns the frames it completes. A wrong magic is an error, and then the frames
        completed by the same chunk are lost. */
    method Push(chunk: seq<byte>) returns (r: Result<seq<seq<byte>>, ()>)
      modifies this
      ensures var p := Parse(old(buf) + chunk); buf == p.rest && r == if p.bad then Err(()) else Ok(p.frames)
    {
      buf := buf + chunk;
      ghost var all := buf;
      var out: seq<seq<byte>> := [];
      while true
        invariant ParsedSoFar(all, out, buf)
        decreases |buf|
      {
        assert out + [] == out;
        if |buf| < HEADER_SIZE {
          return Ok(out);
        }
        if buf[0] != 0xb5 || buf[1] != 0x4e {
          return Err(());
        }
        var frameLen: nat := HEADER_SIZE + FromLe16(buf[2], buf[3]);
        if |buf| < frameLen {
          return Ok(out);
        }
        ParsedOneMore(all, out, buf);
        out := out + [buf[HEADER_SIZE..frameLen]];
        buf := buf[frameLen..];
      }
    }
  }

  lemma ParseStep(buf: seq<byte>)
    requires Complete(buf) && StartsRight(buf)
    ensures var p := Parse(AfterFirst(buf));
            Parse(buf) == Parsed([FirstPayload(buf)] + p.frames, p.rest, p.bad)
  {
  }

  lemma CompleteConcat(a: seq<byte>, b: seq<byte>)
    requires Complete(a)
    ensures Complete(a + b) && FirstPayload(a + b) == FirstPayload(a) && AfterFirst(a + b) == AfterFirst(a) + b
  {
  }

  lemma Regrouped(x: seq<seq<byte>>, y: seq<seq<byte>>, z: seq<seq<byte>>)
    ensures x + (y + z) == (x + y) + z
  {
  }

  /** Parsing goes on where it left off, so chunking does not matter. */
  lemma {:induction false} ParseConcat(a: seq<byte>, b: seq<byte>)
    requires !Parse(a).bad
    ensures var p, q := Parse(a), Parse(Parse(a).rest + b);
            Parse(a + b) == Parsed(p.frames + q.frames, q.rest, q.bad)
    decreases |a|
  {
    if Complete(a) {
      CompleteConcat(a, b);
      ParseStep(a);
      ParseStep(a + b);
      ParseConcat(AfterFirst(a), b);
      Regrouped([FirstPayload(a)], Parse(AfterFirst(a)).frames, Parse(Parse(a).rest + b).frames);
    } else {
      assert Parse(a) == Parsed([], a, false);
      assert [] + Parse(a + b).frames == Parse(a + b).frames;
    }
  }

  function Joined(chunks: seq<seq<byte>>): seq<byte> {
    if chunks == [] then [] else Joined(chunks[..|chunks| - 1]) + chunks[|chunks| - 1]
  }

  /** The decoder raises its exception at chunk i. */
  predicate FailsAt(chunks: seq<seq<byte>>, i: nat) {
    i < |chunks| && !Parse(Joined(chunks[..i])).bad && Parse(Joined(chunks[..i + 1])).bad
  }

  /** Pushes chunk after chunk until one fails. `out` is all that was handed out by then: the frames of the bytes, or
      those of the chunks before the one that fails. */
  method PushAll(chunks: seq<seq<byte>>) returns (out: seq<seq<byte>>, failed: Option<nat>)
    ensures match failed
            case None => !Parse(Joined(chunks)).bad && out == Parse(Joined(chunks)).frames
            case Some(i) => FailsAt(chunks, i) && out == Parse(Joined(chunks[..i])).frames
  {
    var decoder := new BridgeFrameDecoder();
    out := [];
    for i := 0 to |chunks|
      invariant Parse(Joined(chunks[..i])) == Parsed(out, decoder.buf, false)
    {
      assert chunks[..i + 1][..i] == chunks[..i];
      ParseConcat(Joined(chunks[..i]), chunks[i]);
      var got := decoder.Push(chunks[i]);
      if got.Err? {
        return out, Some(i);
      }
      out := out + got.value;
    }
    assert chunks[..|chunks|] == chunks;
    return out, None;
  }

  /** Nothing is parsed beyond a wrong magic. */
  lemma {:induction false} BadStaysBad(a: seq<byte>, b: seq<byte>)
    requires Parse(a).bad
    ensures Parse(a + b) == Parse(a).(rest := Parse(a).rest + b)
    decreases |a|
  {
    if StartsRight(a) {
      CompleteConcat(a, b);
      ParseStep(a);
      ParseStep(a + b);
      BadStaysBad(AfterFirst(a), b);
    }
  }

  lemma {:induction false} BadJoined(chunks: seq<seq<byte>>, i: nat)
    requires i <= |chunks| && Parse(Joined(chunks[..i])).bad
    ensures Parse(Joined(chunks)).bad && Parse(Joined(chunks)).frames == Parse(Joined(chunks[..i])).frames
    decreases |chunks| - i
  {
    if i == |chunks| {
      assert chunks[..i] == chunks;
    } else {
      assert chunks[..i + 1][..i] == chunks[..i];
      BadStaysBad(Joined(chunks[..i]), chunks[i]);
      BadJoined(chunks, i + 1);
    }
  }

  lemma BadBefore(chunks: seq<seq<byte>>, i: nat, j: nat)
    requires i < j <= |chunks| && FailsAt(chunks, i)
    ensures Parse(Joined(chunks[..j])).bad
  {
    assert chunks[..j][..i + 1] == chunks[..i + 1];
    BadJoined(chunks[..j], i + 1);
  }

  /** Whether the decoder fails is a matter of the bytes alone, and it fails at one chunk only. */
  lemma FailsOnce(chunks: seq<seq<byte>>, i: nat, j: nat)
    requires FailsAt(chunks, i)
    ensures Parse(Joined(chunks)).bad && (FailsAt(chunks, j) ==> j == i)
  {
    BadJoined(chunks, i + 1);
    if FailsAt(chunks, j) && j < i {
      BadBefore(chunks, j, i);
    } else if FailsAt(chunks, j) && i < j {
      BadBefore(chunks, i, j);
    }
  }

  /** What was handed out before the failure is a prefix of the frames in the bytes, and it falls short of them exactly
      if the chunk that fails completes a frame of its own. */
  lemma FramesLostIff(chunks: seq<seq<byte>>, i: nat)
    requires FailsAt(chunks, i)
    ensures var before, all := Parse(Joined(chunks[..i])), Parse(Joined(chunks)).frames;
            var buf := before.rest + chunks[i];
            before.frames <= all && (before.frames != all <==> Complete(buf) && StartsRight(buf))
  {
    assert chunks[..i + 1][..i] == chunks[..i];
    ParseConcat(Joined(chunks[..i]), chunks[i]);
    BadJoined(chunks, i + 1);
  }

  /** After a failure every further chunk fails as well. */
  lemma {:induction false} StuckAfterFailure(before: seq<byte>, chunk: seq<byte>)
    requires Parse(before).bad
    ensures var p := Parse(Parse(before).rest + chunk); p.bad && p.frames == []
    decreases |before|
  {
    if StartsRight(before) {
      StuckAfterFailure(AfterFirst(before), chunk);
    }
  }

  const SEVEN: seq<byte> := Encode(BRIDGE_MAGIC, [7])
  const ZEROS: seq<byte> := [0, 0, 0, 0]

  /** For instance: a frame and four zeros in one chunk bring a failure and nothing else, and in two chunks the frame
      and then the failure. */
  lemma CutsMatter()
    ensures Joined([SEVEN + ZEROS]) == Joined([SEVEN, ZEROS])
    ensures FailsAt([SEVEN + ZEROS], 0) && Parse(Joined([SEVEN + ZEROS][..0])).frames == []
    ensures FailsAt([SEVEN, ZEROS], 1) && Parse(Joined([SEVEN, ZEROS][..1])).frames == [[7]]
  {
    BuiltFrameIsRead([7], 1);
    JoinedTwo(SEVEN, ZEROS);
    ParseConcat(SEVEN, ZEROS);
  }

  lemma JoinedTwo(a: seq<byte>, b: seq<byte>)
    ensures [a + b][..0] == [] && [a, b][..1] == [a] && [a + b][..1] == [a + b] && [a, b][..2] == [a, b]
    ensures Joined([a]) == a && Joined([a + b]) == a + b && Joined([a, b]) == a + b
  {
    assert [] + a == a && [] + (a + b) == a + b;
    assert [a][..0] == [] && [a + b][..0] == [] && [a, b][..1] == [a];
  }

  /** The host's encoder: a header of four bytes, then the payload, or an error if that is too long. */
  method BuildBridgeFrame(payload: seq<byte>) returns (r: Option<seq<byte>>)
    ensures r == if |payload| > 0xffff then None else Some(Encode(BRIDGE_MAGIC, payload))
  {
    if |payload| > 0xffff {
      return None;
    }
    var header := new byte[HEADER_SIZE](_ => 0);
    header[0], header[1] := BRIDGE_MAGIC.first, BRIDGE_MAGIC.second;
    CopyInto(header, 2, Le16(|payload|));
    assert header[..] == [header[0], header[1], header[2], header[3]];
    assert header[..] + payload == Encode(BRIDGE_MAGIC, payload);
    return Some(header[..] + payload);
  }

  // Agreement with the firmware's reader

  function Reader(capacity: nat): Config {
    Config(BRIDGE_MAGIC, BRIDGE_MAGIC, false, capacity)
  }

  predicate NoFailure(outs: seq<Output>) {
    Failed !in outs
  }

  function BridgeFrames(frames: seq<seq<byte>>): (outs: seq<Output>)
    ensures |outs| == |frames|
  {
    seq(|frames|, i requires 0 <= i < |frames| => Frame(BRIDGE_MAGIC.first, frames[i]))
  }

  /** An incomplete frame that the reader has no reason to refuse yet. */
  predicate Plausible(buf: seq<byte>, capacity: nat) {
    && (|buf| >= 1 ==> buf[0] == BRIDGE_MAGIC.first)
    && (|buf| >= 2 ==> buf[1] == BRIDGE_MAGIC.second)
    && (|buf| >= HEADER_SIZE ==> FromLe16(buf[2], buf[3]) <= capacity)
  }

  predicate AllFit(frames: seq<seq<byte>>, capacity: nat) {
    forall i :: 0 <= i < |frames| ==> |frames[i]| <= capacity
  }

  /** Reading a header that is not refused. */
  lemma HeldHeader(buf: seq<byte>, capacity: nat)
    requires |buf| <= 3 && Plausible(buf, capacity)
    ensures Final(Reader(capacity), EMPTY, Symbols(buf)) == Partial(buf, [])
    ensures Outputs(Reader(capacity), EMPTY, Symbols(buf)) == []
  {
    if buf != [] {
      var n := |buf| - 1;
      HeldHeader(buf[..n], capacity);
      assert Symbols(buf) == Symbols(buf[..n]) + [Byte(buf[n])] && buf[..n] + [buf[n]] == buf;
      DecodeLast(Reader(capacity), EMPTY, Symbols(buf[..n]), Byte(buf[n]));
    }
  }

  /** The reader refuses a start as soon as it is not plausible. */
  lemma ImplausibleFails(buf: seq<byte>, capacity: nat)
    requires !Plausible(buf, capacity)
    ensures Failed in Outputs(Reader(capacity), EMPTY, Symbols(buf))
  {
    var k := if buf[0] != BRIDGE_MAGIC.first then 1 else if buf[1] != BRIDGE_MAGIC.second then 2 else 4;
    var good, x, rest := buf[..k - 1], Byte(buf[k - 1]), Symbols(buf[k..]);
    HeldHeader(good, capacity);
    assert Symbols(buf) == Symbols(good) + [x] + rest;
    assert good + [buf[k - 1]] == buf[..k];
    DecodeLast(Reader(capacity), EMPTY, Symbols(good), x);
    DecodeConcat(Reader(capacity), EMPTY, Symbols(good) + [x], rest);
  }

  /** An incomplete but plausible frame is held, byte for byte. */
  lemma PlausibleIsHeld(buf: seq<byte>, capacity: nat)
    requires Plausible(buf, capacity) && !Complete(buf)
    ensures Outputs(Reader(capacity), EMPTY, Symbols(buf)) == []
    ensures var f := Final(Reader(capacity), EMPTY, Symbols(buf)); f.header + f.payload == buf
  {
    if |buf| <= 3 {
      HeldHeader(buf, capacity);
      assert buf + [] == buf;
    } else {
      var c, three, x, rest := Reader(capacity), buf[..3], Byte(buf[3]), buf[4..];
      HeldHeader(three, capacity);
      assert Symbols(buf) == Symbols(three) + [x] + Symbols(rest);
      assert three + [buf[3]] == buf[..4];
      DecodeLast(c, EMPTY, Symbols(three), x);
      FeedHeader(c, three, buf[3]);
      DecodeConcat(c, EMPTY, Symbols(three) + [x], Symbols(rest));
      DecodePayload(c, Partial(buf[..4], []), rest);
      assert [] + rest == rest && buf[..4] + rest == buf;
    }
  }

  lemma FirstFrame(buf: seq<byte>, capacity: nat)
    requires Plausible(buf, capacity) && Complete(buf)
    ensures var c, rest := Reader(capacity), Symbols(AfterFirst(buf));
            && Final(c, EMPTY, Symbols(buf)) == Final(c, EMPTY, rest)
            && Outputs(c, EMPTY, Symbols(buf)) == [Frame(BRIDGE_MAGIC.first, FirstPayload(buf))] + Outputs(c, EMPTY, rest)
  {
    var c, payload, rest := Reader(capacity), FirstPayload(buf), AfterFirst(buf);
    assert [buf[2], buf[3]] == Le16(|payload|);
    assert buf == Encode(BRIDGE_MAGIC, payload) + rest;
    SymbolsConcat(Encode(BRIDGE_MAGIC, payload), rest);
    DecodeEncode(c, BRIDGE_MAGIC, payload);
    DecodeConcat(c, EMPTY, Symbols(Encode(BRIDGE_MAGIC, payload)), Symbols(rest));
  }

  /** On every byte string: the firmware's reader accepts it so far exactly when the host's decoder does
      and nothing in it exceeds the reader's buffer; and then both have the same frames out and the same
      bytes held back. */
  lemma {:induction false} ReadersAgree(buf: seq<byte>, capacity: nat)
    ensures var c, p := Reader(capacity), Parse(buf);
            var outs, f := Outputs(c, EMPTY, Symbols(buf)), Final(c, EMPTY, Symbols(buf));
            && (NoFailure(outs) <==> !p.bad && AllFit(p.frames, capacity) && Plausible(p.rest, capacity))
            && (NoFailure(outs) ==> outs == BridgeFrames(p.frames) && f.header + f.payload == p.rest)
    decreases |buf|
  {
    if !Plausible(buf, capacity) {
      ImplausibleFails(buf, capacity);
      if Complete(buf) && StartsRight(buf) {
        assert Parse(buf).frames[0] == FirstPayload(buf);
      }
    } else if !Complete(buf) {
      PlausibleIsHeld(buf, capacity);
    } else {
      FirstFrame(buf, capacity);
      ReadersAgree(AfterFirst(buf), capacity);
      FramesOfFirst(buf, capacity);
    }
  }

  lemma FramesOfFirst(buf: seq<byte>, capacity: nat)
    requires Plausible(buf, capacity) && Complete(buf)
    ensures var p, q := Parse(buf), Parse(AfterFirst(buf));
            && p.rest == q.rest && p.bad == q.bad
            && (AllFit(p.frames, capacity) <==> AllFit(q.frames, capacity))
            && BridgeFrames(p.frames) == [Frame(BRIDGE_MAGIC.first, FirstPayload(buf))] + BridgeFrames(q.frames)
  {
    ParseStep(buf);
    ConsFrames(FirstPayload(buf), Parse(AfterFirst(buf)).frames, capacity);
  }

  lemma ConsFrames(first: seq<byte>, rest: seq<seq<byte>>, capacity: nat)
    requires |first| <= capacity
    ensures AllFit([first] + rest, capacity) <==> AllFit(rest, capacity)
    ensures BridgeFrames([first] + rest) == [Frame(BRIDGE_MAGIC.first, first)] + BridgeFrames(rest)
  {
    if AllFit([first] + rest, capacity) {
      assert forall i :: 0 <= i < |rest| ==> rest[i] == ([first] + rest)[i + 1];
    }
  }

  /** Unlike the host's decoder, the firmware's reader has returned all frames before a wrong magic by then, if they
      fit its buffer. */
  lemma {:induction false} FirmwareReadsAll(buf: seq<byte>, capacity: nat)
    requires AllFit(Parse(buf).frames, capacity)
    ensures BridgeFrames(Parse(buf).frames) <= Outputs(Reader(capacity), EMPTY, Symbols(buf))
    decreases |buf|
  {
    if Complete(buf) && StartsRight(buf) {
      ParseStep(buf);
      assert Parse(buf).frames[0] == FirstPayload(buf);
      FirstFrame(buf, capacity);
      FramesOfFirst(buf, capacity);
      FirmwareReadsAll(AfterFirst(buf), capacity);
    }
  }

  /** Every frame the host builds is read back by the host; and by the firmware exactly if it fits its buffer. */
  lemma BuiltFrameIsRead(payload: Payload, capacity: nat)
    ensures Parse(Encode(BRIDGE_MAGIC, payload)) == Parsed([payload], [], false)
    ensures var outs := Outputs(Reader(capacity), EMPTY, Symbols(Encode(BRIDGE_MAGIC, payload)));
            if |payload| <= capacity then outs == [Frame(BRIDGE_MAGIC.first, payload)] else Failed in outs
  {
    var frame := Encode(BRIDGE_MAGIC, payload);
    assert FromLe16(frame[2], frame[3]) == |payload| && FirstPayload(frame) == payload && AfterFirst(frame) == [];
    ParseStep(frame);
    if |payload| <= capacity {
      DecodeEncode(Reader(capacity), BRIDGE_MAGIC, payload);
    } else {
      ImplausibleFails(frame, capacity);
    }
  }
}
