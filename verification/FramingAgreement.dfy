/** The firmware's reader and the host's decoder of bridge frames, side by side on the same bytes, each with
    the bytes cut up in its own way. */
module FramingAgreement {
  import opened Bytes
  import opened Wrappers
  import opened FrameDecoder
  import opened FrameReader
  import opened BridgeFraming

  /** A connection that delivers the given pieces; an empty piece is a read that has to wait. */
  function Script(pieces: seq<seq<byte>>): seq<Chunk> {
    if pieces == [] then []
    else Script(pieces[..|pieces| - 1]) + [if pieces[|pieces| - 1] == [] then Stall else Data(pieces[|pieces| - 1])]
  }

  lemma {:induction false} StreamAppend(script: seq<Chunk>, chunk: Chunk)
    ensures Stream(script + [chunk]) == Stream(script) + StreamOf(chunk)
  {
    if script == [] {
      assert script + [chunk] == [chunk];
      assert Stream([chunk]) == StreamOf(chunk) + Stream([chunk][1..]);
      assert StreamOf(chunk) + [] == StreamOf(chunk) == [] + StreamOf(chunk);
    } else {
      assert (script + [chunk])[1..] == script[1..] + [chunk];
      StreamAppend(script[1..], chunk);
    }
  }

  lemma {:induction false} ScriptDelivers(pieces: seq<seq<byte>>)
    ensures Stream(Script(pieces)) == Symbols(Joined(pieces))
  {
    if pieces != [] {
      var n := |pieces| - 1;
      ScriptDelivers(pieces[..n]);
      StreamAppend(Script(pieces[..n]), if pieces[n] == [] then Stall else Data(pieces[n]));
      SymbolsConcat(Joined(pieces[..n]), pieces[n]);
    }
  }

  method Connect(pieces: seq<seq<byte>>) returns (input: ByteSource)
    ensures fresh(input) && Stream(input.script) == Symbols(Joined(pieces))
  {
    var script: seq<Chunk> := [];
    for i := 0 to |pieces|
      invariant script == Script(pieces[..i])
    {
      assert pieces[..i + 1][..i] == pieces[..i];
      script := script + [if pieces[i] == [] then Stall else Data(pieces[i])];
    }
    assert pieces[..|pieces|] == pieces;
    ScriptDelivers(pieces);
    input := new ByteSource(script);
  }

  /** On the same bytes, however they are cut: the firmware reports no failure exactly when the host does not
      and no frame, complete or begun, exceeds the firmware's buffer; and then both get the same frames. Otherwise the
      firmware still gets every frame before the failure that fits, however its bytes are cut, and the host a prefix
      of them that depends on how its bytes are cut. */
  method DecodeBothWays(capacity: nat, firmware: seq<seq<byte>>, host: seq<seq<byte>>)
    returns (outs: seq<Output>, frames: seq<seq<byte>>, failed: Option<nat>)
    requires Joined(firmware) == Joined(host)
    ensures NoFailure(outs) <==>
            failed == None && AllFit(frames, capacity) && Plausible(Parse(Joined(host)).rest, capacity)
    ensures NoFailure(outs) ==> outs == BridgeFrames(frames)
    ensures frames <= Parse(Joined(host)).frames
    ensures AllFit(Parse(Joined(host)).frames, capacity) ==> BridgeFrames(Parse(Joined(host)).frames) <= outs
    ensures failed.Some? ==> FailsAt(host, failed.value) && frames == Parse(Joined(host[..failed.value])).frames
  {
    var reader := new FrameReader(Reader(capacity));
    var payload := new byte[capacity](_ => 0);
    var input := Connect(firmware);
    outs := Drain(reader, input, payload);
    frames, failed := PushAll(host);
    ReadersAgree(Joined(host), capacity);
    if AllFit(Parse(Joined(host)).frames, capacity) {
      FirmwareReadsAll(Joined(host), capacity);
    }
    if failed.Some? {
      FailsOnce(host, failed.value, failed.value);
      FramesLostIff(host, failed.value);
    }
  }
}
