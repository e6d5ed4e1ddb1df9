/** The turns of the two loops of `forward_tcp` and the admission of UART frames, on the real objects
    (src/bridge/uart_mailbox.rs), and the steps of BridgePipe that each turn amounts to. */
module ForwardTcp {
  import opened Bytes
  import opened Wrappers
  import opened PacketFifo
  import opened OverwriteQueue
  import opened FrameDecoder
  import opened FrameReader
  import P = BridgePipe

  /** A UART frame is admitted or refused as a whole, and never displaces an accepted one. */
  method AdmitUart(mailbox: OverwriteQueue, packet: Packet) returns (dropped: bool)
    requires mailbox.Valid()
    modifies mailbox, mailbox.state, mailbox.state.bytes
    ensures mailbox.Valid()
    ensures mailbox.Contents() == if dropped then old(mailbox.Contents()) else old(mailbox.Contents()) + [packet]
    ensures dropped == !Fits(old(mailbox.Contents()), |Queued(packet)|, mailbox.state.limits)
  {
    var pushed := mailbox.TryPushRef(packet);
    dropped := !pushed;
  }

  /** One turn of the send loop: the oldest packet leaves the mailbox and goes out as one frame, or a prefix of
      it and an error, which ends the session. */
  method SendNext(mailbox: OverwriteQueue, sink: ByteSink) returns (ok: bool, ghost written: nat)
    requires mailbox.Valid()
    modifies mailbox, mailbox.state, sink
    ensures mailbox.Valid()
    ensures old(mailbox.Contents()) == [] ==> ok && mailbox.Contents() == [] && sink.data == old(sink.data)
    ensures old(mailbox.Contents()) != [] ==>
              && mailbox.Contents() == old(mailbox.Contents())[1..]
              && var frame := Encode(BRIDGE_MAGIC, old(mailbox.Contents())[0].payload);
                 && written <= |frame| && (ok ==> written == |frame|)
                 && sink.data == old(sink.data) + frame[..written]
  {
    ok, written := true, 0;
    var item := mailbox.TryPop();
    if item.Some? {
      ok, written := WriteFrame(sink, BRIDGE_MAGIC, item.value.payload);
    }
  }

  /** One turn of the receive loop, up to the push, which may have to wait for room. */
  method ReceiveNext(reader: FrameReader, input: ByteSource, buffer: array<byte>)
    returns (r: Poll, packet: Packet, ghost consumed: seq<Symbol>)
    requires reader.Valid(buffer) && buffer.Length == MAX_PAYLOAD
    modifies reader, reader.header, buffer, input
    ensures reader.Valid(buffer) && old(Stream(input.script)) == consumed + Stream(input.script)
    ensures var c, s := reader.ConfigFor(buffer), old(reader.Held(buffer));
            && Final(c, s, consumed) == reader.Held(buffer)
            && Outputs(c, s, consumed) ==
               match r case Unfinished => [] case Error => [Failed] case Finished(kind, _) => [Frame(kind, packet.payload)]
    ensures packet.kind == DATA_KIND && (!r.Unfinished? ==> reader.Held(buffer) == EMPTY)
  {
    r, consumed := reader.Read(input, buffer);
    packet := RawPacket(DATA_KIND, if r.Finished? then buffer[..r.len] else []);
  }

  /** A turn of the send loop is two steps of the pipe: take, and write as much as TCP has room for. */
  lemma SendTurn(s: P.Pipe, n: nat)
    requires ValidPartial(BRIDGE, s.reader) && s.sending == [] && s.upload != []
    requires 0 < n <= |Encode(BRIDGE_MAGIC, s.upload[0].payload)| && |s.wire| + n <= s.window
    ensures var frame := Encode(BRIDGE_MAGIC, s.upload[0].payload);
            P.RunOn(s, [P.TakeUpload, P.Write(n)]) == s.(upload := s.upload[1..], wire := s.wire + frame[..n], sending := frame[n..])
  {
    var s' := P.Next(s, P.TakeUpload);
    assert [P.TakeUpload, P.Write(n)][1..] == [P.Write(n)] && [P.Write(n)][1..] == [];
    assert s'.sending == Encode(BRIDGE_MAGIC, s.upload[0].payload);
    assert P.RunOn(s', [P.Write(n)]) == P.Next(s', P.Write(n));
  }

  /** As long as the reader reports nothing, single reads of the pipe only move bytes into it. */
  lemma {:induction false} SilentReads(s: P.Pipe, bytes: seq<byte>, later: seq<byte>)
    requires ValidPartial(BRIDGE, s.reader) && s.pushing == None && s.wire == bytes + later
    requires Outputs(BRIDGE, s.reader, Symbols(bytes)) == []
    ensures P.RunOn(s, seq(|bytes|, _ => P.ReadByte)) == s.(wire := later, reader := Final(BRIDGE, s.reader, Symbols(bytes)))
    decreases |bytes|
  {
    if bytes == [] {
      assert s.wire == later;
    } else {
      var x, rest := Byte(bytes[0]), bytes[1..];
      assert Symbols(bytes) == [x] + Symbols(rest);
      DecodeFirst(BRIDGE, s.reader, x, Symbols(rest));
      assert s.wire[1..] == rest + later;
      assert seq(|bytes|, _ => P.ReadByte)[1..] == seq(|rest|, _ => P.ReadByte);
      SilentReads(P.Next(s, P.ReadByte), rest, later);
    }
  }

  /** A call of the reader that reports nothing before the last byte it consumes is as many single reads of the
      pipe: what it reports is in hand, or fails the session. */
  lemma ReceiveTurn(s: P.Pipe, bytes: seq<byte>, last: byte, later: seq<byte>)
    requires ValidPartial(BRIDGE, s.reader) && s.pushing == None && s.wire == bytes + ([last] + later)
    requires Outputs(BRIDGE, s.reader, Symbols(bytes)) == []
    ensures var xs := Symbols(bytes + [last]);
            P.RunOn(s, seq(|bytes|, _ => P.ReadByte) + [P.ReadByte]) ==
            P.Received(s.(wire := later), (Final(BRIDGE, s.reader, xs), Outputs(BRIDGE, s.reader, xs)))
  {
    SilentReads(s, bytes, [last] + later);
    P.RunOnAppend(s, seq(|bytes|, _ => P.ReadByte), P.ReadByte);
    LastRead(s, P.RunOn(s, seq(|bytes|, _ => P.ReadByte)), Final(BRIDGE, s.reader, Symbols(bytes)), last, later);
    LastOutput(s.reader, bytes, last);
  }

  lemma LastRead(s: P.Pipe, s': P.Pipe, f: Partial, last: byte, later: seq<byte>)
    requires s.pushing == None && ValidPartial(BRIDGE, f) && s' == s.(wire := [last] + later, reader := f)
    ensures P.Next(s', P.ReadByte) == P.Received(s.(wire := later), Feed(BRIDGE, f, Byte(last)))
  {
    assert s'.wire[1..] == later;
  }

  lemma LastOutput(reader: Partial, bytes: seq<byte>, last: byte)
    requires ValidPartial(BRIDGE, reader) && Outputs(BRIDGE, reader, Symbols(bytes)) == []
    ensures var xs := Symbols(bytes + [last]);
            (Final(BRIDGE, reader, xs), Outputs(BRIDGE, reader, xs)) == Feed(BRIDGE, Final(BRIDGE, reader, Symbols(bytes)), Byte(last))
  {
    SymbolsAppend(bytes, last);
    DecodeLast(BRIDGE, reader, Symbols(bytes), Byte(last));
    var more := Feed(BRIDGE, Final(BRIDGE, reader, Symbols(bytes)), Byte(last)).1;
    assert [] + more == more;
  }

  lemma SymbolsAppend(bytes: seq<byte>, last: byte)
    ensures Symbols(bytes + [last]) == Symbols(bytes) + [Byte(last)]
  {
  }
}
