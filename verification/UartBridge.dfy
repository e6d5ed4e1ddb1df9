/** The loops of src/bridge/uart.rs, turn by turn, on the real mailboxes: frames from the UART, packets to
    the UART, and the start of a session. */
module UartBridge {
  import opened Bytes
  import opened Wrappers
  import opened PacketFifo
  import opened OverwriteQueue
  import opened FrameDecoder
  import opened FrameReader

  function MagicOf(kind: byte): Magic {
    Magic(kind, if kind == REPLY_KIND then 0x5b else 0x5a)
  }

  /** One frame from the UART: a command is answered locally, and anything else goes to the network while
      there is a session. Neither waits for room, and neither touches the other mailbox. */
  method HandleFrame(
    packet: Packet, reply: Packet, active: bool, toNetwork: OverwriteQueue, toUart: OverwriteQueue) returns (dropped: bool)
    requires toNetwork.Valid() && toUart.Valid()
    requires toNetwork != toUart && toNetwork.state != toUart.state && toNetwork.state.bytes != toUart.state.bytes
    modifies toNetwork, toNetwork.state, toNetwork.state.bytes, toUart, toUart.state, toUart.state.bytes
    ensures toNetwork.Valid() && toUart.Valid()
    ensures toUart.Contents() == if packet.kind == REPLY_KIND then Pushed(old(toUart.Contents()), reply, toUart.state.limits)
                                 else old(toUart.Contents())
    ensures toNetwork.Contents() == if packet.kind != REPLY_KIND && active
                                    then Pushed(old(toNetwork.Contents()), packet, toNetwork.state.limits)
                                    else old(toNetwork.Contents())
    ensures dropped == if packet.kind == REPLY_KIND then !Fits(old(toUart.Contents()), |Queued(reply)|, toUart.state.limits)
                       else active && !Fits(old(toNetwork.Contents()), |Queued(packet)|, toNetwork.state.limits)
  {
    dropped := false;
    if packet.kind == REPLY_KIND {
      var pushed := toUart.TryPushRef(reply);
      dropped := !pushed;
    } else if active {
      var pushed := toNetwork.TryPushRef(packet);
      dropped := !pushed;
    }
  }

  /** One packet to the UART: its header, then its payload; or a prefix of that and an error. */
  method TransmitNext(mailbox: OverwriteQueue, sink: ByteSink) returns (ok: bool, ghost written: nat)
    requires mailbox.Valid()
    modifies mailbox, mailbox.state, sink
    ensures mailbox.Valid()
    ensures old(mailbox.Contents()) == [] ==> ok && mailbox.Contents() == [] && sink.data == old(sink.data)
    ensures old(mailbox.Contents()) != [] ==>
              var p := old(mailbox.Contents())[0];
              && mailbox.Contents() == old(mailbox.Contents())[1..]
              && var frame := Encode(MagicOf(p.kind), p.payload);
                 && written <= |frame| && (ok ==> written == |frame|)
                 && sink.data == old(sink.data) + frame[..written]
  {
    ok, written := true, 0;
    var item := mailbox.TryPop();
    if item.Some? {
      var p, n := item.value, |item.value.payload|;
      var header: seq<byte> := [p.kind, if p.kind == REPLY_KIND then 0x5b else 0x5a, n % 256, n / 256];
      ghost var frame, more := Encode(MagicOf(p.kind), p.payload), 0;
      ok, written := sink.WriteAll(header);
      assert frame == header + p.payload && frame[..written] == header[..written];
      if ok {
        ok, more := sink.WriteAll(p.payload);
        InTwoPieces(old(sink.data), header, p.payload, more);
        written := written + more;
      }
    }
  }

  lemma InTwoPieces(before: seq<byte>, header: seq<byte>, payload: seq<byte>, n: nat)
    requires n <= |payload|
    ensures before + header[..|header|] + payload[..n] == before + (header + payload)[..|header| + n]
  {
    assert (header + payload)[..|header| + n] == header + payload[..n];
  }

  /** Before a session starts, the upload mailbox is emptied. */
  method DrainUpload(mailbox: OverwriteQueue)
    requires mailbox.Valid()
    modifies mailbox, mailbox.state
    ensures mailbox.Valid() && mailbox.Contents() == []
  {
    var item := mailbox.TryPop();
    while item.Some?
      invariant mailbox.Valid() && (item == None ==> mailbox.Contents() == [])
      decreases item.Some?, |mailbox.Contents()|
    {
      ghost var before := mailbox.Contents();
      item := mailbox.TryPop();
      assert before == [] ==> item == None;
    }
  }

  /** The bytes that transmitting some packets puts on the UART. */
  function Transmitted(packets: seq<Packet>): seq<byte> {
    if packets == [] then [] else Encode(MagicOf(packets[0].kind), packets[0].payload) + Transmitted(packets[1..])
  }

  function FramesOf(packets: seq<Packet>): (outs: seq<Output>)
    ensures |outs| == |packets|
  {
    seq(|packets|, i requires 0 <= i < |packets| => Frame(packets[i].kind, packets[i].payload))
  }

  /** What goes out on the UART is read back by the same kind of reader, packet by packet and kind by kind. */
  lemma {:induction false} TransmittedFramesDecode(packets: seq<Packet>)
    requires forall i :: 0 <= i < |packets| ==> packets[i].kind == DATA_KIND || packets[i].kind == REPLY_KIND
    ensures Final(UART, EMPTY, Symbols(Transmitted(packets))) == EMPTY
    ensures Outputs(UART, EMPTY, Symbols(Transmitted(packets))) == FramesOf(packets)
  {
    if packets != [] {
      var p, rest := packets[0], Transmitted(packets[1..]);
      var first := Encode(MagicOf(p.kind), p.payload);
      TransmittedFramesDecode(packets[1..]);
      SymbolsConcat(first, rest);
      DecodeEncode(UART, MagicOf(p.kind), p.payload);
      DecodeConcat(UART, EMPTY, Symbols(first), Symbols(rest));
      assert FramesOf(packets) == [Frame(p.kind, p.payload)] + FramesOf(packets[1..]);
    }
  }
}
