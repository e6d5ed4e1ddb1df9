/** I2C version 2 (src/protocol/i2c_packet.rs and the v2 branch of src/bridge/i2c_task.rs): one packet at
    a time in a mailbox, announced by a header that may be read again and again, and consumed only by a
    completed read of its body. */
module I2cMailbox {
  import opened Bytes
  import opened Wrappers

  const MAGIC: byte := 0xd2
  const HEADER_LEN := 4
  const MAX_BODY := 4092
  const IDLE: byte := 0
  const DATA: byte := 1
  const COMMAND: byte := 2
  const BOOTSEL: byte := 0x7e
  const ERROR: byte := 0x7f

  predicate KnownKind(kind: byte) {
    kind == IDLE || kind == DATA || kind == COMMAND || kind == BOOTSEL || kind == ERROR
  }

  function Header(kind: byte, len: nat): Option<seq<byte>> {
    if len > MAX_BODY || !KnownKind(kind) || (kind == IDLE && len != 0) then None
    else Some([MAGIC, kind, len % 256, len / 256])
  }

  function Decode(raw: seq<byte>): Option<(byte, nat)> {
    if |raw| < HEADER_LEN || raw[0] != MAGIC then None
    else
      var len: nat := FromLe16(raw[2], raw[3]);
      if Header(raw[1], len) == None then None else Some((raw[1], len))
  }

  function PacketOf(raw: seq<byte>): Option<(byte, seq<byte>)> {
    match Decode(raw)
    case None => None
    case Some((kind, len)) => if |raw| != HEADER_LEN + len then None else Some((kind, raw[HEADER_LEN..]))
  }

  /** A whole packet is read back exactly when its header is a legal one. */
  lemma PacketRoundTrip(kind: byte, body: seq<byte>)
    requires Header(kind, |body|).Some?
    ensures PacketOf(Header(kind, |body|).value + body) == Some((kind, body))
  {
    var raw := Header(kind, |body|).value + body;
    assert raw[HEADER_LEN..] == body;
  }

  /** Whatever is accepted is the header of its kind and length followed by its body, and nothing else. */
  lemma PacketSound(raw: seq<byte>)
    requires PacketOf(raw).Some?
    ensures var (kind, body) := PacketOf(raw).value;
            Header(kind, |body|).Some? && raw == Header(kind, |body|).value + body
  {
    var (kind, body) := PacketOf(raw).value;
    assert raw == raw[..HEADER_LEN] + body;
    assert raw[..HEADER_LEN] == [raw[0], raw[1], raw[2], raw[3]];
  }

  datatype Message = Message(kind: byte, body: seq<byte>)

  const EMPTY := Message(IDLE, [])

  predicate Stageable(m: Message) {
    m.kind != IDLE && m.body != [] && Header(m.kind, |m.body|).Some?
  }

  /** The mailbox object, over a fixed buffer. */
  class Mailbox {
    const bytes: array<byte>
    var len: nat
    var kind: byte

    ghost predicate Valid()
      reads this
    {
      bytes.Length == MAX_BODY && len <= MAX_BODY && Header(kind, len).Some? && (kind == IDLE <==> len == 0)
    }

    function Held(): Message
      requires len <= bytes.Length
      reads this, bytes
    {
      Message(kind, bytes[..len])
    }

    constructor ()
      ensures Valid() && Held() == EMPTY && fresh(bytes)
    {
      bytes := new byte[MAX_BODY](_ => 0);
      len, kind := 0, IDLE;
    }

    predicate IsPending()
      reads this
    {
      kind != IDLE
    }

    /** An idle message can be "staged" over an empty mailbox, which leaves it empty. */
    method Stage(newKind: byte, payload: seq<byte>) returns (ok: bool)
      requires Valid()
      modifies this, bytes
      ensures Valid()
      ensures ok == (old(Held()) == EMPTY && (Stageable(Message(newKind, payload)) || Message(newKind, payload) == EMPTY))
      ensures Held() == if ok then Message(newKind, payload) else old(Held())
    {
      if Header(newKind, |payload|) == None {
        return false;
      }
      if newKind != IDLE && payload == [] {
        return false;
      }
      if IsPending() {
        return false;
      }
      CopyInto(bytes, 0, payload);
      kind := newKind;
      len := |payload|;
      assert bytes[..len] == payload;
      return true;
    }

    /** The unwrapping in the source cannot fail. */
    function HeaderBytes(): (h: seq<byte>)
      requires Valid()
      reads this
      ensures |h| == HEADER_LEN && Decode(h) == Some((kind, len))
    {
      Header(kind, len).value
    }

    method CompleteBody(complete: bool)
      requires Valid()
      modifies this
      ensures Valid() && Held() == if complete then EMPTY else old(Held())
    {
      if complete {
        kind := IDLE;
        len := 0;
      }
    }

    /** One read by the bus master: the header, and the body if the master goes on to read it. */
    method Respond(header: BusResult, body: BusResult) returns (ok: bool, served: seq<byte>, shown: Option<seq<byte>>)
      requires Valid()
      modifies this
      ensures Valid() && Decode(served) == Some((old(kind), |old(Held()).body|))
      ensures shown == if header.NeedMore? && old(IsPending()) then Some(old(Held()).body) else None
      ensures Held() == if shown.Some? && body.Done? then EMPTY else old(Held())
      ensures ok == if shown.Some? then body.Done? else header.Done? || header.Leftover?
    {
      served := HeaderBytes();
      shown := None;
      if header.NeedMore? && IsPending() && len > 0 {
        shown := Some(bytes[..len]);
        CompleteBody(body.Done?);
        return body.Done?, served, shown;
      }
      ok := header.Done? || header.Leftover?;
    }
  }

  /** How a transfer to the bus master ended. */
  datatype BusResult = Done | Leftover | NeedMore | Failed

  // Whole runs

  /** What can happen to the mailbox: a reply is popped from the queue into an empty mailbox and then a read
      is served; or a local command's response is staged, if the mailbox is free. */
  datatype Event =
    | Serve(queued: Option<Message>, header: BusResult, body: BusResult)
    | Answer(response: Message)

  /** `staged`, `completed`: the messages that went in and those whose body was read to the end;
      `announced`: for each header served, the message it announced and the one held at that moment. */
  datatype Run = Run(held: Message, staged: seq<Message>, completed: seq<Message>, announced: seq<(seq<byte>, Message)>)

  function Stage(r: Run, m: Message): Run {
    if r.held == EMPTY && Stageable(m) then r.(held := m, staged := r.staged + [m]) else r
  }

  function HeaderOf(m: Message): Option<seq<byte>> {
    Header(m.kind, |m.body|)
  }

  function Serving(r: Run, header: BusResult, body: BusResult): Run {
    var served := match HeaderOf(r.held) case Some(h) => h case None => [];
    var r' := r.(announced := r.announced + [(served, r.held)]);
    if header.NeedMore? && r.held.kind != IDLE && body.Done? then r'.(held := EMPTY, completed := r.completed + [r.held])
    else r'
  }

  function Next(r: Run, e: Event): Run {
    match e
    case Answer(response) => Stage(r, response)
    case Serve(queued, header, body) =>
      Serving(if r.held.kind == IDLE && queued.Some? then Stage(r, queued.value) else r, header, body)
  }

  function RunOf(events: seq<Event>): Run {
    if events == [] then Run(EMPTY, [], [], []) else Next(RunOf(events[..|events| - 1]), events[|events| - 1])
  }

  predicate Legal(m: Message) {
    m == EMPTY || Stageable(m)
  }

  predicate Inv(r: Run) {
    && Legal(r.held)
    && r.staged == r.completed + (if r.held == EMPTY then [] else [r.held])
    && forall i :: 0 <= i < |r.announced| ==>
         var (header, held) := r.announced[i];
         Legal(held) && Decode(header) == Some((held.kind, |held.body|))
  }

  lemma LegalHeader(m: Message)
    requires Legal(m)
    ensures HeaderOf(m).Some? && Decode(HeaderOf(m).value) == Some((m.kind, |m.body|))
  {
  }

  lemma StageKeeps(r: Run, m: Message)
    requires Inv(r)
    ensures Inv(Stage(r, m))
  {
    assert r.completed + [] == r.completed;
  }

  lemma ServingKeeps(r: Run, header: BusResult, body: BusResult)
    requires Inv(r)
    ensures Inv(Serving(r, header, body))
  {
    LegalHeader(r.held);
    var r' := Serving(r, header, body);
    assert r'.completed + [] == r'.completed;
  }

  /** Exactly once, in order: in every run the completed bodies are a prefix of the messages staged, at most
      the one still held is missing, and every header served announced the body held at that moment, so
      that its unwrapping never failed. */
  lemma {:induction false} ExactlyOnceInOrder(events: seq<Event>)
    ensures var r := RunOf(events);
            Inv(r) && r.completed <= r.staged && |r.staged| <= |r.completed| + 1
  {
    if events != [] {
      var r, e := RunOf(events[..|events| - 1]), events[|events| - 1];
      ExactlyOnceInOrder(events[..|events| - 1]);
      match e {
        case Answer(response) => StageKeeps(r, response);
        case Serve(queued, header, body) =>
          if queued.Some? {
            StageKeeps(r, queued.value);
          }
          ServingKeeps(if r.held.kind == IDLE && queued.Some? then Stage(r, queued.value) else r, header, body);
      }
    }
  }
}
