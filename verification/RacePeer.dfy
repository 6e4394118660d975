/** One player of the race: the ready/seed handshake and the bytes it is carried in
    (proj.c, serialPort.c, typing.c). */
module RacePeer {
  import opened CTypes

  datatype Status = Unready | Ready | Typing | Finished

  /** What a whole frame on the serial line means. `Data` is a completed non-seed number,
      `Other` any byte the race gives no meaning. */
  datatype Message =
    | ReadyMsg | NReadyMsg | Seed(value: u64)
    | Ack | ReadyAck | NReadyAck | Won
    | Exit | Data | Other

  /** The globals of the race. `texts` records the seeds generateText was called with. */
  datatype Peer = Peer(
    readyMe: bool, readyYou: bool, seedMe: u64, seedYou: u64,
    waitingForSeed: bool, waitingAck: bool, status: Status, won: bool, texts: seq<u32>)

  const FRESH_PEER := Peer(false, false, 0, 0, false, false, Unready, false, [])

  /** The seed generateText receives: a uint64_t sum passed as a 32-bit unsigned. */
  function TextSeed(mine: u64, yours: u64): u32 {
    ((mine + yours) % 0x1_0000_0000_0000_0000) % 0x1_0000_0000
  }

  /** 32 bits of the sum remain, whatever it does in 64. */
  lemma TextSeedIs(mine: u64, yours: u64)
    ensures TextSeed(mine, yours) == (mine + yours) % 0x1_0000_0000
  {
    var sum := mine + yours;
    if sum >= 0x1_0000_0000_0000_0000 {
      var rest := sum - 0x1_0000_0000_0000_0000;
      DivModUnique(sum, 0x1_0000_0000_0000_0000, 1, rest);
      DivModUnique(sum, 0x1_0000_0000, rest / 0x1_0000_0000 + 0x1_0000_0000, rest % 0x1_0000_0000);
    }
  }

  predicate BothReady(p: Peer) {
    p.readyMe && p.readyYou && p.seedMe != 0 && p.seedYou != 0
  }

  function CheckReady(p: Peer): Peer {
    if BothReady(p) then
      p.(status := Ready, texts := p.texts + [TextSeed(p.seedMe, p.seedYou)])
    else p
  }

  /** The button: un-ready when ready, otherwise announce readiness with a new seed. */
  function Press(p: Peer, now: u64): (Peer, seq<Message>) {
    if p.status != Unready then (p, [])
    else if p.readyMe then (p.(waitingAck := true), [NReadyMsg])
    else (p.(seedMe := now, waitingAck := true), [ReadyMsg, Seed(now)])
  }

  /** An acknowledgement, or any other byte that reaches the waiting-for-ack branch. */
  function Acknowledged(p: Peer, m: Message): Peer {
    if !p.waitingAck then p
    else
      (match m
       case ReadyAck => CheckReady(p.(readyMe := true))
       case NReadyAck => p.(readyMe := false, seedMe := 0)
       case _ => p).(waitingAck := false)
  }

  /** The reaction to one whole message, and what is sent back. */
  function Receive(p: Peer, m: Message): (Peer, seq<Message>) {
    if m.Seed? then
      (if p.waitingForSeed then CheckReady(p.(seedYou := m.value)).(waitingForSeed := false) else p, [Ack])
    else if m == Data then
      (p, [Ack])
    else if p.status == Unready && m == ReadyMsg then
      (p.(readyYou := true, waitingForSeed := true), [ReadyAck])
    else if p.status == Unready && m == NReadyMsg then
      (p.(readyYou := false), [NReadyAck])
    else if p.status == Typing && m == Won then
      (Acknowledged(p.(status := Finished, won := false), m), [])
    else if m == Exit then
      (Acknowledged(Peer(false, false, 0, 0, p.waitingForSeed, p.waitingAck, Unready, false, p.texts), m), [])
    else
      (Acknowledged(p, m), [])
  }

  /** The countdown is over. */
  function StartTyping(p: Peer): Peer {
    if p.status == Ready then p.(status := Typing) else p
  }

  /** The last character is typed: the race is won and the opponent told. */
  function FinishTyping(p: Peer): (Peer, seq<Message>) {
    if p.status == Typing then (p.(status := Finished, won := true), [Won]) else (p, [])
  }

  // ----- bytes

  const INFO_ACK: byte := 0xF0
  const INFO_ULONG: byte := 0xF2
  const INFO_UINT: byte := 0xF4
  const INFO_INT: byte := 0xF5
  const INFO_FLOAT: byte := 0xF6
  const INFO_DOUBLE: byte := 0xF7
  const INFO_READY: byte := 0xF8
  const INFO_NREADY: byte := 0xF9
  const INFO_READY_ACK: byte := 0xFA
  const INFO_NREADY_ACK: byte := 0xFB
  const INFO_WON: byte := 0xFC
  const INFO_EXIT: byte := 0xFD

  /** Bytes that announce a number, and how many bytes follow. */
  predicate Announces(b: byte) {
    INFO_ULONG <= b <= INFO_DOUBLE
  }

  function PayloadLength(b: byte): (n: nat)
    requires Announces(b)
    ensures n == 4 || n == 8
  {
    if b == INFO_UINT || b == INFO_INT || b == INFO_FLOAT then 4 else 8
  }

  function ControlMessage(b: byte): Message {
    if b == INFO_READY then ReadyMsg
    else if b == INFO_NREADY then NReadyMsg
    else if b == INFO_ACK then Ack
    else if b == INFO_READY_ACK then ReadyAck
    else if b == INFO_NREADY_ACK then NReadyAck
    else if b == INFO_WON then Won
    else if b == INFO_EXIT then Exit
    else Other
  }

  /** The frame assembler: which number is being received, and its bytes so far. */
  datatype Link = Link(receiving: byte, bits: seq<byte>)

  const IDLE_LINK := Link(INFO_ACK, [])

  ghost predicate LinkValid(l: Link) {
    if Announces(l.receiving) then |l.bits| < PayloadLength(l.receiving)
    else l == IDLE_LINK
  }

  function LinkByte(l: Link, b: byte): (r: (Link, Option<Message>))
    ensures LinkValid(l) ==> LinkValid(r.0)
  {
    if Announces(l.receiving) then
      var bits := l.bits + [b];
      if |bits| < PayloadLength(l.receiving) then (l.(bits := bits), None)
      else
        PowersOf256();
        FromLEBound(bits[..PayloadLength(l.receiving)]);
        (IDLE_LINK,
         Some(if l.receiving == INFO_ULONG then Seed(FromLE(bits[..PayloadLength(l.receiving)])) else Data))
    else if Announces(b) then (Link(b, []), None)
    else (l, Some(ControlMessage(b)))
  }

  lemma PowersOf256()
    ensures Pow256(8) == 0x1_0000_0000_0000_0000
    ensures Pow256(4) == 0x1_0000_0000
  {
    assert Pow256(2) == 0x1_0000;
    assert Pow256(4) == 0x1_0000_0000;
    assert Pow256(6) == 0x1_0000_0000_0000;
  }

  /** The messages players send each other in a race. */
  predicate Sendable(m: Message) {
    !m.Exit? && !m.Data? && !m.Other?
  }

  function Encode(m: Message): seq<byte>
    requires Sendable(m)
  {
    match m
    case ReadyMsg => [INFO_READY]
    case NReadyMsg => [INFO_NREADY]
    case Seed(v) => [INFO_ULONG] + ToLE(v, 8)
    case Ack => [INFO_ACK]
    case ReadyAck => [INFO_READY_ACK]
    case NReadyAck => [INFO_NREADY_ACK]
    case Won => [INFO_WON]
  }

  function EncodeAll(ms: seq<Message>): seq<byte>
    requires forall m | m in ms :: Sendable(m)
  {
    if ms == [] then [] else Encode(ms[0]) + EncodeAll(ms[1..])
  }

  /** What goes over the wire: one byte a message, and for a seed an announcing byte and its eight bytes, lowest
      first. */
  lemma WireIs(m: Message)
    requires Sendable(m)
    ensures m.Seed? ==>
      |Encode(m)| == 9 && Encode(m)[0] == 0xF2 &&
      forall k | 0 <= k < 8 :: Encode(m)[k + 1] == (m.value / Pow256(k)) % 256
    ensures !m.Seed? ==>
      Encode(m) == [match m
                    case Ack => 0xF0
                    case ReadyMsg => 0xF8
                    case NReadyMsg => 0xF9
                    case ReadyAck => 0xFA
                    case NReadyAck => 0xFB
                    case _ => 0xFC]
  {
    if m.Seed? {
      forall k | 0 <= k < 8 ensures Encode(m)[k + 1] == (m.value / Pow256(k)) % 256 {
        ToLEAt(m.value, 8, k);
      }
    }
  }

  /** What a byte outside any number means: a message that is sent, the opponent leaving, or nothing. */
  lemma MeaningIs(b: byte)
    ensures Announces(b) <==> 0xF2 <= b <= 0xF7
    ensures ControlMessage(b) == Exit <==> b == 0xFD
    ensures ControlMessage(b) == Other <==> !(b == 0xF0 || 0xF8 <= b <= 0xFD)
    ensures Sendable(ControlMessage(b)) ==> Encode(ControlMessage(b)) == [b]
  {
  }

  /** A byte outside any number starts one or is a message by itself. */
  lemma OutsideNumbers(b: byte)
    ensures LinkByte(IDLE_LINK, b) ==
            if 0xF2 <= b <= 0xF7 then (Link(b, []), None) else (IDLE_LINK, Some(ControlMessage(b)))
  {
  }

  /** Own readiness is confirmed, or taken back and the seed with it, by its acknowledgement while the player waits. */
  lemma OwnReadinessIs(p: Peer, m: Message)
    requires m != Exit
    ensures
      var q := Receive(p, m).0;
      && (q.readyMe <==> if m == ReadyAck && p.waitingAck then true else p.readyMe && !(m == NReadyAck && p.waitingAck))
      && q.seedMe == (if m == NReadyAck && p.waitingAck then 0 else p.seedMe)
  {
  }

  /** The opponent's readiness is noted while the player is unready, and his seed when it is awaited. */
  lemma OtherReadinessIs(p: Peer, m: Message)
    requires m != Exit
    ensures
      var q, heard := Receive(p, m).0, p.status == Unready;
      && (q.readyYou <==> if m == ReadyMsg && heard then true else p.readyYou && !(m == NReadyMsg && heard))
      && q.seedYou == (if m.Seed? && p.waitingForSeed then m.value else p.seedYou)
      && (q.waitingForSeed <==> if m == ReadyMsg && heard then true else p.waitingForSeed && !m.Seed?)
  {
  }

  /** Any message but a number, or an announcement to an unready player, ends the wait for an acknowledgement. */
  lemma WaitIs(p: Peer, m: Message)
    ensures Receive(p, m).0.waitingAck <==>
      p.waitingAck && (m.Seed? || m.Data? || (p.status == Unready && (m == ReadyMsg || m == NReadyMsg)))
  {
  }

  /** Text is generated when an awaited seed or acknowledgement leaves both ready with real seeds, and only then. */
  lemma TextIs(p: Peer, m: Message)
    requires m != Exit
    ensures
      var q := Receive(p, m).0;
      var awaited := (m.Seed? && p.waitingForSeed) || (m == ReadyAck && p.waitingAck);
      q.texts ==
        if awaited && q.readyMe && q.readyYou && q.seedMe != 0 && q.seedYou != 0
        then p.texts + [(q.seedMe + q.seedYou) % 0x1_0000_0000] else p.texts
  {
    TextSeedIs(p.seedMe, if m.Seed? then m.value else p.seedYou);
  }

  /** Generating text makes the player ready to race; one who is typing stops, and has lost, when the opponent has won;
      nothing else changes the stage of the race. */
  lemma StageIs(p: Peer, m: Message)
    requires m != Exit
    ensures
      var q, beaten := Receive(p, m).0, m == Won && p.status == Typing;
      && q.status == (if q.texts != p.texts then Ready else if beaten then Finished else p.status)
      && (q.won <==> p.won && !beaten)
  {
    match m
    case Seed(v) => TextGrows(p.(seedYou := v));
    case ReadyAck => TextGrows(p.(readyMe := true));
    case _ =>
  }

  lemma TextGrows(p: Peer)
    ensures CheckReady(p).texts != p.texts <==> BothReady(p)
  {
    assert BothReady(p) ==> |CheckReady(p).texts| == |p.texts| + 1;
  }

  /** The opponent has left: everything about the race is forgotten, in whatever state the player was; a seed still
      to come is still awaited, an acknowledgement no longer. */
  lemma ExitForgets(p: Peer)
    ensures
      var (q, sent) := Receive(p, Exit);
      && sent == [] && q.status == Unready && !q.readyMe && !q.readyYou && q.seedMe == q.seedYou == 0 && !q.won
      && !q.waitingAck && q.waitingForSeed == p.waitingForSeed && q.texts == p.texts
  {
  }

  lemma EncodeOne(m: Message)
    requires Sendable(m)
    ensures EncodeAll([m]) == Encode(m)
  {
    assert [m][1..] == [];
    assert Encode(m) + [] == Encode(m);
  }

  // ----- the program

  /** What reading the interrupt identification register says. */
  datatype Identification = Unreadable | NoData | DataAvailable

  /** The race globals of one machine and its frame buffer, updated in place. */
  class Racer {
    var readyMe: bool
    var readyYou: bool
    var seedMe: u64
    var seedYou: u64
    var waitingForSeed: bool
    var waitingAckSerialPort: bool
    var status: Status
    var won: bool
    var texts: seq<u32>
    var serialPortByte: byte
    var receivingSerialPort: byte
    var indexSerialPort: nat
    const bitsSerialPort: array<byte>

    ghost predicate Valid()
      reads this, bitsSerialPort
    {
      bitsSerialPort.Length == 8 && indexSerialPort <= 8 && LinkValid(LinkView())
    }

    ghost function LinkView(): Link
      requires indexSerialPort <= bitsSerialPort.Length
      reads this, bitsSerialPort
    {
      Link(receivingSerialPort, bitsSerialPort[..indexSerialPort])
    }

    ghost function PeerView(): Peer
      reads this
    {
      Peer(readyMe, readyYou, seedMe, seedYou, waitingForSeed, waitingAckSerialPort, status, won, texts)
    }

    constructor ()
      ensures Valid() && fresh(bitsSerialPort)
      ensures PeerView() == FRESH_PEER && LinkView() == IDLE_LINK && serialPortByte == 0
    {
      readyMe, readyYou, seedMe, seedYou := false, false, 0, 0;
      waitingForSeed, waitingAckSerialPort, status, won, texts := false, false, Unready, false, [];
      serialPortByte, receivingSerialPort, indexSerialPort := 0, INFO_ACK, 0;
      bitsSerialPort := new byte[8](_ => 0);
    }

    method CheckIfReady()
      modifies this`status, this`texts
      ensures PeerView() == CheckReady(old(PeerView()))
    {
      if readyMe && readyYou && seedMe != 0 && seedYou != 0 {
        var seed := (seedMe + seedYou) % 0x1_0000_0000_0000_0000;
        texts := texts + [seed % 0x1_0000_0000];
        status := Ready;
      }
    }

    /** The announcing byte and the eight bytes of the number, lowest first. */
    static method SendULong(value: u64) returns (sent: seq<byte>)
      ensures sent == Encode(Seed(value))
    {
      sent := [INFO_ULONG];
      var rest: nat := value;
      for i := 0 to 8
        invariant sent + ToLE(rest, 8 - i) == Encode(Seed(value))
      {
        sent, rest := sent + [rest % 256], rest / 256;
      }
    }

    method RaceReadyButton(now: u64) returns (sent: seq<byte>)
      modifies this`seedMe, this`waitingAckSerialPort
      ensures
        var (p, ms) := Press(old(PeerView()), now);
        PeerView() == p && sent == EncodeAll(ms)
    {
      sent := [];
      if status == Unready {
        if readyMe {
          waitingAckSerialPort := true;
          sent := [INFO_NREADY];
        } else {
          seedMe := now;
          waitingAckSerialPort := true;
          var seed := SendULong(seedMe);
          sent := [INFO_READY] + seed;
          assert [ReadyMsg, Seed(now)][1..] == [Seed(now)];
          assert EncodeAll([Seed(now)]) == Encode(Seed(now)) + [];
        }
      }
    }

    /** Reading the receive register; after a failed read the last byte stays. */
    method ReadByte(read: Option<byte>)
      modifies this`serialPortByte
      ensures serialPortByte == read.GetOr(old(serialPortByte))
    {
      if read.Some? {
        serialPortByte := read.value;
      }
    }

    /** One byte of a number arrives, or fails to. */
    method ReadNumber(read: Option<byte>) returns (value: Option<nat>)
      requires Valid() && Announces(receivingSerialPort)
      modifies this`serialPortByte, this`receivingSerialPort, this`indexSerialPort, bitsSerialPort
      ensures Valid() && serialPortByte == read.GetOr(old(serialPortByte))
      ensures read.None? ==> value == None && LinkView() == old(LinkView())
      ensures read.Some? ==>
        var bits := old(LinkView()).bits + [read.value];
        if |bits| < PayloadLength(old(receivingSerialPort)) then
          value == None && LinkView() == Link(old(receivingSerialPort), bits)
        else
          value == Some(FromLE(bits)) && LinkView() == IDLE_LINK
    {
      ReadByte(read);
      if read.None? {
        return None;
      }
      var length := PayloadLength(receivingSerialPort);
      ghost var before := LinkView().bits;
      bitsSerialPort[indexSerialPort] := serialPortByte;
      indexSerialPort := indexSerialPort + 1;
      assert bitsSerialPort[..indexSerialPort] == before + [serialPortByte];
      if indexSerialPort < length {
        return None;
      }
      value := Some(FromLE(bitsSerialPort[..indexSerialPort]));
      receivingSerialPort, indexSerialPort := INFO_ACK, 0;
    }

    /** serial_port_ih: whether there is a byte outside any number. When the identification of the interrupt cannot be
        read, the byte still held counts as one, whatever it is. */
    method SerialPortIh(iir: Identification, read: Option<byte>) returns (complete: bool)
      requires Valid() && !Announces(receivingSerialPort)
      modifies this`serialPortByte, this`receivingSerialPort
      ensures Valid()
      ensures serialPortByte == if iir.DataAvailable? then read.GetOr(old(serialPortByte)) else old(serialPortByte)
      ensures receivingSerialPort ==
              if iir.DataAvailable? && Announces(serialPortByte) then serialPortByte else old(receivingSerialPort)
      ensures complete <==> iir.Unreadable? || (iir.DataAvailable? && read.Some? && !Announces(read.value))
    {
      if iir.Unreadable? {
        return true;
      }
      if iir.NoData? {
        return false;
      }
      ReadByte(read);
      if Announces(serialPortByte) {
        receivingSerialPort := serialPortByte;
        return false;
      }
      complete := read.Some?;
    }

    /** The byte that an interrupt gives to the link. After a failed read outside a number, an announcing byte
        still held is taken once more. */
    ghost function Taken(iir: Identification, read: Option<byte>): Option<byte>
      reads this
    {
      if Announces(receivingSerialPort) then read
      else if !iir.DataAvailable? then None
      else if read.None? && Announces(serialPortByte) then Some(serialPortByte)
      else read
    }

    /** The serial-port branch of the main loop. */
    method SerialInterrupt(iir: Identification, read: Option<byte>) returns (sent: seq<byte>)
      requires Valid()
      modifies this, bitsSerialPort
      ensures Valid()
      ensures
        var b := old(Taken(iir, read));
        if iir.Unreadable? && !old(Announces(receivingSerialPort)) then
          LinkView() == old(LinkView()) && Reacted(old(PeerView()), Some(ControlMessage(old(serialPortByte))), sent)
        else if b.None? then LinkView() == old(LinkView()) && PeerView() == old(PeerView()) && sent == []
        else
          var (l, m) := LinkByte(old(LinkView()), b.value);
          LinkView() == l && Reacted(old(PeerView()), m, sent)
      ensures serialPortByte ==
              if old(Announces(receivingSerialPort)) || iir.DataAvailable? then read.GetOr(old(serialPortByte))
              else old(serialPortByte)
    {
      sent := [];
      if Announces(receivingSerialPort) {
        sent := NumberByte(read);
      } else {
        var complete := SerialPortIh(iir, read);
        if complete {
          sent := ControlByte(serialPortByte);
        }
      }
    }

    /** The peer has reacted to the message, if there was one, and `sent` is the encoded answer. */
    ghost predicate Reacted(before: Peer, m: Option<Message>, sent: seq<byte>)
      reads this
    {
      if m.None? then PeerView() == before && sent == []
      else
        var (p, ms) := Receive(before, m.value);
        PeerView() == p && (forall x | x in ms :: Sendable(x)) && sent == EncodeAll(ms)
    }

    /** A byte inside a number. */
    method NumberByte(read: Option<byte>) returns (sent: seq<byte>)
      requires Valid() && Announces(receivingSerialPort)
      modifies this, bitsSerialPort
      ensures Valid() && serialPortByte == read.GetOr(old(serialPortByte))
      ensures read.None? ==> LinkView() == old(LinkView()) && PeerView() == old(PeerView()) && sent == []
      ensures read.Some? ==>
        var (l, m) := LinkByte(old(LinkView()), read.value);
        LinkView() == l && Reacted(old(PeerView()), m, sent)
    {
      sent := [];
      var isSeed := receivingSerialPort == INFO_ULONG;
      ghost var link := LinkView();
      var value := ReadNumber(read);
      if value.Some? {
        ghost var bits := link.bits + [read.value];
        assert bits[..PayloadLength(link.receiving)] == bits;
        PowersOf256();
        FromLEBound(bits);
        sent := NumberDone(isSeed, value.value);
      }
    }

    /** A whole number has arrived. */
    method NumberDone(isSeed: bool, value: u64) returns (sent: seq<byte>)
      modifies this`seedYou, this`waitingForSeed, this`status, this`texts
      ensures Reacted(old(PeerView()), Some(if isSeed then Seed(value) else Data), sent)
    {
      if isSeed && waitingForSeed {
        seedYou := value;
        CheckIfReady();
        waitingForSeed := false;
      }
      EncodeOne(Ack);
      sent := [INFO_ACK];
    }

    /** A byte outside any number. */
    method ControlByte(b: byte) returns (sent: seq<byte>)
      modifies this`readyMe, this`readyYou, this`seedMe, this`seedYou, this`waitingForSeed,
               this`waitingAckSerialPort, this`status, this`won, this`texts
      ensures Reacted(old(PeerView()), Some(ControlMessage(b)), sent)
    {
      if status == Unready {
        if b == INFO_READY {
          readyYou, waitingForSeed := true, true;
          EncodeOne(ReadyAck);
          return [INFO_READY_ACK];
        }
        if b == INFO_NREADY {
          readyYou := false;
          EncodeOne(NReadyAck);
          return [INFO_NREADY_ACK];
        }
      } else if status == Typing {
        if b == INFO_WON {
          status, won := Finished, false;
        }
      }
      if b == INFO_EXIT {
        status := Unready;
        readyMe, readyYou, seedMe, seedYou, won := false, false, 0, 0, false;
      }
      AckByte(b);
      sent := [];
    }

    /** The byte a machine waiting for an acknowledgement takes as one. */
    method AckByte(b: byte)
      modifies this`readyMe, this`seedMe, this`waitingAckSerialPort, this`status, this`texts
      ensures PeerView() == Acknowledged(old(PeerView()), ControlMessage(b))
    {
      if waitingAckSerialPort {
        if b == INFO_READY_ACK {
          readyMe := true;
          CheckIfReady();
        } else if b == INFO_NREADY_ACK {
          readyMe, seedMe := false, 0;
        }
        waitingAckSerialPort := false;
      }
    }
  }
}
