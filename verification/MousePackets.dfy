/** PS/2 mouse packets: three-byte frames resynchronised on bit 3 (mouse.c). */
module MousePackets {
  import opened CTypes

  datatype Packet = Packet(
    bytes: seq<byte>, lb: bool, mb: bool, rb: bool, xOv: bool, yOv: bool, deltaX: i16, deltaY: i16)

  // Bits of the first byte.
  const MOUSE_LB := 0
  const MOUSE_RB := 1
  const MOUSE_MB := 2
  const FIRST_BYTE := 3
  const MOUSE_X_SIGNAL := 4
  const MOUSE_Y_SIGNAL := 5
  const MOUSE_X_OVERFLOW := 6
  const MOUSE_Y_OVERFLOW := 7

  /** A delta: the low byte, with 0xFF00 or-ed in when the sign bit is set, stored in an int16_t. */
  function Delta(negative: bool, low: byte): (d: i16)
    ensures d == if negative then low - 256 else low
  {
    assert negative ==> Wrap16(0xFF00 + low) == Wrap16(low - 256);
    Wrap16(if negative then 0xFF00 + low else low)
  }

  function Decode(b0: byte, b1: byte, b2: byte): (p: Packet)
    ensures -256 <= p.deltaX <= 255 && -256 <= p.deltaY <= 255
  {
    Packet([b0, b1, b2], Bit(b0, MOUSE_LB), Bit(b0, MOUSE_MB), Bit(b0, MOUSE_RB),
           Bit(b0, MOUSE_X_OVERFLOW), Bit(b0, MOUSE_Y_OVERFLOW),
           Delta(Bit(b0, MOUSE_X_SIGNAL), b1), Delta(Bit(b0, MOUSE_Y_SIGNAL), b2))
  }

  /** A byte stream cut into packets, and the bytes of the packet begun at its end. */
  datatype Framing = Framing(packets: seq<Packet>, rest: seq<byte>, skipped: nat)

  function Frame(bs: seq<byte>): (f: Framing)
    decreases |bs|
  {
    if bs == [] then Framing([], [], 0)
    else if !Bit(bs[0], FIRST_BYTE) then
      var f := Frame(bs[1..]);
      f.(skipped := f.skipped + 1)
    else if |bs| < 3 then Framing([], bs, 0)
    else
      var f := Frame(bs[3..]);
      f.(packets := [Decode(bs[0], bs[1], bs[2])] + f.packets)
  }

  /** Every byte is skipped, in a packet, or in the buffer, which never fills up. */
  lemma {:induction false} FrameConservation(bs: seq<byte>)
    ensures
      var f := Frame(bs);
      |bs| == f.skipped + 3 * |f.packets| + |f.rest| && |f.rest| <= 2
    decreases |bs|
  {
    if bs != [] {
      if !Bit(bs[0], FIRST_BYTE) {
        FrameConservation(bs[1..]);
      } else if |bs| >= 3 {
        FrameConservation(bs[3..]);
      }
    }
  }

  /** What one more byte does to a framing: the interrupt-by-interrupt view. */
  function FrameByte(f: Framing, b: byte): Framing {
    if f.rest == [] && !Bit(b, FIRST_BYTE) then f.(skipped := f.skipped + 1)
    else if |f.rest| == 2 then f.(packets := f.packets + [Decode(f.rest[0], f.rest[1], b)], rest := [])
    else f.(rest := f.rest + [b])
  }

  function Prepend(p: Packet, f: Framing): Framing {
    f.(packets := [p] + f.packets)
  }

  lemma FrameBytePrepend(p: Packet, f: Framing, b: byte)
    ensures FrameByte(Prepend(p, f), b) == Prepend(p, FrameByte(f, b))
  {
    if |f.rest| == 2 {
      var q := Decode(f.rest[0], f.rest[1], b);
      assert [p] + f.packets + [q] == [p] + (f.packets + [q]);
    }
  }

  /** Framing a stream is taking its bytes one at a time. */
  lemma {:induction false} FrameSnoc(bs: seq<byte>, b: byte)
    ensures Frame(bs + [b]) == FrameByte(Frame(bs), b)
    decreases |bs|
  {
    var cs := bs + [b];
    if bs == [] {
      assert cs[1..] == [];
    } else if !Bit(bs[0], FIRST_BYTE) {
      assert cs[1..] == bs[1..] + [b];
      FrameSnoc(bs[1..], b);
    } else if |bs| >= 3 {
      assert cs[3..] == bs[3..] + [b];
      FrameSnoc(bs[3..], b);
      FrameBytePrepend(Decode(bs[0], bs[1], bs[2]), Frame(bs[3..]), b);
    } else if |bs| == 2 {
      assert cs[3..] == [];
    }
  }

  // ----- round trip

  /** What a mouse reports: its buttons, its overflow bits, and two 9-bit deltas. */
  datatype Report = Report(lb: bool, mb: bool, rb: bool, xOv: bool, yOv: bool, dx: int, dy: int)

  predicate NineBits(r: Report) {
    -256 <= r.dx <= 255 && -256 <= r.dy <= 255
  }

  function FirstByteBits(r: Report): seq<bool> {
    [r.lb, r.rb, r.mb, true, r.dx < 0, r.dy < 0, r.xOv, r.yOv]
  }

  function EncodeReport(r: Report): (bs: seq<byte>)
    requires NineBits(r)
    ensures |bs| == 3
  {
    assert Pow2(8) == 256;
    [FromBits(FirstByteBits(r)), r.dx % 256, r.dy % 256]
  }

  function EncodeReports(rs: seq<Report>): seq<byte>
    requires forall r | r in rs :: NineBits(r)
  {
    if rs == [] then [] else EncodeReport(rs[0]) + EncodeReports(rs[1..])
  }

  function Content(p: Packet): Report {
    Report(p.lb, p.mb, p.rb, p.xOv, p.yOv, p.deltaX, p.deltaY)
  }

  /** Decoding gives back exactly what was reported. */
  lemma DecodeEncode(r: Report)
    requires NineBits(r)
    ensures
      var bs := EncodeReport(r);
      Bit(bs[0], FIRST_BYTE) && Content(Decode(bs[0], bs[1], bs[2])) == r
  {
    forall n | 0 <= n < 8 ensures Bit(FromBits(FirstByteBits(r)), n) == FirstByteBits(r)[n] {
      BitFromBits(FirstByteBits(r), n);
    }
    DeltaRoundTrip(r.dx);
    DeltaRoundTrip(r.dy);
  }

  lemma DeltaRoundTrip(d: int)
    requires -256 <= d <= 255
    ensures Delta(d < 0, d % 256) == d
  {
  }

  lemma DeltaSign(negative: bool, low: byte)
    ensures (Delta(negative, low) < 0) == negative && Delta(negative, low) % 256 == low
  {
  }

  lemma BitsOfContent(b0: byte, b1: byte, b2: byte)
    requires Bit(b0, FIRST_BYTE)
    ensures FirstByteBits(Content(Decode(b0, b1, b2))) == ToBits(b0, 8)
  {
    forall n | 0 <= n < 8 ensures ToBits(b0, 8)[n] == Bit(b0, n) {
      BitToBits(b0, 8, n);
    }
    DeltaSign(Bit(b0, MOUSE_X_SIGNAL), b1);
    DeltaSign(Bit(b0, MOUSE_Y_SIGNAL), b2);
  }

  /** No information is lost: a packet whose first byte has bit 3 set is determined by its content. */
  lemma EncodeDecode(b0: byte, b1: byte, b2: byte)
    requires Bit(b0, FIRST_BYTE)
    ensures EncodeReport(Content(Decode(b0, b1, b2))) == [b0, b1, b2]
  {
    assert Pow2(8) == 256;
    FromBitsToBits(b0, 8);
    BitsOfContent(b0, b1, b2);
    DeltaSign(Bit(b0, MOUSE_X_SIGNAL), b1);
    DeltaSign(Bit(b0, MOUSE_Y_SIGNAL), b2);
  }

  /** The same in numbers: the weight of every bit of the first byte. */
  lemma DecodeIs(b0: byte, b1: byte, b2: byte)
    ensures
      var p := Decode(b0, b1, b2);
      && p.bytes == [b0, b1, b2]
      && (p.lb <==> b0 % 2 == 1) && (p.rb <==> (b0 / 2) % 2 == 1) && (p.mb <==> (b0 / 4) % 2 == 1)
      && p.deltaX == b1 - (if (b0 / 16) % 2 == 1 then 256 else 0)
      && p.deltaY == b2 - (if (b0 / 32) % 2 == 1 then 256 else 0)
      && (p.xOv <==> (b0 / 64) % 2 == 1) && (p.yOv <==> (b0 / 128) % 2 == 1)
  {
    ByteBits(b0);
  }

  ghost predicate Garbage(bs: seq<byte>) {
    forall b | b in bs :: !Bit(b, FIRST_BYTE)
  }

  /** Garbage without bit 3 in front of a stream is skipped and changes nothing else. */
  lemma {:induction false} Resynchronise(garbage: seq<byte>, bs: seq<byte>)
    requires Garbage(garbage)
    ensures Frame(garbage + bs) == Frame(bs).(skipped := Frame(bs).skipped + |garbage|)
  {
    if garbage == [] {
      assert garbage + bs == bs;
    } else {
      assert (garbage + bs)[1..] == garbage[1..] + bs;
      Resynchronise(garbage[1..], bs);
    }
  }

  function Contents(ps: seq<Packet>): (rs: seq<Report>)
    ensures |rs| == |ps|
  {
    if ps == [] then [] else [Content(ps[0])] + Contents(ps[1..])
  }

  lemma {:induction false} FrameEncoded(rs: seq<Report>)
    requires forall r | r in rs :: NineBits(r)
    ensures
      var f := Frame(EncodeReports(rs));
      Contents(f.packets) == rs && f.rest == [] && f.skipped == 0
  {
    if rs != [] {
      var bs := EncodeReport(rs[0]);
      DecodeEncode(rs[0]);
      FrameEncoded(rs[1..]);
      assert (bs + EncodeReports(rs[1..]))[3..] == EncodeReports(rs[1..]);
      var f := Frame(EncodeReports(rs[1..]));
      var p := Decode(bs[0], bs[1], bs[2]);
      assert ([p] + f.packets)[1..] == f.packets;
      assert rs == [rs[0]] + rs[1..];
    }
  }

  /** Round trip with resynchronisation: reports encoded behind any garbage without bit 3 come out whole. */
  lemma {:induction false} FramingRoundTrip(garbage: seq<byte>, rs: seq<Report>)
    requires Garbage(garbage) && forall r | r in rs :: NineBits(r)
    ensures
      var f := Frame(garbage + EncodeReports(rs));
      Contents(f.packets) == rs && f.rest == [] && f.skipped == |garbage|
  {
    Resynchronise(garbage, EncodeReports(rs));
    FrameEncoded(rs);
  }

  // ----- the driver

  /** The driver's globals. `heard` is every byte the interrupt handler has passed on so far. */
  class Driver {
    var byteIndex: nat
    const mouseBytes: array<byte>
    var currentByte: byte
    var mousePacket: Packet
    ghost var heard: seq<byte>

    /** Between interrupts the buffer holds the packet begun at the end of what was heard. */
    ghost predicate Valid()
      reads this, mouseBytes
    {
      mouseBytes.Length == 3 && byteIndex <= 2 && Frame(heard).rest == mouseBytes[..byteIndex]
    }

    constructor ()
      ensures Valid() && fresh(mouseBytes) && heard == [] && currentByte == 0
    {
      byteIndex := 0;
      mouseBytes := new byte[3](_ => 0);
      currentByte := 0;
      mousePacket := Packet([0, 0, 0], false, false, false, false, false, 0, 0);
      heard := [];
    }

    /** The handler stores the byte it could read; after a failed read the last one stays. */
    method MouseIh(read: Option<byte>)
      modifies this`currentByte
      ensures currentByte == if read.Some? then read.value else old(currentByte)
    {
      if read.Some? {
        currentByte := read.value;
      }
    }

    /** A byte is dropped or appended; the buffer never overflows. */
    method MouseSyncBytes()
      requires mouseBytes.Length == 3 && byteIndex <= 2
      modifies this`byteIndex, mouseBytes
      ensures
        if old(byteIndex) == 0 && !Bit(currentByte, FIRST_BYTE) then byteIndex == 0
        else byteIndex == old(byteIndex) + 1 && mouseBytes[..byteIndex] == old(mouseBytes[..byteIndex]) + [currentByte]
    {
      if byteIndex == 0 && Bit(currentByte, FIRST_BYTE) {
        mouseBytes[byteIndex] := currentByte;
        byteIndex := byteIndex + 1;
      } else if byteIndex > 0 {
        mouseBytes[byteIndex] := currentByte;
        byteIndex := byteIndex + 1;
      }
    }

    method MouseBytesToPacket()
      requires mouseBytes.Length == 3
      modifies this`mousePacket
      ensures mousePacket == Decode(mouseBytes[0], mouseBytes[1], mouseBytes[2])
    {
      mousePacket := Decode(mouseBytes[0], mouseBytes[1], mouseBytes[2]);
    }

    /** One interrupt, failed reads included: the packets completed so far are those of the framing of
        everything heard, and `complete` says that this byte completed one. */
    method Interrupt(read: Option<byte>) returns (complete: bool)
      requires Valid()
      modifies this, mouseBytes
      ensures Valid()
      ensures currentByte == if read.Some? then read.value else old(currentByte)
      ensures heard == old(heard) + [currentByte]
      ensures Frame(heard).packets ==
              if complete then old(Frame(heard).packets) + [mousePacket] else old(Frame(heard).packets)
    {
      ghost var before := Frame(heard);
      MouseIh(read);
      assert before.rest == mouseBytes[..byteIndex];
      MouseSyncBytes();
      FrameSnoc(heard, currentByte);
      heard := heard + [currentByte];
      assert Frame(heard) == FrameByte(before, currentByte);
      complete := byteIndex == 3;
      if complete {
        assert mouseBytes[..3] == before.rest + [currentByte];
        assert mouseBytes[0] == before.rest[0] && mouseBytes[1] == before.rest[1] && mouseBytes[2] == currentByte;
        MouseBytesToPacket();
        byteIndex := 0;
        assert mouseBytes[..byteIndex] == [];
      }
    }
  }
}
