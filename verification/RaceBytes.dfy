/** The race over real byte lines: every byte-by-byte session is a session of whole messages. */
module RaceBytes {
  import opened CTypes
  import opened RacePeer
  import opened RaceSession

  datatype Station = Station(peer: Peer, link: Link)

  datatype ByteSession = ByteSession(a: Station, b: Station, ab: seq<byte>, ba: seq<byte>)

  const BYTE_START := ByteSession(Station(FRESH_PEER, IDLE_LINK), Station(FRESH_PEER, IDLE_LINK), [], [])

  function ByteMirror(s: ByteSession): ByteSession {
    ByteSession(s.b, s.a, s.ba, s.ab)
  }

  /** A move of player `a`; delivering is of one byte. */
  function ByteStep(s: ByteSession, m: Move): ByteSession {
    match m
    case PressButton(now) =>
      var (p, sent) := Press(s.a.peer, now);
      s.(a := s.a.(peer := p), ab := s.ab + EncodeAll(sent))
    case Deliver =>
      if s.ba == [] then s else
      var (l, o) := LinkByte(s.a.link, s.ba[0]);
      if o == None then s.(a := s.a.(link := l), ba := s.ba[1..])
      else
        var (p, sent) := Receive(s.a.peer, o.value);
        s.(a := Station(p, l), ab := s.ab + EncodeAll(sent), ba := s.ba[1..])
    case Start => s.(a := s.a.(peer := StartTyping(s.a.peer)))
    case Finish =>
      var (p, sent) := FinishTyping(s.a.peer);
      s.(a := s.a.(peer := p), ab := s.ab + EncodeAll(sent))
  }

  function ByteAct(s: ByteSession, x: Action): ByteSession {
    if x.left then ByteStep(s, x.move) else ByteMirror(ByteStep(ByteMirror(s), x.move))
  }

  function ByteRun(xs: seq<Action>): ByteSession {
    if xs == [] then BYTE_START else ByteAct(ByteRun(xs[..|xs| - 1]), xs[|xs| - 1])
  }

  /** The messages a receiver will extract from the bytes under way. */
  function Pending(l: Link, bytes: seq<byte>): seq<Message>
    decreases |bytes|
  {
    if bytes == [] then []
    else
      var (l', o) := LinkByte(l, bytes[0]);
      (if o == None then [] else [o.value]) + Pending(l', bytes[1..])
  }

  function LinkAfter(l: Link, bytes: seq<byte>): Link
    decreases |bytes|
  {
    if bytes == [] then l else LinkAfter(LinkByte(l, bytes[0]).0, bytes[1..])
  }

  /** The whole-message session behind a byte session. */
  function Messages(s: ByteSession): Session {
    Session(s.a.peer, s.b.peer, Pending(s.b.link, s.ab), Pending(s.a.link, s.ba))
  }

  /** The bytes under way complete the frame being received and are otherwise whole frames. */
  ghost predicate Framed(s: ByteSession) {
    LinkAfter(s.b.link, s.ab) == IDLE_LINK && LinkAfter(s.a.link, s.ba) == IDLE_LINK
  }

  ghost predicate ByteEnabled(s: ByteSession, m: Move) {
    match m
    case Deliver => s.ba != []
    case _ => Enabled(Messages(s), m)
  }

  ghost predicate ByteDisciplined(xs: seq<Action>) {
    xs == [] ||
    (var s, x := ByteRun(xs[..|xs| - 1]), xs[|xs| - 1];
     ByteDisciplined(xs[..|xs| - 1]) &&
     if x.left then ByteEnabled(s, x.move) else ByteEnabled(ByteMirror(s), x.move))
  }

  lemma {:induction false} PendingAppend(l: Link, x: seq<byte>, y: seq<byte>)
    ensures Pending(l, x + y) == Pending(l, x) + Pending(LinkAfter(l, x), y)
    ensures LinkAfter(l, x + y) == LinkAfter(LinkAfter(l, x), y)
    decreases |x|
  {
    if x == [] {
      assert x + y == y;
    } else {
      assert (x + y)[1..] == x[1..] + y;
      PendingAppend(LinkByte(l, x[0]).0, x[1..], y);
    }
  }

  /** The last bytes of a seed complete it. */
  lemma {:induction false} PendingPayload(bits: seq<byte>, rest: seq<byte>)
    requires |bits| + |rest| == 8 && rest != []
    ensures FromLE(bits + rest) < 0x1_0000_0000_0000_0000
    ensures Pending(Link(INFO_ULONG, bits), rest) == [Seed(FromLE(bits + rest))]
    ensures LinkAfter(Link(INFO_ULONG, bits), rest) == IDLE_LINK
    decreases |rest|
  {
    PowersOf256();
    FromLEBound(bits + rest);
    assert bits + [rest[0]] + rest[1..] == bits + rest;
    if |rest| == 1 {
      assert bits + [rest[0]] == bits + rest;
    } else {
      PendingPayload(bits + [rest[0]], rest[1..]);
    }
  }

  /** A number of any kind is over after its four or eight bytes and not before; only seeds are looked at. */
  lemma {:induction false} NumberFrame(header: byte, bits: seq<byte>, rest: seq<byte>)
    requires 0xF2 <= header <= 0xF7
    requires |bits| + |rest| <= (if header in {0xF4, 0xF5, 0xF6} then 4 else 8) && rest != []
    ensures
      var whole, l := |bits| + |rest| == if header in {0xF4, 0xF5, 0xF6} then 4 else 8, Link(header, bits);
      && LinkAfter(l, rest) == (if whole then IDLE_LINK else Link(header, bits + rest))
      && |Pending(l, rest)| == (if whole then 1 else 0)
      && (whole && header != 0xF2 ==> Pending(l, rest) == [Data])
      && (whole && header == 0xF2 ==>
            Pending(l, rest)[0].Seed? && Pending(l, rest)[0].value == FromLE(bits + rest))
    decreases |rest|
  {
    var bits' := bits + [rest[0]];
    assert bits' + rest[1..] == bits + rest;
    if |rest| == 1 {
      assert rest[1..] == [] && bits + rest == bits';
    } else {
      NumberFrame(header, bits', rest[1..]);
    }
  }

  /** Framing round trip: an idle receiver takes exactly the message that was sent. */
  lemma PendingEncode(m: Message)
    requires Sendable(m)
    ensures Pending(IDLE_LINK, Encode(m)) == [m] && LinkAfter(IDLE_LINK, Encode(m)) == IDLE_LINK
  {
    if m.Seed? {
      var payload := ToLE(m.value, 8);
      FromLEToLE(m.value, 8);
      PowersOf256();
      assert [] + payload == payload;
      PendingPayload([], payload);
      assert Encode(m)[1..] == payload;
    } else {
      assert Encode(m)[1..] == [];
    }
  }

  lemma {:induction false} PendingEncodeAll(ms: seq<Message>)
    requires forall m | m in ms :: Sendable(m)
    ensures Pending(IDLE_LINK, EncodeAll(ms)) == ms && LinkAfter(IDLE_LINK, EncodeAll(ms)) == IDLE_LINK
  {
    if ms != [] {
      PendingEncode(ms[0]);
      PendingEncodeAll(ms[1..]);
      PendingAppend(IDLE_LINK, Encode(ms[0]), EncodeAll(ms[1..]));
      assert ms == [ms[0]] + ms[1..];
    }
  }

  /** Appending sent frames to a framed line appends the messages. */
  lemma {:induction false} SendAll(l: Link, bytes: seq<byte>, ms: seq<Message>)
    requires LinkAfter(l, bytes) == IDLE_LINK && forall m | m in ms :: Sendable(m)
    ensures Pending(l, bytes + EncodeAll(ms)) == Pending(l, bytes) + ms
    ensures LinkAfter(l, bytes + EncodeAll(ms)) == IDLE_LINK
  {
    PendingAppend(l, bytes, EncodeAll(ms));
    PendingEncodeAll(ms);
  }

  /** A byte either is inside a frame, and nothing happens, or completes the next message, and exactly
      the whole-message delivery happens. Every other move is the same in both sessions. */
  lemma {:induction false} ByteStepRefines(s: ByteSession, m: Move)
    requires Framed(s) && ByteEnabled(s, m)
    ensures Framed(ByteStep(s, m))
    ensures
      var t := Messages(ByteStep(s, m));
      || (t == Step(Messages(s), m) && Enabled(Messages(s), m))
      || (m.Deliver? && t == Messages(s))
  {
    match m
    case PressButton(now) => SendAll(s.b.link, s.ab, Press(s.a.peer, now).1);
    case Deliver =>
      var (l, o) := LinkByte(s.a.link, s.ba[0]);
      if o != None {
        SendAll(s.b.link, s.ab, Receive(s.a.peer, o.value).1);
        assert Pending(s.a.link, s.ba)[1..] == Pending(l, s.ba[1..]);
      } else {
        assert Pending(s.a.link, s.ba) == Pending(l, s.ba[1..]);
      }
    case Start =>
    case Finish => SendAll(s.b.link, s.ab, FinishTyping(s.a.peer).1);
  }

  /** The same number of presses by each player, and a real clock stays one. */
  ghost predicate SamePresses(xs: seq<Action>, ys: seq<Action>) {
    && PressesBy(true, ys) == PressesBy(true, xs) && PressesBy(false, ys) == PressesBy(false, xs)
    && (RealClock(xs) ==> RealClock(ys))
  }

  lemma {:induction false} PressesExtend(xs: seq<Action>, ys: seq<Action>, x: Action)
    requires SamePresses(xs, ys)
    ensures SamePresses(xs + [x], ys + [x])
    ensures !x.move.PressButton? ==> SamePresses(xs + [x], ys)
  {
    assert (xs + [x])[..|xs|] == xs && (ys + [x])[..|ys|] == ys;
    if RealClock(xs + [x]) {
      assert forall z | z in xs :: z in xs + [x];
      assert x in xs + [x];
    }
  }

  /** Every disciplined byte run has a disciplined run of whole messages with the same players and presses. */
  lemma {:induction false} ByteRunRefines(xs: seq<Action>) returns (ys: seq<Action>)
    requires ByteDisciplined(xs)
    ensures Framed(ByteRun(xs))
    ensures Disciplined(START, ys) && Run(START, ys) == Messages(ByteRun(xs))
    ensures SamePresses(xs, ys)
  {
    if xs == [] {
      ys := [];
    } else {
      var zs, x := xs[..|xs| - 1], xs[|xs| - 1];
      ys := ByteRunRefines(zs);
      assert xs == zs + [x];
      PressesExtend(zs, ys, x);
      var s := ByteRun(zs);
      if x.left {
        ByteStepRefines(s, x.move);
      } else {
        ByteStepRefines(ByteMirror(s), x.move);
        assert Messages(ByteMirror(s)) == Mirror(Messages(s));
      }
      if Messages(ByteRun(xs)) != Messages(s) || !x.move.Deliver? {
        RunExtend(ys, x);
        ys := ys + [x];
      }
    }
  }

  /** Seed agreement on the wire: two machines that have left unready generated the same text, whatever
      the interleaving of single bytes. */
  lemma {:induction false} ByteSeedAgreement(xs: seq<Action>)
    requires ByteDisciplined(xs)
    ensures
      var s := ByteRun(xs);
      && |s.a.peer.texts| <= 1 && |s.b.peer.texts| <= 1
      && (s.a.peer.status != Unready && s.b.peer.status != Unready ==>
            s.a.peer.texts == s.b.peer.texts == [(s.a.peer.seedMe + s.b.peer.seedMe) % 0x1_0000_0000])
  {
    var ys := ByteRunRefines(xs);
    SeedAgreement(ys);
  }

  // ----- how a session of bytes ends

  /** Every byte under way, and twice the work of the messages they make. */
  function ByteWeight(s: ByteSession): nat {
    |s.ab| + |s.ba| + 2 * Weight(Messages(s))
  }

  lemma AnswerLength(p: Peer, m: Message)
    requires IsRequest(m) || IsAck(m) || m.Won?
    ensures |EncodeAll(Receive(p, m).1)| <= 1
  {
    var sent := Receive(p, m).1;
    if sent != [] {
      assert sent == [sent[0]];
      EncodeOne(sent[0]);
    }
  }

  lemma PressLength(p: Peer, now: u64)
    ensures |EncodeAll(Press(p, now).1)| <= 10
  {
    EncodeOne(NReadyMsg);
    EncodeOne(Seed(now));
    assert [ReadyMsg, Seed(now)][1..] == [Seed(now)];
  }

  /** A byte that completes a message makes exactly the delivery of that message. */
  lemma {:induction false} LastByte(s: ByteSession)
    requires Framed(s) && s.ba != [] && LinkByte(s.a.link, s.ba[0]).1.Some?
    ensures
      var m := LinkByte(s.a.link, s.ba[0]).1.value;
      && Messages(s).ba != [] && Messages(s).ba[0] == m
      && Messages(ByteStep(s, Deliver)) == Step(Messages(s), Deliver)
      && |ByteStep(s, Deliver).ab| == |s.ab| + |EncodeAll(Receive(s.a.peer, m).1)|
      && |ByteStep(s, Deliver).ba| == |s.ba| - 1
  {
    var (l, o) := LinkByte(s.a.link, s.ba[0]);
    SendAll(s.b.link, s.ab, Receive(s.a.peer, o.value).1);
    assert Messages(s).ba[1..] == Pending(l, s.ba[1..]);
  }

  lemma {:induction false} LastByteWeight(s: ByteSession)
    requires Framed(s) && Inv(Messages(s)) && s.ba != [] && LinkByte(s.a.link, s.ba[0]).1.Some?
    ensures ByteWeight(ByteStep(s, Deliver)) < ByteWeight(s)
  {
    var m := LinkByte(s.a.link, s.ba[0]).1.value;
    LastByte(s);
    assert m in Messages(s).ba;
    AnswerLength(s.a.peer, m);
    assert Weight(Step(Messages(s), Deliver)) < Weight(Messages(s)) by {
      DeliverWeight(Messages(s));
    }
  }

  lemma {:induction false} ByteDeliverWeight(s: ByteSession)
    requires Framed(s) && Inv(Messages(s)) && s.ba != []
    ensures ByteWeight(ByteStep(s, Deliver)) < ByteWeight(s)
  {
    var (l, o) := LinkByte(s.a.link, s.ba[0]);
    if o != None {
      LastByteWeight(s);
    } else {
      assert Pending(s.a.link, s.ba) == Pending(l, s.ba[1..]);
    }
  }

  lemma {:induction false} ByteStepWeight(s: ByteSession, m: Move)
    requires Framed(s) && Inv(Messages(s)) && ByteEnabled(s, m)
    ensures m.PressButton? ==> ByteWeight(ByteStep(s, m)) <= ByteWeight(s) + 18
    ensures !m.PressButton? ==> ByteWeight(ByteStep(s, m)) < ByteWeight(s)
  {
    if m.Deliver? {
      ByteDeliverWeight(s);
    } else {
      ByteStepRefines(s, m);
      StepWeight(Messages(s), m);
      if m.PressButton? {
        PressLength(s.a.peer, m.now);
      }
      EncodeOne(Won);
    }
  }

  /** A session with k presses takes at most 19k + 16 moves of single bytes. */
  lemma {:induction false} ByteSessionLength(xs: seq<Action>)
    requires ByteDisciplined(xs)
    ensures |xs| + ByteWeight(ByteRun(xs)) <= 19 * (PressesBy(true, xs) + PressesBy(false, xs)) + 16
  {
    if xs != [] {
      var zs, x := xs[..|xs| - 1], xs[|xs| - 1];
      ByteSessionLength(zs);
      var ys := ByteRunRefines(zs);
      RunKeepsInv(ys);
      var s := ByteRun(zs);
      if x.left {
        ByteStepWeight(s, x.move);
      } else {
        assert Messages(ByteMirror(s)) == Mirror(Messages(s));
        ByteStepWeight(ByteMirror(s), x.move);
        var t := ByteStep(ByteMirror(s), x.move);
        assert Messages(ByteMirror(t)) == Mirror(Messages(t));
      }
    }
  }

  /** Race progress on the wire: if each player presses once, every schedule of single bytes ends after at most
      54 moves, and when all bytes are delivered both players have left unready with the same text. */
  lemma {:induction false} ByteRaceProgress(xs: seq<Action>)
    requires ByteDisciplined(xs) && RealClock(xs)
    requires PressesBy(true, xs) == 1 && PressesBy(false, xs) == 1
    ensures |xs| <= 54
    ensures
      var s := ByteRun(xs);
      s.ab == [] && s.ba == [] ==>
        && s.a.peer.status != Unready && s.b.peer.status != Unready
        && s.a.peer.texts == s.b.peer.texts == [TextSeed(s.a.peer.seedMe, s.b.peer.seedMe)]
  {
    ByteSessionLength(xs);
    var ys := ByteRunRefines(xs);
    RaceProgress(ys);
  }
}
