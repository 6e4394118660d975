/** The event loops of lab4.c: gesture, packet and idle-timeout tests. */
module MouseTests {
  import opened CTypes
  import opened MousePackets
  import opened Gesture
  import opened Interrupts

  /** The packets completed by the first `n` events. */
  function Packets(es: seq<Event>, n: nat): seq<Packet>
    requires n <= |es|
  {
    Frame(Heard(es, 0, n)).packets
  }

  /** The specification: frame, decode and fold what was heard. */
  ghost predicate Accepted(c: Config, es: seq<Event>, n: nat)
    requires n <= |es|
  {
    At(c, Packets(es, n), |Packets(es, n)|).state == E
  }

  /** Packets are only ever added. */
  lemma {:induction false} PacketsGrow(es: seq<Event>, i: nat, n: nat)
    requires i <= n <= |es|
    ensures Packets(es, i) <= Packets(es, n)
    decreases n
  {
    if i < n {
      PacketsGrow(es, i, n - 1);
      if es[n - 1].device {
        FrameSnoc(Heard(es, 0, n - 1), Held(es, 0, n));
      } else {
        assert Heard(es, 0, n) == Heard(es, 0, n - 1);
      }
    }
  }

  lemma {:induction false} AcceptedForever(c: Config, es: seq<Event>, i: nat, n: nat)
    requires i <= n <= |es| && Accepted(c, es, i)
    ensures Accepted(c, es, n)
  {
    PacketsGrow(es, i, n);
    var g, h := Packets(es, i), Packets(es, n);
    AtPrefix(c, g, h, |g|);
    EStays(c, h, |g|, |h|);
  }

  /** One mouse interrupt of the gesture test. */
  method Feed(c: Config, driver: Driver, recogniser: Recogniser, read: Option<byte>)
    requires driver.Valid()
    requires recogniser.View() == At(c, Frame(driver.heard).packets, |Frame(driver.heard).packets|)
    requires recogniser.currentState != E
    modifies driver, driver.mouseBytes, recogniser
    ensures driver.Valid()
    ensures driver.currentByte == if read.Some? then read.value else old(driver.currentByte)
    ensures driver.heard == old(driver.heard) + [driver.currentByte]
    ensures recogniser.View() == At(c, Frame(driver.heard).packets, |Frame(driver.heard).packets|)
    ensures recogniser.currentState == E ==>
      Recognised(c, Frame(driver.heard).packets, |Frame(driver.heard).packets|)
  {
    ghost var before := Frame(driver.heard).packets;
    var complete := driver.Interrupt(read);
    if complete {
      AtAppend(c, before, driver.mousePacket);
      recogniser.MouseStateUpdate(driver.mousePacket, c.xLen, c.tolerance);
    }
  }

  /** Byte-level refinement: fed interrupt by interrupt, the recogniser stops with exactly the event whose
      byte completes the packet at which framing, decoding and folding the whole stream first accepts;
      the packets heard by then are spoiled attempts and one gesture. */
  method MouseTestGesture(es: seq<Event>, xLen: byte, tolerance: byte) returns (used: nat, found: bool)
    ensures used <= |es|
    ensures found <==> Accepted(Config(xLen, tolerance), es, used)
    ensures !found ==> used == |es|
    ensures forall n | 0 <= n < used :: !Accepted(Config(xLen, tolerance), es, n)
    ensures found ==> Recognised(Config(xLen, tolerance), Packets(es, used), |Packets(es, used)|)
  {
    var c := Config(xLen, tolerance);
    var driver := new Driver();
    var recogniser := new Recogniser();
    used := 0;
    while used < |es| && recogniser.currentState != E
      invariant used <= |es|
      invariant driver.Valid() && fresh(driver) && fresh(driver.mouseBytes) && fresh(recogniser)
      invariant driver.heard == Heard(es, 0, used) && driver.currentByte == Held(es, 0, used)
      invariant recogniser.View() == At(c, Packets(es, used), |Packets(es, used)|)
      invariant used > 0 ==> !Accepted(c, es, used - 1)
      invariant recogniser.currentState == E ==> Recognised(c, Packets(es, used), |Packets(es, used)|)
    {
      assert !Accepted(c, es, used);
      if es[used].device {
        Feed(c, driver, recogniser, es[used].read);
      }
      used := used + 1;
    }
    found := recogniser.currentState == E;
    forall n | 0 <= n < used ensures !Accepted(c, es, n) {
      if Accepted(c, es, n) {
        AcceptedForever(c, es, n, used - 1);
      }
    }
  }

  /** One mouse interrupt of a test that shows every packet. */
  method Show(driver: Driver, read: Option<byte>, shown: seq<Packet>)
    returns (shown': seq<Packet>, complete: bool)
    requires driver.Valid() && shown == Frame(driver.heard).packets
    modifies driver, driver.mouseBytes
    ensures driver.Valid() && shown' == Frame(driver.heard).packets
    ensures |shown'| == |shown| + if complete then 1 else 0
    ensures driver.currentByte == if read.Some? then read.value else old(driver.currentByte)
    ensures driver.heard == old(driver.heard) + [driver.currentByte]
  {
    shown' := shown;
    complete := driver.Interrupt(read);
    if complete {
      shown' := shown + [driver.mousePacket];
    }
  }

  /** The packet test shows the packets of the stream in order and stops with the event that completes
      the last one asked for. */
  method MouseTestPacket(es: seq<Event>, cnt: u32) returns (used: nat, shown: seq<Packet>)
    ensures used <= |es| && shown == Packets(es, used)
    ensures |shown| <= cnt && (|shown| < cnt ==> used == |es|)
    ensures forall n | 0 <= n < used :: |Packets(es, n)| < cnt
  {
    var driver := new Driver();
    var left := cnt;
    used, shown := 0, [];
    while used < |es| && left != 0
      invariant used <= |es| && 0 <= left && left + |shown| == cnt
      invariant driver.Valid() && fresh(driver) && fresh(driver.mouseBytes)
      invariant driver.heard == Heard(es, 0, used) && driver.currentByte == Held(es, 0, used)
      invariant shown == Packets(es, used)
      invariant used > 0 ==> |Packets(es, used - 1)| < cnt
    {
      if es[used].device {
        var complete;
        shown, complete := Show(driver, es[used].read, shown);
        if complete {
          left := left - 1;
        }
      }
      used := used + 1;
    }
    forall n | 0 <= n < used ensures |Packets(es, n)| < cnt {
      PacketsGrow(es, n, used - 1);
    }
  }

  /** Within the first `n` events, `limit` ticks have passed without a mouse interrupt before the last of
      them: a tick that shares its event with a mouse interrupt does not count afterwards. */
  ghost predicate MouseIdle(es: seq<Event>, limit: nat, n: nat)
    requires n <= |es|
  {
    exists j: nat | j <= n :: (forall i | j <= i < n - 1 :: !es[i].device) && Ticks(es, j, n) >= limit
  }

  /** None of the first `n` prefixes has timed out. */
  ghost predicate Awake(es: seq<Event>, limit: nat, n: nat)
    requires n <= |es|
  {
    limit > 0 ==> forall i | 0 <= i < n :: !MouseIdle(es, limit, i)
  }

  /** The counter holds the ticks since the last mouse interrupt, and they are too few. */
  ghost predicate Counting(es: seq<Event>, limit: nat, counter: nat, last: nat, n: nat)
    requires n <= |es|
  {
    && last <= n && (last == 0 || es[last - 1].device) && (forall i | last <= i < n :: !es[i].device)
    && counter == Ticks(es, last, n) && (limit > 0 ==> counter < limit)
  }

  lemma {:induction false} MouseIdleSince(es: seq<Event>, limit: nat, counter: nat, last: nat, n: nat)
    requires n < |es| && Counting(es, limit, counter, last, n)
    ensures MouseIdle(es, limit, n + 1) <==> counter + (if es[n].tick then 1 else 0) >= limit
  {
    assert Ticks(es, last, n + 1) == counter + if es[n].tick then 1 else 0;
    if MouseIdle(es, limit, n + 1) {
      var j: nat :| j <= n + 1 && (forall i | j <= i < n :: !es[i].device) && Ticks(es, j, n + 1) >= limit;
      assert last <= j;
      TicksMonotone(es, last, j, n + 1);
    }
  }

  /** The async test times out with the first event at which 60 * idleTime ticks have passed since the last
      mouse interrupt, and never when idleTime is zero. */
  method MouseTestAsync(es: seq<Event>, idleTime: byte) returns (used: nat, timedOut: bool, shown: seq<Packet>)
    ensures used <= |es| && (!timedOut ==> used == |es|)
    ensures timedOut <==> idleTime > 0 && MouseIdle(es, 60 * idleTime, used)
    ensures Awake(es, 60 * idleTime, used)
    ensures timedOut ==> used > 0
    ensures shown == Packets(es, if timedOut then used - 1 else used)
  {
    var driver := new Driver();
    var limit := idleTime * 60;
    var counter := 0;
    var running := true;
    ghost var last, served := 0, 0;
    used, shown := 0, [];
    while running && used < |es|
      invariant served <= used <= |es| && used == if running then served else served + 1
      invariant driver.Valid() && fresh(driver) && fresh(driver.mouseBytes)
      invariant driver.heard == Heard(es, 0, served) && driver.currentByte == Held(es, 0, served)
      invariant shown == Frame(driver.heard).packets
      invariant running ==> Counting(es, limit, counter, last, used)
      invariant limit > 0 ==> running == !MouseIdle(es, limit, used)
      invariant !running ==> limit > 0
      invariant Awake(es, limit, used)
    {
      MouseIdleSince(es, limit, counter, last, used);
      assert Awake(es, limit, used + 1);
      if es[used].tick {
        counter := counter + 1;
        running := limit != counter;
      }
      if running {
        if es[used].device {
          counter := 0;
          last := used + 1;
          var complete;
          shown, complete := Show(driver, es[used].read, shown);
        }
        served := used + 1;
      }
      used := used + 1;
    }
    timedOut := !running;
  }
}
