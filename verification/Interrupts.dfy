/** Interrupt notifications: a timer tick and a device interrupt may arrive in one message. */
module Interrupts {
  import opened CTypes

  /** `read` is what reading the device's byte gave, if there was a device interrupt. */
  datatype Event = Event(tick: bool, device: bool, read: Option<byte>)

  /** Ticks among the events j, ..., n - 1. */
  function Ticks(es: seq<Event>, j: nat, n: nat): nat
    requires j <= n <= |es|
    decreases n
  {
    if j == n then 0 else Ticks(es, j, n - 1) + if es[n - 1].tick then 1 else 0
  }

  lemma {:induction false} TicksMonotone(es: seq<Event>, i: nat, j: nat, n: nat)
    requires i <= j <= n <= |es|
    ensures Ticks(es, j, n) <= Ticks(es, i, n)
    decreases n
  {
    if j < n {
      TicksMonotone(es, i, j, n - 1);
    }
  }

  /** Device interrupts among the first `n` events, as far as their bytes could be read: the byte the
      driver holds after each, starting from `held`. */
  function Heard(es: seq<Event>, held: byte, n: nat): seq<byte>
    requires n <= |es|
  {
    if n == 0 then []
    else if es[n - 1].device then Heard(es, held, n - 1) + [Held(es, held, n)]
    else Heard(es, held, n - 1)
  }

  /** The byte the driver holds after `n` events. */
  function Held(es: seq<Event>, held: byte, n: nat): byte
    requires n <= |es|
  {
    if n == 0 then held
    else if es[n - 1].device && es[n - 1].read.Some? then es[n - 1].read.value
    else Held(es, held, n - 1)
  }

  /** The events j, ..., n - 1 that carry a tick. */
  function Ticking(es: seq<Event>, j: nat, n: nat): set<nat>
    requires j <= n <= |es|
  {
    set i: nat | j <= i < n && es[i].tick
  }

  /** Ticks are the events that carry one. */
  lemma {:induction false} TicksAre(es: seq<Event>, j: nat, n: nat)
    requires j <= n <= |es|
    ensures Ticks(es, j, n) == |Ticking(es, j, n)|
    decreases n
  {
    if j < n {
      TicksAre(es, j, n - 1);
      var before := Ticking(es, j, n - 1);
      assert Ticking(es, j, n) == if es[n - 1].tick then before + {n - 1} else before;
    } else {
      assert Ticking(es, j, n) == {};
    }
  }

  /** Device interrupts among the first `n` events. */
  function Devices(es: seq<Event>, n: nat): nat
    requires n <= |es|
  {
    if n == 0 then 0 else Devices(es, n - 1) + if es[n - 1].device then 1 else 0
  }

  /** Every device interrupt, and nothing else, is heard: as the byte read, or, when the read failed, as the byte
      heard last before. */
  lemma {:induction false} HeardAt(es: seq<Event>, held: byte, i: nat, n: nat)
    requires i < n <= |es| && es[i].device
    ensures |Heard(es, held, n)| == Devices(es, n) && Devices(es, i) < Devices(es, n)
    ensures
      var k, bs := Devices(es, i), Heard(es, held, n);
      bs[k] == if es[i].read.Some? then es[i].read.value else if k > 0 then bs[k - 1] else held
    decreases n
  {
    HeardLast(es, held, i);
    HeardLast(es, held, n - 1);
    if i < n - 1 {
      HeardAt(es, held, i, n - 1);
    }
  }

  /** The byte held is the one heard last. */
  lemma {:induction false} HeardLast(es: seq<Event>, held: byte, n: nat)
    requires n <= |es|
    ensures |Heard(es, held, n)| == Devices(es, n)
    ensures Held(es, held, n) == if Devices(es, n) > 0 then Heard(es, held, n)[Devices(es, n) - 1] else held
  {
    if n > 0 {
      HeardLast(es, held, n - 1);
    }
  }
}
