/** Keyboard scanners: assembling scancodes, by interrupt, by polling and with a timeout (lab3.c). */
module Keyboard {
  import opened CTypes
  import opened Interrupts

  const TWO_BYTES: byte := 0xE0
  const BREAK_ESC: byte := 0x81

  /** A complete scancode: its last byte, and whether the E0 prefix precedes it. */
  datatype Code = Code(twoBytes: bool, last: byte)

  /** What is printed for a scancode. */
  datatype Shown = Shown(make: bool, bytes: seq<byte>)

  function Show(c: Code): Shown {
    Shown(!Bit(c.last, 7), if c.twoBytes then [TWO_BYTES, c.last] else [c.last])
  }

  function ShowAll(cs: seq<Code>): seq<Shown> {
    if cs == [] then [] else [Show(cs[0])] + ShowAll(cs[1..])
  }

  /** The scancodes in a byte stream; `prefixed` says whether an E0 came just before. */
  function Codes(prefixed: bool, bs: seq<byte>): seq<Code>
    decreases |bs|
  {
    if bs == [] then []
    else if bs[0] == TWO_BYTES then Codes(true, bs[1..])
    else [Code(prefixed, bs[0])] + Codes(false, bs[1..])
  }

  predicate PrefixedAfter(prefixed: bool, bs: seq<byte>) {
    if bs == [] then prefixed else bs[|bs| - 1] == TWO_BYTES
  }

  lemma {:induction false} CodesAppend(prefixed: bool, x: seq<byte>, y: seq<byte>)
    ensures Codes(prefixed, x + y) == Codes(prefixed, x) + Codes(PrefixedAfter(prefixed, x), y)
    decreases |x|
  {
    if x == [] {
      assert x + y == y;
    } else {
      assert (x + y)[1..] == x[1..] + y;
      CodesAppend(x[0] == TWO_BYTES, x[1..], y);
    }
  }

  /** The stream up to and including the first BREAK_ESC. */
  function UpToEsc(bs: seq<byte>): seq<byte> {
    if bs == [] then [] else if bs[0] == BREAK_ESC then [bs[0]] else [bs[0]] + UpToEsc(bs[1..])
  }

  lemma {:induction false} UpToEscSplit(x: seq<byte>, y: seq<byte>)
    requires forall i | 0 <= i < |x| - 1 :: x[i] != BREAK_ESC
    requires (x != [] && x[|x| - 1] == BREAK_ESC) || y == []
    ensures UpToEsc(x + y) == x
  {
    if x != [] {
      assert (x + y)[1..] == x[1..] + y;
      if |x| > 1 {
        UpToEscSplit(x[1..], y);
      } else if y == [] {
        assert x[1..] + y == [];
      }
    } else {
      assert x + y == [];
    }
  }

  // ----- round trip

  function Flatten(cs: seq<Code>): seq<byte> {
    if cs == [] then []
    else (if cs[0].twoBytes then [0xE0, cs[0].last] else [cs[0].last]) + Flatten(cs[1..])
  }

  /** The codes up to and including the first that ends in BREAK_ESC. */
  function CodesUpToEsc(cs: seq<Code>): seq<Code> {
    if cs == [] then []
    else if cs[0].last == 0x81 then [cs[0]]
    else [cs[0]] + CodesUpToEsc(cs[1..])
  }

  lemma LastByte(c: Code)
    requires c.last != TWO_BYTES
    ensures Codes(c.twoBytes, [c.last]) == [c]
  {
    assert [c.last][1..] == [];
  }

  /** Scancode round trip: of a list of codes that use E0 only as a prefix, the scanners report exactly
      the codes up to and including the first that ends in BREAK_ESC. */
  lemma {:induction false} ScancodeRoundTrip(cs: seq<Code>)
    requires forall c | c in cs :: c.last != 0xE0
    ensures Codes(false, UpToEsc(Flatten(cs))) == CodesUpToEsc(cs)
  {
    if cs != [] {
      var c, rest := cs[0], Flatten(cs[1..]);
      var head := if c.twoBytes then [TWO_BYTES, c.last] else [c.last];
      assert Flatten(cs) == head + rest && c in cs;
      assert Codes(false, head) == [c] by {
        LastByte(c);
        assert c.twoBytes ==> head[1..] == [c.last];
      }
      if c.last == BREAK_ESC {
        UpToEscSplit(head, rest);
      } else {
        ScancodeRoundTrip(cs[1..]);
        UpToEscSkip(head, rest);
        CodesAppend(false, head, UpToEsc(rest));
      }
    }
  }

  lemma {:induction false} UpToEscSkip(x: seq<byte>, y: seq<byte>)
    requires forall i | 0 <= i < |x| :: x[i] != BREAK_ESC
    ensures UpToEsc(x + y) == x + UpToEsc(y)
  {
    if x == [] {
      assert x + y == y;
    } else {
      assert (x + y)[1..] == x[1..] + y;
      UpToEscSkip(x[1..], y);
    }
  }

  /** Repeated prefix bytes act as one. */
  lemma {:induction false} RepeatedPrefix(prefixed: bool, x: seq<byte>, y: seq<byte>)
    ensures Codes(prefixed, x + [TWO_BYTES, TWO_BYTES] + y) == Codes(prefixed, x + [TWO_BYTES] + y)
  {
    var one, two := [TWO_BYTES] + y, [TWO_BYTES, TWO_BYTES] + y;
    assert x + [TWO_BYTES, TWO_BYTES] + y == x + two && x + [TWO_BYTES] + y == x + one;
    CodesAppend(prefixed, x, one);
    CodesAppend(prefixed, x, two);
    assert two[1..] == one && one[1..] == y;
  }

  // ----- the scanners

  /** The scancode globals of the three tests. */
  // ----- what is shown

  /** Every scancode shown is a make code exactly when its last byte is below 0x80, and has one byte or, after E0,
      two. */
  ghost predicate WellShown(shown: seq<Shown>) {
    forall s | s in shown :: WellMade(s)
  }

  predicate WellMade(s: Shown) {
    && 1 <= |s.bytes| <= 2 && (|s.bytes| == 2 ==> s.bytes[0] == 0xE0)
    && (s.make <==> s.bytes[|s.bytes| - 1] < 0x80)
  }

  /** All the bytes shown. */
  function BytesOf(shown: seq<Shown>): seq<byte> {
    if shown == [] then [] else shown[0].bytes + BytesOf(shown[1..])
  }

  lemma CodeShown(c: Code)
    ensures WellMade(Show(c))
  {
    ByteBits(c.last);
  }

  lemma {:induction false} ShownWell(cs: seq<Code>)
    ensures WellShown(ShowAll(cs)) && BytesOf(ShowAll(cs)) == Flatten(cs)
  {
    if cs != [] {
      CodeShown(cs[0]);
      ShownWell(cs[1..]);
      assert ([Show(cs[0])] + ShowAll(cs[1..]))[1..] == ShowAll(cs[1..]);
    }
  }

  /** What is shown of a list of codes that use E0 only as a prefix are the very bytes of the stream, up to and
      including the first code that ends in 0x81. */
  lemma {:induction false} ShownRoundTrip(cs: seq<Code>)
    requires forall c | c in cs :: c.last != 0xE0
    ensures
      var shown := ShowAll(Codes(false, UpToEsc(Flatten(cs))));
      && BytesOf(shown) == UpToEsc(Flatten(cs)) == Flatten(CodesUpToEsc(cs))
      && |shown| == |CodesUpToEsc(cs)| && WellShown(shown)
  {
    ScancodeRoundTrip(cs);
    ShownWell(CodesUpToEsc(cs));
    EscFlattened(cs);
    ShownLength(CodesUpToEsc(cs));
  }

  lemma {:induction false} ShownLength(cs: seq<Code>)
    ensures |ShowAll(cs)| == |cs|
  {
    if cs != [] {
      ShownLength(cs[1..]);
    }
  }

  lemma {:induction false} EscFlattened(cs: seq<Code>)
    requires forall c | c in cs :: c.last != 0xE0
    ensures UpToEsc(Flatten(cs)) == Flatten(CodesUpToEsc(cs))
  {
    if cs != [] {
      var c, rest := cs[0], Flatten(cs[1..]);
      var head := if c.twoBytes then [0xE0, c.last] else [c.last];
      if c.last == BREAK_ESC {
        UpToEscSplit(head, rest);
        assert Flatten([c]) == head + [];
      } else {
        EscFlattened(cs[1..]);
        UpToEscSkip(head, rest);
        assert ([c] + CodesUpToEsc(cs[1..]))[1..] == CodesUpToEsc(cs[1..]);
      }
    }
  }

  class Scanner {
    var scancode: byte
    var isTwoBytes: bool
    var shown: seq<Shown>

    /** The scanner has taken in the bytes `bs`. */
    ghost predicate Took(bs: seq<byte>)
      reads this
    {
      shown == ShowAll(Codes(false, bs)) && isTwoBytes == PrefixedAfter(false, bs)
    }

    constructor ()
      ensures scancode == 0 && Took([])
    {
      scancode, isTwoBytes, shown := 0, false, [];
    }

    /** The common body of the scanners: a prefix is remembered, any other byte completes a code. */
    method Assemble(ghost bs: seq<byte>)
      requires Took(bs)
      modifies this`isTwoBytes, this`shown
      ensures Took(bs + [scancode])
    {
      CodesAppend(false, bs, [scancode]);
      ShowAllAppend(Codes(false, bs), Codes(PrefixedAfter(false, bs), [scancode]));
      if scancode == TWO_BYTES {
        isTwoBytes := true;
      } else {
        if isTwoBytes {
          shown := shown + [Shown(!Bit(scancode, 7), [TWO_BYTES, scancode])];
        } else {
          shown := shown + [Shown(!Bit(scancode, 7), [scancode])];
        }
        isTwoBytes := false;
      }
    }

    /** One keyboard interrupt: after a failed read the last byte is taken once more. */
    method Listen(read: Option<byte>, ghost es: seq<Event>, ghost n: nat)
      requires n < |es| && es[n].device && es[n].read == read
      requires Took(Heard(es, 0, n)) && scancode == Held(es, 0, n)
      modifies this
      ensures Took(Heard(es, 0, n + 1)) && scancode == Held(es, 0, n + 1)
    {
      scancode := read.GetOr(scancode);
      Assemble(Heard(es, 0, n));
    }
  }

  lemma {:induction false} ShowAllAppend(x: seq<Code>, y: seq<Code>)
    ensures ShowAll(x + y) == ShowAll(x) + ShowAll(y)
  {
    if x == [] {
      assert x + y == y;
    } else {
      assert (x + y)[1..] == x[1..] + y;
      ShowAllAppend(x[1..], y);
    }
  }

  /** No BREAK_ESC before the last byte, which the scanner holds. */
  ghost predicate NotYetEsc(bs: seq<byte>, scancode: byte) {
    && (forall i | 0 <= i < |bs| - 1 :: bs[i] != BREAK_ESC)
    && scancode == if bs == [] then 0 else bs[|bs| - 1]
  }

  lemma {:induction false} HeardGrows(es: seq<Event>, i: nat, n: nat)
    requires i <= n <= |es|
    ensures Heard(es, 0, i) <= Heard(es, 0, n)
    decreases n
  {
    if i < n {
      HeardGrows(es, i, n - 1);
    }
  }

  /** The interrupt scanner: stale bytes of failed reads included, it shows the codes of everything heard
      up to and including the first BREAK_ESC. */
  method KbdTestScan(es: seq<Event>) returns (used: nat, shown: seq<Shown>)
    ensures used <= |es|
    ensures shown == ShowAll(Codes(false, UpToEsc(Heard(es, 0, |es|))))
    ensures Heard(es, 0, used) == UpToEsc(Heard(es, 0, |es|)) && WellShown(shown)
  {
    var scanner := new Scanner();
    used := 0;
    while used < |es| && scanner.scancode != BREAK_ESC
      invariant used <= |es| && fresh(scanner)
      invariant scanner.Took(Heard(es, 0, used))
      invariant scanner.scancode == Held(es, 0, used) && NotYetEsc(Heard(es, 0, used), scanner.scancode)
    {
      if es[used].device {
        scanner.Listen(es[used].read, es, used);
      }
      used := used + 1;
    }
    shown := scanner.shown;
    ShownWell(Codes(false, Heard(es, 0, used)));
    ghost var all, mine := Heard(es, 0, |es|), Heard(es, 0, used);
    HeardGrows(es, used, |es|);
    assert mine + all[|mine|..] == all;
    UpToEscSplit(mine, all[|mine|..]);
  }

  /** What one polling read did: gave a byte, stored a byte and then reported an error, or nothing. */
  datatype Read = Good(value: byte) | Corrupt(value: byte) | Nothing

  /** The bytes of the successful reads among the first `n`. */
  function GoodBytes(rs: seq<Read>, n: nat): seq<byte>
    requires n <= |rs|
  {
    if n == 0 then []
    else if rs[n - 1].Good? then GoodBytes(rs, n - 1) + [rs[n - 1].value]
    else GoodBytes(rs, n - 1)
  }

  /** The read stored the byte on which the scanners stop. */
  predicate StoresEsc(r: Read) {
    r != Nothing && r.value == BREAK_ESC
  }

  /** The first `n` reads end with the first that stored BREAK_ESC, or are all there are. */
  ghost predicate PollStops(rs: seq<Read>, n: nat)
    requires n <= |rs|
  {
    && (forall i | 0 <= i < n - 1 :: !StoresEsc(rs[i]))
    && (n < |rs| ==> n > 0 && StoresEsc(rs[n - 1]))
  }

  /** The polling scanner shows the codes of the bytes read well, and stops with the first stored byte,
      well read or not, that is BREAK_ESC. */
  method KbdTestPoll(rs: seq<Read>) returns (used: nat, shown: seq<Shown>)
    ensures used <= |rs| && PollStops(rs, used)
    ensures shown == ShowAll(Codes(false, GoodBytes(rs, used))) && WellShown(shown)
  {
    var scanner := new Scanner();
    used := 0;
    while used < |rs| && scanner.scancode != BREAK_ESC
      invariant used <= |rs| && fresh(scanner)
      invariant scanner.Took(GoodBytes(rs, used))
      invariant forall i | 0 <= i < used - 1 :: !StoresEsc(rs[i])
      invariant scanner.scancode == BREAK_ESC <==> used > 0 && StoresEsc(rs[used - 1])
    {
      if rs[used] != Nothing {
        scanner.scancode := rs[used].value;
        if rs[used].Good? {
          scanner.Assemble(GoodBytes(rs, used));
        }
      }
      used := used + 1;
    }
    shown := scanner.shown;
    ShownWell(Codes(false, GoodBytes(rs, used)));
  }

  /** On error-free reads the polling scanner, wherever it stops, shows what the interrupt scanner shows. */
  lemma {:induction false} SameCodes(bs: seq<byte>, es: seq<Event>, rs: seq<Read>, n: nat)
    requires n <= |es| == |rs| == |bs| && PollStops(rs, n)
    requires forall i | 0 <= i < |bs| :: es[i].device && es[i].read == Some(bs[i]) && rs[i] == Good(bs[i])
    ensures Codes(false, GoodBytes(rs, n)) == Codes(false, UpToEsc(Heard(es, 0, |es|)))
  {
    ErrorFree(bs, es, rs, |bs|);
    ErrorFree(bs, es, rs, n);
    assert bs[..|bs|] == bs[..n] + bs[n..] == bs;
    forall i | 0 <= i < n - 1 ensures bs[..n][i] != BREAK_ESC {
      assert !StoresEsc(rs[i]);
    }
    UpToEscSplit(bs[..n], bs[n..]);
  }

  lemma {:induction false} ErrorFree(bs: seq<byte>, es: seq<Event>, rs: seq<Read>, n: nat)
    requires n <= |es| == |rs| == |bs|
    requires forall i | 0 <= i < |bs| :: es[i].device && es[i].read == Some(bs[i]) && rs[i] == Good(bs[i])
    ensures Heard(es, 0, n) == GoodBytes(rs, n) == bs[..n]
  {
    if n > 0 {
      ErrorFree(bs, es, rs, n - 1);
    }
  }

  // ----- the timeout

  /** Within the first `n` events, `limit` ticks have passed since a key: a tick that shares its event with
      the key counts. */
  ghost predicate KeyIdle(es: seq<Event>, limit: nat, n: nat)
    requires n <= |es|
  {
    exists j: nat | j <= n :: (forall i | j < i < n :: !es[i].device) && Ticks(es, j, n) >= limit
  }

  /** The two counters together hold the ticks since event `last`, the last key. */
  ghost predicate Counting(es: seq<Event>, n: byte, timer: nat, counter: nat, last: nat, used: nat)
    requires used <= |es|
  {
    && last <= used && (forall i | last < i < used :: !es[i].device)
    && (last == 0 || (last < used && es[last].device))
    && timer <= n && counter < 60
    && 60 * (n - timer) + counter == Ticks(es, last, used)
  }

  lemma {:induction false} KeyIdleSince(es: seq<Event>, n: byte, timer: nat, counter: nat, last: nat, used: nat)
    requires used <= |es| && Counting(es, n, timer, counter, last, used)
    ensures KeyIdle(es, 60 * n, used) <==> timer == 0
  {
    if KeyIdle(es, 60 * n, used) {
      var j: nat :| j <= used && (forall i | j < i < used :: !es[i].device) && Ticks(es, j, used) >= 60 * n;
      assert last <= j;
      TicksMonotone(es, last, j, used);
    }
  }

  /** The scan goes on after the first `n` events. */
  ghost predicate GoesOn(es: seq<Event>, limit: nat, n: nat)
    requires n <= |es|
  {
    !KeyIdle(es, limit, n) && Held(es, 0, n) != BREAK_ESC
  }

  /** The scan has gone on after each of the first `n` events but the last. */
  ghost predicate Going(es: seq<Event>, limit: nat, n: nat)
    requires n <= |es|
  {
    forall m | 0 <= m < n :: GoesOn(es, limit, m)
  }

  /** The timed scan stops with the first event at which 60 * n ticks have passed since the last key or the
      byte held is BREAK_ESC. */
  method KbdTestTimedScan(es: seq<Event>, n: byte) returns (used: nat, timedOut: bool, shown: seq<Shown>)
    ensures used <= |es|
    ensures timedOut <==> KeyIdle(es, 60 * n, used)
    ensures used < |es| ==> timedOut || Held(es, 0, used) == BREAK_ESC
    ensures Going(es, 60 * n, used)
    ensures shown == ShowAll(Codes(false, Heard(es, 0, used))) && WellShown(shown)
  {
    var scanner := new Scanner();
    var timer := n;
    var counter := 0;
    ghost var last := 0;
    used := 0;
    KeyIdleSince(es, n, timer, counter, last, used);
    while used < |es| && timer != 0 && scanner.scancode != BREAK_ESC
      invariant used <= |es| && fresh(scanner)
      invariant scanner.Took(Heard(es, 0, used)) && scanner.scancode == Held(es, 0, used)
      invariant Counting(es, n, timer, counter, last, used)
      invariant KeyIdle(es, 60 * n, used) <==> timer == 0
      invariant Going(es, 60 * n, used)
    {
      assert GoesOn(es, 60 * n, used);
      if es[used].device {
        scanner.Listen(es[used].read, es, used);
        timer := n;
        counter := 0;
        last := used;
      }
      if es[used].tick {
        counter := counter + 1;
        if counter % 60 == 0 {
          timer := timer - 1;
          counter := 0;
        }
      }
      used := used + 1;
      KeyIdleSince(es, n, timer, counter, last, used);
    }
    timedOut := timer == 0;
    shown := scanner.shown;
    ShownWell(Codes(false, Heard(es, 0, used)));
  }
}
