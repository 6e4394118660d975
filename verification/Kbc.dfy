/** Commands to the mouse through the keyboard controller, against any hardware (KBC.c, mouse.c). */
module Kbc {
  import opened CTypes

  const MAX_ATTEMPTS := 10
  const ACK: byte := 0xFA
  const WRITE_BYTE_MOUSE: byte := 0xD4
  const KBC_IN_CMD: byte := 0x64
  const KBC_OUT_CMD: byte := 0x60

  // Bits of the status register.
  const FULL_OUT_BUFFER := 0
  const FULL_IN_BUFFER := 1
  const MOUSE_BIT := 5
  const TIMEOUT_ERROR := 6
  const PARITY_ERROR := 7

  /** What the hardware does in one port access. */
  datatype Reply = Reply(ok: bool, value: byte)

  /** One port access, with what it gave. */
  datatype Access =
    | Status(ok: bool, value: byte)
    | Output(ok: bool, value: byte)
    | Write(port: byte, data: byte, ok: bool)

  type Trace = seq<Access>

  predicate Busy(e: Access) {
    e.Status? && e.ok && Bit(e.value, FULL_IN_BUFFER)
  }

  predicate Clear(e: Access) {
    e.Status? && e.ok && !Bit(e.value, FULL_IN_BUFFER)
  }

  predicate Empty(e: Access) {
    e.Status? && e.ok && !Bit(e.value, FULL_OUT_BUFFER)
  }

  /** The exact shape of a command: `k` polls of a full input buffer, and then either no attempt left, or
      a failed poll, or a poll of an empty buffer and the write. */
  ghost predicate CommandShape(t: Trace, k: nat, port: byte, data: byte, failed: bool) {
    && k <= |t| && k <= MAX_ATTEMPTS && (forall i | 0 <= i < k :: Busy(t[i]))
    && (if k == MAX_ATTEMPTS then |t| == k && failed
        else if |t| == k + 1 then t[k].Status? && !t[k].ok && failed
        else |t| == k + 2 && Clear(t[k]) && t[k + 1] == Write(port, data, !failed))
  }

  ghost predicate Command(t: Trace, port: byte, data: byte, failed: bool) {
    exists k: nat :: CommandShape(t, k, port, data, failed)
  }

  /** An attempt that got through to an answer. */
  ghost predicate Attempt(t: Trace, data: byte, a: Trace, b: Trace, answer: Access) {
    && t == a + b + [answer] && answer.Output?
    && Command(a, KBC_IN_CMD, WRITE_BYTE_MOUSE, false) && Command(b, KBC_OUT_CMD, data, false)
  }

  /** An attempt answered by something else than an acknowledgement. */
  ghost predicate Unacknowledged(t: Trace, data: byte) {
    exists a: Trace, b: Trace, answer: Access ::
      Attempt(t, data, a, b, answer) && answer.ok && answer.value != ACK
  }

  /** `n` such attempts in a row. */
  ghost predicate Attempts(t: Trace, data: byte, n: nat)
    decreases n
  {
    if n == 0 then t == []
    else exists k: nat | k <= |t| :: Attempts(t[..k], data, n - 1) && Unacknowledged(t[k..], data)
  }

  /** The attempt that ends it all. */
  ghost predicate LastAttempt(t: Trace, data: byte, failed: bool) {
    || (failed && Command(t, KBC_IN_CMD, WRITE_BYTE_MOUSE, true))
    || (failed && exists a: Trace, b: Trace :: Interrupted(t, data, a, b))
    || (exists a: Trace, b: Trace, answer: Access ::
          Attempt(t, data, a, b, answer) && if failed then !answer.ok else answer.ok && answer.value == ACK)
  }

  /** An attempt whose second command failed. */
  ghost predicate Interrupted(t: Trace, data: byte, a: Trace, b: Trace) {
    t == a + b && Command(a, KBC_IN_CMD, WRITE_BYTE_MOUSE, false) && Command(b, KBC_OUT_CMD, data, true)
  }

  /** The whole trace of mouse_write: `n` unacknowledged attempts `s`, and then the last one `u` or, after
      ten, none. */
  ghost predicate MouseShape(t: Trace, data: byte, failed: bool, n: nat, s: Trace, u: Trace) {
    && n <= MAX_ATTEMPTS && t == s + u && Attempts(s, data, n)
    && if n == MAX_ATTEMPTS then u == [] && failed else LastAttempt(u, data, failed)
  }

  ghost predicate MouseCommand(t: Trace, data: byte, failed: bool) {
    exists n: nat, s: Trace, u: Trace :: MouseShape(t, data, failed, n, s, u)
  }

  // ----- what the shape implies

  function Polls(t: Trace): nat {
    if t == [] then 0 else (if t[0].Status? then 1 else 0) + Polls(t[1..])
  }

  function Answers(t: Trace): Trace {
    if t == [] then [] else (if t[0].Output? then [t[0]] else []) + Answers(t[1..])
  }

  function Writes(t: Trace): seq<(byte, byte)> {
    if t == [] then [] else (if t[0].Write? then [(t[0].port, t[0].data)] else []) + Writes(t[1..])
  }

  /** Every write is directly preceded by a poll that showed the input buffer empty. */
  ghost predicate Guarded(t: Trace) {
    forall i | 0 <= i < |t| && t[i].Write? :: i > 0 && Clear(t[i - 1])
  }

  /** The two-byte command sequence, over and over. */
  function Alternation(data: byte, n: nat): (w: seq<(byte, byte)>)
    ensures |w| == n
  {
    seq(n, i => if i % 2 == 0 then (KBC_IN_CMD, WRITE_BYTE_MOUSE) else (KBC_OUT_CMD, data))
  }

  /** How often a trace polls at most, what it writes, and what answers it reads. */
  ghost predicate Facts(t: Trace, polls: nat, writes: seq<(byte, byte)>, answers: Trace) {
    Polls(t) <= polls && Writes(t) == writes && Answers(t) == answers && Guarded(t)
  }

  lemma {:induction false} PollsAppend(s: Trace, t: Trace)
    ensures Polls(s + t) == Polls(s) + Polls(t)
  {
    if s == [] {
      assert s + t == t;
    } else {
      assert (s + t)[1..] == s[1..] + t;
      PollsAppend(s[1..], t);
    }
  }

  lemma {:induction false} AnswersAppend(s: Trace, t: Trace)
    ensures Answers(s + t) == Answers(s) + Answers(t)
  {
    if s == [] {
      assert s + t == t;
    } else {
      assert (s + t)[1..] == s[1..] + t;
      AnswersAppend(s[1..], t);
      var x := if s[0].Output? then [s[0]] else [];
      assert x + (Answers(s[1..]) + Answers(t)) == x + Answers(s[1..]) + Answers(t);
    }
  }

  lemma {:induction false} WritesAppend(s: Trace, t: Trace)
    ensures Writes(s + t) == Writes(s) + Writes(t)
  {
    if s == [] {
      assert s + t == t;
    } else {
      assert (s + t)[1..] == s[1..] + t;
      WritesAppend(s[1..], t);
      var x := if s[0].Write? then [(s[0].port, s[0].data)] else [];
      assert x + (Writes(s[1..]) + Writes(t)) == x + Writes(s[1..]) + Writes(t);
    }
  }

  lemma {:induction false} GuardedAppend(s: Trace, t: Trace)
    requires Guarded(s) && Guarded(t)
    ensures Guarded(s + t)
  {
    forall i | 0 <= i < |s + t| && (s + t)[i].Write? ensures i > 0 && Clear((s + t)[i - 1]) {
      if i >= |s| {
        assert (s + t)[i] == t[i - |s|];
      }
    }
  }

  lemma {:induction false} FactsAppend(s: Trace, p: nat, w: seq<(byte, byte)>, x: Trace,
                                           t: Trace, q: nat, v: seq<(byte, byte)>, y: Trace)
    requires Facts(s, p, w, x) && Facts(t, q, v, y)
    ensures Facts(s + t, p + q, w + v, x + y)
  {
    PollsAppend(s, t);
    AnswersAppend(s, t);
    WritesAppend(s, t);
    GuardedAppend(s, t);
  }

  lemma {:induction false} OnlyPolls(t: Trace)
    requires forall i | 0 <= i < |t| :: t[i].Status?
    ensures Facts(t, |t|, [], [])
  {
    if t != [] {
      OnlyPolls(t[1..]);
    }
  }

  /** A write right after a poll that found the buffer empty. */
  lemma {:induction false} WriteFacts(s: Trace, w: Access)
    requires s != [] && w.Write? && Clear(s[|s| - 1]) && Facts(s, 10, [], [])
    ensures Facts(s + [w], 10, [(w.port, w.data)], [])
  {
    var none: Trace := [];
    assert [w][1..] == none;
    assert Polls([w]) == 0 && Answers([w]) == [] + Answers(none) && Writes([w]) == [(w.port, w.data)] + Writes(none);
    PollsAppend(s, [w]);
    AnswersAppend(s, [w]);
    WritesAppend(s, [w]);
  }

  lemma {:induction false} CommandFacts(t: Trace, port: byte, data: byte, failed: bool)
    requires Command(t, port, data, failed)
    ensures Facts(t, 10, [], []) || Facts(t, 10, [(port, data)], [])
    ensures !failed ==> Facts(t, 10, [(port, data)], [])
    ensures t != [] && !t[|t| - 1].Output?
  {
    var k: nat :| CommandShape(t, k, port, data, failed);
    if |t| == k + 2 {
      var s, w := t[..k + 1], t[k + 1];
      assert t == s + [w];
      OnlyPolls(s);
      WriteFacts(s, w);
    } else {
      OnlyPolls(t);
    }
  }

  lemma AnswerFacts(answer: Access)
    requires answer.Output?
    ensures Facts([answer], 0, [], [answer])
  {
    var none: Trace := [];
    assert [answer][1..] == none;
    assert Polls([answer]) == 0 + Polls(none) == 0;
    assert Writes([answer]) == [] + Writes(none) == [];
    assert Answers([answer]) == [answer] + Answers(none) == [answer] + none == [answer];
    assert Guarded([answer]);
  }

  /** The facts about a complete attempt. */
  lemma {:induction false} AttemptFacts(t: Trace, data: byte, a: Trace, b: Trace, answer: Access)
    requires Attempt(t, data, a, b, answer)
    ensures Facts(t, 20, Alternation(data, 2), [answer])
  {
    CommandFacts(a, KBC_IN_CMD, WRITE_BYTE_MOUSE, false);
    CommandFacts(b, KBC_OUT_CMD, data, false);
    FactsAppend(a, 10, [(KBC_IN_CMD, WRITE_BYTE_MOUSE)], [], b, 10, [(KBC_OUT_CMD, data)], []);
    AnswerFacts(answer);
    var w := [(KBC_IN_CMD, WRITE_BYTE_MOUSE)] + [(KBC_OUT_CMD, data)];
    FactsAppend(a + b, 20, w, [] + [], [answer], 0, [], [answer]);
    assert w + [] == Alternation(data, 2);
    assert [] + [] + [answer] == [answer];
  }

  lemma AlternationSplit(data: byte, n: nat, m: nat)
    ensures Alternation(data, 2 * n) + Alternation(data, m) == Alternation(data, 2 * n + m)
  {
  }

  /** An acknowledgement read from the output buffer. */
  predicate Acknowledges(e: Access) {
    e.Output? && e.ok && e.value == ACK
  }

  lemma {:induction false} UnacknowledgedFacts(t: Trace, data: byte) returns (answer: Access)
    requires Unacknowledged(t, data)
    ensures Facts(t, 20, Alternation(data, 2), [answer]) && !Acknowledges(answer)
    ensures t != [] && t[|t| - 1] == answer
  {
    var a: Trace, b: Trace, other: Access :|
      Attempt(t, data, a, b, other) && other.ok && other.value != ACK;
    AttemptFacts(t, data, a, b, other);
    answer := other;
  }

  lemma {:induction false} AddAttempt(s: Trace, u: Trace, data: byte, n: nat)
    requires Facts(s, 20 * n, Alternation(data, 2 * n), Answers(s)) && |Answers(s)| == n
    requires forall i | 0 <= i < n :: !Acknowledges(Answers(s)[i])
    requires Unacknowledged(u, data)
    ensures Facts(s + u, 20 * (n + 1), Alternation(data, 2 * (n + 1)), Answers(s + u)) && |Answers(s + u)| == n + 1
    ensures forall i | 0 <= i < n + 1 :: !Acknowledges(Answers(s + u)[i])
    ensures s + u != [] && !Acknowledges((s + u)[|s + u| - 1])
  {
    var answer := UnacknowledgedFacts(u, data);
    FactsAppend(s, 20 * n, Alternation(data, 2 * n), Answers(s), u, 20, Alternation(data, 2), [answer]);
    AlternationSplit(data, n, 2);
  }

  lemma {:induction false} AttemptsFacts(t: Trace, data: byte, n: nat)
    requires Attempts(t, data, n)
    ensures Facts(t, 20 * n, Alternation(data, 2 * n), Answers(t)) && |Answers(t)| == n
    ensures forall i | 0 <= i < n :: !Acknowledges(Answers(t)[i])
    ensures n > 0 ==> t != [] && !Acknowledges(t[|t| - 1])
    decreases n
  {
    if n > 0 {
      var k: nat :| k <= |t| && Attempts(t[..k], data, n - 1) && Unacknowledged(t[k..], data);
      AttemptsFacts(t[..k], data, n - 1);
      AddAttempt(t[..k], t[k..], data, n - 1);
      assert t == t[..k] + t[k..];
    }
  }

  lemma {:induction false} OneMoreAttempt(s: Trace, u: Trace, data: byte, n: nat)
    requires Attempts(s, data, n) && Unacknowledged(u, data)
    ensures Attempts(s + u, data, n + 1)
  {
    assert (s + u)[..|s|] == s && (s + u)[|s|..] == u;
  }

  /** The facts about the attempt that ends it all. */
  ghost predicate LastFacts(t: Trace, data: byte, failed: bool, m: nat, answers: Trace) {
    && m <= 2 && |answers| <= 1 && Facts(t, 20, Alternation(data, m), answers)
    && t != [] && (!failed <==> Acknowledges(t[|t| - 1]))
  }

  lemma {:induction false} InterruptedFacts(t: Trace, data: byte, a: Trace, b: Trace) returns (m: nat)
    requires Interrupted(t, data, a, b)
    ensures LastFacts(t, data, true, m, [])
  {
    CommandFacts(a, KBC_IN_CMD, WRITE_BYTE_MOUSE, false);
    CommandFacts(b, KBC_OUT_CMD, data, true);
    var v := Writes(b);
    FactsAppend(a, 10, [(KBC_IN_CMD, WRITE_BYTE_MOUSE)], [], b, 10, v, []);
    assert t[|t| - 1] == b[|b| - 1];
    m := 1 + |v|;
    assert [(KBC_IN_CMD, WRITE_BYTE_MOUSE)] + v == Alternation(data, m);
  }

  lemma {:induction false} LastAttemptFacts(t: Trace, data: byte, failed: bool) returns (m: nat, answers: Trace)
    requires LastAttempt(t, data, failed)
    ensures LastFacts(t, data, failed, m, answers)
  {
    if failed && Command(t, KBC_IN_CMD, WRITE_BYTE_MOUSE, true) {
      CommandFacts(t, KBC_IN_CMD, WRITE_BYTE_MOUSE, true);
      m, answers := |Writes(t)|, [];
      assert Writes(t) == Alternation(data, m);
    } else if failed && exists a: Trace, b: Trace :: Interrupted(t, data, a, b) {
      var a: Trace, b: Trace :| Interrupted(t, data, a, b);
      m := InterruptedFacts(t, data, a, b);
      answers := [];
    } else {
      var a: Trace, b: Trace, answer: Access :|
        Attempt(t, data, a, b, answer) && if failed then !answer.ok else answer.ok && answer.value == ACK;
      AttemptFacts(t, data, a, b, answer);
      m, answers := 2, [answer];
    }
  }

  /** Command trace bound: whatever the hardware answers, mouse_write makes at most 200 polls, 20 writes and
      10 reads of an answer; its writes alternate D4 to port 0x64 and the command to port 0x60, each right
      after a poll that showed the input buffer empty; and it succeeds exactly when its last access reads
      an acknowledgement, which is then the first one. */
  lemma {:induction false} CommandTraceBound(t: Trace, data: byte, failed: bool)
    requires MouseCommand(t, data, failed)
    ensures Polls(t) <= 200 && |Writes(t)| <= 20 && |Answers(t)| <= 10 && Guarded(t)
    ensures forall i | 0 <= i < |Writes(t)| :: Writes(t)[i] == if i % 2 == 0 then (0x64, 0xD4) else (0x60, data)
    ensures !failed <==> t != [] && t[|t| - 1] == Output(true, 0xFA)
    ensures forall i | 0 <= i < |Answers(t)| - 1 :: !Acknowledges(Answers(t)[i])
  {
    var n: nat, s: Trace, u: Trace :| MouseShape(t, data, failed, n, s, u);
    AttemptsFacts(s, data, n);
    if n == MAX_ATTEMPTS {
      assert t == s;
    } else {
      var m, answers := LastAttemptFacts(u, data, failed);
      FactsAppend(s, 20 * n, Alternation(data, 2 * n), Answers(s), u, 20, Alternation(data, m), answers);
      AlternationSplit(data, n, m);
      assert t[|t| - 1] == u[|u| - 1];
    }
  }

  /** Persistence: when no access fails, mouse_write gives up only after ten answers, or after ten polls in a row
      that showed the input buffer full. */
  lemma {:induction false} GivesUp(t: Trace, data: byte)
    requires MouseCommand(t, data, true) && forall i | 0 <= i < |t| :: t[i].ok
    ensures |Answers(t)| == 10 || (|t| >= 10 && forall i | |t| - 10 <= i < |t| :: Busy(t[i]))
  {
    var n: nat, s: Trace, u: Trace :| MouseShape(t, data, true, n, s, u);
    AttemptsFacts(s, data, n);
    if n == MAX_ATTEMPTS {
      assert t == s;
    } else {
      assert forall i | 0 <= i < |u| :: u[i] == t[|s| + i];
      LastGivesUp(u, data);
    }
  }

  lemma {:induction false} LastGivesUp(u: Trace, data: byte)
    requires LastAttempt(u, data, true) && forall i | 0 <= i < |u| :: u[i].ok
    ensures |u| >= 10 && forall i | |u| - 10 <= i < |u| :: Busy(u[i])
  {
    forall a: Trace, b: Trace, answer: Access | Attempt(u, data, a, b, answer) ensures answer.ok {
      assert u[|u| - 1] == answer;
    }
    if Command(u, KBC_IN_CMD, WRITE_BYTE_MOUSE, true) {
      CommandGivesUp(u, KBC_IN_CMD, WRITE_BYTE_MOUSE);
    } else {
      var a: Trace, b: Trace :| Interrupted(u, data, a, b);
      assert forall i | 0 <= i < |b| :: b[i] == u[|a| + i];
      CommandGivesUp(b, KBC_OUT_CMD, data);
      assert forall i | |u| - 10 <= i < |u| :: u[i] == b[i - |a|];
    }
  }

  /** A command that fails ends with a failed access or consists of ten polls of a full input buffer. */
  lemma {:induction false} CommandEnds(t: Trace, k: nat, port: byte, data: byte)
    requires CommandShape(t, k, port, data, true)
    ensures t != [] && (t[|t| - 1].ok ==> |t| == 10 && forall i | 0 <= i < |t| :: Busy(t[i]))
  {
  }

  lemma {:induction false} CommandGivesUp(t: Trace, port: byte, data: byte)
    requires Command(t, port, data, true) && forall i | 0 <= i < |t| :: t[i].ok
    ensures |t| == 10 && forall i | 0 <= i < |t| :: Busy(t[i])
  {
    var k: nat :| CommandShape(t, k, port, data, true);
    CommandEnds(t, k, port, data);
  }

  /** The bits of a status byte, by their weights. */
  lemma StatusIs(v: byte, mouse: bool)
    ensures Busy(Status(true, v)) <==> (v / 2) % 2 == 1
    ensures Clear(Status(true, v)) <==> (v / 2) % 2 == 0
    ensures Empty(Status(true, v)) <==> v % 2 == 0
    ensures Sound(v, mouse) <==> (v / 128) % 2 == 0 && (v / 64) % 2 == 0 && ((v / 32) % 2 == 1 <==> mouse)
  {
    ByteBits(v);
  }

  lemma {:induction false} Ended(s: Trace, u: Trace, data: byte, n: nat, failed: bool)
    requires n < MAX_ATTEMPTS && Attempts(s, data, n) && LastAttempt(u, data, failed)
    ensures MouseCommand(s + u, data, failed)
  {
    assert MouseShape(s + u, data, failed, n, s, u);
  }

  lemma {:induction false} Exhausted(t: Trace, data: byte)
    requires Attempts(t, data, MAX_ATTEMPTS)
    ensures MouseCommand(t, data, true)
  {
    assert MouseShape(t, data, true, MAX_ATTEMPTS, t, []);
  }

  // ----- the driver

  /** The ports: the i-th access ever made gives `hardware(i)`. */
  class Ports {
    const hardware: nat -> Reply
    ghost var trace: Trace
    var count: nat

    ghost predicate Valid()
      reads this
    {
      && count == |trace|
      && forall i | 0 <= i < |trace| ::
           trace[i].ok == hardware(i).ok && (!trace[i].Write? ==> trace[i].value == hardware(i).value)
    }

    constructor (hardware: nat -> Reply)
      ensures Valid() && trace == [] && this.hardware == hardware
    {
      this.hardware := hardware;
      trace, count := [], 0;
    }

    method Inb(status: bool) returns (ok: bool, value: byte)
      requires Valid()
      modifies this
      ensures Valid() && trace == old(trace) + [if status then Status(ok, value) else Output(ok, value)]
    {
      var reply := hardware(count);
      ok, value := reply.ok, reply.value;
      trace := trace + [if status then Status(ok, value) else Output(ok, value)];
      count := count + 1;
    }

    method Outb(port: byte, data: byte) returns (ok: bool)
      requires Valid()
      modifies this
      ensures Valid() && trace == old(trace) + [Write(port, data, ok)]
    {
      ok := hardware(count).ok;
      trace := trace + [Write(port, data, ok)];
      count := count + 1;
    }

    /** The attempts counter is a uint8_t that wraps after its last test. */
    static function Countdown(attempts: byte): byte {
      if attempts == 0 then 255 else attempts - 1
    }

    method WriteKBCCommand(port: byte, data: byte) returns (failed: bool, ghost t: Trace)
      requires Valid()
      modifies this
      ensures Valid() && trace == old(trace) + t && Command(t, port, data, failed)
    {
      t := [];
      var attempts: byte := MAX_ATTEMPTS;
      while attempts != 0
        invariant Valid() && trace == old(trace) + t
        invariant attempts <= 10 && |t| == 10 - attempts && forall i | 0 <= i < |t| :: Busy(t[i])
      {
        attempts := Countdown(attempts);
        ghost var k := |t|;
        var ok, status := Inb(true);
        t := t + [Status(ok, status)];
        if !ok {
          assert CommandShape(t, k, port, data, true);
          return true, t;
        }
        if !Bit(status, FULL_IN_BUFFER) {
          var written := Outb(port, data);
          t := t + [Write(port, data, written)];
          assert CommandShape(t, k, port, data, !written);
          return !written, t;
        }
      }
      assert CommandShape(t, 10, port, data, true);
      failed := true;
    }

    /** The byte is read only after a poll that shows it to be there, unharmed, and from the right device;
        otherwise nothing is stored. */
    method ReadKBCOutput(mouse: bool) returns (output: Option<byte>, ghost t: Trace)
      requires Valid()
      modifies this
      ensures Valid() && trace == old(trace) + t
      ensures exists k: nat :: OutputShape(t, k, mouse, output)
    {
      t := [];
      var attempts: byte := MAX_ATTEMPTS;
      while attempts != 0
        invariant Valid() && trace == old(trace) + t
        invariant attempts <= 10 && |t| == 10 - attempts && forall i | 0 <= i < |t| :: Empty(t[i])
      {
        attempts := Countdown(attempts);
        ghost var k := |t|;
        var ok, status := Inb(true);
        t := t + [Status(ok, status)];
        if !ok {
          assert OutputShape(t, k, mouse, None);
          return None, t;
        }
        if Bit(status, FULL_OUT_BUFFER) {
          if Bit(status, PARITY_ERROR) || Bit(status, TIMEOUT_ERROR) || Bit(status, MOUSE_BIT) != mouse {
            assert OutputShape(t, k, mouse, None);
            return None, t;
          }
          var read, value := Inb(false);
          t := t + [Output(read, value)];
          output := if read then Some(value) else None;
          assert OutputShape(t, k, mouse, output);
          return output, t;
        }
      }
      assert OutputShape(t, 10, mouse, None);
      output := None;
    }

    /** One attempt: both commands and the answer. */
    method MouseAttempt(data: byte) returns (broken: bool, response: byte, ghost t: Trace)
      requires Valid()
      modifies this
      ensures Valid() && trace == old(trace) + t
      ensures if broken then LastAttempt(t, data, true)
              else if response == ACK then LastAttempt(t, data, false) else Unacknowledged(t, data)
    {
      response := 0;
      ghost var a, b;
      broken, a := WriteKBCCommand(KBC_IN_CMD, WRITE_BYTE_MOUSE);
      if broken {
        return true, response, a;
      }
      broken, b := WriteKBCCommand(KBC_OUT_CMD, data);
      t := a + b;
      assert trace == old(trace) + t;
      if broken {
        assert Interrupted(t, data, a, b);
        return true, response, t;
      }
      var ok;
      ok, response := Inb(false);
      t := a + b + [Output(ok, response)];
      assert trace == old(trace) + t;
      assert Attempt(t, data, a, b, Output(ok, response));
      broken := !ok;
    }

    method MouseWrite(data: byte) returns (failed: bool, ghost t: Trace)
      requires Valid()
      modifies this
      ensures Valid() && trace == old(trace) + t
      ensures MouseCommand(t, data, failed)
    {
      var response: byte := 0;
      var attempts: byte := MAX_ATTEMPTS;
      ghost var n := 0;
      t := [];
      while attempts != 0 && response != ACK
        invariant Valid() && trace == old(trace) + t
        invariant n + attempts == 10 && response != ACK
        invariant Attempts(t, data, n)
      {
        attempts := Countdown(attempts);
        var broken;
        ghost var u;
        broken, response, u := MouseAttempt(data);
        assert trace == old(trace) + (t + u);
        if broken || response == ACK {
          Ended(t, u, data, n, broken);
          return broken, t + u;
        }
        OneMoreAttempt(t, u, data, n);
        t, n := t + u, n + 1;
      }
      Exhausted(t, data);
      failed := true;
    }
  }

  /** The exact shape of a read: `k` polls of an empty output buffer, and then no attempt left, a failed poll,
      a poll that shows an error or the wrong device, or the read itself. */
  ghost predicate OutputShape(t: Trace, k: nat, mouse: bool, output: Option<byte>) {
    && k <= |t| && k <= MAX_ATTEMPTS && (forall i | 0 <= i < k :: Empty(t[i]))
    && (if k == MAX_ATTEMPTS then |t| == k && output == None
        else if |t| == k + 1 then
          t[k].Status? && output == None &&
          (t[k].ok ==> Bit(t[k].value, FULL_OUT_BUFFER) && !Sound(t[k].value, mouse))
        else
          && |t| == k + 2 && t[k].Status? && t[k].ok
          && Bit(t[k].value, FULL_OUT_BUFFER) && Sound(t[k].value, mouse)
          && t[k + 1].Output? && output == if t[k + 1].ok then Some(t[k + 1].value) else None)
  }

  predicate Sound(status: byte, mouse: bool) {
    !Bit(status, PARITY_ERROR) && !Bit(status, TIMEOUT_ERROR) && Bit(status, MOUSE_BIT) == mouse
  }

  /** When no access fails and nothing is read, either ten polls found the output buffer empty, or the last poll
      found a byte that was harmed or came from the other device. */
  lemma {:induction false} ReadGivesUp(t: Trace, k: nat, mouse: bool)
    requires OutputShape(t, k, mouse, None) && forall i | 0 <= i < |t| :: t[i].ok
    ensures
      || (|t| == 10 && forall i | 0 <= i < |t| :: Empty(t[i]))
      || (t != [] && t[|t| - 1].Status? && t[|t| - 1].value % 2 == 1 && !Sound(t[|t| - 1].value, mouse))
  {
    if k < MAX_ATTEMPTS {
      ByteBits(t[k].value);
    }
  }
}
