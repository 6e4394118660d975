/** Two players joined by two FIFO lines. What every session keeps, and how it ends. */
module RaceSession {
  import opened CTypes
  import opened RacePeer

  datatype Session = Session(a: Peer, b: Peer, ab: seq<Message>, ba: seq<Message>)

  const START := Session(FRESH_PEER, FRESH_PEER, [], [])

  function Mirror(s: Session): Session {
    Session(s.b, s.a, s.ba, s.ab)
  }

  /** What player `a` can do: press the button at time `now`, take in the next message,
      end the countdown, or type the last character. */
  datatype Move = PressButton(now: u64) | Deliver | Start | Finish

  predicate IsRequest(m: Message) {
    m.ReadyMsg? || m.NReadyMsg? || m.Seed?
  }

  predicate IsAck(m: Message) {
    m.Ack? || m.ReadyAck? || m.NReadyAck?
  }

  /** None of player `a`'s own requests, and no acknowledgement of one, is on the lines. */
  ghost predicate Settled(s: Session) {
    && (forall m | m in s.ab :: !IsRequest(m))
    && (forall m | m in s.ba :: !IsAck(m))
  }

  ghost predicate Enabled(s: Session, m: Move) {
    match m
    case PressButton(_) => s.a.status != Unready || Settled(s)
    case Deliver => s.ba != []
    case Start => s.a.status == Ready
    case Finish => s.a.status == Typing
  }

  /** The effect of a move of player `a`; delivering from an empty line changes nothing. */
  function Step(s: Session, m: Move): Session {
    match m
    case PressButton(now) =>
      var (p, sent) := Press(s.a, now);
      s.(a := p, ab := s.ab + sent)
    case Deliver =>
      if s.ba == [] then s else
      var (p, sent) := Receive(s.a, s.ba[0]);
      s.(a := p, ab := s.ab + sent, ba := s.ba[1..])
    case Start => s.(a := StartTyping(s.a))
    case Finish =>
      var (p, sent) := FinishTyping(s.a);
      s.(a := p, ab := s.ab + sent)
  }

  /** A move of either player: `left` is player `a`. */
  datatype Action = Action(left: bool, move: Move)

  ghost predicate ActionEnabled(s: Session, x: Action) {
    if x.left then Enabled(s, x.move) else Enabled(Mirror(s), x.move)
  }

  function Act(s: Session, x: Action): Session {
    if x.left then Step(s, x.move) else Mirror(Step(Mirror(s), x.move))
  }

  /** The session after the actions `xs`, taken in order. */
  function Run(s: Session, xs: seq<Action>): Session {
    if xs == [] then s else Act(Run(s, xs[..|xs| - 1]), xs[|xs| - 1])
  }

  /** Every action is possible when it is taken; in particular nobody who is unready presses the button while
      one of the own requests or its acknowledgement is still on its way. */
  ghost predicate Disciplined(s: Session, xs: seq<Action>) {
    xs == [] ||
    (Disciplined(s, xs[..|xs| - 1]) && ActionEnabled(Run(s, xs[..|xs| - 1]), xs[|xs| - 1]))
  }

  // ----- the invariant, seen from player a as the one asking and b as the one answering

  ghost predicate OnlyRequests(q: seq<Message>) {
    forall m | m in q :: IsRequest(m)
  }

  /** Nothing but the session's own messages is on the line. */
  ghost predicate CleanLine(q: seq<Message>) {
    forall m | m in q :: IsRequest(m) || IsAck(m) || m.Won?
  }

  /** A ready message is directly followed by the seed and is the only request on the line. */
  ghost predicate ReadyFramed(q: seq<Message>, seed: u64) {
    forall i | 0 <= i < |q| && q[i].ReadyMsg? ::
      && i + 1 < |q| && q[i + 1] == Seed(seed)
      && forall j | 0 <= j < |q| && j != i && j != i + 1 :: !IsRequest(q[j])
  }

  /** Every ready-ack finds the asker still waiting for it. */
  ghost predicate AckAwaited(s: Session) {
    && (ReadyMsg in s.ab ==> s.a.waitingAck && OnlyRequests(s.ba))
    && (forall i | 0 <= i < |s.ba| && s.ba[i].ReadyAck? ::
          s.a.waitingAck && OnlyRequests(s.ba[..i]))
  }

  /** What b believes about a is what a last told b, or is about to be corrected. */
  ghost predicate BeliefHolds(s: Session) {
    && (s.b.waitingForSeed ==> s.b.readyYou && s.ab != [] && s.ab[0] == Seed(s.a.seedMe))
    && (s.b.readyYou ==>
          && (s.b.waitingForSeed || s.b.seedYou == s.a.seedMe)
          && ReadyMsg !in s.ab && NReadyAck !in s.ba
          && (s.a.readyMe || ReadyAck in s.ba))
    && (NReadyAck in s.ba ==> ReadyMsg !in s.ab)
    && (s.a.readyMe || s.a.status != Unready ==> ReadyMsg !in s.ab && ReadyAck !in s.ba)
  }

  /** Text is generated once, when player a leaves unready, from the pair of seeds both agree on. */
  ghost predicate TextHolds(s: Session) {
    && (s.a.status == Unready ==> s.a.texts == [])
    && (s.a.status != Unready ==>
          && s.a.readyYou && !s.a.waitingForSeed && |s.a.texts| == 1
          && (s.b.readyYou ==> s.a.seedMe != 0 && s.a.seedYou != 0 &&
                               s.a.texts == [TextSeed(s.a.seedMe, s.a.seedYou)]))
    && (s.a.status == Unready && BothReady(s.a) ==> s.a.waitingForSeed)
  }

  /** Nobody loses to nobody. */
  ghost predicate WinnerHolds(s: Session) {
    && (Won in s.ba ==> s.b.won && s.b.status == Finished)
    && (s.a.won ==> s.a.status == Finished)
    && (s.a.status == Finished && !s.a.won ==> s.b.won)
  }

  ghost predicate HalfInv(s: Session) {
    CleanLine(s.ab) && ReadyFramed(s.ab, s.a.seedMe) && AckAwaited(s) &&
    BeliefHolds(s) && TextHolds(s) && WinnerHolds(s)
  }

  ghost predicate Inv(s: Session) {
    HalfInv(s) && HalfInv(Mirror(s))
  }

  lemma {:induction false} PressFramed(q: seq<Message>, now: u64, last: u64)
    requires forall m | m in q :: !IsRequest(m)
    ensures ReadyFramed(q + [ReadyMsg, Seed(now)], now)
    ensures ReadyFramed(q + [NReadyMsg], last)
  {
    assert forall j | 0 <= j < |q| :: q[j] in q;
  }

  lemma {:induction false} PressKeepsInvOwn(s: Session, now: u64)
    requires Inv(s) && Settled(s)
    ensures HalfInv(Step(s, PressButton(now)))
  {
    var t := Step(s, PressButton(now));
    PressFramed(s.ab, now, s.a.seedMe);
    assert HalfInv(t);
  }

  lemma {:induction false} PressKeepsInvOther(s: Session, now: u64)
    requires Inv(s) && Settled(s)
    ensures HalfInv(Mirror(Step(s, PressButton(now))))
  {
    var t := Step(s, PressButton(now));
    PressFramed(s.ab, now, s.a.seedMe);
    assert HalfInv(Mirror(t));
  }

  lemma {:induction false} PressKeepsInv(s: Session, now: u64)
    requires Inv(s) && Settled(s)
    ensures Inv(Step(s, PressButton(now)))
  {
    PressKeepsInvOwn(s, now);
    PressKeepsInvOther(s, now);
  }

  /** Whoever has left unready presses in vain. */
  lemma {:induction false} IdlePress(s: Session, now: u64)
    requires s.a.status != Unready
    ensures Step(s, PressButton(now)) == s
  {
    assert s.ab + [] == s.ab;
  }

  lemma {:induction false} TimerKeepsInv(s: Session, m: Move)
    requires Inv(s) && Enabled(s, m) && (m.Start? || m.Finish?)
    ensures Inv(Step(s, m))
  {
    var t := Step(s, m);
    assert HalfInv(t);
    assert HalfInv(Mirror(t));
  }

  /** Taking the first message off a framed line. */
  lemma {:induction false} FramedTail(q: seq<Message>, seed: u64)
    requires q != [] && ReadyFramed(q, seed)
    ensures ReadyFramed(q[1..], seed)
    ensures q[0].ReadyMsg? ==> |q| >= 2 && q[1] == Seed(seed) && forall m | m in q[2..] :: !IsRequest(m)
    ensures !q[0].ReadyMsg? && IsRequest(q[0]) ==> ReadyMsg !in q
  {
    assert forall j | 0 <= j < |q| - 1 :: q[1..][j] == q[j + 1];
    if q[0].ReadyMsg? {
      forall m | m in q[2..] ensures !IsRequest(m) {
        var j :| 0 <= j < |q| - 2 && q[2..][j] == m;
        assert q[j + 2] == m;
      }
    }
  }

  /** Sending an answer leaves a framed line framed. */
  lemma {:induction false} FramedSend(q: seq<Message>, m: Message, seed: u64)
    requires ReadyFramed(q, seed) && !IsRequest(m)
    ensures ReadyFramed(q + [m], seed)
  {
  }

  lemma {:induction false} DeliverReady(s: Session)
    requires Inv(s) && s.ba != [] && s.ba[0].ReadyMsg?
    ensures Inv(Step(s, Deliver))
  {
    var t := Step(s, Deliver);
    FramedTail(s.ba, s.b.seedMe);
    FramedSend(s.ab, ReadyAck, s.a.seedMe);
    assert HalfInv(t);
    assert HalfInv(Mirror(t));
  }

  lemma {:induction false} DeliverNReadyOwn(s: Session)
    requires Inv(s) && s.ba != [] && s.ba[0].NReadyMsg?
    ensures HalfInv(Step(s, Deliver))
  {
    var t := Step(s, Deliver);
    FramedTail(s.ba, s.b.seedMe);
    FramedSend(s.ab, NReadyAck, s.a.seedMe);
    assert HalfInv(t);
  }

  lemma {:induction false} DeliverNReadyOther(s: Session)
    requires Inv(s) && s.ba != [] && s.ba[0].NReadyMsg?
    ensures HalfInv(Mirror(Step(s, Deliver)))
  {
    var t := Step(s, Deliver);
    FramedTail(s.ba, s.b.seedMe);
    FramedSend(s.ab, NReadyAck, s.a.seedMe);
    assert HalfInv(Mirror(t));
  }

  lemma {:induction false} DeliverNReady(s: Session)
    requires Inv(s) && s.ba != [] && s.ba[0].NReadyMsg?
    ensures Inv(Step(s, Deliver))
  {
    DeliverNReadyOwn(s);
    DeliverNReadyOther(s);
  }

  lemma {:induction false} DeliverSeedOwn(s: Session)
    requires Inv(s) && s.ba != [] && s.ba[0].Seed?
    ensures HalfInv(Step(s, Deliver))
  {
    var t := Step(s, Deliver);
    FramedTail(s.ba, s.b.seedMe);
    FramedSend(s.ab, Ack, s.a.seedMe);
    assert HalfInv(t);
  }

  lemma {:induction false} DeliverSeedOther(s: Session)
    requires Inv(s) && s.ba != [] && s.ba[0].Seed?
    ensures HalfInv(Mirror(Step(s, Deliver)))
  {
    var t := Step(s, Deliver);
    FramedTail(s.ba, s.b.seedMe);
    FramedSend(s.ab, Ack, s.a.seedMe);
    assert HalfInv(Mirror(t));
  }

  lemma {:induction false} DeliverSeed(s: Session)
    requires Inv(s) && s.ba != [] && s.ba[0].Seed?
    ensures Inv(Step(s, Deliver))
  {
    DeliverSeedOwn(s);
    DeliverSeedOther(s);
  }

  /** When an answer arrives, no ready message is unanswered and no later ready-ack is coming. */
  lemma {:induction false} AnswerAlone(s: Session)
    requires Inv(s) && s.ba != [] && !IsRequest(s.ba[0])
    ensures ReadyMsg !in s.ab && ReadyAck !in s.ba[1..]
  {
    assert s.ba[0] in s.ba;
    forall i | 0 <= i < |s.ba| - 1 ensures !s.ba[1..][i].ReadyAck? {
      assert s.ba[0] in s.ba[..i + 1];
    }
  }

  lemma {:induction false} DeliverReadyAck(s: Session)
    requires Inv(s) && s.ba != [] && s.ba[0].ReadyAck?
    ensures Inv(Step(s, Deliver))
  {
    var t := Step(s, Deliver);
    FramedTail(s.ba, s.b.seedMe);
    AnswerAlone(s);
    assert HalfInv(t);
    assert HalfInv(Mirror(t));
  }

  lemma {:induction false} DeliverNReadyAck(s: Session)
    requires Inv(s) && s.ba != [] && s.ba[0].NReadyAck?
    ensures Inv(Step(s, Deliver))
  {
    var t := Step(s, Deliver);
    FramedTail(s.ba, s.b.seedMe);
    AnswerAlone(s);
    assert HalfInv(t);
    assert HalfInv(Mirror(t));
  }

  lemma {:induction false} DeliverRestOwn(s: Session)
    requires Inv(s) && s.ba != [] && (s.ba[0].Ack? || s.ba[0].Won?)
    ensures HalfInv(Step(s, Deliver))
  {
    var t := Step(s, Deliver);
    FramedTail(s.ba, s.b.seedMe);
    AnswerAlone(s);
    assert HalfInv(t);
  }

  lemma {:induction false} DeliverRestOther(s: Session)
    requires Inv(s) && s.ba != [] && (s.ba[0].Ack? || s.ba[0].Won?)
    ensures HalfInv(Mirror(Step(s, Deliver)))
  {
    var t := Step(s, Deliver);
    FramedTail(s.ba, s.b.seedMe);
    AnswerAlone(s);
    assert HalfInv(Mirror(t));
  }

  lemma {:induction false} DeliverRest(s: Session)
    requires Inv(s) && s.ba != [] && (s.ba[0].Ack? || s.ba[0].Won?)
    ensures Inv(Step(s, Deliver))
  {
    DeliverRestOwn(s);
    DeliverRestOther(s);
  }

  lemma {:induction false} StepKeepsInv(s: Session, m: Move)
    requires Inv(s) && Enabled(s, m)
    ensures Inv(Step(s, m))
  {
    match m
    case PressButton(now) =>
      if s.a.status == Unready {
        PressKeepsInv(s, now);
      } else {
        IdlePress(s, now);
      }
    case Start => TimerKeepsInv(s, m);
    case Finish => TimerKeepsInv(s, m);
    case Deliver =>
      assert s.ba[0] in s.ba;
      match s.ba[0] {
        case ReadyMsg => DeliverReady(s);
        case NReadyMsg => DeliverNReady(s);
        case Seed(_) => DeliverSeed(s);
        case ReadyAck => DeliverReadyAck(s);
        case NReadyAck => DeliverNReadyAck(s);
        case _ => DeliverRest(s);
      }
  }

  lemma {:induction false} RunKeepsInv(xs: seq<Action>)
    requires Disciplined(START, xs)
    ensures Inv(Run(START, xs))
  {
    if xs != [] {
      RunKeepsInv(xs[..|xs| - 1]);
      var s, x := Run(START, xs[..|xs| - 1]), xs[|xs| - 1];
      if x.left {
        StepKeepsInv(s, x.move);
      } else {
        assert Mirror(Mirror(s)) == s;
        StepKeepsInv(Mirror(s), x.move);
      }
    }
  }

  // ----- what every session guarantees

  /** Two players that left unready agree on both seeds, hence on the text. */
  lemma {:induction false} StateAgreement(s: Session)
    requires Inv(s) && s.a.status != Unready && s.b.status != Unready
    ensures s.a.seedYou == s.b.seedMe && s.b.seedYou == s.a.seedMe
    ensures s.a.texts == s.b.texts == [TextSeed(s.a.seedMe, s.b.seedMe)]
  {
    var t := Mirror(s);
    assert TextHolds(s) && TextHolds(t) && BeliefHolds(s) && BeliefHolds(t);
    assert s.a.readyYou && s.b.readyYou;
    assert TextSeed(s.a.seedMe, s.a.seedYou) == TextSeed(s.b.seedMe, s.b.seedYou);
  }

  /** Seed agreement: whatever the players do (ready, un-ready, ready again, in any interleaving), two
      players that have left unready have each generated their text once, and from the same seed. */
  lemma {:induction false} SeedAgreement(xs: seq<Action>)
    requires Disciplined(START, xs)
    ensures
      var s := Run(START, xs);
      && |s.a.texts| <= 1 && |s.b.texts| <= 1
      && (s.a.status == Unready <==> s.a.texts == [])
      && (s.b.status == Unready <==> s.b.texts == [])
      && (s.a.status != Unready && s.b.status != Unready ==>
            s.a.texts == s.b.texts == [(s.a.seedMe + s.b.seedMe) % 0x1_0000_0000] &&
            s.a.seedYou == s.b.seedMe && s.b.seedYou == s.a.seedMe)
  {
    RunKeepsInv(xs);
    var s := Run(START, xs);
    assert TextHolds(s) && TextHolds(Mirror(s));
    if s.a.status != Unready && s.b.status != Unready {
      StateAgreement(s);
      TextSeedIs(s.a.seedMe, s.b.seedMe);
    }
  }

  /** When everything sent has been delivered, a player that has left unready races an opponent
      exactly when the opponent still believes him ready. Which sessions these are is RaceOutcome.WhoRaces. */
  lemma {:induction false} RaceTogether(xs: seq<Action>)
    requires Disciplined(START, xs)
    ensures
      var s := Run(START, xs);
      s.ab == [] && s.ba == [] ==>
        && (s.a.status != Unready ==> (s.b.status != Unready <==> s.b.readyYou))
        && (s.b.status != Unready ==> (s.a.status != Unready <==> s.a.readyYou))
  {
    RunKeepsInv(xs);
  }

  /** Two players who have finished cannot both have lost. Whether both have won is RaceOutcome.BothWin. */
  lemma {:induction false} SomebodyWins(xs: seq<Action>)
    requires Disciplined(START, xs)
    ensures
      var s := Run(START, xs);
      s.a.status == Finished && s.b.status == Finished ==> s.a.won || s.b.won
  {
    RunKeepsInv(xs);
  }

  // ----- how a session ends

  function MessageWeight(m: Message): nat {
    if IsRequest(m) then 2 else 1
  }

  function LineWeight(q: seq<Message>): nat {
    if q == [] then 0 else MessageWeight(q[0]) + LineWeight(q[1..])
  }

  function StatusWeight(t: Status): nat {
    match t
    case Unready => 4
    case Ready => 3
    case Typing => 2
    case Finished => 0
  }

  /** The work still to be done: messages on the lines and the stages of the race ahead. */
  function Weight(s: Session): nat {
    LineWeight(s.ab) + LineWeight(s.ba) + StatusWeight(s.a.status) + StatusWeight(s.b.status)
  }

  lemma {:induction false} LineWeightAppend(p: seq<Message>, q: seq<Message>)
    ensures LineWeight(p + q) == LineWeight(p) + LineWeight(q)
  {
    if p == [] {
      assert p + q == q;
    } else {
      assert (p + q)[1..] == p[1..] + q;
      LineWeightAppend(p[1..], q);
    }
  }

  lemma {:induction false} DeliverWeight(s: Session)
    requires Inv(s) && s.ba != []
    ensures Weight(Step(s, Deliver)) < Weight(s)
  {
    var m := s.ba[0];
    var (p, sent) := Receive(s.a, m);
    assert m in s.ba;
    LineWeightAppend(s.ab, sent);
    assert sent == [] || LineWeight(sent) == 1 by {
      assert |sent| == 1 ==> LineWeight(sent) == MessageWeight(sent[0]) + LineWeight(sent[1..]);
    }
    assert MessageWeight(m) > LineWeight(sent);
    assert StatusWeight(p.status) <= StatusWeight(s.a.status) by {
      assert TextHolds(s) && BeliefHolds(s) && BeliefHolds(Mirror(s));
    }
  }

  /** Every move but a press uses up weight; a press adds at most four. */
  lemma {:induction false} StepWeight(s: Session, m: Move)
    requires Inv(s) && Enabled(s, m)
    ensures m.PressButton? ==> Weight(Step(s, m)) <= Weight(s) + 4
    ensures !m.PressButton? ==> Weight(Step(s, m)) < Weight(s)
  {
    match m
    case PressButton(now) =>
      var sent := Press(s.a, now).1;
      LineWeightAppend(s.ab, sent);
      LineWeightAppend([ReadyMsg], [Seed(now)]);
      assert [ReadyMsg] + [Seed(now)] == [ReadyMsg, Seed(now)];
    case Deliver => DeliverWeight(s);
    case Start =>
    case Finish => LineWeightAppend(s.ab, [Won]);
  }

  /** How often one player presses the button. */
  function PressesBy(left: bool, xs: seq<Action>): nat {
    if xs == [] then 0
    else
      var x := xs[|xs| - 1];
      PressesBy(left, xs[..|xs| - 1]) + if x.left == left && x.move.PressButton? then 1 else 0
  }

  /** No session goes on forever by itself: with k presses it takes at most 5k + 8 moves. */
  lemma {:induction false} SessionLength(xs: seq<Action>)
    requires Disciplined(START, xs)
    ensures |xs| + Weight(Run(START, xs)) <= 5 * (PressesBy(true, xs) + PressesBy(false, xs)) + 8
  {
    if xs != [] {
      var ys, x := xs[..|xs| - 1], xs[|xs| - 1];
      SessionLength(ys);
      RunKeepsInv(ys);
      var s := Run(START, ys);
      if x.left {
        StepWeight(s, x.move);
      } else {
        StepWeight(Mirror(s), x.move);
      }
    }
  }

  /** As long as player a has pressed at most once, he never takes a ready message back. */
  ghost predicate OnceHolds(s: Session, pressed: bool) {
    && NReadyMsg !in s.ab && NReadyAck !in s.ba
    && (if pressed then s.a.seedMe != 0 && (ReadyMsg in s.ab || s.b.readyYou)
        else !s.a.readyMe && s.a.status == Unready && ReadyMsg !in s.ab && ReadyAck !in s.ba)
  }

  ghost predicate RealClock(xs: seq<Action>) {
    forall x | x in xs && x.move.PressButton? :: x.move.now != 0
  }

  lemma {:induction false} DeliverKeepsOnce(s: Session, pressed: bool)
    requires Inv(s) && s.ba != [] && OnceHolds(s, pressed) && NReadyMsg !in s.ba
    ensures OnceHolds(Step(s, Deliver), pressed)
  {
    var t := Step(s, Deliver);
    assert s.ba == [s.ba[0]] + s.ba[1..];
    assert s.ba[0] in s.ba && s.ba[0] != NReadyMsg && s.ba[0] != NReadyAck;
    var sent := Receive(s.a, s.ba[0]).1;
    assert t.ab == s.ab + sent && NReadyMsg !in sent && ReadyMsg !in sent;
  }

  lemma {:induction false} DeliverKeepsOther(s: Session, pressed: bool)
    requires Inv(s) && s.ba != [] && OnceHolds(Mirror(s), pressed)
    ensures OnceHolds(Mirror(Step(s, Deliver)), pressed)
  {
    var t := Step(s, Deliver);
    assert s.ba == [s.ba[0]] + s.ba[1..];
    assert s.ba[0] in s.ba && s.ba[0] != NReadyMsg;
    var sent := Receive(s.a, s.ba[0]).1;
    assert t.ab == s.ab + sent && NReadyAck !in sent;
  }

  lemma {:induction false} StepKeepsOnce(s: Session, m: Move, pressedA: bool, pressedB: bool)
    requires Inv(s) && Enabled(s, m)
    requires OnceHolds(s, pressedA) && OnceHolds(Mirror(s), pressedB)
    requires m.PressButton? ==> !pressedA && m.now != 0
    ensures OnceHolds(Step(s, m), pressedA || m.PressButton?)
    ensures OnceHolds(Mirror(Step(s, m)), pressedB)
  {
    if m.Deliver? {
      DeliverKeepsOnce(s, pressedA);
      DeliverKeepsOther(s, pressedB);
    }
  }

  lemma {:induction false} OnceThroughout(xs: seq<Action>)
    requires Disciplined(START, xs) && RealClock(xs)
    requires PressesBy(true, xs) <= 1 && PressesBy(false, xs) <= 1
    ensures OnceHolds(Run(START, xs), PressesBy(true, xs) == 1)
    ensures OnceHolds(Mirror(Run(START, xs)), PressesBy(false, xs) == 1)
  {
    if xs != [] {
      var ys, x := xs[..|xs| - 1], xs[|xs| - 1];
      OnceThroughout(ys);
      RunKeepsInv(ys);
      var s := Run(START, ys);
      if x.left {
        StepKeepsOnce(s, x.move, PressesBy(true, ys) == 1, PressesBy(false, ys) == 1);
      } else {
        StepKeepsOnce(Mirror(s), x.move, PressesBy(false, ys) == 1, PressesBy(true, ys) == 1);
      }
    }
  }

  /** Race progress: if each player presses once, every schedule that delivers all messages ends, after
      at most 18 moves, with both players out of unready and with the same text. */
  lemma {:induction false} RaceProgress(xs: seq<Action>)
    requires Disciplined(START, xs) && RealClock(xs)
    requires PressesBy(true, xs) == 1 && PressesBy(false, xs) == 1
    ensures |xs| <= 18
    ensures
      var s := Run(START, xs);
      s.ab == [] && s.ba == [] ==>
        && s.a.status != Unready && s.b.status != Unready
        && s.a.texts == s.b.texts == [TextSeed(s.a.seedMe, s.b.seedMe)]
  {
    RunKeepsInv(xs);
    SessionLength(xs);
    OnceThroughout(xs);
    var s := Run(START, xs);
    if s.ab == [] && s.ba == [] {
      assert BeliefHolds(s) && BeliefHolds(Mirror(s));
      assert BothReady(s.a) && BothReady(s.b);
      assert TextHolds(s) && TextHolds(Mirror(s));
      StateAgreement(s);
    }
  }

  // ----- concrete sessions

  lemma {:induction false} RunExtend(xs: seq<Action>, x: Action)
    ensures Run(START, xs + [x]) == Act(Run(START, xs), x)
    ensures Disciplined(START, xs + [x]) <==> Disciplined(START, xs) && ActionEnabled(Run(START, xs), x)
  {
    assert (xs + [x])[..|xs|] == xs;
  }

  /** Some run leads to `s`; a disciplined one if asked for. */
  ghost predicate Reachable(s: Session, disciplined: bool) {
    exists xs :: Run(START, xs) == s && (disciplined ==> Disciplined(START, xs))
  }

  lemma {:induction false} Onward(s: Session, x: Action, t: Session, disciplined: bool)
    requires Reachable(s, disciplined) && t == Act(s, x) && (disciplined ==> ActionEnabled(s, x))
    ensures Reachable(t, disciplined)
  {
    var xs :| Run(START, xs) == s && (disciplined ==> Disciplined(START, xs));
    RunExtend(xs, x);
  }

  lemma Started(disciplined: bool)
    ensures Reachable(START, disciplined)
  {
    assert Run(START, []) == START;
  }

  lemma SmallSeeds(mine: u64, yours: u64)
    requires mine + yours < 0x1_0000_0000
    ensures TextSeed(mine, yours) == mine + yours
  {
  }

  const PRESSING_7 := FRESH_PEER.(seedMe := 7, waitingAck := true)
  const HEARD_7 := FRESH_PEER.(readyYou := true, waitingForSeed := true)
  const KNOWS_7 := FRESH_PEER.(readyYou := true, seedYou := 7)
  const READY_7 := FRESH_PEER.(seedMe := 7, readyMe := true)
  const UNREADYING := READY_7.(waitingAck := true)
  const MEETING := UNREADYING.(readyYou := true, waitingForSeed := true)
  const RACING := UNREADYING.(readyYou := true, seedYou := 9, status := Ready, texts := [16])
  const KNOWS_PRESSING := KNOWS_7.(seedMe := 9, waitingAck := true)
  const LEFT_BEHIND := KNOWS_PRESSING.(readyYou := false)
  const LEFT_READY := LEFT_BEHIND.(readyMe := true, waitingAck := false)

  const ASKED := Session(PRESSING_7, FRESH_PEER, [ReadyMsg, Seed(7)], [])
  const HEARD := Session(PRESSING_7, HEARD_7, [Seed(7)], [ReadyAck])
  const ANSWERED := Session(PRESSING_7, KNOWS_7, [], [ReadyAck, Ack])
  const CONFIRMED := Session(READY_7, KNOWS_7, [], [Ack])
  const SETTLED := Session(READY_7, KNOWS_7, [], [])
  const TAKEN_BACK := Session(UNREADYING, KNOWS_7, [NReadyMsg], [])
  const CROSSING := Session(UNREADYING, KNOWS_PRESSING, [NReadyMsg], [ReadyMsg, Seed(9)])
  const MET := Session(MEETING, KNOWS_PRESSING, [NReadyMsg, ReadyAck], [Seed(9)])
  const GENERATED := Session(RACING, KNOWS_PRESSING, [NReadyMsg, ReadyAck, Ack], [])
  const PARTING := Session(RACING, LEFT_BEHIND, [ReadyAck, Ack], [NReadyAck])
  const PARTED := Session(RACING, LEFT_READY, [Ack], [NReadyAck])
  const NEARLY_OVER := Session(RACING, LEFT_READY, [], [NReadyAck])
  const ALONE := Session(RACING.(readyMe := false, seedMe := 0, waitingAck := false), LEFT_READY, [], [])

  lemma FirstAsked()
    ensures Reachable(HEARD, true)
  {
    Started(true);
    Onward(START, Action(true, PressButton(7)), ASKED, true);
    Onward(ASKED, Action(false, Deliver), HEARD, true);
  }

  lemma FirstAnswered()
    ensures Reachable(ANSWERED, true)
  {
    FirstAsked();
    Onward(HEARD, Action(false, Deliver), ANSWERED, true);
  }

  lemma FirstConfirmed()
    ensures Reachable(CONFIRMED, true)
  {
    FirstAnswered();
    Onward(ANSWERED, Action(true, Deliver), CONFIRMED, true);
  }

  lemma FirstReady()
    ensures Reachable(SETTLED, true)
  {
    FirstConfirmed();
    Onward(CONFIRMED, Action(true, Deliver), SETTLED, true);
  }

  lemma CrossingPresses()
    ensures Reachable(CROSSING, true)
  {
    FirstReady();
    Onward(SETTLED, Action(true, PressButton(8)), TAKEN_BACK, true);
    Onward(TAKEN_BACK, Action(false, PressButton(9)), CROSSING, true);
  }

  lemma CrossingMessages()
    ensures Reachable(MET, true)
  {
    CrossingPresses();
    Onward(CROSSING, Action(true, Deliver), MET, true);
  }

  lemma Generating()
    ensures Reachable(GENERATED, true)
  {
    CrossingMessages();
    assert Act(MET, Action(true, Deliver)) == GENERATED by {
      assert Receive(MEETING, Seed(9)).0 == RACING by { SmallSeeds(7, 9); }
    }
    Onward(MET, Action(true, Deliver), GENERATED, true);
  }

  lemma TakenBack()
    ensures Reachable(PARTING, true)
  {
    Generating();
    Onward(GENERATED, Action(false, Deliver), PARTING, true);
  }

  lemma Parting()
    ensures Reachable(PARTED, true)
  {
    TakenBack();
    Onward(PARTING, Action(false, Deliver), PARTED, true);
  }

  lemma NearlyOver()
    ensures Reachable(NEARLY_OVER, true)
  {
    Parting();
    Onward(PARTED, Action(false, Deliver), NEARLY_OVER, true);
  }

  /** Player a takes his readiness back, and before b hears of it b gets ready: after everything is delivered a is
      about to race and b is not, although every press was a disciplined one. */
  lemma UnreadyLeavesAlone()
    ensures exists s :: Reachable(s, true) && s.ab == s.ba == [] && s.a.status == Ready && s.b.status == Unready
  {
    NearlyOver();
    Onward(NEARLY_OVER, Action(true, Deliver), ALONE, true);
  }

  const FIRST_A := FRESH_PEER.(seedMe := 1, waitingAck := true)
  const SECOND_A := FIRST_A.(readyYou := true, seedYou := 5, seedMe := 2)
  const FIRST_B := FRESH_PEER.(seedMe := 5, waitingAck := true)
  const KNOWING_B := FIRST_B.(readyYou := true, seedYou := 1)
  const RACING_B := KNOWING_B.(readyMe := true, waitingAck := false, status := Ready, texts := [6])
  const RACING_A := SECOND_A.(readyMe := true, waitingAck := false, status := Ready, texts := [7])

  const PRESSED_A := Session(FIRST_A, FRESH_PEER, [ReadyMsg, Seed(1)], [])
  const PRESSED_BOTH := Session(FIRST_A, FIRST_B, [ReadyMsg, Seed(1)], [ReadyMsg, Seed(5)])
  const HEARD_B := Session(FIRST_A.(readyYou := true, waitingForSeed := true), FIRST_B,
                           [ReadyMsg, Seed(1), ReadyAck], [Seed(5)])
  const KNOWN_B := Session(FIRST_A.(readyYou := true, seedYou := 5), FIRST_B,
                           [ReadyMsg, Seed(1), ReadyAck, Ack], [])
  const PRESSED_TWICE := Session(SECOND_A, FIRST_B,
                                 [ReadyMsg, Seed(1), ReadyAck, Ack, ReadyMsg, Seed(2)], [])
  const HEARD_A := Session(SECOND_A, FIRST_B.(readyYou := true, waitingForSeed := true),
                           [Seed(1), ReadyAck, Ack, ReadyMsg, Seed(2)], [ReadyAck])
  const KNOWN_A := Session(SECOND_A, KNOWING_B, [ReadyAck, Ack, ReadyMsg, Seed(2)], [ReadyAck, Ack])
  const B_RACES := Session(SECOND_A, RACING_B, [Ack, ReadyMsg, Seed(2)], [ReadyAck, Ack])
  const BOTH_RACE := Session(RACING_A, RACING_B, [Ack, ReadyMsg, Seed(2)], [Ack])

  lemma PressBoth()
    ensures Reachable(PRESSED_BOTH, false)
  {
    Started(false);
    Onward(START, Action(true, PressButton(1)), PRESSED_A, false);
    Onward(PRESSED_A, Action(false, PressButton(5)), PRESSED_BOTH, false);
  }

  lemma HearB()
    ensures Reachable(KNOWN_B, false)
  {
    PressBoth();
    Onward(PRESSED_BOTH, Action(true, Deliver), HEARD_B, false);
    Onward(HEARD_B, Action(true, Deliver), KNOWN_B, false);
  }

  lemma PressAgain()
    ensures Reachable(HEARD_A, false)
  {
    HearB();
    Onward(KNOWN_B, Action(true, PressButton(2)), PRESSED_TWICE, false);
    Onward(PRESSED_TWICE, Action(false, Deliver), HEARD_A, false);
  }

  lemma HearA()
    ensures Reachable(B_RACES, false)
  {
    PressAgain();
    Onward(HEARD_A, Action(false, Deliver), KNOWN_A, false);
    assert Receive(KNOWING_B, ReadyAck).0 == RACING_B by { SmallSeeds(5, 1); }
    Onward(KNOWN_A, Action(false, Deliver), B_RACES, false);
  }

  /** Without the discipline agreement fails: here player a presses a second time before his first
      ready message is acknowledged, and the two texts differ. */
  lemma HastyPressDisagrees()
    ensures exists s :: Reachable(s, false) && s.a.status == s.b.status == Ready && s.a.texts != s.b.texts
  {
    HearA();
    assert Receive(SECOND_A, ReadyAck).0 == RACING_A by { SmallSeeds(2, 5); }
    Onward(B_RACES, Action(true, Deliver), BOTH_RACE, false);
  }

  const RACER_A := FIRST_A.(readyMe := true, readyYou := true, seedYou := 5, waitingAck := false, status := Ready,
                            texts := [6])
  const WINNER_A := RACER_A.(status := Finished, won := true)
  const WINNER_B := RACING_B.(status := Finished, won := true)
  const MUTUAL_B := Session(FIRST_A.(readyYou := true, seedYou := 5), KNOWING_B, [ReadyAck, Ack], [ReadyAck, Ack])
  const GENERATED_B := Session(MUTUAL_B.a, RACING_B, [Ack], [ReadyAck, Ack])
  const LEFT_B := Session(FIRST_A.(readyYou := true, seedYou := 5), RACING_B, [], [ReadyAck, Ack])
  const LEFT_BOTH := Session(RACER_A, RACING_B, [], [Ack])
  const TOGETHER := Session(RACER_A, RACING_B, [], [])
  const TYPING_BOTH := Session(RACER_A.(status := Typing), RACING_B.(status := Typing), [], [])
  const WON_BOTH := Session(WINNER_A, WINNER_B, [Won], [Won])
  const IGNORING := WON_BOTH.(ba := [])
  const BOTH_WON := Session(WINNER_A, WINNER_B, [], [])

  lemma Crossing()
    ensures Reachable(KNOWN_B, true)
  {
    Started(true);
    Onward(START, Action(true, PressButton(1)), PRESSED_A, true);
    Onward(PRESSED_A, Action(false, PressButton(5)), PRESSED_BOTH, true);
    Onward(PRESSED_BOTH, Action(true, Deliver), HEARD_B, true);
    Onward(HEARD_B, Action(true, Deliver), KNOWN_B, true);
  }

  lemma Mutual()
    ensures Reachable(MUTUAL_B, true)
  {
    Crossing();
    var s := Session(KNOWN_B.a, FIRST_B.(readyYou := true, waitingForSeed := true), [Seed(1), ReadyAck, Ack],
                     [ReadyAck]);
    Onward(KNOWN_B, Action(false, Deliver), s, true);
    Onward(s, Action(false, Deliver), MUTUAL_B, true);
  }

  lemma FirstGenerates()
    ensures Reachable(GENERATED_B, true)
  {
    Mutual();
    assert Act(MUTUAL_B, Action(false, Deliver)) == GENERATED_B by {
      assert Receive(KNOWING_B, ReadyAck).0 == RACING_B by { SmallSeeds(5, 1); }
    }
    Onward(MUTUAL_B, Action(false, Deliver), GENERATED_B, true);
  }

  lemma FirstLeaves()
    ensures Reachable(LEFT_B, true)
  {
    FirstGenerates();
    Onward(GENERATED_B, Action(false, Deliver), LEFT_B, true);
  }

  lemma SecondLeaves()
    ensures Reachable(LEFT_BOTH, true)
  {
    FirstLeaves();
    assert Receive(LEFT_B.a, ReadyAck).0 == RACER_A by { SmallSeeds(1, 5); }
    Onward(LEFT_B, Action(true, Deliver), LEFT_BOTH, true);
  }

  lemma BothLeave()
    ensures Reachable(TOGETHER, true)
  {
    SecondLeaves();
    Onward(LEFT_BOTH, Action(true, Deliver), TOGETHER, true);
  }

  lemma BothType()
    ensures Reachable(TYPING_BOTH, true)
  {
    BothLeave();
    var s := TOGETHER.(a := RACER_A.(status := Typing));
    Onward(TOGETHER, Action(true, Start), s, true);
    Onward(s, Action(false, Start), TYPING_BOTH, true);
  }

  lemma BothFinish()
    ensures Reachable(WON_BOTH, true)
  {
    BothType();
    var s := TYPING_BOTH.(a := WINNER_A, ab := [Won]);
    Onward(TYPING_BOTH, Action(true, Finish), s, true);
    Onward(s, Action(false, Finish), WON_BOTH, true);
  }

  lemma FirstIgnores()
    ensures Reachable(IGNORING, true)
  {
    BothFinish();
    Onward(WON_BOTH, Action(true, Deliver), IGNORING, true);
  }

  /** A session after which both players have won. RaceOutcome.WhoWins says exactly which sessions end so. */
  lemma BothCanWin()
    ensures exists s :: Reachable(s, true) && s.ab == s.ba == [] && s.a.won && s.b.won
  {
    FirstIgnores();
    Onward(IGNORING, Action(false, Deliver), BOTH_WON, true);
  }
}
