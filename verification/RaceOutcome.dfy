/** Who races, and who wins: exactly which sessions go wrong, and by which move. */
module RaceOutcome {
  import opened CTypes
  import opened RacePeer
  import opened RaceSession

  /** Some action of the run is taken in a state in which `p` holds of the two. */
  ghost predicate Ever(p: (Session, Action) -> bool, xs: seq<Action>) {
    exists i | 0 <= i < |xs| :: p(Run(START, xs[..i]), xs[i])
  }

  lemma {:induction false} EverLast(p: (Session, Action) -> bool, xs: seq<Action>)
    requires xs != []
    ensures
      var ys := xs[..|xs| - 1];
      Ever(p, xs) <==> Ever(p, ys) || p(Run(START, ys), xs[|xs| - 1])
  {
    var ys := xs[..|xs| - 1];
    assert forall i | 0 <= i < |ys| :: ys[..i] == xs[..i];
    if Ever(p, ys) {
      var i :| 0 <= i < |ys| && p(Run(START, ys[..i]), ys[i]);
      assert p(Run(START, xs[..i]), xs[i]);
    }
    if Ever(p, xs) {
      var i :| 0 <= i < |xs| && p(Run(START, xs[..i]), xs[i]);
      if i < |ys| {
        assert p(Run(START, ys[..i]), ys[i]);
      }
    }
  }

  /** The session as the player who acts sees it. */
  function Facing(s: Session, x: Action): Session {
    if x.left then s else Mirror(s)
  }

  // ----- who wins

  /** Typing the last character when the opponent has already won. */
  ghost predicate FinishesSecond(s: Session, x: Action) {
    x.move.Finish? && Facing(s, x).b.won
  }

  /** Hearing of the opponent's win while still typing: the one moment at which it counts. */
  ghost predicate HearsInTime(s: Session, x: Action) {
    x.move.Deliver? && Facing(s, x).a.status == Typing && Facing(s, x).ba != [] && Facing(s, x).ba[0] == Won
  }

  predicate Lost(p: Peer) {
    p.status == Finished && !p.won
  }

  lemma {:induction false} WinningMove(s: Session, m: Move)
    requires Inv(s) && Enabled(s, m)
    ensures
      var t := Step(s, m);
      && t.b == s.b
      && (t.a.won <==> s.a.won || m.Finish?)
      && (Lost(t.a) <==> Lost(s.a) || HearsInTime(s, Action(true, m)))
  {
    assert WinnerHolds(s) && TextHolds(s) && BeliefHolds(s) && BeliefHolds(Mirror(s));
    if m.Deliver? {
      assert s.ba[0] in s.ba;
    }
  }

  lemma {:induction false} WinningAction(s: Session, x: Action)
    requires Inv(s) && ActionEnabled(s, x)
    ensures
      var t := Act(s, x);
      && (t.a.won && t.b.won <==> (s.a.won && s.b.won) || FinishesSecond(s, x))
      && (Lost(t.a) || Lost(t.b) <==> Lost(s.a) || Lost(s.b) || HearsInTime(s, x))
  {
    assert Mirror(Mirror(s)) == s;
    assert WinnerHolds(s) && WinnerHolds(Mirror(s));
    WinningMove(Facing(s, x), x.move);
  }

  /** Who wins, exactly. Both win if and only if somebody types the last character after the other has won; somebody
      loses if and only if the news of a win reaches a player who is typing. */
  lemma {:induction false} WhoWins(xs: seq<Action>)
    requires Disciplined(START, xs)
    ensures
      var s := Run(START, xs);
      && (s.a.won && s.b.won <==> Ever(FinishesSecond, xs))
      && (Lost(s.a) || Lost(s.b) <==> Ever(HearsInTime, xs))
  {
    if xs != [] {
      var ys := xs[..|xs| - 1];
      WhoWins(ys);
      RunKeepsInv(ys);
      WinningAction(Run(START, ys), xs[|xs| - 1]);
      EverLast(FinishesSecond, xs);
      EverLast(HearsInTime, xs);
    }
  }

  /** Of two players who have finished both have won if and only if no win was ever heard of in time. */
  lemma {:induction false} BothWin(xs: seq<Action>)
    requires Disciplined(START, xs)
    requires Run(START, xs).a.status == Finished && Run(START, xs).b.status == Finished
    ensures
      var s := Run(START, xs);
      && (s.a.won || s.b.won)
      && (s.a.won && s.b.won <==> !Ever(HearsInTime, xs))
  {
    WhoWins(xs);
    SomebodyWins(xs);
  }

  // ----- who races

  /** `x` is on the line, and no `y` before it. */
  predicate Ahead(q: seq<Message>, x: Message, y: Message) {
    q != [] && (q[0] == x || (q[0] != y && Ahead(q[1..], x, y)))
  }

  lemma {:induction false} AheadSend(q: seq<Message>, m: Message, x: Message, y: Message)
    ensures Ahead(q + [m], x, y) <==> Ahead(q, x, y) || (y !in q && m == x)
    ensures Ahead(q, x, y) ==> x in q
    ensures x in q && y !in q ==> Ahead(q, x, y)
  {
    if q != [] {
      assert (q + [m])[1..] == q[1..] + [m];
      assert q == [q[0]] + q[1..];
      AheadSend(q[1..], m, x, y);
    }
  }

  /** The move that does the harm: un-readying while the opponent's ready message is on its way, or
      getting ready while his un-ready is. */
  ghost predicate Collides(s: Session, x: Action) {
    var f := Facing(s, x);
    x.move.PressButton? && f.a.status == Unready && (if f.a.readyMe then ReadyMsg else NReadyMsg) in f.ba
  }

  /** Player a takes his readiness back while the opponent announces his. */
  ghost predicate CrossedBy(s: Session) {
    NReadyMsg in s.ab && ReadyMsg in s.ba
  }

  ghost predicate Crossed(s: Session) {
    CrossedBy(s) || CrossedBy(Mirror(s))
  }

  /** An un-ready is the only request on the line. */
  ghost predicate OneUnready(q: seq<Message>) {
    forall i, j | 0 <= i < |q| && 0 <= j < |q| && i != j && q[i] == NReadyMsg :: !IsRequest(q[j])
  }

  /** The first answer on the line, if there is one, is the only un-ready-ack. */
  predicate NextAnswer(q: seq<Message>) {
    q == [] || (q[0] == NReadyAck && NReadyAck !in q[1..]) || (IsRequest(q[0]) && NextAnswer(q[1..]))
  }

  /** What is known of player a's last request: an un-ready is alone and its answer awaited, and seeds are real. */
  ghost predicate RequestHolds(s: Session) {
    && OneUnready(s.ab)
    && (NReadyMsg in s.ab ==> NReadyAck !in s.ba && (s.a.status == Unready ==> s.a.readyMe))
    && (NReadyMsg in s.ab && s.b.status == Unready ==>
          NextAnswer(s.ba) && (s.a.status == Unready ==> s.a.waitingAck))
    && (NReadyAck in s.ba ==> NextAnswer(s.ba) && (s.a.status == Unready ==> s.a.waitingAck))
    && (ReadyMsg in s.ab || ReadyAck in s.ba || (s.a.readyMe && s.a.status == Unready) ==> s.a.seedMe != 0)
  }

  ghost predicate Requests(s: Session) {
    RequestHolds(s) && RequestHolds(Mirror(s))
  }

  /** Player a has left unready, or the opponent's ready message will make him. */
  ghost predicate Leaving(s: Session) {
    s.a.status != Unready ||
    (s.a.readyMe && s.a.seedMe != 0 && s.b.seedMe != 0 &&
     (Ahead(s.ba, ReadyMsg, NReadyAck) || (s.a.readyYou && s.a.waitingForSeed)))
  }

  /** Player b has not left unready and never will: a's un-ready comes before b's ready-ack. */
  ghost predicate Staying(s: Session) {
    s.b.status == Unready && ReadyMsg !in s.ab &&
    (s.b.readyYou ==> !s.b.readyMe && !s.b.waitingForSeed && Ahead(s.ab, NReadyMsg, ReadyAck))
  }

  ghost predicate Parts(s: Session) {
    Leaving(s) && Staying(s)
  }

  /** Without a collision b knows that a is ready, unless a's un-ready is answered. */
  ghost predicate Known(s: Session) {
    && !CrossedBy(s)
    && (s.a.status != Unready ==> s.b.status != Unready || s.b.readyYou)
    && ((s.a.readyMe || ReadyAck in s.ba) && s.a.status == Unready ==> s.b.readyYou || NReadyAck in s.ba)
  }

  /** Without a collision a's un-ready cannot reach an unready b when a has left or knows b ready, and its answer
      comes before b's next ready. */
  ghost predicate Ordered(s: Session) {
    && (NReadyMsg in s.ab && (s.a.status != Unready || s.a.readyYou) && s.b.status == Unready ==>
          s.b.readyYou && s.a.seedMe != 0 && s.b.seedMe != 0 && Ahead(s.ab, ReadyAck, NReadyMsg))
    && (NReadyAck in s.ba ==> s.a.status == Unready && !s.a.readyYou && Ahead(s.ba, NReadyAck, ReadyMsg))
  }

  ghost predicate Follows(s: Session) {
    Known(s) && Ordered(s)
  }

  ghost predicate Together(s: Session) {
    Follows(s) && Follows(Mirror(s))
  }

  ghost predicate Real(m: Move) {
    m.PressButton? ==> m.now != 0
  }

  lemma {:induction false} OneUnreadySend(q: seq<Message>, m: Message)
    requires OneUnready(q) && (IsRequest(m) ==> NReadyMsg !in q)
    requires m == NReadyMsg ==> forall r | r in q :: !IsRequest(r)
    ensures OneUnready(q + [m])
  {
  }

  lemma {:induction false} NextAnswerSend(q: seq<Message>, m: Message)
    ensures NextAnswer(q) && IsRequest(m) ==> NextAnswer(q + [m])
    ensures NextAnswer(q) && NReadyAck !in q && m == NReadyAck ==> NextAnswer(q + [m])
    ensures NextAnswer(q) && NReadyAck in q && m != NReadyAck ==> NextAnswer(q + [m])
    ensures OnlyRequests(q) ==> NextAnswer(q)
  {
    if q != [] {
      assert (q + [m])[1..] == q[1..] + [m];
      assert q == [q[0]] + q[1..];
      NextAnswerSend(q[1..], m);
    }
  }

  lemma {:induction false} RequestsPressOwn(s: Session, now: u64)
    requires Inv(s) && Requests(s) && Settled(s) && now != 0
    ensures RequestHolds(Step(s, PressButton(now)))
  {
    assert NReadyMsg !in s.ab && NReadyAck !in s.ba && ReadyAck !in s.ba;
    OneUnreadySend(s.ab, NReadyMsg);
    OneUnreadySend(s.ab, ReadyMsg);
    OneUnreadySend(s.ab + [ReadyMsg], Seed(now));
    assert s.ab + [ReadyMsg] + [Seed(now)] == s.ab + [ReadyMsg, Seed(now)];
    if s.b.status == Unready {
      assert OnlyRequests(s.ba);
      NextAnswerSend(s.ba, NReadyMsg);
    }
  }

  lemma {:induction false} RequestsPressOther(s: Session, now: u64)
    requires Inv(s) && Requests(s) && Settled(s) && now != 0
    ensures RequestHolds(Mirror(Step(s, PressButton(now))))
  {
    NextAnswerSend(s.ab, NReadyMsg);
    NextAnswerSend(s.ab, ReadyMsg);
    NextAnswerSend(s.ab + [ReadyMsg], Seed(now));
    assert s.ab + [ReadyMsg] + [Seed(now)] == s.ab + [ReadyMsg, Seed(now)];
  }

  lemma {:induction false} UnreadyTail(q: seq<Message>)
    requires q != [] && OneUnready(q)
    ensures OneUnready(q[1..]) && (q[0] == NReadyMsg ==> NReadyMsg !in q[1..])
  {
    assert forall i | 0 <= i < |q| - 1 :: q[1..][i] == q[i + 1];
  }

  /** An answer is not answered. */
  lemma {:induction false} AnswerQuiet(s: Session)
    requires Inv(s) && s.ba != [] && !IsRequest(s.ba[0])
    ensures s.ba[0] in s.ba && (IsAck(s.ba[0]) || s.ba[0].Won?) && Step(s, Deliver).ab == s.ab
  {
    assert s.ba[0] in s.ba;
    assert s.ab + [] == s.ab;
  }

  lemma {:induction false} RequestsOwnRequest(s: Session)
    requires Inv(s) && Requests(s) && s.ba != [] && IsRequest(s.ba[0])
    ensures RequestHolds(Step(s, Deliver))
  {
    var sent := Receive(s.a, s.ba[0]).1;
    if sent == [] {
      assert s.ab + sent == s.ab;
    } else {
      OneUnreadySend(s.ab, sent[0]);
      assert s.ab + sent == s.ab + [sent[0]];
    }
  }

  lemma {:induction false} RequestsOtherRequest(s: Session)
    requires Inv(s) && Requests(s) && s.ba != [] && IsRequest(s.ba[0])
    ensures RequestHolds(Mirror(Step(s, Deliver)))
  {
    UnreadyTail(s.ba);
    var sent := Receive(s.a, s.ba[0]).1;
    if sent == [] {
      assert s.ab + sent == s.ab;
    } else {
      NextAnswerSend(s.ab, sent[0]);
      assert s.ab + sent == s.ab + [sent[0]];
    }
  }

  lemma {:induction false} RequestsOwnAnswer(s: Session)
    requires Inv(s) && Requests(s) && s.ba != [] && !IsRequest(s.ba[0])
    ensures RequestHolds(Step(s, Deliver))
  {
    AnswerQuiet(s);
    AnswerAlone(s);
  }

  lemma {:induction false} RequestsOtherAnswer(s: Session)
    requires Inv(s) && Requests(s) && s.ba != [] && !IsRequest(s.ba[0])
    ensures RequestHolds(Mirror(Step(s, Deliver)))
  {
    AnswerQuiet(s);
    UnreadyTail(s.ba);
  }

  lemma {:induction false} RequestsDeliver(s: Session)
    requires Inv(s) && Requests(s) && s.ba != []
    ensures Requests(Step(s, Deliver))
  {
    if IsRequest(s.ba[0]) {
      RequestsOwnRequest(s);
      RequestsOtherRequest(s);
    } else {
      RequestsOwnAnswer(s);
      RequestsOtherAnswer(s);
    }
  }

  // ----- a parting cannot be undone

  lemma {:induction false} AheadAll(q: seq<Message>, x: Message, y: Message)
    ensures Ahead(q, x, y) ==> x in q
  {
    AheadSend(q, x, x, y);
  }

  lemma {:induction false} LeavingDeliver(s: Session)
    requires Inv(s) && s.ba != [] && Leaving(s)
    ensures Leaving(Step(s, Deliver))
  {
    assert s.ba[0] in s.ba;
    AheadAll(s.ba, ReadyMsg, NReadyAck);
    FramedTail(s.ba, s.b.seedMe);
  }

  lemma {:induction false} StayingHears(s: Session)
    requires Inv(s) && s.ba != [] && Staying(s)
    ensures Staying(Step(s, Deliver))
  {
    var m := s.ba[0];
    assert m in s.ba;
    var sent := Receive(s.a, m).1;
    if sent == [] {
      assert s.ab + sent == s.ab;
    } else {
      AheadSend(s.ab, sent[0], NReadyMsg, ReadyAck);
      assert s.ab + sent == s.ab + [sent[0]];
    }
  }

  lemma {:induction false} LeavingAnswered(s: Session)
    requires Inv(s) && s.ba != [] && Leaving(Mirror(s))
    ensures Leaving(Mirror(Step(s, Deliver)))
  {
    var m := s.ba[0];
    assert m in s.ba;
    AheadAll(s.ab, ReadyMsg, NReadyAck);
    var sent := Receive(s.a, m).1;
    if sent == [] {
      assert s.ab + sent == s.ab;
    } else {
      AheadSend(s.ab, sent[0], ReadyMsg, NReadyAck);
      assert s.ab + sent == s.ab + [sent[0]];
    }
  }

  lemma {:induction false} StayingDeliver(s: Session)
    requires Inv(s) && s.ba != [] && Staying(Mirror(s))
    ensures Staying(Mirror(Step(s, Deliver)))
  {
    assert s.ba[0] in s.ba;
    AheadAll(s.ba, NReadyMsg, ReadyAck);
    FramedTail(s.ba, s.b.seedMe);
  }

  lemma {:induction false} PartsPressOwn(s: Session, now: u64)
    requires Inv(s) && Settled(s) && Parts(s)
    ensures Parts(Step(s, PressButton(now)))
  {
    AheadSend(s.ab, NReadyMsg, NReadyMsg, ReadyAck);
    AheadSend(s.ab, ReadyMsg, NReadyMsg, ReadyAck);
  }

  lemma {:induction false} PartsPressOther(s: Session, now: u64)
    requires Inv(s) && Settled(s) && Parts(Mirror(s))
    ensures Parts(Mirror(Step(s, PressButton(now))))
  {
    AheadSend(s.ab, NReadyMsg, ReadyMsg, NReadyAck);
  }

  // ----- without a collision the players stay together

  /** When both know each other ready and b has not left, b's ready-ack is still on its way. */
  lemma {:induction false} UnreadyFollowsAck(s: Session)
    requires Inv(s) && Requests(s) && Together(s) && Settled(s)
    requires s.a.status == Unready && s.a.readyMe && s.a.readyYou && s.b.status == Unready
    ensures s.b.readyYou && s.a.seedMe != 0 && s.b.seedMe != 0 && ReadyAck in s.ab
  {
    assert s.ab != [] ==> s.ab[0] in s.ab;
    assert BeliefHolds(s) && BeliefHolds(Mirror(s)) && TextHolds(Mirror(s));
    assert s.b.readyYou && !s.b.waitingForSeed && s.b.seedYou == s.a.seedMe;
  }

  lemma {:induction false} TogetherPressOwn(s: Session, now: u64)
    requires Inv(s) && Requests(s) && Together(s) && Settled(s) && now != 0
    requires !Collides(s, Action(true, PressButton(now)))
    ensures Follows(Step(s, PressButton(now)))
  {
    if s.a.status == Unready && s.a.readyMe && s.a.readyYou && s.b.status == Unready {
      UnreadyFollowsAck(s);
    }
    AheadSend(s.ab, NReadyMsg, ReadyAck, NReadyMsg);
    AheadSend(s.ab, ReadyMsg, ReadyAck, NReadyMsg);
    AheadSend(s.ab + [ReadyMsg], Seed(now), ReadyAck, NReadyMsg);
    assert s.ab + [ReadyMsg] + [Seed(now)] == s.ab + [ReadyMsg, Seed(now)];
  }

  lemma {:induction false} TogetherPressOther(s: Session, now: u64)
    requires Inv(s) && Requests(s) && Together(s) && Settled(s) && now != 0
    requires !Collides(s, Action(true, PressButton(now)))
    ensures Follows(Mirror(Step(s, PressButton(now))))
  {
    AheadSend(s.ab, NReadyMsg, NReadyAck, ReadyMsg);
    AheadSend(s.ab, ReadyMsg, NReadyAck, ReadyMsg);
    AheadSend(s.ab + [ReadyMsg], Seed(now), NReadyAck, ReadyMsg);
    assert s.ab + [ReadyMsg] + [Seed(now)] == s.ab + [ReadyMsg, Seed(now)];
  }

  lemma {:induction false} KnownOwnRequest(s: Session)
    requires Inv(s) && Requests(s) && Together(s) && s.ba != [] && IsRequest(s.ba[0])
    ensures Known(Step(s, Deliver))
  {
    FramedTail(s.ba, s.b.seedMe);
    var sent := Receive(s.a, s.ba[0]).1;
    if sent == [] {
      assert s.ab + sent == s.ab;
    } else {
      assert s.ab + sent == s.ab + [sent[0]];
    }
  }

  lemma {:induction false} KnownOwnAnswer(s: Session)
    requires Inv(s) && Requests(s) && Together(s) && s.ba != [] && !IsRequest(s.ba[0])
    ensures Known(Step(s, Deliver))
  {
    AnswerQuiet(s);
    AnswerAlone(s);
  }

  lemma {:induction false} KnownOtherRequest(s: Session)
    requires Inv(s) && Requests(s) && Together(s) && s.ba != [] && IsRequest(s.ba[0])
    ensures Known(Mirror(Step(s, Deliver)))
  {
    FramedTail(s.ba, s.b.seedMe);
    var sent := Receive(s.a, s.ba[0]).1;
    if sent == [] {
      assert s.ab + sent == s.ab;
    } else {
      assert s.ab + sent == s.ab + [sent[0]];
    }
  }

  lemma {:induction false} KnownOtherAnswer(s: Session)
    requires Inv(s) && Requests(s) && Together(s) && s.ba != [] && !IsRequest(s.ba[0])
    ensures Known(Mirror(Step(s, Deliver)))
  {
    AnswerQuiet(s);
    AnswerAlone(s);
  }

  lemma {:induction false} OrderedOwnRequest(s: Session)
    requires Inv(s) && Requests(s) && Together(s) && s.ba != [] && IsRequest(s.ba[0])
    ensures Ordered(Step(s, Deliver))
  {
    FramedTail(s.ba, s.b.seedMe);
    var sent := Receive(s.a, s.ba[0]).1;
    if sent == [] {
      assert s.ab + sent == s.ab;
    } else {
      AheadSend(s.ab, sent[0], ReadyAck, NReadyMsg);
      assert s.ab + sent == s.ab + [sent[0]];
    }
  }

  lemma {:induction false} OrderedOwnAnswer(s: Session)
    requires Inv(s) && Requests(s) && Together(s) && s.ba != [] && !IsRequest(s.ba[0])
    ensures Ordered(Step(s, Deliver))
  {
    AnswerQuiet(s);
    AnswerAlone(s);
  }

  lemma {:induction false} OrderedOtherRequest(s: Session)
    requires Inv(s) && Requests(s) && Together(s) && s.ba != [] && IsRequest(s.ba[0])
    ensures Ordered(Mirror(Step(s, Deliver)))
  {
    FramedTail(s.ba, s.b.seedMe);
    var sent := Receive(s.a, s.ba[0]).1;
    if sent == [] {
      assert s.ab + sent == s.ab;
    } else {
      AheadSend(s.ab, sent[0], NReadyAck, ReadyMsg);
      assert s.ab + sent == s.ab + [sent[0]];
    }
  }

  lemma {:induction false} OrderedOtherAnswer(s: Session)
    requires Inv(s) && Requests(s) && Together(s) && s.ba != [] && !IsRequest(s.ba[0])
    ensures Ordered(Mirror(Step(s, Deliver)))
  {
    AnswerQuiet(s);
    AnswerAlone(s);
  }

  lemma {:induction false} TogetherDeliver(s: Session)
    requires Inv(s) && Requests(s) && Together(s) && s.ba != []
    ensures Together(Step(s, Deliver))
  {
    if IsRequest(s.ba[0]) {
      KnownOwnRequest(s);
      KnownOtherRequest(s);
      OrderedOwnRequest(s);
      OrderedOtherRequest(s);
    } else {
      KnownOwnAnswer(s);
      KnownOtherAnswer(s);
      OrderedOwnAnswer(s);
      OrderedOtherAnswer(s);
    }
  }

  lemma {:induction false} CollisionParts(s: Session, now: u64)
    requires Inv(s) && Requests(s) && Settled(s) && now != 0
    requires Collides(s, Action(true, PressButton(now)))
    ensures
      var t := Step(s, PressButton(now));
      if s.a.readyMe then Parts(t) else Parts(Mirror(t))
  {
    assert s.ab != [] ==> s.ab[0] in s.ab;
    AheadSend(s.ab, NReadyMsg, NReadyMsg, ReadyAck);
    AheadSend(s.ab, ReadyMsg, ReadyMsg, NReadyAck);
    AheadSend(s.ab + [ReadyMsg], Seed(now), ReadyMsg, NReadyAck);
    AheadSend(s.ba, NReadyMsg, NReadyMsg, ReadyAck);
    assert s.ab + [ReadyMsg] + [Seed(now)] == s.ab + [ReadyMsg, Seed(now)];
  }

  // ----- every session

  ghost predicate Parted(s: Session) {
    Parts(s) || Parts(Mirror(s))
  }

  /** What a move of player a does to the three invariants. */
  lemma {:induction false} MoveRequests(s: Session, m: Move)
    requires Inv(s) && Requests(s) && Enabled(s, m) && Real(m)
    ensures Requests(Step(s, m))
  {
    match m
    case PressButton(now) =>
      if s.a.status == Unready {
        RequestsPressOwn(s, now);
        RequestsPressOther(s, now);
      } else {
        IdlePress(s, now);
      }
    case Deliver => RequestsDeliver(s);
    case Start =>
    case Finish => TimerRequests(s);
  }

  lemma {:induction false} TimerRequests(s: Session)
    requires Inv(s) && Requests(s) && s.a.status == Typing
    ensures Requests(Step(s, Finish))
  {
    OneUnreadySend(s.ab, Won);
    NextAnswerSend(s.ab, Won);
  }

  lemma {:induction false} MoveParts(s: Session, m: Move)
    requires Inv(s) && Enabled(s, m)
    ensures Parts(s) ==> Parts(Step(s, m))
    ensures Parts(Mirror(s)) ==> Parts(Mirror(Step(s, m)))
  {
    match m
    case PressButton(now) =>
      if s.a.status != Unready {
        IdlePress(s, now);
      } else if Parts(s) {
        PartsPressOwn(s, now);
      }
      if s.a.status == Unready && Parts(Mirror(s)) {
        PartsPressOther(s, now);
      }
    case Deliver =>
      if Parts(s) {
        LeavingDeliver(s);
        StayingHears(s);
      }
      if Parts(Mirror(s)) {
        LeavingAnswered(s);
        StayingDeliver(s);
      }
    case Start =>
    case Finish => AheadSend(s.ab, Won, NReadyMsg, ReadyAck);
  }

  lemma {:induction false} MoveTogether(s: Session, m: Move)
    requires Inv(s) && Requests(s) && Enabled(s, m) && Real(m) && Together(s)
    requires !Collides(s, Action(true, m))
    ensures Together(Step(s, m))
  {
    match m
    case PressButton(now) =>
      if s.a.status == Unready {
        TogetherPressOwn(s, now);
        TogetherPressOther(s, now);
      } else {
        IdlePress(s, now);
      }
    case Deliver => TogetherDeliver(s);
    case Start =>
    case Finish =>
      AheadSend(s.ab, Won, ReadyAck, NReadyMsg);
      AheadSend(s.ab, Won, NReadyAck, ReadyMsg);
  }

  lemma {:induction false} ActionOutcome(s: Session, x: Action)
    requires Inv(s) && Requests(s) && ActionEnabled(s, x) && Real(x.move)
    ensures Requests(Act(s, x))
    ensures Parted(s) ==> Parted(Act(s, x))
    ensures Together(s) ==> if Collides(s, x) then Parted(Act(s, x)) && Crossed(Act(s, x)) else Together(Act(s, x))
  {
    var f := Facing(s, x);
    assert Mirror(Mirror(s)) == s;
    assert Collides(s, x) == Collides(f, Action(true, x.move));
    MoveRequests(f, x.move);
    MoveParts(f, x.move);
    if Together(s) {
      if Collides(s, x) {
        CollisionParts(f, x.move.now);
      } else {
        MoveTogether(f, x.move);
      }
    }
  }

  /** A collision parts the players for good; without one they are together. */
  lemma {:induction false} RunOutcome(xs: seq<Action>)
    requires Disciplined(START, xs) && RealClock(xs)
    ensures Requests(Run(START, xs))
    ensures if Ever(Collides, xs) then Parted(Run(START, xs)) else Together(Run(START, xs))
  {
    if xs != [] {
      var ys, x := xs[..|xs| - 1], xs[|xs| - 1];
      assert x in xs;
      RunOutcome(ys);
      RunKeepsInv(ys);
      ActionOutcome(Run(START, ys), x);
      EverLast(Collides, xs);
    }
  }

  /** Who races, exactly. When everything sent has been delivered, either both players have left unready or neither
      has, if and only if nobody ever pressed the button into the opponent's contrary announcement. */
  lemma {:induction false} WhoRaces(xs: seq<Action>)
    requires Disciplined(START, xs) && RealClock(xs)
    requires Run(START, xs).ab == [] && Run(START, xs).ba == []
    ensures
      var s := Run(START, xs);
      (s.a.status != Unready <==> s.b.status != Unready) <==> !Ever(Collides, xs)
  {
    RunOutcome(xs);
    RunKeepsInv(xs);
    RaceTogether(xs);
  }

  /** Who races, by what the players are told: two players who are both confirmed ready do not both stay, and without
      a collision nobody else leaves. */
  lemma {:induction false} WhoStarts(xs: seq<Action>)
    requires Disciplined(START, xs) && RealClock(xs)
    requires Run(START, xs).ab == [] && Run(START, xs).ba == []
    ensures
      var s := Run(START, xs);
      && (s.a.readyMe && s.b.readyMe ==> s.a.status != Unready || s.b.status != Unready)
      && (!Ever(Collides, xs) ==>
            (s.a.status != Unready <==> s.a.readyMe && s.b.readyMe) &&
            (s.b.status != Unready <==> s.a.readyMe && s.b.readyMe))
  {
    RunOutcome(xs);
    RunKeepsInv(xs);
    WhoRaces(xs);
  }

  /** At the last action of a run: the first crossing is a collision. */
  lemma {:induction false} CrossingMove(s: Session, x: Action, collided: bool)
    requires Inv(s) && Requests(s) && ActionEnabled(s, x) && Real(x.move)
    requires if collided then Parted(s) else Together(s)
    ensures !collided ==> (Collides(s, x) <==> Crossed(Act(s, x)))
  {
    if !collided {
      ActionOutcome(s, x);
    }
  }

  /** The session satisfies `p`, at the end or at some point on the way. */
  ghost predicate Passes(p: Session -> bool, xs: seq<Action>) {
    p(Run(START, xs)) || (xs != [] && Passes(p, xs[..|xs| - 1]))
  }

  /** The same read off the lines: a collision is a press that makes an un-ready cross a ready message, and
      nothing else does. */
  lemma {:induction false} CrossedByPress(xs: seq<Action>)
    requires Disciplined(START, xs) && RealClock(xs)
    ensures Ever(Collides, xs) <==> Passes(Crossed, xs)
  {
    if xs != [] {
      var ys, x := xs[..|xs| - 1], xs[|xs| - 1];
      assert x in xs;
      CrossedByPress(ys);
      RunOutcome(ys);
      RunKeepsInv(ys);
      CrossingMove(Run(START, ys), x, Ever(Collides, ys));
      EverLast(Collides, xs);
    }
  }
}
