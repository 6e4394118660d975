/** What the players say, and that all of it arrives: accounts of whole sessions. */
module RaceLedger {
  import opened CTypes
  import opened RacePeer
  import opened RaceSession
  import opened RaceOutcome

  // ----- everything said is heard, in order

  /** What player a says with a move. */
  function Says(s: Session, m: Move): seq<Message> {
    match m
    case PressButton(now) =>
      if s.a.status != Unready then [] else if s.a.readyMe then [NReadyMsg] else [ReadyMsg, Seed(now)]
    case Deliver =>
      if s.ba == [] then []
      else if s.ba[0].Seed? || s.ba[0].Data? then [Ack]
      else if s.ba[0].ReadyMsg? && s.a.status == Unready then [ReadyAck]
      else if s.ba[0].NReadyMsg? && s.a.status == Unready then [NReadyAck]
      else []
    case Start => []
    case Finish => if s.a.status == Typing then [Won] else []
  }

  /** Everything a player has said. */
  function Said(left: bool, xs: seq<Action>): seq<Message> {
    if xs == [] then []
    else
      var ys, x := xs[..|xs| - 1], xs[|xs| - 1];
      Said(left, ys) + if x.left == left then Says(Facing(Run(START, ys), x), x.move) else []
  }

  /** Everything a player has taken in. */
  function TakenIn(left: bool, xs: seq<Action>): seq<Message> {
    if xs == [] then []
    else
      var ys, x := xs[..|xs| - 1], xs[|xs| - 1];
      var q := Facing(Run(START, ys), x).ba;
      TakenIn(left, ys) + if x.left == left && x.move.Deliver? && q != [] then [q[0]] else []
  }

  lemma {:induction false} MoveSays(s: Session, m: Move)
    ensures Step(s, m).ab == s.ab + Says(s, m)
    ensures if m.Deliver? && s.ba != [] then s.ba == [s.ba[0]] + Step(s, m).ba else Step(s, m).ba == s.ba
  {
  }

  /** Conservation: what one player has said is what the other has taken in and what is on the line, in this order. */
  lemma {:induction false} Ledger(xs: seq<Action>)
    ensures TakenIn(false, xs) + Run(START, xs).ab == Said(true, xs)
    ensures TakenIn(true, xs) + Run(START, xs).ba == Said(false, xs)
  {
    if xs != [] {
      var ys, x := xs[..|xs| - 1], xs[|xs| - 1];
      Ledger(ys);
      var s := Run(START, ys);
      MoveSays(Facing(s, x), x.move);
      Carry(TakenIn(false, ys), s.ab, Run(START, xs).ab, Said(true, ys),
            if !x.left && x.move.Deliver? && s.ab != [] then [s.ab[0]] else [],
            if x.left then Says(s, x.move) else []);
      Carry(TakenIn(true, ys), s.ba, Run(START, xs).ba, Said(false, ys),
            if x.left && x.move.Deliver? && s.ba != [] then [s.ba[0]] else [],
            if x.left then [] else Says(Mirror(s), x.move));
    }
  }

  lemma {:induction false} Carry(took: seq<Message>, line: seq<Message>, line': seq<Message>, said: seq<Message>,
                                 head: seq<Message>, more: seq<Message>)
    requires took + line == said && head + line' == line + more
    ensures (took + head) + line' == said + more
  {
    assert (took + head) + line' == took + (head + line');
    assert took + (line + more) == (took + line) + more;
  }

  // ----- every win is announced

  function FinishesBy(left: bool, xs: seq<Action>): nat {
    if xs == [] then 0
    else
      var x := xs[|xs| - 1];
      FinishesBy(left, xs[..|xs| - 1]) + if x.left == left && x.move.Finish? then 1 else 0
  }

  lemma {:induction false} SaysWin(s: Session, m: Move)
    requires Enabled(s, m)
    ensures multiset(Says(s, m))[Won] == if m.Finish? then 1 else 0
  {
  }

  lemma {:induction false} WinsSaid(left: bool, xs: seq<Action>)
    requires Disciplined(START, xs)
    ensures multiset(Said(left, xs))[Won] == FinishesBy(left, xs)
  {
    if xs != [] {
      var ys, x := xs[..|xs| - 1], xs[|xs| - 1];
      WinsSaid(left, ys);
      if x.left == left {
        var said := Says(Facing(Run(START, ys), x), x.move);
        SaysWin(Facing(Run(START, ys), x), x.move);
        assert multiset(Said(left, ys) + said) == multiset(Said(left, ys)) + multiset(said);
      } else {
        assert Said(left, ys) + [] == Said(left, ys);
      }
    }
  }

  /** As often as a player has finished, the other has heard of a win or is about to. */
  lemma {:induction false} WinsAnnounced(xs: seq<Action>)
    requires Disciplined(START, xs)
    ensures
      var s := Run(START, xs);
      && multiset(TakenIn(false, xs))[Won] + multiset(s.ab)[Won] == FinishesBy(true, xs)
      && multiset(TakenIn(true, xs))[Won] + multiset(s.ba)[Won] == FinishesBy(false, xs)
  {
    Ledger(xs);
    WinsSaid(true, xs);
    WinsSaid(false, xs);
    var s := Run(START, xs);
    assert multiset(TakenIn(false, xs) + s.ab) == multiset(TakenIn(false, xs)) + multiset(s.ab);
    assert multiset(TakenIn(true, xs) + s.ba) == multiset(TakenIn(true, xs)) + multiset(s.ba);
  }

  /** A player has won exactly if he has finished, which he does at most once; with empty lines the other has heard
      of it exactly as often. */
  lemma {:induction false} WinsHeard(xs: seq<Action>)
    requires Disciplined(START, xs)
    ensures
      var s := Run(START, xs);
      && FinishesBy(true, xs) == (if s.a.won then 1 else 0)
      && FinishesBy(false, xs) == (if s.b.won then 1 else 0)
      && (s.ab == [] ==> (Won in TakenIn(false, xs) <==> s.a.won))
      && (s.ba == [] ==> (Won in TakenIn(true, xs) <==> s.b.won))
  {
    WinsAnnounced(xs);
    FinishesOnce(xs);
  }

  lemma {:induction false} FinishesOnce(xs: seq<Action>)
    requires Disciplined(START, xs)
    ensures
      var s := Run(START, xs);
      && FinishesBy(true, xs) == (if s.a.won then 1 else 0)
      && FinishesBy(false, xs) == (if s.b.won then 1 else 0)
  {
    if xs != [] {
      var ys, x := xs[..|xs| - 1], xs[|xs| - 1];
      FinishesOnce(ys);
      RunKeepsInv(ys);
      var s := Run(START, ys);
      assert Mirror(Mirror(s)) == s && WinnerHolds(s) && WinnerHolds(Mirror(s));
      WinningMove(Facing(s, x), x.move);
    }
  }

  // ----- the button toggles

  /** The time of a player's last press. */
  function LastPress(left: bool, xs: seq<Action>): u64 {
    if xs == [] then 0
    else
      var x := xs[|xs| - 1];
      if x.left == left && x.move.PressButton? then x.move.now else LastPress(left, xs[..|xs| - 1])
  }

  /** Player a wants to be ready (`wish`), from the seed `time`: his readiness is what he wants, or his last request or
      its answer is on the way and will make it so. */
  ghost predicate WishHolds(s: Session, wish: bool, time: u64) {
    s.a.status == Unready && s.b.status == Unready ==>
      && (ReadyMsg in s.ab || ReadyAck in s.ba ==> wish && !s.a.readyMe)
      && (NReadyMsg in s.ab || NReadyAck in s.ba ==> !wish && s.a.readyMe)
      && (s.a.readyMe == wish || ReadyMsg in s.ab || ReadyAck in s.ba || NReadyMsg in s.ab || NReadyAck in s.ba)
      && (wish ==> s.a.seedMe == time)
  }

  lemma {:induction false} WishPress(s: Session, now: u64, wish: bool, time: u64)
    requires Inv(s) && Enabled(s, PressButton(now)) && WishHolds(s, wish, time)
    ensures WishHolds(Step(s, PressButton(now)), !wish, now)
  {
    if s.a.status != Unready {
      IdlePress(s, now);
    }
  }

  lemma {:induction false} WishDeliver(s: Session, wish: bool, time: u64)
    requires Inv(s) && Requests(s) && s.ba != [] && WishHolds(s, wish, time)
    ensures WishHolds(Step(s, Deliver), wish, time)
  {
    if !IsRequest(s.ba[0]) {
      AnswerQuiet(s);
      AnswerAlone(s);
    }
  }

  lemma {:induction false} WishTimer(s: Session, m: Move, wish: bool, time: u64)
    requires Enabled(s, m) && (m.Start? || m.Finish?) && WishHolds(s, wish, time)
    ensures WishHolds(Step(s, m), wish, time)
  {
  }

  /** A move of the other player. */
  lemma {:induction false} WishOther(s: Session, m: Move, wish: bool, time: u64)
    requires Inv(s) && Requests(s) && Enabled(s, m) && WishHolds(Mirror(s), wish, time)
    ensures WishHolds(Mirror(Step(s, m)), wish, time)
  {
    if m.Deliver? {
      if !IsRequest(s.ba[0]) {
        AnswerQuiet(s);
      }
    } else if m.PressButton? && s.a.status != Unready {
      IdlePress(s, m.now);
    }
  }

  lemma {:induction false} WishMove(s: Session, m: Move, wish: bool, time: u64)
    requires Inv(s) && Requests(s) && Enabled(s, m) && WishHolds(s, wish, time)
    ensures if m.PressButton? then WishHolds(Step(s, m), !wish, m.now) else WishHolds(Step(s, m), wish, time)
  {
    match m
    case PressButton(now) => WishPress(s, now, wish, time);
    case Deliver => WishDeliver(s, wish, time);
    case Start => WishTimer(s, m, wish, time);
    case Finish => WishTimer(s, m, wish, time);
  }

  /** Every press turns the wish round. */
  predicate Wishes(left: bool, xs: seq<Action>) {
    xs != [] &&
    (var x := xs[|xs| - 1];
     if x.left == left && x.move.PressButton? then !Wishes(left, xs[..|xs| - 1]) else Wishes(left, xs[..|xs| - 1]))
  }

  lemma {:induction false} WishesOdd(left: bool, xs: seq<Action>)
    ensures Wishes(left, xs) <==> PressesBy(left, xs) % 2 == 1
  {
    if xs != [] {
      WishesOdd(left, xs[..|xs| - 1]);
    }
  }

  /** Both wishes; the acting player is `a` of the session he faces. */
  lemma {:induction false} WishAction(s: Session, x: Action, own: bool, other: bool, mine: u64, yours: u64)
    requires Inv(s) && Requests(s) && ActionEnabled(s, x)
    requires WishHolds(Facing(s, x), own, mine) && WishHolds(Mirror(Facing(s, x)), other, yours)
    ensures
      var t := Facing(Act(s, x), x);
      && (if x.move.PressButton? then WishHolds(t, !own, x.move.now) else WishHolds(t, own, mine))
      && WishHolds(Mirror(t), other, yours)
  {
    var f := Facing(s, x);
    assert Facing(Act(s, x), x) == Step(f, x.move);
    WishMove(f, x.move, own, mine);
    WishOther(f, x.move, other, yours);
  }

  lemma {:induction false} WishThroughout(xs: seq<Action>)
    requires Disciplined(START, xs) && RealClock(xs)
    ensures WishHolds(Run(START, xs), Wishes(true, xs), LastPress(true, xs))
    ensures WishHolds(Mirror(Run(START, xs)), Wishes(false, xs), LastPress(false, xs))
  {
    if xs != [] {
      var ys, x := xs[..|xs| - 1], xs[|xs| - 1];
      assert RealClock(ys);
      WishThroughout(ys);
      RunKeepsInv(ys);
      RunOutcome(ys);
      var s := Run(START, ys);
      assert Mirror(Mirror(s)) == s && Mirror(Mirror(Act(s, x))) == Act(s, x);
      WishAction(s, x, Wishes(x.left, ys), Wishes(!x.left, ys), LastPress(x.left, ys), LastPress(!x.left, ys));
    }
  }

  /** The button toggles: while nobody has left unready, and once everything is delivered, a player is ready, and
      known to be, exactly if he has pressed an odd number of times; both then hold the time of his last press as
      his seed. */
  lemma {:induction false} ButtonToggles(xs: seq<Action>)
    requires Disciplined(START, xs) && RealClock(xs)
    requires Run(START, xs).ab == [] && Run(START, xs).ba == []
    requires Run(START, xs).a.status == Unready && Run(START, xs).b.status == Unready
    ensures
      var s := Run(START, xs);
      && (s.a.readyMe <==> PressesBy(true, xs) % 2 == 1) && s.b.readyYou == s.a.readyMe
      && (s.b.readyMe <==> PressesBy(false, xs) % 2 == 1) && s.a.readyYou == s.b.readyMe
      && (s.a.readyMe ==> s.a.seedMe == s.b.seedYou == LastPress(true, xs))
      && (s.b.readyMe ==> s.b.seedMe == s.a.seedYou == LastPress(false, xs))
  {
    WishThroughout(xs);
    WishesOdd(true, xs);
    WishesOdd(false, xs);
    RunOutcome(xs);
    RunKeepsInv(xs);
    WhoRaces(xs);
    var s := Run(START, xs);
    assert Follows(s) && Follows(Mirror(s)) && BeliefHolds(s) && BeliefHolds(Mirror(s));
  }
}
