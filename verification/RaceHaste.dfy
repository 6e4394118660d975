/** A session in which guarding the button with the program's own flag is not enough. */
module RaceHaste {
  import opened RacePeer
  import opened RaceSession
  import opened RaceOutcome

  /** Pressing the button while waiting for an acknowledgement, by the flag the program keeps. */
  ghost predicate PressesWaiting(s: Session, x: Action) {
    x.move.PressButton? && Facing(s, x).a.waitingAck
  }

  /** Some run leads to `s` in which nobody ever presses while the flag is set. */
  ghost predicate Patient(s: Session) {
    exists xs :: Run(START, xs) == s && !Ever(PressesWaiting, xs)
  }

  lemma {:induction false} Wait(s: Session, x: Action, t: Session)
    requires Patient(s) && t == Act(s, x) && !PressesWaiting(s, x)
    ensures Patient(t)
  {
    var xs :| Run(START, xs) == s && !Ever(PressesWaiting, xs);
    RunExtend(xs, x);
    assert (xs + [x])[..|xs|] == xs;
    EverLast(PressesWaiting, xs + [x]);
  }

  const ASKER_1 := FRESH_PEER.(seedMe := 1, waitingAck := true)
  const OTHER_1 := FRESH_PEER.(readyYou := true, waitingForSeed := true)
  const ASKER_2 := FRESH_PEER.(readyMe := true, seedMe := 1)
  const ASKER_3 := FRESH_PEER.(readyMe := true, seedMe := 1, waitingAck := true)
  const OTHER_2 := FRESH_PEER.(readyYou := true, seedYou := 1)
  const OTHER_3 := FRESH_PEER.(seedYou := 1)
  const ASKER_4 := FRESH_PEER.(seedMe := 4, waitingAck := true)
  const OTHER_4 := FRESH_PEER.(seedMe := 7, seedYou := 1, waitingAck := true)
  const ASKER_5 := FRESH_PEER.(readyYou := true, seedMe := 4, waitingForSeed := true, waitingAck := true)
  const ASKER_6 := FRESH_PEER.(readyYou := true, seedMe := 4, seedYou := 7, waitingAck := true)
  const ASKER_7 := FRESH_PEER.(readyYou := true, seedYou := 7)
  const ASKER_8 := FRESH_PEER.(readyYou := true, seedMe := 5, seedYou := 7, waitingAck := true)
  const OTHER_5 := FRESH_PEER.(readyYou := true, seedMe := 7, seedYou := 1, waitingForSeed := true, waitingAck := true)
  const ASKER_9 := FRESH_PEER.(readyMe := true, readyYou := true, seedMe := 5, seedYou := 7,
                                   status := Ready, texts := [12])
  const OTHER_6 := FRESH_PEER.(readyYou := true, seedMe := 7, seedYou := 4, waitingAck := true)
  const OTHER_7 := FRESH_PEER.(readyMe := true, readyYou := true, seedMe := 7, seedYou := 4,
                                   status := Ready, texts := [11])

  const SESSION_1 := Session(ASKER_1, FRESH_PEER, [ReadyMsg, Seed(1)], [])
  const SESSION_2 := Session(ASKER_1, OTHER_1, [Seed(1)], [ReadyAck])
  const SESSION_3 := Session(ASKER_2, OTHER_1, [Seed(1)], [])
  const SESSION_4 := Session(ASKER_3, OTHER_1, [Seed(1), NReadyMsg], [])
  const SESSION_5 := Session(ASKER_3, OTHER_2, [NReadyMsg], [Ack])
  const SESSION_6 := Session(ASKER_2, OTHER_2, [NReadyMsg], [])
  const SESSION_7 := Session(ASKER_3, OTHER_2, [NReadyMsg, NReadyMsg], [])
  const SESSION_8 := Session(ASKER_3, OTHER_3, [NReadyMsg], [NReadyAck])
  const SESSION_9 := Session(FRESH_PEER, OTHER_3, [NReadyMsg], [])
  const SESSION_10 := Session(ASKER_4, OTHER_3, [NReadyMsg, ReadyMsg, Seed(4)], [])
  const SESSION_11 := Session(ASKER_4, OTHER_4, [NReadyMsg, ReadyMsg, Seed(4)], [ReadyMsg, Seed(7)])
  const SESSION_12 := Session(ASKER_5, OTHER_4, [NReadyMsg, ReadyMsg, Seed(4), ReadyAck], [Seed(7)])
  const SESSION_13 := Session(ASKER_6, OTHER_4, [NReadyMsg, ReadyMsg, Seed(4), ReadyAck, Ack], [])
  const SESSION_14 := Session(ASKER_6, OTHER_4, [ReadyMsg, Seed(4), ReadyAck, Ack], [NReadyAck])
  const SESSION_15 := Session(ASKER_7, OTHER_4, [ReadyMsg, Seed(4), ReadyAck, Ack], [])
  const SESSION_16 := Session(ASKER_8, OTHER_4, [ReadyMsg, Seed(4), ReadyAck, Ack, ReadyMsg, Seed(5)], [])
  const SESSION_17 := Session(ASKER_8, OTHER_5, [Seed(4), ReadyAck, Ack, ReadyMsg, Seed(5)], [ReadyAck])
  const SESSION_18 := Session(ASKER_9, OTHER_5, [Seed(4), ReadyAck, Ack, ReadyMsg, Seed(5)], [])
  const SESSION_19 := Session(ASKER_9, OTHER_6, [ReadyAck, Ack, ReadyMsg, Seed(5)], [Ack])
  const SESSION_20 := Session(ASKER_9, OTHER_7, [Ack, ReadyMsg, Seed(5)], [Ack])

  lemma {:induction false} Announced()
    ensures Patient(SESSION_2)
  {
    assert Run(START, []) == START && !Ever(PressesWaiting, []);
    Wait(START, Action(true, PressButton(1)), SESSION_1);
    Wait(SESSION_1, Action(false, Deliver), SESSION_2);
  }

  lemma {:induction false} Unreadied()
    ensures Patient(SESSION_4)
  {
    Announced();
    Wait(SESSION_2, Action(true, Deliver), SESSION_3);
    Wait(SESSION_3, Action(true, PressButton(2)), SESSION_4);
  }

  /** The ack of the seed clears the wait for the un-ready-ack. */
  lemma {:induction false} AckMisread()
    ensures Patient(SESSION_6)
  {
    Unreadied();
    Wait(SESSION_4, Action(false, Deliver), SESSION_5);
    Wait(SESSION_5, Action(true, Deliver), SESSION_6);
  }

  lemma {:induction false} UnreadiedAgain()
    ensures Patient(SESSION_8)
  {
    AckMisread();
    Wait(SESSION_6, Action(true, PressButton(3)), SESSION_7);
    Wait(SESSION_7, Action(false, Deliver), SESSION_8);
  }

  lemma {:induction false} ReadyAgain()
    ensures Patient(SESSION_10)
  {
    UnreadiedAgain();
    Wait(SESSION_8, Action(true, Deliver), SESSION_9);
    Wait(SESSION_9, Action(true, PressButton(4)), SESSION_10);
  }

  lemma {:induction false} OpponentReady()
    ensures Patient(SESSION_12)
  {
    ReadyAgain();
    Wait(SESSION_10, Action(false, PressButton(7)), SESSION_11);
    Wait(SESSION_11, Action(true, Deliver), SESSION_12);
  }

  lemma {:induction false} StaleUnready()
    ensures Patient(SESSION_14)
  {
    OpponentReady();
    Wait(SESSION_12, Action(true, Deliver), SESSION_13);
    Wait(SESSION_13, Action(false, Deliver), SESSION_14);
  }

  /** The ack of the second un-ready wipes out the seed announced since. */
  lemma {:induction false} SeedLost()
    ensures Patient(SESSION_15)
  {
    StaleUnready();
    Wait(SESSION_14, Action(true, Deliver), SESSION_15);
  }

  lemma {:induction false} ReadyOnceMore()
    ensures Patient(SESSION_16)
  {
    SeedLost();
    Wait(SESSION_15, Action(true, PressButton(5)), SESSION_16);
  }

  lemma {:induction false} Heard()
    ensures Patient(SESSION_17)
  {
    ReadyOnceMore();
    Wait(SESSION_16, Action(false, Deliver), SESSION_17);
  }

  lemma {:induction false} AskerRaces()
    ensures Patient(SESSION_18)
  {
    Heard();
    assert Receive(ASKER_8, ReadyAck).0 == ASKER_9 by { SmallSeeds(5, 7); }
    Wait(SESSION_17, Action(true, Deliver), SESSION_18);
  }

  lemma {:induction false} SeedTaken()
    ensures Patient(SESSION_19)
  {
    AskerRaces();
    Wait(SESSION_18, Action(false, Deliver), SESSION_19);
  }

  /** Waiting for the flag is not waiting for the acknowledgement: though nobody ever presses while it is set, both
      players race, and on different texts. */
  lemma GuardNotEnough()
    ensures exists s :: Patient(s) && s.a.status == s.b.status == Ready && s.a.texts != s.b.texts
  {
    SeedTaken();
    assert Receive(OTHER_6, ReadyAck).0 == OTHER_7 by { SmallSeeds(7, 4); }
    Wait(SESSION_19, Action(false, Deliver), SESSION_20);
  }
}
