/** The gesture recogniser: a left-button stroke up and right, a pause, a right-button stroke down and
    right (lab4.c, mouse_state_update). Which packet histories it accepts, exactly. */
module Gesture {
  import opened CTypes
  import opened MousePackets

  datatype State = S | U | V | D | E

  datatype Machine = Machine(state: State, diffX: i16, diffY: i16)

  datatype Config = Config(xLen: byte, tolerance: byte)

  const RESTING := Machine(S, 0, 0)

  function Update(c: Config, m: Machine, p: Packet): Machine {
    match m.state
    case S =>
      if p.lb && !p.mb && !p.rb && p.deltaX + c.tolerance >= 0 && p.deltaY + c.tolerance >= 0 then
        Machine(U, p.deltaX, p.deltaY)
      else m
    case U =>
      if p.mb || p.rb then m.(state := S)
      else if p.lb then
        if p.deltaX + c.tolerance >= 0 && p.deltaY + c.tolerance >= 0 then
          Machine(U, Wrap16(m.diffX + p.deltaX), Wrap16(m.diffY + p.deltaY))
        else m.(state := S)
      else if m.diffX >= c.xLen && m.diffY >= m.diffX then m.(state := V)
      else m.(state := S)
    case V =>
      if p.lb || p.mb then m.(state := S)
      else if Abs(p.deltaX) <= c.tolerance || Abs(p.deltaY) <= c.tolerance then
        if p.rb then Machine(D, p.deltaX, Wrap16(0 - p.deltaY)) else m
      else m.(state := S)
    case D =>
      if p.lb || p.mb then m.(state := S)
      else if p.rb then
        if p.deltaX + c.tolerance >= 0 && c.tolerance - p.deltaY >= 0 then
          Machine(D, Wrap16(m.diffX + p.deltaX), Wrap16(m.diffY - p.deltaY))
        else m.(state := S)
      else if m.diffX >= c.xLen && m.diffY >= m.diffX then m.(state := E)
      else m.(state := S)
    case E => m
  }

  /** What ends the pause: either of the two buttons, or a move beyond the tolerance in both directions. */
  lemma PauseExact(c: Config, m: Machine, p: Packet)
    requires m.state == V
    ensures
      var t, dx, dy := c.tolerance, p.deltaX, p.deltaY;
      && (Update(c, m, p).state == S <==>
            p.lb || p.mb || ((dx < 0 - t || dx > t) && (dy < 0 - t || dy > t)))
      && (Update(c, m, p).state != S ==> Update(c, m, p).state == if p.rb then D else V)
  {
  }

  /** The machine after the first `n` packets of `h`. */
  function At(c: Config, h: seq<Packet>, n: nat): Machine
    requires n <= |h|
  {
    if n == 0 then RESTING else Update(c, At(c, h, n - 1), h[n - 1])
  }

  // ----- the described words; the word from k to n is h[k], ..., h[n - 1]

  function SumX(h: seq<Packet>, k: nat, n: nat): int
    requires k <= n <= |h|
    decreases n
  {
    if k == n then 0 else SumX(h, k, n - 1) + h[n - 1].deltaX
  }

  function SumY(h: seq<Packet>, k: nat, n: nat): int
    requires k <= n <= |h|
    decreases n
  {
    if k == n then 0 else SumY(h, k, n - 1) + h[n - 1].deltaY
  }

  predicate Upward(c: Config, p: Packet) {
    p.lb && !p.mb && !p.rb && p.deltaX + c.tolerance >= 0 && p.deltaY + c.tolerance >= 0
  }

  predicate Downward(c: Config, p: Packet) {
    p.rb && !p.lb && !p.mb && p.deltaX + c.tolerance >= 0 && c.tolerance - p.deltaY >= 0
  }

  predicate Released(p: Packet) {
    !p.lb && !p.mb && !p.rb
  }

  predicate Slight(c: Config, p: Packet) {
    0 - c.tolerance <= p.deltaX <= c.tolerance || 0 - c.tolerance <= p.deltaY <= c.tolerance
  }

  predicate Turning(c: Config, p: Packet) {
    p.rb && !p.lb && !p.mb && Slight(c, p)
  }

  /** Far enough to the right, and at least as far up (or down). */
  predicate Steep(c: Config, x: int, y: int) {
    x >= c.xLen && y >= x
  }

  /** A stroke with the left button alone. */
  ghost predicate UpStroke(c: Config, h: seq<Packet>, k: nat, n: nat)
    requires n <= |h|
  {
    k < n && forall i | k <= i < n :: Upward(c, h[i])
  }

  /** A steep up-stroke up to `a`, its release, and slight moves. */
  ghost predicate Pause(c: Config, h: seq<Packet>, k: nat, a: nat, n: nat)
    requires n <= |h|
  {
    && k < a < n && UpStroke(c, h, k, a)
    && Released(h[a]) && Steep(c, Wrap16(SumX(h, k, a)), Wrap16(SumY(h, k, a)))
    && forall i | a < i < n :: Released(h[i]) && Slight(c, h[i])
  }

  /** A pause up to `b` and then a stroke with the right button alone. */
  ghost predicate DownStroke(c: Config, h: seq<Packet>, k: nat, a: nat, b: nat, n: nat)
    requires n <= |h|
  {
    && k < a < b < n && Pause(c, h, k, a, b) && Turning(c, h[b])
    && forall i | b < i < n :: Downward(c, h[i])
  }

  /** A down-stroke and its release, steep enough. */
  ghost predicate Complete(c: Config, h: seq<Packet>, k: nat, a: nat, b: nat, n: nat)
    requires n <= |h|
  {
    && k < a < b < n && DownStroke(c, h, k, a, b, n - 1) && Released(h[n - 1])
    && Steep(c, Wrap16(SumX(h, b, n - 1)), Wrap16(-SumY(h, b, n - 1)))
  }

  /** The word could still become a gesture. */
  ghost predicate Promising(c: Config, h: seq<Packet>, k: nat, n: nat)
    requires k <= n <= |h|
  {
    || k == n || UpStroke(c, h, k, n)
    || (exists a: nat :: Pause(c, h, k, a, n))
    || (exists a: nat, b: nat :: DownStroke(c, h, k, a, b, n))
  }

  ghost predicate IsGesture(c: Config, h: seq<Packet>, k: nat, n: nat)
    requires k <= n <= |h|
  {
    exists a: nat, b: nat :: Complete(c, h, k, a, b, n)
  }

  /** The word was promising until its last packet spoiled it. */
  ghost predicate Spoiled(c: Config, h: seq<Packet>, k: nat, n: nat)
    requires k <= n <= |h|
  {
    k < n && Promising(c, h, k, n - 1) && !Promising(c, h, k, n) && !IsGesture(c, h, k, n)
  }

  /** The first `n` packets are a sequence of spoiled attempts (an idle packet is one by itself). */
  ghost predicate AllSpoiled(c: Config, h: seq<Packet>, n: nat)
    requires n <= |h|
  {
    n == 0 || exists k: nat | k < n :: AllSpoiled(c, h, k) && Spoiled(c, h, k, n)
  }

  // ----- what the machine knows about the word it is in

  ghost predicate Describes(c: Config, m: Machine, h: seq<Packet>, k: nat, n: nat)
    requires k <= n <= |h|
  {
    match m.state
    case S => k == n
    case U => UpStroke(c, h, k, n) && m.diffX == Wrap16(SumX(h, k, n)) && m.diffY == Wrap16(SumY(h, k, n))
    case V => exists a: nat :: Pause(c, h, k, a, n)
    case D => exists a: nat, b: nat :: DownStroke(c, h, k, a, b, n) && Holds(m, h, b, n)
    case E => IsGesture(c, h, k, n)
  }

  /** The counters hold the residues of the sums of the down-stroke begun at `b`. */
  ghost predicate Holds(m: Machine, h: seq<Packet>, b: nat, n: nat)
    requires n <= |h|
  {
    b <= n && m.diffX == Wrap16(SumX(h, b, n)) && m.diffY == Wrap16(-SumY(h, b, n))
  }

  lemma {:induction false} AdvanceFromS(c: Config, m: Machine, h: seq<Packet>, n: nat)
    requires n < |h| && m.state == S && Update(c, m, h[n]).state != S
    ensures Describes(c, Update(c, m, h[n]), h, n, n + 1)
  {
    assert SumX(h, n, n) == SumY(h, n, n) == 0;
  }

  lemma {:induction false} AdvanceFromU(c: Config, m: Machine, h: seq<Packet>, k: nat, n: nat)
    requires k <= n < |h| && m.state == U && Describes(c, m, h, k, n) && Update(c, m, h[n]).state != S
    ensures Describes(c, Update(c, m, h[n]), h, k, n + 1)
  {
    WrapAdd(SumX(h, k, n), h[n].deltaX);
    WrapAdd(SumY(h, k, n), h[n].deltaY);
    if !h[n].lb {
      assert Pause(c, h, k, n, n + 1);
    }
  }

  lemma {:induction false} AdvanceFromV(c: Config, m: Machine, h: seq<Packet>, k: nat, n: nat)
    requires k <= n < |h| && m.state == V && Describes(c, m, h, k, n) && Update(c, m, h[n]).state != S
    ensures Describes(c, Update(c, m, h[n]), h, k, n + 1)
  {
    var a: nat :| Pause(c, h, k, a, n);
    if h[n].rb {
      assert SumX(h, n, n) == SumY(h, n, n) == 0;
      assert DownStroke(c, h, k, a, n, n + 1) && Holds(Update(c, m, h[n]), h, n, n + 1);
    } else {
      assert Pause(c, h, k, a, n + 1);
    }
  }

  lemma {:induction false} AdvanceFromD(c: Config, m: Machine, h: seq<Packet>, k: nat, n: nat)
    requires k <= n < |h| && m.state == D && Describes(c, m, h, k, n) && Update(c, m, h[n]).state != S
    ensures Describes(c, Update(c, m, h[n]), h, k, n + 1)
  {
    var a: nat, b: nat :| DownStroke(c, h, k, a, b, n) && Holds(m, h, b, n);
    if h[n].rb {
      WrapAdd(SumX(h, b, n), h[n].deltaX);
      WrapAdd(-SumY(h, b, n), 0 - h[n].deltaY);
      assert DownStroke(c, h, k, a, b, n + 1) && Holds(Update(c, m, h[n]), h, b, n + 1);
    } else {
      assert Complete(c, h, k, a, b, n + 1);
    }
  }

  /** A packet that does not throw the machine back to S extends the word it is in. */
  lemma {:induction false} Advance(c: Config, m: Machine, h: seq<Packet>, k: nat, n: nat)
    requires k <= n < |h| && m.state != E && Describes(c, m, h, k, n)
    ensures Update(c, m, h[n]).state != S ==> Describes(c, Update(c, m, h[n]), h, k, n + 1)
  {
    if Update(c, m, h[n]).state != S {
      match m.state
      case S => AdvanceFromS(c, m, h, n);
      case U => AdvanceFromU(c, m, h, k, n);
      case V => AdvanceFromV(c, m, h, k, n);
      case D => AdvanceFromD(c, m, h, k, n);
    }
  }

  lemma {:induction false} DescribedWords(c: Config, m: Machine, h: seq<Packet>, k: nat, n: nat)
    requires k <= n <= |h| && Describes(c, m, h, k, n)
    ensures m.state == E ==> IsGesture(c, h, k, n)
    ensures m.state != E ==> Promising(c, h, k, n)
  {
  }

  // ----- the machine follows every described word

  lemma {:induction false} FollowUpStroke(c: Config, h: seq<Packet>, k: nat, n: nat)
    requires n <= |h| && UpStroke(c, h, k, n) && At(c, h, k).state == S
    ensures At(c, h, n) == Machine(U, Wrap16(SumX(h, k, n)), Wrap16(SumY(h, k, n)))
    decreases n
  {
    assert Upward(c, h[n - 1]);
    if k < n - 1 {
      FollowUpStroke(c, h, k, n - 1);
      WrapAdd(SumX(h, k, n - 1), h[n - 1].deltaX);
      WrapAdd(SumY(h, k, n - 1), h[n - 1].deltaY);
    }
  }

  lemma {:induction false} FollowPause(c: Config, h: seq<Packet>, k: nat, a: nat, n: nat)
    requires n <= |h| && Pause(c, h, k, a, n) && At(c, h, k).state == S
    ensures At(c, h, n).state == V
    decreases n
  {
    if a == n - 1 {
      FollowUpStroke(c, h, k, a);
    } else {
      FollowPause(c, h, k, a, n - 1);
    }
  }

  /** One more packet of the down-stroke keeps the counters right. */
  lemma {:induction false} StepDown(c: Config, h: seq<Packet>, b: nat, n: nat)
    requires b < n < |h| && Downward(c, h[n]) && At(c, h, n).state == D && Holds(At(c, h, n), h, b, n)
    ensures At(c, h, n + 1).state == D && Holds(At(c, h, n + 1), h, b, n + 1)
  {
    WrapAdd(SumX(h, b, n), h[n].deltaX);
    WrapAdd(-SumY(h, b, n), 0 - h[n].deltaY);
  }

  lemma {:induction false} FollowDownStroke(c: Config, h: seq<Packet>, k: nat, a: nat, b: nat, n: nat)
    requires n <= |h| && DownStroke(c, h, k, a, b, n) && At(c, h, k).state == S
    ensures At(c, h, n).state == D && Holds(At(c, h, n), h, b, n)
    decreases n
  {
    if b == n - 1 {
      FollowPause(c, h, k, a, b);
      assert SumX(h, b, b) == SumY(h, b, b) == 0;
    } else {
      FollowDownStroke(c, h, k, a, b, n - 1);
      StepDown(c, h, b, n - 1);
    }
  }

  /** After a promising word the machine describes it. */
  lemma {:induction false} FollowPromising(c: Config, h: seq<Packet>, k: nat, n: nat)
    requires k <= n <= |h| && Promising(c, h, k, n) && At(c, h, k).state == S
    ensures Describes(c, At(c, h, n), h, k, n) && At(c, h, n).state != E
    ensures k < n ==> At(c, h, n).state != S
  {
    if k == n {
    } else if UpStroke(c, h, k, n) {
      FollowUpStroke(c, h, k, n);
    } else if a: nat :| Pause(c, h, k, a, n) {
      FollowPause(c, h, k, a, n);
    } else {
      var a: nat, b: nat :| DownStroke(c, h, k, a, b, n);
      FollowDownStroke(c, h, k, a, b, n);
    }
  }

  /** A gesture leads from S to E, and not before its last packet. */
  lemma {:induction false} FollowGesture(c: Config, h: seq<Packet>, k: nat, n: nat)
    requires k <= n <= |h| && IsGesture(c, h, k, n) && At(c, h, k).state == S
    ensures n > 0 && At(c, h, n).state == E && At(c, h, n - 1).state == D
  {
    var a: nat, b: nat :| Complete(c, h, k, a, b, n);
    FollowDownStroke(c, h, k, a, b, n - 1);
  }

  /** A spoiled attempt leads from S back to S. */
  lemma {:induction false} FollowSpoiled(c: Config, h: seq<Packet>, k: nat, n: nat)
    requires k <= n <= |h| && Spoiled(c, h, k, n) && At(c, h, k).state == S
    ensures At(c, h, n).state == S
  {
    FollowPromising(c, h, k, n - 1);
    Advance(c, At(c, h, n - 1), h, k, n - 1);
    if Describes(c, At(c, h, n), h, k, n) {
      DescribedWords(c, At(c, h, n), h, k, n);
    }
  }

  lemma {:induction false} FollowAllSpoiled(c: Config, h: seq<Packet>, n: nat)
    requires n <= |h| && AllSpoiled(c, h, n)
    ensures At(c, h, n).state == S
  {
    if n > 0 {
      var k: nat :| k < n && AllSpoiled(c, h, k) && Spoiled(c, h, k, n);
      FollowAllSpoiled(c, h, k);
      FollowSpoiled(c, h, k, n);
    }
  }

  /** The packet that throws the machine back to S has spoiled the attempt. */
  lemma {:induction false} ThrownBack(c: Config, h: seq<Packet>, k: nat, n: nat)
    requires k < n <= |h| && AllSpoiled(c, h, k)
    requires At(c, h, n - 1).state != E && Describes(c, At(c, h, n - 1), h, k, n - 1)
    requires At(c, h, n).state == S
    ensures AllSpoiled(c, h, n)
  {
    FollowAllSpoiled(c, h, k);
    DescribedWords(c, At(c, h, n - 1), h, k, n - 1);
    if Promising(c, h, k, n) {
      FollowPromising(c, h, k, n);
    } else if IsGesture(c, h, k, n) {
      FollowGesture(c, h, k, n);
    }
  }

  lemma {:induction false} WordGoesOn(c: Config, h: seq<Packet>, k: nat, n: nat)
    requires k < n <= |h| && At(c, h, n).state != S
    requires At(c, h, n - 1).state != E && Describes(c, At(c, h, n - 1), h, k, n - 1)
    ensures Describes(c, At(c, h, n), h, k, n)
  {
    Advance(c, At(c, h, n - 1), h, k, n - 1);
  }

  /** One more packet: the word goes on, or the whole history is spoiled. */
  lemma {:induction false} Continue(c: Config, h: seq<Packet>, k: nat, n: nat) returns (k': nat)
    requires k < n <= |h| && AllSpoiled(c, h, k)
    requires At(c, h, n - 1).state != E && Describes(c, At(c, h, n - 1), h, k, n - 1)
    ensures k' <= n && AllSpoiled(c, h, k') && Describes(c, At(c, h, n), h, k', n)
  {
    if At(c, h, n).state == S {
      ThrownBack(c, h, k, n);
      k' := n;
      assert Describes(c, At(c, h, n), h, n, n);
    } else {
      WordGoesOn(c, h, k, n);
      k' := k;
    }
  }

  /** Every history that did not pass through E is a sequence of spoiled attempts and then the word the
      machine is in. */
  lemma {:induction false} Decompose(c: Config, h: seq<Packet>, n: nat) returns (k: nat)
    requires n <= |h| && (n > 0 ==> At(c, h, n - 1).state != E)
    ensures k <= n && AllSpoiled(c, h, k) && Describes(c, At(c, h, n), h, k, n)
  {
    if n == 0 {
      k := 0;
    } else {
      k := Decompose(c, h, n - 1);
      k := Continue(c, h, k, n);
    }
  }

  /** The recogniser reaches E for the first time with packet `n` (counting from one). */
  ghost predicate Recognised(c: Config, h: seq<Packet>, n: nat)
    requires n <= |h|
  {
    n > 0 && At(c, h, n).state == E && At(c, h, n - 1).state != E
  }

  /** Gesture exactness: the recogniser first reaches E with packet n exactly when the first n packets are
      a sequence of spoiled attempts followed by a gesture. */
  lemma {:induction false} GestureExactness(c: Config, h: seq<Packet>, n: nat)
    requires n <= |h|
    ensures Recognised(c, h, n) <==> exists k: nat | k <= n :: AllSpoiled(c, h, k) && IsGesture(c, h, k, n)
  {
    if Recognised(c, h, n) {
      var k := Decompose(c, h, n);
    }
    if k: nat :| k <= n && AllSpoiled(c, h, k) && IsGesture(c, h, k, n) {
      FollowAllSpoiled(c, h, k);
      FollowGesture(c, h, k, n);
    }
  }

  /** Once recognised, always recognised. */
  lemma {:induction false} EStays(c: Config, h: seq<Packet>, i: nat, n: nat)
    requires i <= n <= |h| && At(c, h, i).state == E
    ensures At(c, h, n).state == E
    decreases n
  {
    if i < n {
      EStays(c, h, i, n - 1);
    }
  }

  /** The machine only depends on the packets it has seen. */
  lemma {:induction false} AtPrefix(c: Config, g: seq<Packet>, h: seq<Packet>, n: nat)
    requires n <= |g| && n <= |h| && g[..n] == h[..n]
    ensures At(c, g, n) == At(c, h, n)
  {
    if n > 0 {
      assert g[..n - 1] == g[..n][..n - 1] && h[..n - 1] == h[..n][..n - 1];
      assert g[n - 1] == g[..n][n - 1] && h[n - 1] == h[..n][n - 1];
      AtPrefix(c, g, h, n - 1);
    }
  }

  lemma {:induction false} AtAppend(c: Config, g: seq<Packet>, p: Packet)
    ensures At(c, g + [p], |g|) == At(c, g, |g|)
    ensures At(c, g + [p], |g| + 1) == Update(c, At(c, g, |g|), p)
  {
    AtPrefix(c, g, g + [p], |g|);
  }

  // ----- the accumulators

  lemma {:induction false} SumBounds(h: seq<Packet>, k: nat, n: nat)
    requires k <= n <= |h|
    requires forall i | k <= i < n :: -256 <= h[i].deltaX <= 255 && -256 <= h[i].deltaY <= 255
    ensures -256 * (n - k) <= SumX(h, k, n) <= 255 * (n - k)
    ensures -256 * (n - k) <= SumY(h, k, n) <= 255 * (n - k)
    decreases n
  {
    if k < n {
      SumBounds(h, k, n - 1);
    }
  }

  /** The state after `n` packets was entered with packet `k`. */
  ghost predicate Entered(c: Config, h: seq<Packet>, k: nat, n: nat)
    requires k < n <= |h|
  {
    && At(c, h, k).state != At(c, h, n).state
    && forall i | k < i <= n :: At(c, h, i).state == At(c, h, n).state
  }

  /** The sum fits into an int16_t. */
  predicate Fits16(x: int) {
    -0x8000 <= x < 0x8000
  }

  /** The counters hold the sums of the stroke from `k`, y up or down: the residues of the true sums modulo 2^16, and
      a true sum itself exactly when it fits, as it does for a stroke of at most 127 packets. */
  ghost predicate Accumulated(m: Machine, h: seq<Packet>, k: nat, n: nat, up: bool)
    requires k <= n <= |h|
  {
    var x, y := SumX(h, k, n), if up then SumY(h, k, n) else -SumY(h, k, n);
    && (m.diffX - x) % 0x1_0000 == 0 && (m.diffY - y) % 0x1_0000 == 0
    && (m.diffX == x <==> Fits16(x)) && (m.diffY == y <==> Fits16(y))
    && (n - k <= 127 ==> Fits16(x) && Fits16(y))
  }

  lemma {:induction false} Residues(m: Machine, h: seq<Packet>, k: nat, n: nat, up: bool)
    requires k <= n <= |h|
    requires forall i | k <= i < n :: -256 <= h[i].deltaX <= 255 && -256 <= h[i].deltaY <= 255
    requires m.diffX == Wrap16(SumX(h, k, n))
    requires m.diffY == Wrap16(if up then SumY(h, k, n) else -SumY(h, k, n))
    ensures Accumulated(m, h, k, n, up)
  {
    WrapResidue(SumX(h, k, n));
    WrapResidue(if up then SumY(h, k, n) else -SumY(h, k, n));
    if n - k <= 127 {
      SumsFit(h, k, n);
    }
  }

  /** On every run, the 16-bit counters hold in U and D the sums of the stroke that entered the state. */
  lemma {:induction false} Accumulators(c: Config, h: seq<Packet>, n: nat) returns (k: nat)
    requires n <= |h| && At(c, h, n).state in {U, D}
    requires forall i | 0 <= i < n :: -256 <= h[i].deltaX <= 255 && -256 <= h[i].deltaY <= 255
    ensures k < n && Entered(c, h, k, n)
    ensures Accumulated(At(c, h, n), h, k, n, At(c, h, n).state == U)
  {
    k := Entry(c, h, n, At(c, h, n));
    Residues(At(c, h, n), h, k, n, At(c, h, n).state == U);
  }

  /** Where the stroke began, and what the counters hold of it. */
  lemma {:induction false} Entry(c: Config, h: seq<Packet>, n: nat, m: Machine) returns (k: nat)
    requires n <= |h| && m == At(c, h, n) && (m.state == U || m.state == D)
    ensures k < n && Entered(c, h, k, n) && m.diffX == Wrap16(SumX(h, k, n))
    ensures m.diffY == Wrap16(if m.state == U then SumY(h, k, n) else -SumY(h, k, n))
  {
    var i := Word(c, h, n, m);
    if m.state == U {
      k := i;
      UpEntered(c, h, k, n);
    } else {
      k := DownEntered(c, h, i, n);
    }
  }

  /** The word the machine is in, begun in S. */
  lemma {:induction false} Word(c: Config, h: seq<Packet>, n: nat, m: Machine) returns (k: nat)
    requires n <= |h| && m == At(c, h, n) && m.state != E
    ensures k <= n && At(c, h, k).state == S && Describes(c, m, h, k, n)
  {
    k := Decompose(c, h, n);
    FollowAllSpoiled(c, h, k);
  }

  lemma {:induction false} UpEntered(c: Config, h: seq<Packet>, k: nat, n: nat)
    requires n <= |h| && UpStroke(c, h, k, n) && At(c, h, k).state == S
    ensures Entered(c, h, k, n)
  {
    forall i | k < i <= n ensures At(c, h, i).state == U {
      FollowUpStroke(c, h, k, i);
    }
  }

  lemma {:induction false} DownEntered(c: Config, h: seq<Packet>, k: nat, n: nat) returns (start: nat)
    requires k <= n <= |h| && Describes(c, At(c, h, n), h, k, n) && At(c, h, k).state == S && At(c, h, n).state == D
    ensures start < n && Entered(c, h, start, n) && Holds(At(c, h, n), h, start, n)
  {
    var a: nat, b: nat :| DownStroke(c, h, k, a, b, n) && Holds(At(c, h, n), h, b, n);
    FollowPause(c, h, k, a, b);
    forall i | b < i <= n ensures At(c, h, i).state == D {
      FollowDownStroke(c, h, k, a, b, i);
    }
    start := b;
  }

  /** The sums of at most 127 packets fit into 16 bits. */
  lemma {:induction false} SumsFit(h: seq<Packet>, k: nat, n: nat)
    requires k <= n <= |h| && n - k <= 127
    requires forall i | k <= i < n :: -256 <= h[i].deltaX <= 255 && -256 <= h[i].deltaY <= 255
    ensures Fits16(SumX(h, k, n)) && Fits16(SumY(h, k, n)) && Fits16(-SumY(h, k, n))
  {
    SumBounds(h, k, n);
  }

  // ----- what wrapping costs

  /** A released up-stroke is lost exactly when its wrapped sums are not steep, whatever its true sums are. */
  lemma {:induction false} UpReleased(c: Config, h: seq<Packet>, k: nat, n: nat)
    requires n < |h| && UpStroke(c, h, k, n) && At(c, h, k).state == S && Released(h[n])
    ensures At(c, h, n + 1).state == if Steep(c, Wrap16(SumX(h, k, n)), Wrap16(SumY(h, k, n))) then V else S
  {
    FollowUpStroke(c, h, k, n);
  }

  /** So is a released down-stroke; one that is not lost completes the gesture. */
  lemma {:induction false} DownReleased(c: Config, h: seq<Packet>, k: nat, a: nat, b: nat, n: nat)
    requires n < |h| && DownStroke(c, h, k, a, b, n) && At(c, h, k).state == S && Released(h[n])
    ensures At(c, h, n + 1).state == if Steep(c, Wrap16(SumX(h, b, n)), Wrap16(-SumY(h, b, n))) then E else S
  {
    FollowDownStroke(c, h, k, a, b, n);
  }

  /** A gesture by its true sums. */
  ghost predicate TrueComplete(c: Config, h: seq<Packet>, k: nat, a: nat, b: nat, n: nat)
    requires n <= |h|
  {
    && k < a < b < n - 1 && UpStroke(c, h, k, a) && Released(h[a]) && Steep(c, SumX(h, k, a), SumY(h, k, a))
    && (forall i | a < i < b :: Released(h[i]) && Slight(c, h[i]))
    && Turning(c, h[b]) && (forall i | b < i < n - 1 :: Downward(c, h[i]))
    && Released(h[n - 1]) && Steep(c, SumX(h, b, n - 1), -SumY(h, b, n - 1))
  }

  /** The packets of a down-stroke: a turn and moves downwards. */
  ghost predicate RightStroke(c: Config, h: seq<Packet>, i: nat, j: nat)
    requires j <= |h|
  {
    i < j && Turning(c, h[i]) && forall p | i < p < j :: Downward(c, h[p])
  }

  /** No stroke among the first `n` packets has a sum that does not fit. */
  ghost predicate Unwrapped(c: Config, h: seq<Packet>, n: nat)
    requires n <= |h|
  {
    forall i, j | 0 <= i <= j <= n ::
      && (UpStroke(c, h, i, j) ==> Fits16(SumX(h, i, j)) && Fits16(SumY(h, i, j)))
      && (RightStroke(c, h, i, j) ==> Fits16(SumX(h, i, j)) && Fits16(-SumY(h, i, j)))
  }

  lemma {:induction false} CompleteTruly(c: Config, h: seq<Packet>, k: nat, a: nat, b: nat, n: nat)
    requires n <= |h| && Unwrapped(c, h, n)
    ensures Complete(c, h, k, a, b, n) <==> TrueComplete(c, h, k, a, b, n)
  {
    if k < a < b < n - 1 && UpStroke(c, h, k, a) && RightStroke(c, h, b, n - 1) {
      assert Fits16(SumX(h, k, a)) && Fits16(SumX(h, b, n - 1));
    }
  }

  /** Gesture exactness by true sums: when no stroke wraps, the recogniser first reaches E with packet n exactly
      when at some packet it is in S and from there to n the packets form a gesture by their true sums. */
  lemma {:induction false} TrueExactness(c: Config, h: seq<Packet>, n: nat)
    requires n <= |h| && Unwrapped(c, h, n)
    ensures Recognised(c, h, n) <==>
      exists k: nat, a: nat, b: nat :: k < n && At(c, h, k).state == S && TrueComplete(c, h, k, a, b, n)
  {
    GestureExactness(c, h, n);
    if Recognised(c, h, n) {
      var k: nat :| k <= n && AllSpoiled(c, h, k) && IsGesture(c, h, k, n);
      FollowAllSpoiled(c, h, k);
      var a: nat, b: nat :| Complete(c, h, k, a, b, n);
      CompleteTruly(c, h, k, a, b, n);
    }
    if k: nat, a: nat, b: nat :| k < n && At(c, h, k).state == S && TrueComplete(c, h, k, a, b, n) {
      CompleteTruly(c, h, k, a, b, n);
      FollowGesture(c, h, k, n);
    }
  }

  /** No stroke wraps when none is longer than 127 packets. */
  lemma {:induction false} ShortStrokes(c: Config, h: seq<Packet>, n: nat)
    requires n <= |h|
    requires forall i | 0 <= i < n :: -256 <= h[i].deltaX <= 255 && -256 <= h[i].deltaY <= 255
    requires forall i, j | 0 <= i <= j <= n && j - i > 127 :: !UpStroke(c, h, i, j) && !RightStroke(c, h, i, j)
    ensures Unwrapped(c, h, n)
  {
    forall i, j | 0 <= i <= j <= n && (UpStroke(c, h, i, j) || RightStroke(c, h, i, j))
      ensures Fits16(SumX(h, i, j)) && Fits16(SumY(h, i, j)) && Fits16(-SumY(h, i, j))
    {
      SumsFit(h, i, j);
    }
  }

  // ----- the recogniser with counters that never wrap

  datatype Ideal = Ideal(state: State, x: int, y: int)

  /** The next state; of the counters it only matters whether they are steep. */
  function NextState(c: Config, state: State, steep: bool, p: Packet): State {
    match state
    case S => if Upward(c, p) then U else S
    case U => if Upward(c, p) then U else if Released(p) && steep then V else S
    case V =>
      if p.lb || p.mb || !Slight(c, p) then S else if p.rb then D else V
    case D => if Downward(c, p) then D else if Released(p) && steep then E else S
    case E => E
  }

  function IdealUpdate(c: Config, m: Ideal, p: Packet): Ideal {
    var state := NextState(c, m.state, Steep(c, m.x, m.y), p);
    if state == U then (if m.state == U then Ideal(U, m.x + p.deltaX, m.y + p.deltaY) else Ideal(U, p.deltaX, p.deltaY))
    else if state == D then
      (if m.state == D then Ideal(D, m.x + p.deltaX, m.y - p.deltaY) else Ideal(D, p.deltaX, 0 - p.deltaY))
    else m.(state := state)
  }

  function IdealAt(c: Config, h: seq<Packet>, n: nat): Ideal
    requires n <= |h|
  {
    if n == 0 then Ideal(S, 0, 0) else IdealUpdate(c, IdealAt(c, h, n - 1), h[n - 1])
  }

  /** The same state, and counters that wrapped. */
  ghost predicate WrappedFrom(m: Machine, i: Ideal) {
    m.state == i.state && (i.state in {U, D} ==> m.diffX == Wrap16(i.x) && m.diffY == Wrap16(i.y))
  }

  /** Packet `i` releases a stroke whose true sums and wrapped sums are not both steep or both not. */
  ghost predicate Misjudged(c: Config, h: seq<Packet>, i: nat)
    requires i < |h|
  {
    var m := IdealAt(c, h, i);
    m.state in {U, D} && Released(h[i]) && Steep(c, m.x, m.y) != Steep(c, Wrap16(m.x), Wrap16(m.y))
  }

  lemma UpdateWrapped(c: Config, m: Machine, i: Ideal, p: Packet)
    requires WrappedFrom(m, i)
    ensures
      var misjudged := i.state in {U, D} && Released(p) && Steep(c, i.x, i.y) != Steep(c, Wrap16(i.x), Wrap16(i.y));
      if misjudged then Update(c, m, p).state != IdealUpdate(c, i, p).state
      else WrappedFrom(Update(c, m, p), IdealUpdate(c, i, p))
  {
    WrapAdd(i.x, p.deltaX);
    WrapAdd(i.y, p.deltaY);
    WrapAdd(i.y, 0 - p.deltaY);
  }

  lemma {:induction false} IdealSteps(c: Config, h: seq<Packet>, n: nat)
    requires n <= |h|
    requires forall i | 0 <= i < n :: !Misjudged(c, h, i)
    ensures WrappedFrom(At(c, h, n), IdealAt(c, h, n))
  {
    if n > 0 {
      IdealSteps(c, h, n - 1);
      assert !Misjudged(c, h, n - 1);
      UpdateWrapped(c, At(c, h, n - 1), IdealAt(c, h, n - 1), h[n - 1]);
    }
  }

  lemma {:induction false} MisjudgedDiffers(c: Config, h: seq<Packet>, i: nat)
    requires i < |h| && Misjudged(c, h, i) && WrappedFrom(At(c, h, i), IdealAt(c, h, i))
    ensures At(c, h, i + 1).state != IdealAt(c, h, i + 1).state
  {
    UpdateWrapped(c, At(c, h, i), IdealAt(c, h, i), h[i]);
  }

  /** What 16 bits cost, exactly: the recogniser is in the state of one with unbounded counters after every packet if
      and only if no stroke is misjudged at its release. */
  lemma {:induction false} IdealExactness(c: Config, h: seq<Packet>, n: nat)
    requires n <= |h|
    ensures (forall i | 0 <= i <= n :: At(c, h, i).state == IdealAt(c, h, i).state) <==>
            (forall i | 0 <= i < n :: !Misjudged(c, h, i))
  {
    if forall i | 0 <= i < n :: !Misjudged(c, h, i) {
      forall i | 0 <= i <= n ensures At(c, h, i).state == IdealAt(c, h, i).state {
        IdealSteps(c, h, i);
      }
    } else {
      var i := FirstMisjudged(c, h, n);
      IdealSteps(c, h, i);
      MisjudgedDiffers(c, h, i);
      assert 0 <= i + 1 <= n && At(c, h, i + 1).state != IdealAt(c, h, i + 1).state;
    }
  }

  lemma {:induction false} FirstMisjudged(c: Config, h: seq<Packet>, n: nat) returns (i: nat)
    requires n <= |h| && exists i | 0 <= i < n :: Misjudged(c, h, i)
    ensures i < n && Misjudged(c, h, i) && forall j | 0 <= j < i :: !Misjudged(c, h, j)
  {
    if exists i | 0 <= i < n - 1 :: Misjudged(c, h, i) {
      i := FirstMisjudged(c, h, n - 1);
    } else {
      i := n - 1;
    }
  }

  function Repeat(p: Packet, n: nat): (w: seq<Packet>)
    ensures |w| == n && forall i | 0 <= i < n :: w[i] == p
  {
    seq(n, i => p)
  }

  lemma {:induction false} SumRepeat(p: Packet, h: seq<Packet>, n: nat)
    requires n <= |h| && forall i | 0 <= i < n :: h[i] == p
    ensures SumX(h, 0, n) == n * p.deltaX && SumY(h, 0, n) == n * p.deltaY
  {
    if n > 0 {
      SumRepeat(p, h, n - 1);
    }
  }

  /** Beyond 127 packets the counters wrap: a stroke of 129 packets that is steep by its true sums is
      thrown away at its release. */
  lemma LongStrokeLost(c: Config)
    ensures
      var h := Repeat(Decode(9, 255, 255), 129) + [Decode(8, 0, 0)];
      && UpStroke(c, h, 0, 129) && Steep(c, SumX(h, 0, 129), SumY(h, 0, 129)) && Released(h[129])
      && At(c, h, 130).state == S
  {
    var p, q := Decode(9, 255, 255), Decode(8, 0, 0);
    var h := Repeat(p, 129) + [q];
    assert Upward(c, p) && Released(q) && p.deltaX == p.deltaY == 255;
    SumRepeat(p, h, 129);
    FollowUpStroke(c, h, 0, 129);
    assert Wrap16(32895) == -32641;
  }

  /** The globals of the recogniser, updated in place. */
  class Recogniser {
    var currentState: State
    var diffX: i16
    var diffY: i16

    function View(): Machine
      reads this
    {
      Machine(currentState, diffX, diffY)
    }

    constructor ()
      ensures View() == RESTING
    {
      currentState, diffX, diffY := S, 0, 0;
    }

    method MouseStateUpdate(p: Packet, xLen: byte, tolerance: byte)
      modifies this
      ensures View() == Update(Config(xLen, tolerance), old(View()), p)
    {
      match currentState
      case S =>
        if p.lb && !p.mb && !p.rb {
          if p.deltaX + tolerance >= 0 && p.deltaY + tolerance >= 0 {
            currentState := U;
            diffX := p.deltaX;
            diffY := p.deltaY;
          }
        }
      case U =>
        if !p.mb && !p.rb {
          if p.lb {
            if p.deltaX + tolerance >= 0 && p.deltaY + tolerance >= 0 {
              diffX := Wrap16(diffX + p.deltaX);
              diffY := Wrap16(diffY + p.deltaY);
            } else {
              currentState := S;
            }
          } else if diffX >= xLen && diffY >= diffX {
            currentState := V;
          } else {
            currentState := S;
          }
        } else {
          currentState := S;
        }
      case V =>
        if !p.lb && !p.mb {
          if Abs(p.deltaX) <= tolerance || Abs(p.deltaY) <= tolerance {
            if p.rb {
              currentState := D;
              diffX := p.deltaX;
              diffY := Wrap16(0 - p.deltaY);
            }
          } else {
            currentState := S;
          }
        } else {
          currentState := S;
        }
      case D =>
        if !p.lb && !p.mb {
          if p.rb {
            if p.deltaX + tolerance >= 0 && tolerance - p.deltaY >= 0 {
              diffX := Wrap16(diffX + p.deltaX);
              diffY := Wrap16(diffY - p.deltaY);
            } else {
              currentState := S;
            }
          } else if diffX >= xLen && diffY >= diffX {
            currentState := E;
          } else {
            currentState := S;
          }
        } else {
          currentState := S;
        }
      case E =>
    }
  }
}
