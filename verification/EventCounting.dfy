/**
 The event counter of the status word over runs of the daemon, and what a client
 that keeps the counter learns from it.
 */
module EventCounting {
  import opened StatusWord
  import opened Atr
  import opened Protocols
  import opened Readers
  import opened Sessions
  import opened StatusChange

  /** The polling turn records an insertion or a removal. */
  predicate Moves(r: Reader, answer: IccStatus) {
    var seen := if answer.ok then r.seen else SeenUnknown;
    if answer.absent then seen != SeenAbsent else answer.present && seen != SeenPresent
  }

  predicate MovesCard(t: Table, c: Call, i: nat) {
    c.DoPoll? && c.i == i < |t| && t[i].live && Moves(t[i], c.answer)
  }

  lemma {:induction false} PollCounts(r: Reader, answer: IccStatus, power: Power)
    ensures Poll(r, answer, power).card.status.counter ==
            if Moves(r, answer) then (r.card.status.counter + 1) % HALF else r.card.status.counter
  {
  }

  /** Every other step leaves the counter of a reader that stays attached alone. */
  lemma {:induction false} StepCounts(t: Table, c: Call, i: nat)
    requires i < |t| && t[i].live && !(c.DoDetach? && c.i == i)
    ensures |Step(t, c).0| == |t| && Step(t, c).0[i].live
    ensures Step(t, c).0[i].card.status.counter ==
            if MovesCard(t, c, i) then (t[i].card.status.counter + 1) % HALF else t[i].card.status.counter
  {
    if ByHandle(c) {
      if c.h != 0 && Route(t, c.h) < |t| {
        ApplyCounts(t[Route(t, c.h)], Found(t, c.h), c);
      }
    } else if c.i == i {
      match c
      case DoPoll(_, answer, power) => PollCounts(t[i], answer, power);
      case DoConnect(_, _, _, _, _) =>
      case ResumeConnect(_, _, _, _, _) =>
      case ResumeDisconnect(_, _, _, _) =>
      case DoAttach(_, _, _) =>
      case DoDetach(_) =>
    }
  }

  lemma {:induction false} ResetCounts(r: Reader, h: nat, power: Power, stillThere: bool)
    ensures var r' := ReconnectReset(r, h, power, stillThere).0;
            r'.live == r.live && r'.card.status.counter == r.card.status.counter
  {
  }

  lemma {:induction false} RenegotiateCounts(r: Reader, h: nat, share: Share, preferred: Mask, pts: Pts)
    ensures var r' := Renegotiate(r, h, share, preferred, pts).0;
            r'.live == r.live && r'.card.status.counter == r.card.status.counter
  {
    var r1 := r.(card := r.card.(protocol := Negotiate(r.card, share, preferred, pts).0));
    assert Reshare(r1, h, share).0.card.status == r.card.status;
  }

  lemma {:induction false} RefreshCounts(r: Reader, h: nat, share: Share, preferred: Mask, init: Disposition, pts: Pts, power: Power, stillThere: bool)
    ensures var r' := Refresh(r, h, share, preferred, init, pts, power, stillThere).0;
            r'.live == r.live && r'.card.status.counter == r.card.status.counter
  {
    ResetCounts(r, h, power, stillThere);
    RenegotiateCounts(if init == Leave then r else ReconnectReset(r, h, power, stillThere).0, h, share, preferred, pts);
  }

  lemma {:induction false} DisconnectCounts(r: Reader, h: nat, disposition: Disposition, power: Power)
    ensures var r' := DisconnectResumed(r, h, disposition, power).0;
            r'.live == r.live && r'.card.status.counter == r.card.status.counter
  {
  }

  lemma {:induction false} ApplyCounts(r: Reader, found: bool, c: Call)
    requires ByHandle(c)
    ensures Apply(r, found, c).0.live == r.live && Apply(r, found, c).0.card.status.counter == r.card.status.counter
  {
    match c
    case DoReconnect(h, share, preferred, init, pts, power, stillThere) =>
      RefreshCounts(r, h, share, preferred, init, pts, power, stillThere);
    case DoDisconnect(h, disposition, power) => DisconnectCounts(r, h, disposition, power);
    case _ =>
  }

  function Movements(t: Table, cs: seq<Call>, i: nat): nat
    decreases |cs|
  {
    if cs == [] then 0 else (if MovesCard(t, cs[0], i) then 1 else 0) + Movements(Step(t, cs[0]).0, cs[1..], i)
  }

  /** Over any run in which reader i stays attached the counter counts insertions and removals modulo 2^16. */
  lemma {:induction false} CounterOverRuns(t: Table, cs: seq<Call>, i: nat)
    requires i < |t| && t[i].live && forall k :: 0 <= k < |cs| ==> !(cs[k].DoDetach? && cs[k].i == i)
    ensures |Run(t, cs)| == |t| && Run(t, cs)[i].live
    ensures Run(t, cs)[i].card.status.counter == (t[i].card.status.counter + Movements(t, cs, i)) % HALF
    decreases |cs|
  {
    if cs != [] {
      var t1, m := FirstStep(t, cs, i);
      CounterOverRuns(t1, cs[1..], i);
      AddModulo(t[i].card.status.counter, m, Movements(t1, cs[1..], i));
    }
  }

  /** The state behind the first call of a run, and the movements (none or one) of that call. */
  lemma {:induction false} FirstStep(t: Table, cs: seq<Call>, i: nat) returns (t1: Table, m: nat)
    requires cs != [] && i < |t| && t[i].live && !(cs[0].DoDetach? && cs[0].i == i)
    ensures Run(t, cs) == Run(t1, cs[1..]) && Movements(t, cs, i) == m + Movements(t1, cs[1..], i)
    ensures |t1| == |t| && t1[i].live && t1[i].card.status.counter == (t[i].card.status.counter + m) % HALF
  {
    StepCounts(t, cs[0], i);
    t1, m := Step(t, cs[0]).0, if MovesCard(t, cs[0], i) then 1 else 0;
  }

  lemma {:induction false} AddModulo(c: nat, a: nat, b: nat)
    ensures ((c + a) % HALF + b) % HALF == (c + (a + b)) % HALF
  {
  }

  /** A client that holds the counter of the last poll sees by it that cards have moved, even when the card state
      looks the same, exactly when that counter is not zero and the number of movements is no multiple of 2^16. */
  lemma {:induction false} CounterDetectsExactly(t: Table, cs: seq<Call>, i: nat, cur: Event)
    requires i < |t| && t[i].live && forall k :: 0 <= k < |cs| ==> !(cs[k].DoDetach? && cs[k].i == i)
    requires cur.counter == t[i].card.status.counter
    ensures |Run(t, cs)| == |t|
    ensures CounterDiffers(cur, Run(t, cs)[i].card.status) <==> cur.counter != 0 && Movements(t, cs, i) % HALF != 0
    ensures cur.counter != 0 && Movements(t, cs, i) % HALF != 0 ==> forall s :: Wakes(cur, Run(t, cs)[i].card.status, s)
  {
    CounterOverRuns(t, cs, i);
    MovedModulo(cur.counter, Movements(t, cs, i));
  }

  lemma {:induction false} MovedModulo(c: nat, k: nat)
    requires c < HALF
    ensures (c + k) % HALF == c <==> k % HALF == 0
  {
    assert (c + k) % HALF == (c + k % HALF) % HALF;
  }
}
