/**
 Transaction locks over whole runs: who may act while a handle holds the lock,
 what can take the lock away, and how nested acquisitions are counted.
 */
module LockRuns {
  import opened Atr
  import opened Protocols
  import opened Readers
  import opened SharingInvariant
  import CallsKeepInvariant
  import opened Sessions

  /** What one step does to the lock that handle h holds on reader i. */
  datatype Effect = Keeps | Raises | Lowers | Frees

  /** The polling thread takes notice of a removal. */
  predicate NoticesRemoval(r: Reader, answer: IccStatus) {
    answer.absent && (!answer.ok || r.seen != SeenAbsent)
  }

  /** The effect, read off the call, its result and the state before it. */
  function EffectOf(t: Table, c: Call, i: nat, h: nat): Effect
    requires i < |t|
  {
    var r, rv := t[i], Step(t, c).1;
    match c
    case DoBegin(g) => if g == h && rv == Success then Raises else Keeps
    case DoEnd(g, disposition, _, _) =>
      if g == h && disposition != BadDisposition && CheckEvent(r.sh.handles, h) == Success then Lowers else Keeps
    case DoCancel(g) => if g == h && rv == Success then Lowers else Keeps
    case DoReconnect(g, share, _, _, _, _, _) =>
      if g != h || rv != Success then Keeps
      else if share == Exclusive && r.sh.contexts == 1 then Raises
      else if share != Exclusive && r.sh.contexts == EXCLUSIVE_CONTEXT then Lowers
      else Keeps
    case DoDisconnect(g, _, _) => if g == h && rv == Success then Frees else Keeps
    case DoPoll(j, answer, _) => if j == i && NoticesRemoval(r, answer) then Frees else Keeps
    case DoDetach(j) => if j == i then Frees else Keeps
    case _ => Keeps
  }

  /** Lock state after an effect. */
  predicate After(s: Sharing, e: Effect, h: nat, n: nat) {
    match e
    case Keeps => s.lockId == h && s.lockCount == n
    case Raises => s.lockId == h && s.lockCount == n + 1
    case Lowers => if n > 1 then s.lockId == h && s.lockCount == n - 1 else s.lockId == 0 && s.lockCount == 0
    case Frees => s.lockId == 0 && s.lockCount == 0
  }

  ghost predicate HoldsLock(t: Table, i: nat, h: nat) {
    i < |t| && t[i].live && h != 0 && t[i].sh.lockId == h
  }

  /** Calls by handle g that must not succeed while another handle of the same reader holds the lock. */
  predicate NeedsLock(c: Call) {
    c.DoBegin? || c.DoReconnect? || c.DoCancel? || c.DoTransmit? || c.DoControl? || c.DoDisconnect?
  }

  /** Calls by other handles of the same reader. */
  lemma {:induction false} OthersBlocked(r: Reader, found: bool, c: Call, h: nat)
    requires ByHandle(c) && h != 0 && r.sh.lockId == h && c.h != h
    ensures NeedsLock(c) ==> Apply(r, found, c).1 != Success
    ensures Apply(r, found, c).0.sh.lockId == h && Apply(r, found, c).0.sh.lockCount == r.sh.lockCount
  {
  }

  /** The holder's own calls. */
  lemma {:induction false} OwnCalls(t: Table, i: nat, c: Call, h: nat)
    requires TableInv(t) && HoldsLock(t, i, h) && ByHandle(c) && c.h == h
    ensures Route(t, h) == i
    ensures After(Step(t, c).0[i].sh, EffectOf(t, c, i, h), h, t[i].sh.lockCount)
  {
    HandleRoutes(t, i, h);
    match c
    case DoReconnect(_, share, preferred, init, pts, power, stillThere) =>
      OwnReconnect(t[i], h, share, preferred, init, pts, power, stillThere);
    case DoDisconnect(_, disposition, power) => OwnDisconnect(t[i], h, disposition, power);
    case DoEnd(_, disposition, power, eject) => OwnEnd(t[i], h, disposition, power, eject);
    case _ =>
  }

  lemma {:induction false} OwnDisconnect(r: Reader, h: nat, disposition: Disposition, power: Power)
    requires r.sh.lockId == h && h != 0 && r.sh.lockCount > 0
    ensures var (r', rv) := Disconnect(r, h, true, disposition, power);
            After(r'.sh, if rv == Success then Frees else Keeps, h, r.sh.lockCount)
  {
  }

  lemma {:induction false} OwnEnd(r: Reader, h: nat, disposition: Disposition, power: Power, eject: Code)
    requires r.sh.lockId == h && h != 0 && r.sh.lockCount > 0
    ensures var (r', rv) := End(r, h, true, disposition, power, eject);
            After(r'.sh, if disposition != BadDisposition && CheckEvent(r.sh.handles, h) == Success then Lowers else Keeps,
                  h, r.sh.lockCount)
  {
  }

  lemma {:induction false} OwnRenegotiate(r: Reader, h: nat, share: Share, preferred: Mask, pts: Pts)
    requires r.sh.lockId == h && h != 0 && r.sh.lockCount > 0
    ensures var (r', rv) := Renegotiate(r, h, share, preferred, pts);
            if rv == Success && share == Exclusive && r.sh.contexts == 1 then After(r'.sh, Raises, h, r.sh.lockCount)
            else if rv == Success && share != Exclusive && r.sh.contexts == EXCLUSIVE_CONTEXT then After(r'.sh, Lowers, h, r.sh.lockCount)
            else After(r'.sh, Keeps, h, r.sh.lockCount)
  {
  }

  lemma {:induction false} OwnRefresh(r: Reader, h: nat, share: Share, preferred: Mask, init: Disposition, pts: Pts, power: Power, stillThere: bool)
    requires r.sh.lockId == h && h != 0 && r.sh.lockCount > 0
    ensures var (r', rv) := Refresh(r, h, share, preferred, init, pts, power, stillThere);
            if rv == Success && share == Exclusive && r.sh.contexts == 1 then After(r'.sh, Raises, h, r.sh.lockCount)
            else if rv == Success && share != Exclusive && r.sh.contexts == EXCLUSIVE_CONTEXT then After(r'.sh, Lowers, h, r.sh.lockCount)
            else After(r'.sh, Keeps, h, r.sh.lockCount)
  {
    var r1 := if init == Leave then r else ReconnectReset(r, h, power, stillThere).0;
    assert r1.sh.lockId == h && r1.sh.lockCount == r.sh.lockCount && r1.sh.contexts == r.sh.contexts;
    OwnRenegotiate(r1, h, share, preferred, pts);
  }

  lemma {:induction false} OwnReconnect(r: Reader, h: nat, share: Share, preferred: Mask, init: Disposition, pts: Pts, power: Power, stillThere: bool)
    requires r.sh.lockId == h && h != 0 && r.sh.lockCount > 0
    ensures var (r', rv) := Reconnect(r, h, true, share, preferred, init, pts, power, stillThere);
            if rv == Success && share == Exclusive && r.sh.contexts == 1 then After(r'.sh, Raises, h, r.sh.lockCount)
            else if rv == Success && share != Exclusive && r.sh.contexts == EXCLUSIVE_CONTEXT then After(r'.sh, Lowers, h, r.sh.lockCount)
            else After(r'.sh, Keeps, h, r.sh.lockCount)
  {
    OwnRefresh(r, h, share, preferred, init, pts, power, stillThere);
  }

  /** Connect attempts and steps of the polling thread and of reader management. */
  lemma {:induction false} SystemSteps(t: Table, i: nat, c: Call, h: nat)
    requires TableInv(t) && Enabled(t, c) && HoldsLock(t, i, h) && !ByHandle(c)
    ensures |Step(t, c).0| == |t| && After(Step(t, c).0[i].sh, EffectOf(t, c, i, h), h, t[i].sh.lockCount)
    ensures EffectOf(t, c, i, h) != Frees ==> Step(t, c).0[i].live
    ensures c.DoConnect? && c.i == i ==> Step(t, c).1 != Success
  {
    if c.i == i {
      match c
      case DoConnect(_, share, preferred, pts, g) =>
        assert Connect(t[i], share, preferred, pts, g).0 == t[i];
      case DoPoll(_, answer, power) =>
        PollAndLock(t[i], answer, power);
      case DoAttach(_, _, _) =>
      case DoDetach(_) =>
    }
  }

  lemma {:induction false} PollAndLock(r: Reader, answer: IccStatus, power: Power)
    ensures var s := Poll(r, answer, power).sh;
            if NoticesRemoval(r, answer) then s.lockId == 0 && s.lockCount == 0
            else s.lockId == r.sh.lockId && s.lockCount == r.sh.lockCount
    ensures Poll(r, answer, power).live == r.live
  {
  }

  /** One step of any kind while h holds the lock of reader i. */
  lemma {:induction false} StepEffect(t: Table, i: nat, c: Call, h: nat)
    requires TableInv(t) && Enabled(t, c) && HoldsLock(t, i, h)
    ensures i < |Step(t, c).0| && After(Step(t, c).0[i].sh, EffectOf(t, c, i, h), h, t[i].sh.lockCount)
    ensures EffectOf(t, c, i, h) != Frees ==> Step(t, c).0[i].live
    ensures ByHandle(c) && c.h != h && Route(t, c.h) == i && NeedsLock(c) ==> Step(t, c).1 != Success
    ensures c.DoConnect? && c.i == i ==> Step(t, c).1 != Success
  {
    if ByHandle(c) {
      if c.h == h {
        OwnCalls(t, i, c, h);
      } else if c.h != 0 && Route(t, c.h) == i {
        OthersBlocked(t[i], Found(t, c.h), c, h);
      }
      ApplyLive(t, c);
    } else {
      SystemSteps(t, i, c, h);
    }
  }

  /** No call with a handle attaches or detaches a reader. */
  lemma {:induction false} ApplyLive(t: Table, c: Call)
    requires ByHandle(c)
    ensures |Step(t, c).0| == |t| && forall j :: 0 <= j < |t| ==> Step(t, c).0[j].live == t[j].live
    ensures forall j :: 0 <= j < |t| && (c.h == 0 || j != Route(t, c.h)) ==> Step(t, c).0[j] == t[j]
  {
    if c.h != 0 && Route(t, c.h) < |t| {
      ApplyKeepsLive(t[Route(t, c.h)], Found(t, c.h), c);
    }
  }

  lemma {:induction false} ApplyKeepsLive(r: Reader, found: bool, c: Call)
    requires ByHandle(c)
    ensures Apply(r, found, c).0.live == r.live
  {
  }

  // ----- runs -----

  /** The lock count after an effect. */
  function Counted(n: nat, e: Effect): nat {
    match e
    case Keeps => n
    case Raises => n + 1
    case Lowers => if n > 0 then n - 1 else 0
    case Frees => 0
  }

  /** Read off the calls of the run, starting from n acquisitions: at every point more acquisitions than releases have
      happened, and no Disconnect by h and no card or reader removal frees the lock outright. */
  predicate Ahead(t: Table, cs: seq<Call>, i: nat, h: nat, n: nat)
    requires i < |t|
    decreases |cs|
  {
    n > 0 && (cs == [] || (i < |Step(t, cs[0]).0|
                           && Ahead(Step(t, cs[0]).0, cs[1..], i, h, Counted(n, EffectOf(t, cs[0], i, h)))))
  }

  /** Handle h owns the lock of reader i in every state of the run. */
  ghost predicate HeldThroughout(t: Table, cs: seq<Call>, i: nat, h: nat)
    decreases |cs|
  {
    HoldsLock(t, i, h) && (cs == [] || HeldThroughout(Step(t, cs[0]).0, cs[1..], i, h))
  }

  /** How many calls of the run have effect e. */
  function Tally(t: Table, cs: seq<Call>, i: nat, h: nat, e: Effect): nat
    requires i < |t|
    decreases |cs|
  {
    if cs == [] then 0
    else (if EffectOf(t, cs[0], i, h) == e then 1 else 0)
         + if i < |Step(t, cs[0]).0| then Tally(Step(t, cs[0]).0, cs[1..], i, h, e) else 0
  }

  /** The state behind a step of a run that stays ahead. */
  lemma {:induction false} StepAhead(t: Table, c: Call, i: nat, h: nat)
    requires TableInv(t) && Enabled(t, c) && HoldsLock(t, i, h)
    ensures var t1, n := Step(t, c).0, Counted(t[i].sh.lockCount, EffectOf(t, c, i, h));
            i < |t1| && TableInv(t1) && t1[i].sh.lockCount == n && (n > 0 <==> HoldsLock(t1, i, h))
  {
    StepKeeps(t, c);
    StepEffect(t, i, c, h);
  }

  /** Nested acquisitions, with further ones and their releases inside the run: h owns the lock all the way if and only
      if the run stays ahead. So n acquisitions need n releases, and the n-th release ends the ownership. */
  lemma {:induction false} HeldExactly(t: Table, cs: seq<Call>, i: nat, h: nat)
    requires TableInv(t) && Runnable(t, cs) && HoldsLock(t, i, h)
    ensures HeldThroughout(t, cs, i, h) <==> Ahead(t, cs, i, h, t[i].sh.lockCount)
    decreases |cs|
  {
    if cs != [] {
      StepAhead(t, cs[0], i, h);
      if HoldsLock(Step(t, cs[0]).0, i, h) {
        HeldExactly(Step(t, cs[0]).0, cs[1..], i, h);
      }
    }
  }

  /** As long as the run stays ahead, the count is the acquisitions that are not yet released. */
  lemma {:induction false} NestedLocks(t: Table, cs: seq<Call>, i: nat, h: nat)
    requires TableInv(t) && Runnable(t, cs) && HoldsLock(t, i, h) && Ahead(t, cs, i, h, t[i].sh.lockCount)
    ensures HoldsLock(Run(t, cs), i, h)
    ensures Run(t, cs)[i].sh.lockCount ==
            t[i].sh.lockCount + Tally(t, cs, i, h, Raises) - Tally(t, cs, i, h, Lowers)
    decreases |cs|
  {
    if cs != [] {
      StepAhead(t, cs[0], i, h);
      StillAhead(t, cs, i, h);
      NestedLocks(Step(t, cs[0]).0, cs[1..], i, h);
    }
  }

  lemma {:induction false} StillAhead(t: Table, cs: seq<Call>, i: nat, h: nat)
    requires TableInv(t) && Runnable(t, cs) && HoldsLock(t, i, h) && Ahead(t, cs, i, h, t[i].sh.lockCount) && cs != []
    ensures var t1 := Step(t, cs[0]).0;
            HoldsLock(t1, i, h) && Ahead(t1, cs[1..], i, h, t1[i].sh.lockCount)
  {
    StepAhead(t, cs[0], i, h);
  }

  /** Mutual exclusion over the same runs: no Connect to the reader and no Begin, Reconnect, Cancel, Transmit, Control,
      GetAttrib, SetAttrib or Disconnect by another of its handles succeeds at any point. */
  lemma {:induction false} ExclusionOverRuns(t: Table, cs: seq<Call>, i: nat, h: nat, k: nat)
    requires TableInv(t) && Runnable(t, cs) && HoldsLock(t, i, h) && Ahead(t, cs, i, h, t[i].sh.lockCount)
    requires k < |cs|
    requires (cs[k].DoConnect? && cs[k].i == i)
             || (ByHandle(cs[k]) && NeedsLock(cs[k]) && cs[k].h != h && cs[k].h / IDENTITY_UNIT == i + 1)
    ensures k < |Results(t, cs)| && Results(t, cs)[k] != Success
    decreases |cs|
  {
    if k == 0 {
      StepEffect(t, i, cs[0], h);
      if ByHandle(cs[0]) {
        RouteByIdentity(t, i, cs[0].h);
      }
    } else {
      StepKeeps(t, cs[0]);
      StillAhead(t, cs, i, h);
      ExclusionOverRuns(Step(t, cs[0]).0, cs[1..], i, h, k - 1);
    }
  }

  lemma {:induction false} RouteByIdentity(t: Table, i: nat, g: nat)
    requires TableInv(t) && i < |t| && t[i].live && g / IDENTITY_UNIT == i + 1
    ensures Route(t, g) == i && g != 0
  {
    var j := Route(t, g);
    assert t[i].identity == g / IDENTITY_UNIT * IDENTITY_UNIT;
    assert j <= i;
    assert ReaderOk(t[j], j);
  }

  /** Disconnect by the holder releases every nested acquisition at once. */
  lemma {:induction false} DisconnectReleasesAll(t: Table, i: nat, h: nat, disposition: Disposition, power: Power)
    requires TableInv(t) && HoldsLock(t, i, h) && disposition != BadDisposition
    ensures var (t', rv) := Step(t, DoDisconnect(h, disposition, power));
            rv == Success && |t'| == |t| && t'[i].sh.lockId == 0 && t'[i].sh.lockCount == 0 && !Holds(t'[i].sh.handles, h)
  {
    HandleRoutes(t, i, h);
    CallsKeepInvariant.DisconnectKeeps(t[i], i, h, true, disposition, power);
  }
}
