/**
 Event notification over whole runs: once a reset or removal has been recorded for
 a handle, the handle is of no use until it reconnects.
 */
module EventRuns {
  import opened Atr
  import opened Protocols
  import opened Readers
  import opened SharingInvariant
  import opened Sessions
  import opened LockRuns

  /** Handle h of reader i has an event to take notice of. */
  ghost predicate Notified(t: Table, i: nat, h: nat) {
    i < |t| && t[i].live && h != 0 && Pending(t[i].sh.handles, h)
  }

  predicate Pending(hs: seq<Slot>, h: nat) {
    Holds(hs, h) && (hs[IndexOf(hs, h)].event == EVENT_RESET || hs[IndexOf(hs, h)].event == EVENT_REMOVED)
  }

  /** Calls that answer the event instead of doing their work. */
  predicate Refused(c: Call) {
    c.DoBegin? || c.DoEnd? || c.DoCancel? || c.DoTransmit? || c.DoControl? || c.DoStatus?
  }

  /** The call takes notice of the event, or ends the life of the handle. */
  predicate Settles(t: Table, c: Call, i: nat, h: nat) {
    || (c.DoReconnect? && c.h == h && Step(t, c).1 == Success)
    || (c.DoDisconnect? && c.h == h && Step(t, c).1 == Success)
    || (c.ResumeDisconnect? && c.i == i && c.h == h && Step(t, c).1 == Success)
    || (c.DoDetach? && c.i == i)
  }

  lemma {:induction false} PendingSame(hs: seq<Slot>, gs: seq<Slot>, h: nat)
    requires |gs| == |hs| && Pending(hs, h)
    requires forall k :: 0 <= k < |hs| ==> (gs[k].hCard == h <==> hs[k].hCard == h)
    requires var g := gs[IndexOf(hs, h)]; g.event == EVENT_RESET || g.event == EVENT_REMOVED
    ensures Pending(gs, h)
  {
    var k, j := IndexOf(hs, h), IndexOf(gs, h);
    assert gs[k].hCard == h;
    assert hs[j].hCard == h;
  }

  lemma {:induction false} MarkedPending(hs: seq<Slot>, e: nat, h: nat)
    requires Holds(hs, h) && h != 0 && (e == EVENT_RESET || e == EVENT_REMOVED)
    ensures Pending(Marked(hs, e), h)
  {
    var gs := Marked(hs, e);
    var k, j := IndexOf(hs, h), IndexOf(gs, h);
    assert gs[k].hCard == h;
    assert hs[j].hCard == h;
  }

  lemma {:induction false} RefreshPending(r: Reader, g: nat, share: Share, preferred: Mask, init: Disposition, pts: Pts,
                       power: Power, stillThere: bool, h: nat)
    requires h != 0 && g != 0 && Pending(r.sh.handles, h)
    ensures var (r', rv) := Refresh(r, g, share, preferred, init, pts, power, stillThere);
            g != h || rv != Success ==> Pending(r'.sh.handles, h)
  {
    MarkedPending(r.sh.handles, EVENT_RESET, h);
    var r1 := if init == Leave then r else ReconnectReset(r, g, power, stillThere).0;
    assert Pending(r1.sh.handles, h);
    RenegotiatePending(r1, g, share, preferred, pts, h);
  }

  lemma {:induction false} ReconnectPending(r: Reader, g: nat, found: bool, share: Share, preferred: Mask, init: Disposition, pts: Pts,
                         power: Power, stillThere: bool, h: nat)
    requires h != 0 && g != 0 && Pending(r.sh.handles, h)
    ensures var (r', rv) := Reconnect(r, g, found, share, preferred, init, pts, power, stillThere);
            g != h || rv != Success ==> Pending(r'.sh.handles, h)
  {
    RefreshPending(r, g, share, preferred, init, pts, power, stillThere, h);
  }

  lemma {:induction false} RenegotiatePending(r: Reader, g: nat, share: Share, preferred: Mask, pts: Pts, h: nat)
    requires Pending(r.sh.handles, h)
    ensures var (r', rv) := Renegotiate(r, g, share, preferred, pts);
            g != h || rv != Success ==> Pending(r'.sh.handles, h)
  {
    if g != h {
      PendingSame(r.sh.handles, Cleared(r.sh.handles, g), h);
    }
  }

  lemma {:induction false} RemovedPending(hs: seq<Slot>, g: nat, h: nat)
    requires h != 0 && g != 0 && g != h && Pending(hs, h)
    ensures Pending(RemoveHandle(hs, g), h)
  {
    PendingSame(hs, RemoveHandle(hs, g), h);
  }

  lemma {:induction false} DisconnectPending(r: Reader, g: nat, disposition: Disposition, power: Power, h: nat)
    requires h != 0 && g != 0 && Pending(r.sh.handles, h)
    ensures var (r', rv) := DisconnectResumed(r, g, disposition, power);
            g != h || rv != Success ==> Pending(r'.sh.handles, h)
  {
    if g != h {
      RemovedPending(r.sh.handles, g, h);
      if disposition == Reset || disposition == Unpower {
        MarkedPending(r.sh.handles, EVENT_RESET, h);
        RemovedPending(Marked(r.sh.handles, EVENT_RESET), g, h);
      }
    }
  }

  lemma {:induction false} EndPending(r: Reader, g: nat, found: bool, disposition: Disposition, power: Power, eject: Code, h: nat)
    requires h != 0 && Pending(r.sh.handles, h)
    ensures var (r', rv) := End(r, g, found, disposition, power, eject);
            Pending(r'.sh.handles, h) && (g == h ==> rv != Success)
  {
    MarkedPending(r.sh.handles, EVENT_RESET, h);
  }

  /** Calls with a handle, on the reader where h is notified. */
  lemma {:induction false} PendingOnReader(r: Reader, found: bool, c: Call, h: nat)
    requires ByHandle(c) && h != 0 && c.h != 0 && Pending(r.sh.handles, h)
    ensures !(c.h == h && (c.DoReconnect? || c.DoDisconnect?) && Apply(r, found, c).1 == Success)
            ==> Pending(Apply(r, found, c).0.sh.handles, h)
  {
    match c
    case DoReconnect(g, share, preferred, init, pts, power, stillThere) =>
      ReconnectPending(r, g, found, share, preferred, init, pts, power, stillThere, h);
    case DoDisconnect(g, disposition, power) => DisconnectPending(r, g, disposition, power, h);
    case DoEnd(g, disposition, power, eject) => EndPending(r, g, found, disposition, power, eject, h);
    case _ =>
  }

  lemma {:induction false} RefusedOnReader(r: Reader, found: bool, c: Call, h: nat)
    requires ByHandle(c) && h != 0 && c.h == h && Pending(r.sh.handles, h) && Refused(c)
    ensures Apply(r, found, c).1 != Success
  {
  }

  lemma {:induction false} ConnectPending(r: Reader, share: Share, preferred: Mask, pts: Pts, g: nat, h: nat)
    requires h != 0 && g != h && Pending(r.sh.handles, h)
    ensures Pending(ConnectResumed(r, share, preferred, pts, g).0.sh.handles, h)
  {
    if Holds(r.sh.handles, 0) {
      PendingSame(r.sh.handles, AddHandle(r.sh.handles, g), h);
    }
  }

  lemma {:induction false} PollPending(r: Reader, answer: IccStatus, power: Power, h: nat)
    requires h != 0 && Pending(r.sh.handles, h)
    ensures Pending(Poll(r, answer, power).sh.handles, h)
  {
    MarkedPending(r.sh.handles, EVENT_REMOVED, h);
  }

  /** One step of any kind while handle h of reader i is notified. */
  lemma {:induction false} StepNotified(t: Table, c: Call, i: nat, h: nat)
    requires TableInv(t) && Enabled(t, c) && Notified(t, i, h)
    ensures !Settles(t, c, i, h) ==> Notified(Step(t, c).0, i, h)
    ensures ByHandle(c) && c.h == h && Refused(c) ==> Step(t, c).1 != Success
  {
    HandleRoutes(t, i, h);
    if ByHandle(c) {
      ApplyLive(t, c);
      if c.h != 0 && Route(t, c.h) == i {
        PendingOnReader(t[i], Found(t, c.h), c, h);
        if c.h == h && Refused(c) {
          RefusedOnReader(t[i], Found(t, c.h), c, h);
        }
      }
    } else if !Settles(t, c, i, h) {
      SystemNotified(t, c, i, h);
    }
  }

  lemma {:induction false} NotifiedUpdate(t: Table, i: nat, h: nat, j: nat, r: Reader)
    requires Notified(t, i, h) && j < |t| && (j == i ==> r.live && Pending(r.sh.handles, h))
    ensures Notified(t[j := r], i, h)
  {
  }

  lemma {:induction false} ConnectNotified(t: Table, c: Call, i: nat, h: nat)
    requires c.DoConnect? && Enabled(t, c) && Notified(t, i, h) && c.i < |t|
    ensures Notified(Step(t, c).0, i, h)
  {
    var r := Connect(t[c.i], c.share, c.preferred, c.pts, c.h).0;
    assert Step(t, c).0 == t[c.i := r];
    if c.i == i {
      ConnectPending(t[i], c.share, c.preferred, c.pts, c.h, h);
      ConnectLive(t[i], c.share, c.preferred, c.pts, c.h);
    }
    NotifiedUpdate(t, i, h, c.i, r);
  }

  lemma {:induction false} ResumeNotified(t: Table, c: Call, i: nat, h: nat)
    requires c.ResumeConnect? && Enabled(t, c) && Notified(t, i, h) && c.i < |t|
    ensures Notified(Step(t, c).0, i, h)
  {
    var r := ConnectResumed(t[c.i], c.share, c.preferred, c.pts, c.h).0;
    assert Step(t, c).0 == t[c.i := r];
    if c.i == i {
      ConnectPending(t[i], c.share, c.preferred, c.pts, c.h, h);
      ConnectLive(t[i], c.share, c.preferred, c.pts, c.h);
    }
    NotifiedUpdate(t, i, h, c.i, r);
  }

  lemma {:induction false} ConnectLive(r: Reader, share: Share, preferred: Mask, pts: Pts, g: nat)
    ensures ConnectResumed(r, share, preferred, pts, g).0.live == r.live
  {
  }

  lemma {:induction false} DisconnectNotified(t: Table, c: Call, i: nat, h: nat)
    requires c.ResumeDisconnect? && Enabled(t, c) && Notified(t, i, h) && c.i < |t| && !Settles(t, c, i, h)
    ensures Notified(Step(t, c).0, i, h)
  {
    if c.i == i {
      DisconnectPending(t[i], c.h, c.disposition, c.power, h);
    }
    NotifiedUpdate(t, i, h, c.i, DisconnectResumed(t[c.i], c.h, c.disposition, c.power).0);
  }

  lemma {:induction false} PollNotified(t: Table, c: Call, i: nat, h: nat)
    requires c.DoPoll? && Notified(t, i, h) && c.i < |t|
    ensures Notified(Step(t, c).0, i, h)
  {
    if c.i == i {
      PollPending(t[i], c.answer, c.power, h);
    }
    if t[c.i].live {
      NotifiedUpdate(t, i, h, c.i, Poll(t[c.i], c.answer, c.power));
    }
  }

  lemma {:induction false} PlugNotified(t: Table, c: Call, i: nat, h: nat)
    requires (c.DoAttach? || c.DoDetach?) && Notified(t, i, h) && c.i < |t| && !Settles(t, c, i, h)
    ensures Notified(Step(t, c).0, i, h)
  {
    if c.DoDetach? {
      NotifiedUpdate(t, i, h, c.i, Detached(t[c.i]));
    } else if !t[c.i].live {
      NotifiedUpdate(t, i, h, c.i, Attached(t[c.i], c.i, c.word, c.power));
    }
  }

  lemma {:induction false} SystemNotified(t: Table, c: Call, i: nat, h: nat)
    requires !ByHandle(c) && Enabled(t, c) && Notified(t, i, h) && !Settles(t, c, i, h)
    ensures Notified(Step(t, c).0, i, h)
  {
    if c.i < |t| {
      if c.DoConnect? {
        ConnectNotified(t, c, i, h);
      } else if c.ResumeConnect? {
        ResumeNotified(t, c, i, h);
      } else if c.ResumeDisconnect? {
        DisconnectNotified(t, c, i, h);
      } else if c.DoPoll? {
        PollNotified(t, c, i, h);
      } else {
        PlugNotified(t, c, i, h);
      }
    }
  }

  // ----- runs -----

  ghost predicate NeverSettled(t: Table, cs: seq<Call>, i: nat, h: nat)
    decreases |cs|
  {
    cs == [] || (!Settles(t, cs[0], i, h) && NeverSettled(Step(t, cs[0]).0, cs[1..], i, h))
  }

  /** Sticky notification: until its own Reconnect (or the end of the handle) the event stays, and no Begin,
      End, Cancel, Status, Transmit, Control, GetAttrib or SetAttrib with that handle succeeds. */
  lemma {:induction false} StickyOverRuns(t: Table, cs: seq<Call>, i: nat, h: nat)
    requires TableInv(t) && Runnable(t, cs) && Notified(t, i, h) && NeverSettled(t, cs, i, h)
    ensures Notified(Run(t, cs), i, h)
    ensures |Results(t, cs)| == |cs|
    ensures forall k :: 0 <= k < |cs| && ByHandle(cs[k]) && cs[k].h == h && Refused(cs[k]) ==> Results(t, cs)[k] != Success
    decreases |cs|
  {
    if cs != [] {
      var t1 := Step(t, cs[0]).0;
      StepKeeps(t, cs[0]);
      StepNotified(t, cs[0], i, h);
      StickyOverRuns(t1, cs[1..], i, h);
      forall k | 0 <= k < |cs| && ByHandle(cs[k]) && cs[k].h == h && Refused(cs[k])
        ensures Results(t, cs)[k] != Success
      {
        if k > 0 {
          assert cs[k] == cs[1..][k - 1];
          assert Results(t, cs)[k] == Results(t1, cs[1..])[k - 1];
        }
      }
    }
  }

  lemma {:induction false} DisconnectNotifies(r: Reader, g: nat, h: nat, disposition: Disposition, power: Power)
    requires h != 0 && g != 0 && h != g && Holds(r.sh.handles, h) && (disposition == Reset || disposition == Unpower)
    ensures Disconnect(r, g, true, disposition, power).1 == Success ==> Pending(Disconnect(r, g, true, disposition, power).0.sh.handles, h)
  {
    MarkedPending(r.sh.handles, EVENT_RESET, h);
    RemovedPending(Marked(r.sh.handles, EVENT_RESET), g, h);
  }

  lemma {:induction false} EndNotifies(r: Reader, g: nat, h: nat, disposition: Disposition, power: Power, eject: Code)
    requires h != 0 && Holds(r.sh.handles, h) && (disposition == Reset || disposition == Unpower)
    ensures CheckEvent(r.sh.handles, g) == Success ==> Pending(End(r, g, true, disposition, power, eject).0.sh.handles, h)
  {
    MarkedPending(r.sh.handles, EVENT_RESET, h);
  }

  /** A reset through Disconnect or End leaves every other handle of the reader notified, whatever the driver answers. */
  lemma {:induction false} ResetNotifiesOthers(r: Reader, g: nat, h: nat, disposition: Disposition, power: Power, eject: Code)
    requires h != 0 && g != 0 && h != g && Holds(r.sh.handles, h)
    requires disposition == Reset || disposition == Unpower
    ensures Disconnect(r, g, true, disposition, power).1 == Success ==> Pending(Disconnect(r, g, true, disposition, power).0.sh.handles, h)
    ensures CheckEvent(r.sh.handles, g) == Success ==> Pending(End(r, g, true, disposition, power, eject).0.sh.handles, h)
  {
    DisconnectNotifies(r, g, h, disposition, power);
    EndNotifies(r, g, h, disposition, power, eject);
  }

  lemma {:induction false} RefreshNotifiesExactly(r: Reader, g: nat, h: nat, share: Share, preferred: Mask, init: Disposition,
                                                  pts: Pts, power: Power, stillThere: bool)
    requires h != 0 && h != g && Holds(r.sh.handles, h) && CheckEvent(r.sh.handles, h) == Success
    requires init == Reset || init == Unpower
    ensures Pending(Refresh(r, g, share, preferred, init, pts, power, stillThere).0.sh.handles, h) <==>
            CheckEvent(r.sh.handles, g) == Success
  {
    MarkedPending(r.sh.handles, EVENT_RESET, h);
    var (r1, rv) := ReconnectReset(r, g, power, stillThere);
    assert Pending(r1.sh.handles, h) <==> CheckEvent(r.sh.handles, g) == Success;
    RenegotiateOther(r1, g, share, preferred, pts, h);
  }

  /** A reset through Reconnect notifies the other handles exactly when the caller itself was not notified:
      with an event pending the card is reset all the same, and nobody else is told. */
  lemma {:induction false} ReconnectNotifiesExactly(r: Reader, g: nat, h: nat, share: Share, preferred: Mask, init: Disposition, pts: Pts,
                                 power: Power, stillThere: bool)
    requires h != 0 && g != 0 && h != g && Holds(r.sh.handles, h) && CheckEvent(r.sh.handles, h) == Success
    requires Working(r) && MayUse(r.sh, g) && (init == Reset || init == Unpower) && share != BadShare
    requires share == DirectAccess || AnyUsable(preferred)
    ensures Pending(Reconnect(r, g, true, share, preferred, init, pts, power, stillThere).0.sh.handles, h) <==>
            CheckEvent(r.sh.handles, g) == Success
  {
    RefreshNotifiesExactly(r, g, h, share, preferred, init, pts, power, stillThere);
  }

  lemma {:induction false} RenegotiateOther(r: Reader, g: nat, share: Share, preferred: Mask, pts: Pts, h: nat)
    requires g != h
    ensures Pending(Renegotiate(r, g, share, preferred, pts).0.sh.handles, h) <==> Pending(r.sh.handles, h)
  {
    ClearedOther(r.sh.handles, g, h);
  }

  lemma {:induction false} ClearedOther(hs: seq<Slot>, g: nat, h: nat)
    requires g != h
    ensures Pending(Cleared(hs, g), h) <==> Pending(hs, h)
  {
    HoldsSame(hs, Cleared(hs, g), h);
  }

  // ----- a notified owner of the lock -----

  /** Nothing settles the event of h, and no removal frees the lock, at any point of the run. */
  ghost predicate Undisturbed(t: Table, cs: seq<Call>, i: nat, h: nat)
    requires i < |t|
    decreases |cs|
  {
    cs == [] || (!Settles(t, cs[0], i, h) && EffectOf(t, cs[0], i, h) != Frees
                 && i < |Step(t, cs[0]).0| && Undisturbed(Step(t, cs[0]).0, cs[1..], i, h))
  }

  lemma {:induction false} FrozenStep(t: Table, c: Call, i: nat, h: nat)
    requires TableInv(t) && Enabled(t, c) && HoldsLock(t, i, h) && Notified(t, i, h)
    requires !Settles(t, c, i, h) && EffectOf(t, c, i, h) != Frees
    ensures EffectOf(t, c, i, h) == Keeps
    ensures var t1 := Step(t, c).0;
            HoldsLock(t1, i, h) && Notified(t1, i, h) && t1[i].sh.lockCount == t[i].sh.lockCount
  {
    StepNotified(t, c, i, h);
    StepAhead(t, c, i, h);
    HandleRoutes(t, i, h);
  }

  /** The lock of a notified owner is frozen: over every run, until the owner reconnects or disconnects or a card or reader
      is removed, owner and count stay as they are, and none of the owner's own calls releases it. */
  lemma {:induction false} FrozenLock(t: Table, cs: seq<Call>, i: nat, h: nat)
    requires TableInv(t) && Runnable(t, cs) && HoldsLock(t, i, h) && Notified(t, i, h) && Undisturbed(t, cs, i, h)
    ensures HoldsLock(Run(t, cs), i, h) && Notified(Run(t, cs), i, h)
    ensures Run(t, cs)[i].sh.lockCount == t[i].sh.lockCount
    decreases |cs|
  {
    if cs != [] {
      StepKeeps(t, cs[0]);
      FrozenStep(t, cs[0], i, h);
      FrozenLock(Step(t, cs[0]).0, cs[1..], i, h);
    }
  }

  /** Any other handle of the reader can bring this about: its End with a reset is not tied to the lock. */
  lemma {:induction false} OtherFreezes(t: Table, i: nat, g: nat, h: nat, disposition: Disposition, power: Power, eject: Code)
    requires TableInv(t) && HoldsLock(t, i, h) && g != 0 && g != h && CheckEvent(t[i].sh.handles, g) == Success
    requires disposition == Reset || disposition == Unpower
    ensures var t1 := Step(t, DoEnd(g, disposition, power, eject)).0;
            HoldsLock(t1, i, h) && Notified(t1, i, h) && t1[i].sh.lockCount == t[i].sh.lockCount
  {
    var c := DoEnd(g, disposition, power, eject);
    HandleRoutes(t, i, g);
    EndNotifies(t[i], g, h, disposition, power, eject);
    OthersBlocked(t[i], true, c, h);
    var r := End(t[i], g, true, disposition, power, eject).0;
    assert Step(t, c).0 == t[i := r];
    ApplyKeepsLive(t[i], true, c);
  }
}
