/**
 Each call of PCSC/src/winscard.c and each turn of the polling thread keeps the
 invariant of the reader it is applied to.
 */
module CallsKeepInvariant {
  import opened StatusWord
  import opened Atr
  import opened Protocols
  import opened Readers
  import opened SharingInvariant

  /** The call gets past the card checks and the protocol negotiation. */
  predicate Admitted(r: Reader, share: Share, preferred: Mask, pts: Pts) {
    && r.live
    && (share == DirectAccess || (r.card.status.present && !r.card.status.swallowed))
    && Negotiate(r.card, share, preferred, pts).1 == Success
  }

  /** A fresh handle of the reader in slot i. */
  ghost predicate Fresh(r: Reader, i: nat, h: nat) {
    h / IDENTITY_UNIT == i + 1 && !Holds(r.sh.handles, h)
  }

  /** An exclusive connection always finds a free slot, so its lock is never left without a handle. */
  lemma {:induction false} ExclusiveFindsSlot(r: Reader, i: nat)
    requires SharingOk(r.sh, i) && r.sh.contexts == 0
    ensures Holds(r.sh.handles, 0)
  {
    CountZero(r.sh.handles);
    HoldsAt(r.sh.handles, 0, 0);
  }

  /** SCardConnect past the wait keeps the invariant exactly unless it goes on, not exclusively, on a reader
      that has become exclusive meanwhile: that check is only made before the wait. */
  lemma {:induction false} ConnectResumedKeepsExactly(r: Reader, i: nat, share: Share, preferred: Mask, pts: Pts, h: nat)
    requires ReaderOk(r, i) && r.live && r.sh.lockId == 0 && Fresh(r, i, h)
    ensures ReaderOk(ConnectResumed(r, share, preferred, pts, h).0, i) <==>
            !(r.sh.contexts == EXCLUSIVE_CONTEXT && share != Exclusive && Admitted(r, share, preferred, pts))
    ensures ConnectResumed(r, share, preferred, pts, h).0.identity == r.identity
  {
    NegotiateKeeps(r.card, share, preferred, pts);
    if Admitted(r, share, preferred, pts) {
      AdmitKeepsExactly(r.(card := r.card.(protocol := Negotiate(r.card, share, preferred, pts).0)), i, share, h);
    }
  }

  lemma {:induction false} AdmitKeepsExactly(r: Reader, i: nat, share: Share, h: nat)
    requires ReaderOk(r, i) && r.live && r.sh.lockId == 0 && Fresh(r, i, h)
    ensures ReaderOk(Admit(r, share, h).0, i) <==> !(r.sh.contexts == EXCLUSIVE_CONTEXT && share != Exclusive)
    ensures Admit(r, share, h).0.identity == r.identity
  {
    if share == Exclusive && r.sh.contexts == 0 {
      ExclusiveFindsSlot(r, i);
    }
    if Holds(r.sh.handles, 0) {
      AddKeeps(r.sh.handles, i, h);
    }
  }

  lemma {:induction false} AdmitDelivers(r: Reader, i: nat, share: Share, h: nat)
    requires SharingOk(r.sh, i) && r.sh.lockId == 0 && r.sh.contexts != EXCLUSIVE_CONTEXT && Fresh(r, i, h)
    ensures var (r', rv) := Admit(r, share, h);
            && (rv == Success ==> Holds(r'.sh.handles, h) && r'.card == r.card.(published := r'.sh.contexts))
            && (rv == Success && share == Exclusive ==> r'.sh.lockId == h && r'.sh.lockCount == 1)
            && (rv != Success ==> r'.sh == r.sh)
  {
    if r.sh.contexts == 0 {
      ExclusiveFindsSlot(r, i);
    }
    if Holds(r.sh.handles, 0) {
      AddKeeps(r.sh.handles, i, h);
    }
  }

  lemma {:induction false} ConnectKeeps(r: Reader, i: nat, share: Share, preferred: Mask, pts: Pts, h: nat)
    requires ReaderOk(r, i) && Fresh(r, i, h)
    ensures ReaderOk(Connect(r, share, preferred, pts, h).0, i)
  {
    if Working(r) && r.sh.contexts != EXCLUSIVE_CONTEXT && r.sh.lockId == 0 {
      ConnectResumedKeepsExactly(r, i, share, preferred, pts, h);
    }
  }

  /** What a caller of SCardConnect gets: on success a live handle, a reported protocol T=0 or T=1 unless raw or
      direct access was asked for, and the lock for exclusive access; on failure nothing of the sharing state moves. */
  lemma {:induction false} ConnectDelivers(r: Reader, i: nat, share: Share, preferred: Mask, pts: Pts, h: nat)
    requires ReaderOk(r, i) && Fresh(r, i, h)
    ensures var (r', rv) := Connect(r, share, preferred, pts, h);
            && (rv == Success ==> Holds(r'.sh.handles, h) && r'.card.published == r'.sh.contexts)
            && (rv == Success && share == Exclusive ==> r'.sh.lockId == h && r'.sh.lockCount == 1)
            && (rv == Success && share != DirectAccess && RAW !in preferred ==> r'.card.protocol == {T0} || r'.card.protocol == {T1})
            && (rv != Success ==> r'.sh == r.sh)
  {
    if Working(r) && r.sh.contexts != EXCLUSIVE_CONTEXT && r.sh.lockId == 0 {
      NegotiateKeeps(r.card, share, preferred, pts);
      AdmitDelivers(r.(card := r.card.(protocol := Negotiate(r.card, share, preferred, pts).0)), i, share, h);
    }
  }

  lemma {:induction false} LockKeeps(s: Sharing, i: nat, h: nat)
    requires SharingOk(s, i) && h != 0 && Holds(s.handles, h)
    ensures SharingOk(Lock(s, h), i) && SharingOk(Unlock(s, h), i) && SharingOk(UnlockAll(s, h), i)
  {
  }

  lemma {:induction false} PowerCycleKeeps(r: Reader, i: nat, power: Power)
    requires ReaderOk(r, i) && r.live
    ensures ReaderOk(PowerCycle(r, power), i)
    ensures forall h :: IndexOf(PowerCycle(r, power).sh.handles, h) == IndexOf(r.sh.handles, h)
  {
    MarkKeeps(r.sh, i, EVENT_RESET);
  }

  lemma {:induction false} ReconnectResetKeeps(r: Reader, i: nat, h: nat, power: Power, stillThere: bool)
    requires ReaderOk(r, i) && r.live
    ensures ReaderOk(ReconnectReset(r, h, power, stillThere).0, i)
    ensures forall g :: IndexOf(ReconnectReset(r, h, power, stillThere).0.sh.handles, g) == IndexOf(r.sh.handles, g)
  {
    MarkKeeps(r.sh, i, EVENT_RESET);
  }

  lemma {:induction false} ReshareKeeps(r: Reader, i: nat, h: nat, share: Share)
    requires ReaderOk(r, i) && r.live && h != 0 && Holds(r.sh.handles, h) && MayUse(r.sh, h)
    ensures ReaderOk(Reshare(r, h, share).0, i)
  {
    var n := r.sh.contexts;
    if share == Exclusive {
      if n == 1 {
        var s := r.sh.(lockCount := r.sh.lockCount + 1, lockId := h, contexts := EXCLUSIVE_CONTEXT);
        ClearKeeps(s, i, h);
      } else if n == EXCLUSIVE_CONTEXT {
        ClearKeeps(r.sh, i, h);
      }
    } else if n == EXCLUSIVE_CONTEXT {
      LockKeeps(r.sh, i, h);
      ClearKeeps(Unlock(r.sh, h).(contexts := 1), i, h);
    } else {
      ClearKeeps(r.sh, i, h);
    }
  }

  lemma {:induction false} RenegotiateKeeps(r: Reader, i: nat, h: nat, share: Share, preferred: Mask, pts: Pts)
    requires ReaderOk(r, i) && r.live && h != 0 && Holds(r.sh.handles, h) && MayUse(r.sh, h)
    ensures var (r', rv) := Renegotiate(r, h, share, preferred, pts);
            && ReaderOk(r', i)
            && (rv == Success && share != DirectAccess && RAW !in preferred ==> r'.card.protocol == {T0} || r'.card.protocol == {T1})
            && (rv == Success ==> r'.card.published == r'.sh.contexts)
  {
    NegotiateKeeps(r.card, share, preferred, pts);
    ReshareKeeps(r.(card := r.card.(protocol := Negotiate(r.card, share, preferred, pts).0)), i, h, share);
  }

  lemma {:induction false} RefreshKeeps(r: Reader, i: nat, h: nat, share: Share, preferred: Mask, init: Disposition, pts: Pts,
                     power: Power, stillThere: bool)
    requires ReaderOk(r, i) && r.live && h != 0 && Holds(r.sh.handles, h) && MayUse(r.sh, h)
    ensures var (r', rv) := Refresh(r, h, share, preferred, init, pts, power, stillThere);
            && ReaderOk(r', i)
            && (rv == Success && share != DirectAccess && RAW !in preferred ==> r'.card.protocol == {T0} || r'.card.protocol == {T1})
            && (rv == Success ==> r'.card.published == r'.sh.contexts)
  {
    if init == Leave {
      RenegotiateKeeps(r, i, h, share, preferred, pts);
    } else {
      ReconnectResetKeeps(r, i, h, power, stillThere);
      RenegotiateKeeps(ReconnectReset(r, h, power, stillThere).0, i, h, share, preferred, pts);
    }
  }

  lemma {:induction false} ReconnectKeeps(r: Reader, i: nat, h: nat, found: bool, share: Share, preferred: Mask, init: Disposition, pts: Pts,
                       power: Power, stillThere: bool)
    requires ReaderOk(r, i) && h != 0 && (found ==> Holds(r.sh.handles, h))
    ensures var (r', rv) := Reconnect(r, h, found, share, preferred, init, pts, power, stillThere);
            && ReaderOk(r', i)
            && (rv == Success && share != DirectAccess && RAW !in preferred ==> r'.card.protocol == {T0} || r'.card.protocol == {T1})
            && (rv == Success ==> r'.card.published == r'.sh.contexts)
  {
    if Working(r) && found && MayUse(r.sh, h) {
      RefreshKeeps(r, i, h, share, preferred, init, pts, power, stillThere);
    }
  }

  lemma {:induction false} DisconnectKeeps(r: Reader, i: nat, h: nat, found: bool, disposition: Disposition, power: Power)
    requires ReaderOk(r, i) && h != 0 && (found ==> Holds(r.sh.handles, h))
    ensures var (r', rv) := Disconnect(r, h, found, disposition, power);
            && ReaderOk(r', i)
            && (rv == Success ==> !Holds(r'.sh.handles, h) && r'.sh.lockId == 0 && r'.sh.lockCount == 0
                                  && r'.card.published == r'.sh.contexts)
            && (rv != Success ==> r' == r)
  {
    if found && r.live && MayUse(r.sh, h) && disposition != BadDisposition {
      LockKeeps(r.sh, i, h);
      var r1 := r.(sh := UnlockAll(r.sh, h));
      PowerCycleKeeps(r1, i, power);
      var r2 := if disposition == Reset || disposition == Unpower then PowerCycle(r1, power) else r1;
      RemoveKeeps(r2.sh.handles, i, h);
      CountZero(r2.sh.handles);
    }
  }

  /** SCardDisconnect past the wait keeps the invariant exactly if the handle is still there or nobody is connected: the
      handle was looked up before the wait only. */
  lemma {:induction false} DisconnectResumedKeepsExactly(r: Reader, i: nat, h: nat, disposition: Disposition, power: Power)
    requires ReaderOk(r, i) && h != 0 && r.sh.lockId == 0
    ensures ReaderOk(DisconnectResumed(r, h, disposition, power).0, i) <==> Holds(r.sh.handles, h) || r.sh.contexts == 0
  {
    if Holds(r.sh.handles, h) {
      DisconnectKeeps(r, i, h, true, if disposition == BadDisposition then Leave else disposition, power);
    } else if r.live {
      PowerCycleKeeps(r, i, power);
      var r2 := if disposition == Reset || disposition == Unpower then PowerCycle(r, power) else r;
      assert RemoveHandle(r2.sh.handles, h) == r2.sh.handles;
    }
  }

  /** What the power state of the card says after a reset: through Disconnect and End the result of the driver, through
      Reconnect always that the card is powered, because that result is overwritten before it is looked at. */
  lemma {:induction false} PoweredExactly(r: Reader, h: nat, disposition: Disposition, power: Power, eject: Code,
                       share: Share, preferred: Mask, pts: Pts, stillThere: bool)
    requires Working(r) && MayUse(r.sh, h) && CheckEvent(r.sh.handles, h) == Success
    requires disposition == Reset || disposition == Unpower
    requires share != BadShare && (share == DirectAccess || AnyUsable(preferred))
    ensures Disconnect(r, h, true, disposition, power).0.card.status.powered <==> power.rv == Success
    ensures End(r, h, true, disposition, power, eject).0.card.status.powered <==> power.rv == Success
    ensures Reconnect(r, h, true, share, preferred, disposition, pts, power, stillThere).0.card.status.powered
  {
    PoweredByReconnect(r, h, share, preferred, disposition, pts, power, stillThere);
  }

  lemma {:induction false} PoweredByReconnect(r: Reader, h: nat, share: Share, preferred: Mask, init: Disposition, pts: Pts,
                           power: Power, stillThere: bool)
    requires Working(r) && MayUse(r.sh, h) && CheckEvent(r.sh.handles, h) == Success && (init == Reset || init == Unpower)
    requires share != BadShare && (share == DirectAccess || AnyUsable(preferred))
    ensures Reconnect(r, h, true, share, preferred, init, pts, power, stillThere).0.card.status.powered
  {
    var r1 := ReconnectReset(r, h, power, stillThere).0;
    assert r1.card.status.powered;
    assert Renegotiate(r1, h, share, preferred, pts).0.card.status == r1.card.status;
  }

  /** On every reader in a reachable state the shift loop of SCardTransmit ends exactly when a protocol is negotiated, and
      then at the index of its bit. */
  lemma {:induction false} AnyOldEnds(r: Reader, i: nat, n: nat)
    requires ReaderOk(r, i) && r.live
    ensures (exists k: nat :: Addresses({ANY_OLD}, r.card.protocol, k)) <==> r.card.protocol != {}
    ensures Addresses({ANY_OLD}, r.card.protocol, n) ==>
              r.card.protocol == if n == 0 then {T0} else if n == 1 then {T1} else {RAW}
  {
    assert ANY_OLD in {ANY_OLD};
    if r.card.protocol == {} {
      forall k: nat ensures !Addresses({ANY_OLD}, {}, k) {
        ZeroStays(k);
      }
    } else {
      AnyOldNumber(r.card.protocol, n);
      var k := if r.card.protocol == {T0} then 0 else if r.card.protocol == {T1} then 1 else 2;
      AnyOldNumber(r.card.protocol, k);
    }
  }

  lemma {:induction false} BeginKeeps(r: Reader, i: nat, h: nat, found: bool)
    requires ReaderOk(r, i) && h != 0 && (found ==> Holds(r.sh.handles, h))
    ensures ReaderOk(Begin(r, h, found).0, i)
  {
    if found {
      LockKeeps(r.sh, i, h);
    }
  }

  lemma {:induction false} UnlockedReaderKeeps(r: Reader, i: nat, h: nat)
    requires ReaderOk(r, i) && h != 0 && Holds(r.sh.handles, h)
    ensures ReaderOk(r.(sh := Unlock(r.sh, h)), i)
  {
    LockKeeps(r.sh, i, h);
  }

  lemma {:induction false} EndKeeps(r: Reader, i: nat, h: nat, found: bool, disposition: Disposition, power: Power, eject: Code)
    requires ReaderOk(r, i) && h != 0 && (found ==> r.live && Holds(r.sh.handles, h))
    ensures ReaderOk(End(r, h, found, disposition, power, eject).0, i)
  {
    if found {
      PowerCycleKeeps(r, i, power);
      UnlockedReaderKeeps(if disposition == Reset || disposition == Unpower then PowerCycle(r, power) else r, i, h);
    }
  }

  lemma {:induction false} CancelKeeps(r: Reader, i: nat, h: nat, found: bool)
    requires ReaderOk(r, i) && h != 0 && (found ==> Holds(r.sh.handles, h))
    ensures ReaderOk(Cancel(r, h, found).0, i)
  {
    if found {
      LockKeeps(r.sh, i, h);
    }
  }

  lemma {:induction false} PollKeeps(r: Reader, i: nat, answer: IccStatus, power: Power)
    requires ReaderOk(r, i) && r.live
    ensures ReaderOk(Poll(r, answer, power), i)
  {
    MarkKeeps(r.sh, i, EVENT_REMOVED);
  }

  lemma {:induction false} AttachKeeps(r: Reader, i: nat, word: Word, power: Power)
    requires ReaderOk(r, i)
    ensures ReaderOk(Attached(r, i, word, power), i)
  {
    CountZero(Freed(r.sh.handles));
  }

  lemma {:induction false} DetachKeeps(r: Reader, i: nat)
    requires ReaderOk(r, i)
    ensures ReaderOk(Detached(r), i)
  {
    CountZero(Freed(r.sh.handles));
  }

  /** The holder of the lock turns exclusive and ends both of its transactions: the lock is free, the reader exclusive. */
  lemma {:induction false} ExclusiveWithoutLock(r: Reader, i: nat, h: nat, power: Power, eject: Code)
    requires ReaderOk(r, i) && r.live && r.sh.contexts == 1 && r.sh.lockId == h && r.sh.lockCount == 1
    requires h != 0 && CheckEvent(r.sh.handles, h) == Success && !r.card.status.unknown && r.card.protocol == {T1}
    ensures var r1 := Reconnect(r, h, true, Exclusive, {T1}, Leave, Accepted, power, true).0;
            var r2 := End(r1, h, true, Leave, power, eject).0;
            End(r2, h, true, Leave, power, eject).0 ==
            r.(sh := Sharing(EXCLUSIVE_CONTEXT, 0, 0, Cleared(r.sh.handles, h)), card := r.card.(published := EXCLUSIVE_CONTEXT))
  {
    var gs := Cleared(r.sh.handles, h);
    ClearKeeps(r.sh, i, h);
    assert {T1} * {T1} == {T1};
    assert Negotiate(r.card, Exclusive, {T1}, Accepted) == ({T1}, Success);
    var r1 := Reconnect(r, h, true, Exclusive, {T1}, Leave, Accepted, power, true).0;
    assert r1 == r.(sh := Sharing(EXCLUSIVE_CONTEXT, h, 2, gs), card := r.card.(published := EXCLUSIVE_CONTEXT));
    assert gs[IndexOf(gs, h)].hCard == h;
    assert CheckEvent(gs, h) == Success;
  }

  /** A run that breaks the count: g waits in SCardConnect while h is in a transaction; h turns exclusive and ends
      its transactions; g then connects, and two handles share a reader whose context count says zero. */
  lemma {:induction false} WaitingConnectBreaksCount(r: Reader, i: nat, h: nat, g: nat, power: Power, eject: Code)
    requires ReaderOk(r, i) && r.live && r.sh.contexts == 1 && r.sh.lockId == h && r.sh.lockCount == 1
    requires h != 0 && CheckEvent(r.sh.handles, h) == Success && Fresh(r, i, g) && Holds(r.sh.handles, 0)
    requires r.card.status.present && !r.card.status.swallowed && r.card.protocol == {T1}
    ensures Connect(r, Shared, {T1}, Accepted, g).1 == Waiting
    ensures var r1 := Reconnect(r, h, true, Exclusive, {T1}, Leave, Accepted, power, true).0;
            var r2 := End(r1, h, true, Leave, power, eject).0;
            var r3 := End(r2, h, true, Leave, power, eject).0;
            var (r4, rv) := ConnectResumed(r3, Shared, {T1}, Accepted, g);
            rv == Success && Count(r4.sh.handles) == 2 && r4.sh.contexts == 0
  {
    ExclusiveWithoutLock(r, i, h, power, eject);
    ClearKeeps(r.sh, i, h);
    ResumedBesideExclusive(r.(sh := Sharing(EXCLUSIVE_CONTEXT, 0, 0, Cleared(r.sh.handles, h)),
                              card := r.card.(published := EXCLUSIVE_CONTEXT)), i, g);
  }

  lemma {:induction false} ResumedBesideExclusive(r: Reader, i: nat, g: nat)
    requires SharingOk(r.sh, i) && r.live && r.sh.contexts == EXCLUSIVE_CONTEXT && Fresh(r, i, g) && Holds(r.sh.handles, 0)
    requires r.card.status.present && !r.card.status.swallowed && r.card.protocol == {T1}
    ensures var (r', rv) := ConnectResumed(r, Shared, {T1}, Accepted, g);
            rv == Success && Count(r'.sh.handles) == 2 && r'.sh.contexts == 0
  {
    AddKeeps(r.sh.handles, i, g);
    assert {T1} * {T1} == {T1};
  }
}
