/**
 When SCardConnect, SCardReconnect and SCardDisconnect of PCSC/src/winscard.c succeed,
 and what they leave in the fields of the reader.
 */
module SessionAnswers {
  import opened StatusWord
  import opened Atr
  import opened Protocols
  import opened Readers
  import opened SharingInvariant
  import opened CallsKeepInvariant
  import opened Sessions
  import opened CallAnswers

  // ----- protocol -----

  /** The protocols a caller asks for; ANY_OLD stands for both. */
  function Wanted(preferred: Mask): Mask {
    if ANY_OLD in preferred then {T0, T1} else preferred
  }

  /** Caller and card agree on a protocol: raw and direct access need none; a protocol negotiated before has to be among
      those asked for; on a first negotiation the ATR has to offer one of them and the driver must not fail. */
  predicate Agreed(c: Card, share: Share, preferred: Mask, pts: Pts) {
    || RAW in preferred
    || share == DirectAccess
    || (c.protocol != {} && c.protocol <= preferred)
    || (c.protocol == {} && InCommon(Wanted(preferred), AvailableProtocols(c.atr, c.atrLength)) && !pts.Refused?)
  }

  /** The protocol they agree on. */
  predicate AgreedOn(c: Card, share: Share, preferred: Mask, pts: Pts, p: Mask) {
    if RAW in preferred then p == {RAW}
    else if share == DirectAccess then p == {}
    else if c.protocol != {} then p == c.protocol
    else if pts.Accepted? then
      p == if T1 in Wanted(preferred) && T1 in AvailableProtocols(c.atr, c.atrLength) then {T1} else {T0}
    else p == DefaultProtocol(c.atr, c.atrLength)
  }

  lemma {:induction false} NegotiateExactly(c: Card, share: Share, preferred: Mask, pts: Pts)
    requires OneProtocol(c.protocol)
    ensures var (p, rv) := Negotiate(c, share, preferred, pts);
            && (rv == Success <==> Agreed(c, share, preferred, pts))
            && (rv == Success ==> AgreedOn(c, share, preferred, pts, p))
            && (rv != Success ==> p == c.protocol && (rv == ProtoMismatch || rv == UnresponsiveCard))
            && (rv == UnresponsiveCard <==> RAW !in preferred && share != DirectAccess && c.protocol == {} && pts.Refused?
                                            && InCommon(Wanted(preferred), AvailableProtocols(c.atr, c.atrLength)))
  {
    SetProtocolExactly(Wanted(preferred), AvailableProtocols(c.atr, c.atrLength), DefaultProtocol(c.atr, c.atrLength), pts);
    OneBit(preferred, c.protocol);
  }

  /** A protocol word with at most one bit. */
  predicate OneProtocol(p: Mask) {
    p == {} || p == {T0} || p == {T1} || p == {RAW}
  }

  lemma {:induction false} OneBit(preferred: Mask, p: Mask)
    requires OneProtocol(p)
    ensures p != {} ==> (preferred * p == {} <==> !(p <= preferred))
  {
    if p != {} {
      var x :| x in p;
      assert p == {x};
      assert x in preferred <==> x in preferred * p;
    }
  }

  // ----- SCardConnect -----

  /** The arguments are legal. */
  predicate Sensible(share: Share, preferred: Mask) {
    share != BadShare && (share == DirectAccess || T0 in preferred || T1 in preferred || RAW in preferred || ANY_OLD in preferred)
  }

  ghost predicate HasRoom(hs: seq<Slot>) {
    exists k :: 0 <= k < |hs| && hs[k].hCard == 0
  }

  /** The first free slot took h, and no other slot changed. */
  ghost predicate TookFirstFree(hs: seq<Slot>, gs: seq<Slot>, h: nat) {
    exists k :: 0 <= k < |hs| && hs[k].hCard == 0 && (forall j :: 0 <= j < k ==> hs[j].hCard != 0) && gs == hs[k := Slot(h, EVENT_NONE)]
  }

  /** The card keeps everything but its protocol and the published context count. */
  predicate OnlyProtocol(c: Card, c': Card) {
    c' == c.(protocol := c'.protocol, published := c'.published)
  }

  /** What a successful connect leaves: the handle in the first free slot, the context count taken up (and published), the
      lock for exclusive access, and the agreed protocol. */
  ghost predicate Connected(r: Reader, r': Reader, share: Share, preferred: Mask, pts: Pts, h: nat) {
    && r'.sh.contexts == (if share == Exclusive then EXCLUSIVE_CONTEXT else r.sh.contexts + 1)
    && r'.sh.lockId == (if share == Exclusive then h else r.sh.lockId)
    && r'.sh.lockCount == (if share == Exclusive then r.sh.lockCount + 1 else r.sh.lockCount)
    && TookFirstFree(r.sh.handles, r'.sh.handles, h)
    && OnlyProtocol(r.card, r'.card) && AgreedOn(r.card, share, preferred, pts, r'.card.protocol)
    && r'.card.published == r'.sh.contexts
    && r' == r.(sh := r'.sh, card := r'.card)
  }

  /** Connect succeeds exactly for legal arguments on a working reader that is not exclusive and not locked, with a powered
      card (or direct access), an agreed protocol, no other context for exclusive access, and room in the table. */
  lemma {:induction false} ConnectExactly(r: Reader, i: nat, share: Share, preferred: Mask, pts: Pts, h: nat)
    requires SharingOk(r.sh, i) && OneProtocol(r.card.protocol) && h != 0
    ensures var (r', rv) := Connect(r, share, preferred, pts, h);
            var open := Sensible(share, preferred) && r.live && !r.card.status.unknown && r.sh.contexts != EXCLUSIVE_CONTEXT;
            && (rv == Success <==>
                && open && r.sh.lockId == 0
                && (share == DirectAccess || (r.card.status.present && !r.card.status.swallowed))
                && Agreed(r.card, share, preferred, pts)
                && (share == Exclusive ==> r.sh.contexts == 0) && HasRoom(r.sh.handles))
            && (rv == Waiting <==> open && r.sh.lockId != 0)
            && (rv == Success ==> Connected(r, r', share, preferred, pts, h))
            && (rv != Success ==> r' == r.(card := r'.card) && OnlyProtocol(r.card, r'.card) && r'.card.published == r.card.published)
  {
    if Sensible(share, preferred) && r.live && !r.card.status.unknown && r.sh.contexts != EXCLUSIVE_CONTEXT && r.sh.lockId == 0 {
      ResumedExactly(r, i, share, preferred, pts, h);
    }
  }

  /** The same in the reader table: a connect that succeeds hands out h on reader i, and no connect touches another reader. */
  lemma {:induction false} ConnectOnTable(t: Table, i: nat, share: Share, preferred: Mask, pts: Pts, h: nat)
    requires TableInv(t) && i < |t| && h != 0
    ensures var (t', rv) := Step(t, DoConnect(i, share, preferred, pts, h));
            && |t'| == |t| && (forall j :: 0 <= j < |t| && j != i ==> t'[j] == t[j])
            && (rv == Success <==>
                && Sensible(share, preferred) && t[i].live && !t[i].card.status.unknown && t[i].sh.contexts != EXCLUSIVE_CONTEXT
                && t[i].sh.lockId == 0
                && (share == DirectAccess || (t[i].card.status.present && !t[i].card.status.swallowed))
                && Agreed(t[i].card, share, preferred, pts)
                && (share == Exclusive ==> t[i].sh.contexts == 0) && HasRoom(t[i].sh.handles))
            && (rv == Success ==> Connected(t[i], t'[i], share, preferred, pts, h))
  {
    assert ReaderOk(t[i], i);
    if t[i].live {
      ConnectExactly(t[i], i, share, preferred, pts, h);
    }
  }

  lemma {:induction false} ResumedExactly(r: Reader, i: nat, share: Share, preferred: Mask, pts: Pts, h: nat)
    requires SharingOk(r.sh, i) && OneProtocol(r.card.protocol) && h != 0 && r.sh.contexts != EXCLUSIVE_CONTEXT && r.sh.lockId == 0
    ensures var (r', rv) := ConnectResumed(r, share, preferred, pts, h);
            && (rv == Success <==>
                && r.live && (share == DirectAccess || (r.card.status.present && !r.card.status.swallowed))
                && Agreed(r.card, share, preferred, pts)
                && (share == Exclusive ==> r.sh.contexts == 0) && HasRoom(r.sh.handles))
            && rv != Waiting
            && (rv == Success ==> Connected(r, r', share, preferred, pts, h))
            && (rv != Success ==> r' == r.(card := r'.card) && OnlyProtocol(r.card, r'.card) && r'.card.published == r.card.published)
  {
    NegotiateExactly(r.card, share, preferred, pts);
    var r1 := r.(card := r.card.(protocol := Negotiate(r.card, share, preferred, pts).0));
    AdmitExactly(r1, i, share, h);
  }

  lemma {:induction false} AdmitExactly(r: Reader, i: nat, share: Share, h: nat)
    requires SharingOk(r.sh, i) && h != 0 && r.sh.contexts != EXCLUSIVE_CONTEXT && r.sh.lockId == 0
    ensures var (r', rv) := Admit(r, share, h);
            && (rv == Success <==> (share == Exclusive ==> r.sh.contexts == 0) && HasRoom(r.sh.handles))
            && rv != Waiting
            && (rv != Success ==> r' == r)
            && (rv == Success ==>
                && r'.sh.contexts == (if share == Exclusive then EXCLUSIVE_CONTEXT else r.sh.contexts + 1)
                && r'.sh.lockId == (if share == Exclusive then h else r.sh.lockId)
                && r'.sh.lockCount == (if share == Exclusive then r.sh.lockCount + 1 else r.sh.lockCount)
                && TookFirstFree(r.sh.handles, r'.sh.handles, h)
                && r' == r.(sh := r'.sh, card := r.card.(published := r'.sh.contexts)))
  {
    if HasRoom(r.sh.handles) {
      var k :| 0 <= k < |r.sh.handles| && r.sh.handles[k].hCard == 0;
      assert IndexOf(r.sh.handles, 0) <= k;
    }
    if r.sh.contexts == 0 {
      ExclusiveFindsSlot(r, i);
    }
  }

  // ----- SCardDisconnect -----

  /** The handle's slot is free, and the others are as they were but for the event of a reset. */
  ghost predicate SlotGiven(hs: seq<Slot>, gs: seq<Slot>, h: nat, reset: bool) {
    && |gs| == |hs|
    && forall k :: 0 <= k < |hs| ==>
         gs[k] == if hs[k].hCard == h then Slot(0, EVENT_NONE)
                  else if reset && hs[k].hCard != 0 then Slot(hs[k].hCard, EVENT_RESET) else hs[k]
  }

  /** Disconnect succeeds exactly for a known handle and disposition, a reader still there, and a lock that is free or the
      handle's own; it waits for a lock only when something is to be done to the card. */
  lemma {:induction false} DisconnectExactly(r: Reader, i: nat, h: nat, found: bool, disposition: Disposition, power: Power)
    requires SharingOk(r.sh, i) && h != 0 && Holds(r.sh.handles, h)
    ensures var (r', rv) := Disconnect(r, h, found, disposition, power);
            var mine := r.sh.lockId == 0 || r.sh.lockId == h;
            && (rv == Success <==> found && disposition != BadDisposition && r.live && mine)
            && (rv == Waiting <==> found && disposition != BadDisposition && disposition != Leave && !mine)
            && (rv != Success ==> r' == r)
            && (rv == Success ==> Left(r, r', h, disposition, power))
  {
    if found && disposition != BadDisposition && r.live && MayUse(r.sh, h) {
      LeftBehind(r, i, h, disposition, power);
    }
  }

  /** What a successful disconnect leaves: no lock, the slot free, one context less, and the card reset if asked for. */
  ghost predicate Left(r: Reader, r': Reader, h: nat, disposition: Disposition, power: Power) {
    var reset := disposition == Reset || disposition == Unpower;
    && r'.sh.lockId == 0 && r'.sh.lockCount == 0
    && r'.sh.contexts == (if r.sh.contexts == EXCLUSIVE_CONTEXT then 0 else r.sh.contexts - 1)
    && SlotGiven(r.sh.handles, r'.sh.handles, h, reset)
    && (reset ==> WasReset(r.card, r'.card, power)) && (!reset ==> r'.card == r.card.(published := r'.sh.contexts))
    && r'.card.published == r'.sh.contexts
    && r' == r.(sh := r'.sh, card := r'.card)
  }

  lemma {:induction false} LeftBehind(r: Reader, i: nat, h: nat, disposition: Disposition, power: Power)
    requires SharingOk(r.sh, i) && h != 0 && Holds(r.sh.handles, h) && r.live && (r.sh.lockId == 0 || r.sh.lockId == h)
    ensures Left(r, DisconnectResumed(r, h, disposition, power).0, h, disposition, power)
  {
    var hs := r.sh.handles;
    var reset := disposition == Reset || disposition == Unpower;
    var gs := if reset then Marked(hs, EVENT_RESET) else hs;
    OneSlot(hs, i, h);
    HoldsSame(hs, gs, h);
    CountZero(hs);
    assert SlotGiven(hs, RemoveHandle(gs, h), h, reset);
    HandleCounts(r.sh, i, h);
  }

  lemma {:induction false} OneSlot(hs: seq<Slot>, i: nat, h: nat)
    requires TableOk(hs, i) && h != 0 && Holds(hs, h)
    ensures forall k :: 0 <= k < |hs| && hs[k].hCard == h ==> k == IndexOf(hs, h)
  {
    var j := IndexOf(hs, h);
    forall k | 0 <= k < |hs| && hs[k].hCard == h ensures k == j {
      assert hs[k].hCard == hs[j].hCard;
    }
  }

  /** A reader with a handle has a context. */
  lemma {:induction false} HandleCounts(s: Sharing, i: nat, h: nat)
    requires SharingOk(s, i) && h != 0 && Holds(s.handles, h)
    ensures s.contexts == EXCLUSIVE_CONTEXT || s.contexts > 0
  {
    CountZero(s.handles);
    assert s.handles[IndexOf(s.handles, h)].hCard == h;
  }

  // ----- SCardReconnect -----

  /** The card is to be reset, and the caller has no event of its own that gets in the way. */
  predicate Noted(hs: seq<Slot>, h: nat, init: Disposition) {
    init != Leave && Slot(h, EVENT_NONE) in hs
  }

  /** The handle's own event is taken notice of; a reset that was noted marks the others. */
  ghost predicate Refreshed(hs: seq<Slot>, gs: seq<Slot>, h: nat, noted: bool) {
    && |gs| == |hs|
    && forall k :: 0 <= k < |hs| ==>
         gs[k] == if hs[k].hCard == h then Slot(h, EVENT_NONE)
                  else if noted && hs[k].hCard != 0 then Slot(hs[k].hCard, EVENT_RESET) else hs[k]
  }

  /** The card the protocol is negotiated with: after a reset, a new answer and no protocol yet. */
  function Anew(c: Card, init: Disposition, power: Power): Card {
    if init == Leave then c else c.(atr := power.atr, atrLength := power.length, protocol := {})
  }

  /** Change of share mode by the owner of the handle. */
  predicate Reshared(s: Sharing, s': Sharing, h: nat, share: Share) {
    if share == Exclusive && s.contexts != EXCLUSIVE_CONTEXT then
      s'.contexts == EXCLUSIVE_CONTEXT && s'.lockId == h && s'.lockCount == s.lockCount + 1
    else if share != Exclusive && s.contexts == EXCLUSIVE_CONTEXT then
      s'.contexts == 1 && Released(s, s'.(contexts := s.contexts), h)
    else s'.contexts == s.contexts && s'.lockId == s.lockId && s'.lockCount == s.lockCount
  }

  /** What a successful reconnect leaves: the caller's event settled and, if the reset was noted, everybody else's raised and
      the card back up; the share mode changed; and the agreed protocol, negotiated anew after a reset. */
  ghost predicate Renewed(r: Reader, r': Reader, h: nat, share: Share, preferred: Mask, init: Disposition, pts: Pts, power: Power) {
    var noted := Noted(r.sh.handles, h, init);
    && Refreshed(r.sh.handles, r'.sh.handles, h, noted)
    && Reshared(r.sh, r'.sh, h, share)
    && AgreedOn(Anew(r.card, init, power), share, preferred, pts, r'.card.protocol)
    && r'.card.published == r'.sh.contexts
    && r'.card.atr == Anew(r.card, init, power).atr && r'.card.atrLength == Anew(r.card, init, power).atrLength
    && (if noted then BackUp(r.card.status, r'.card.status) else r'.card.status == r.card.status)
    && r' == r.(sh := r'.sh, card := r'.card)
  }

  /** Reconnect succeeds exactly for legal arguments on a working reader, for a known handle with the lock free or its own, when
      a reset that is asked for is not in the way (no removal; no event, and an answer; or a reset somebody else made), the
      protocol is agreed on, and exclusive access leaves nobody out. */
  lemma {:induction false} ReconnectExactly(r: Reader, i: nat, h: nat, found: bool, share: Share, preferred: Mask, init: Disposition,
                                            pts: Pts, power: Power, stillThere: bool)
    requires SharingOk(r.sh, i) && OneProtocol(r.card.protocol) && h != 0 && Holds(r.sh.handles, h)
    ensures var (r', rv) := Reconnect(r, h, found, share, preferred, init, pts, power, stillThere);
            && (rv == Success <==>
                && Sensible(share, preferred) && init != Eject && init != BadDisposition
                && r.live && !r.card.status.unknown && found && (r.sh.lockId == 0 || r.sh.lockId == h)
                && (init == Leave || Slot(h, EVENT_RESET) in r.sh.handles || (Slot(h, EVENT_NONE) in r.sh.handles && power.length > 0))
                && Agreed(Anew(r.card, init, power), share, preferred, pts)
                && (share == Exclusive ==> r.sh.contexts == EXCLUSIVE_CONTEXT || r.sh.contexts == 1))
            && (rv == Success ==> Renewed(r, r', h, share, preferred, init, pts, power))
  {
    if ReconnectGate(r, h, found, share, preferred, init) == Success {
      if init == Leave {
        RenegotiateExactly(r, i, h, share, preferred, pts);
      } else {
        RefreshExactly(r, i, h, share, preferred, init, pts, power, stillThere);
      }
    }
  }

  lemma {:induction false} RefreshExactly(r: Reader, i: nat, h: nat, share: Share, preferred: Mask, init: Disposition,
                                          pts: Pts, power: Power, stillThere: bool)
    requires SharingOk(r.sh, i) && h != 0 && Holds(r.sh.handles, h) && (r.sh.lockId == 0 || r.sh.lockId == h) && init != Leave
    ensures var (r', rv) := Refresh(r, h, share, preferred, init, pts, power, stillThere);
            && (rv == Success <==>
                && (Slot(h, EVENT_RESET) in r.sh.handles || (Slot(h, EVENT_NONE) in r.sh.handles && power.length > 0))
                && Agreed(Anew(r.card, init, power), share, preferred, pts)
                && (share == Exclusive ==> r.sh.contexts == EXCLUSIVE_CONTEXT || r.sh.contexts == 1))
            && (rv == Success ==> Renewed(r, r', h, share, preferred, init, pts, power))
  {
    ResetExactly(r, i, h, power, stillThere);
    ResetKeepsSharing(r, i, h, power, stillThere);
    var (r1, rv1) := ReconnectReset(r, h, power, stillThere);
    BehindReset(r, r1, i, h, share, preferred, init, pts, power);
  }

  lemma {:induction false} ResetKeepsSharing(r: Reader, i: nat, h: nat, power: Power, stillThere: bool)
    requires SharingOk(r.sh, i)
    ensures SharingOk(ReconnectReset(r, h, power, stillThere).0.sh, i)
  {
    MarkKeeps(r.sh, i, EVENT_RESET);
  }

  lemma {:induction false} BehindReset(r: Reader, r1: Reader, i: nat, h: nat, share: Share, preferred: Mask, init: Disposition,
                                       pts: Pts, power: Power)
    requires SharingOk(r1.sh, i) && h != 0 && (r.sh.lockId == 0 || r.sh.lockId == h) && init != Leave && AfterReset(r, r1, h, power)
    ensures var (r2, rv) := Renegotiate(r1, h, share, preferred, pts);
            && (rv == Success <==> Agreed(Anew(r.card, init, power), share, preferred, pts)
                                   && (share == Exclusive ==> r.sh.contexts == EXCLUSIVE_CONTEXT || r.sh.contexts == 1))
            && (rv == Success ==> Renewed(r, r2, h, share, preferred, init, pts, power))
  {
    RenegotiateExactly(r1, i, h, share, preferred, pts);
    SameAgreement(r1.card, Anew(r.card, init, power), share, preferred, pts);
    var (r2, rv) := Renegotiate(r1, h, share, preferred, pts);
    if rv == Success {
      RenewedAfterReset(r, r1, r2, i, h, share, preferred, init, pts, power);
    }
  }

  /** Agreement depends on protocol and ATR only. */
  lemma {:induction false} SameAgreement(c: Card, d: Card, share: Share, preferred: Mask, pts: Pts)
    requires c.protocol == d.protocol && c.atr == d.atr && c.atrLength == d.atrLength
    ensures Agreed(c, share, preferred, pts) == Agreed(d, share, preferred, pts)
    ensures forall p :: AgreedOn(c, share, preferred, pts, p) == AgreedOn(d, share, preferred, pts, p)
  {
  }

  lemma {:induction false} RenewedAfterReset(r: Reader, r1: Reader, r2: Reader, i: nat, h: nat, share: Share, preferred: Mask,
                                             init: Disposition, pts: Pts, power: Power)
    requires h != 0 && init != Leave && AfterReset(r, r1, h, power) && AfterRenegotiation(r1, r2, h, share, preferred, pts)
    ensures Renewed(r, r2, h, share, preferred, init, pts, power)
  {
    SameAgreement(r1.card, Anew(r.card, init, power), share, preferred, pts);
    var noted := Noted(r.sh.handles, h, init);
    forall k | 0 <= k < |r.sh.handles|
      ensures r2.sh.handles[k] == if r.sh.handles[k].hCard == h then Slot(h, EVENT_NONE)
                                  else if noted && r.sh.handles[k].hCard != 0 then Slot(r.sh.handles[k].hCard, EVENT_RESET)
                                  else r.sh.handles[k]
    {
      assert r1.sh.handles[k].hCard == r.sh.handles[k].hCard;
    }
  }

  /** Present, powered and answering, whatever it was before. */
  predicate BackUp(w: Word, w': Word) {
    && w'.present && !w'.absent && w'.powered && w'.negotiable && !w'.swallowed && !w'.unknown && !w'.specific
    && w'.spare == w.spare && w'.counter == w.counter
  }

  /** What the reset section leaves when it goes on. */
  ghost predicate AfterReset(r: Reader, r': Reader, h: nat, power: Power) {
    var clear := Slot(h, EVENT_NONE) in r.sh.handles;
    && r'.sh == r.sh.(handles := r'.sh.handles)
    && (clear ==> AllMarked(r.sh.handles, r'.sh.handles, EVENT_RESET) && BackUp(r.card.status, r'.card.status))
    && (!clear ==> r'.sh == r.sh && r'.card.status == r.card.status)
    && r'.card == r.card.(atr := power.atr, atrLength := power.length, protocol := {}, status := r'.card.status)
    && r' == r.(sh := r'.sh, card := r'.card)
  }

  lemma {:induction false} ResetExactly(r: Reader, i: nat, h: nat, power: Power, stillThere: bool)
    requires SharingOk(r.sh, i) && h != 0 && Holds(r.sh.handles, h)
    ensures var (r', rv) := ReconnectReset(r, h, power, stillThere);
            && (rv == Success <==>
                Slot(h, EVENT_RESET) in r.sh.handles || (Slot(h, EVENT_NONE) in r.sh.handles && power.length > 0))
            && AfterReset(r, r', h, power)
  {
    NoticeExactly(r.sh.handles, i, h, Success);
    NoticeExactly(r.sh.handles, i, h, ResetCard);
  }

  /** What the sections behind the reset leave. */
  ghost predicate AfterRenegotiation(r: Reader, r': Reader, h: nat, share: Share, preferred: Mask, pts: Pts) {
    && Refreshed(r.sh.handles, r'.sh.handles, h, false) && Reshared(r.sh, r'.sh, h, share)
    && AgreedOn(r.card, share, preferred, pts, r'.card.protocol) && r'.card.published == r'.sh.contexts
    && OnlyProtocol(r.card, r'.card)
    && r' == r.(sh := r'.sh, card := r'.card)
  }

  lemma {:induction false} ReshareExactly(r: Reader, i: nat, h: nat, share: Share)
    requires SharingOk(r.sh, i) && h != 0 && (r.sh.lockId == 0 || r.sh.lockId == h)
    ensures var (r', rv) := Reshare(r, h, share);
            && (rv == Success <==> (share == Exclusive ==> r.sh.contexts == EXCLUSIVE_CONTEXT || r.sh.contexts == 1))
            && (rv == Success ==>
                && Refreshed(r.sh.handles, r'.sh.handles, h, false) && Reshared(r.sh, r'.sh, h, share)
                && r' == r.(sh := r'.sh, card := r.card.(published := r'.sh.contexts)))
  {
  }

  lemma {:induction false} RenegotiateExactly(r: Reader, i: nat, h: nat, share: Share, preferred: Mask, pts: Pts)
    requires SharingOk(r.sh, i) && OneProtocol(r.card.protocol) && h != 0 && (r.sh.lockId == 0 || r.sh.lockId == h)
    ensures var (r', rv) := Renegotiate(r, h, share, preferred, pts);
            && (rv == Success <==> Agreed(r.card, share, preferred, pts)
                                   && (share == Exclusive ==> r.sh.contexts == EXCLUSIVE_CONTEXT || r.sh.contexts == 1))
            && (rv == Success ==> AfterRenegotiation(r, r', h, share, preferred, pts))
  {
    NegotiateExactly(r.card, share, preferred, pts);
    ReshareExactly(r.(card := r.card.(protocol := Negotiate(r.card, share, preferred, pts).0)), i, h, share);
  }
}
