/**
 When each call of PCSC/src/winscard.c succeeds, what it answers otherwise, and what
 it changes, read off the fields of the reader. Nothing here uses the functions the
 transitions are built from.
 */
module CallAnswers {
  import opened StatusWord
  import opened Atr
  import opened Protocols
  import opened Readers
  import opened SharingInvariant
  import opened CallsKeepInvariant
  import opened Sessions
  import opened LockRuns

  /** What a handle is told about its event, by the slots that carry it. */
  predicate Notice(hs: seq<Slot>, h: nat, rv: Code) {
    match rv
    case Success => Slot(h, EVENT_NONE) in hs
    case ResetCard => Slot(h, EVENT_RESET) in hs
    case RemovedCard => Slot(h, EVENT_REMOVED) in hs
    case InvalidHandle => forall k :: 0 <= k < |hs| ==> hs[k].hCard != h
    case _ => false
  }

  lemma {:induction false} NoticeExactly(hs: seq<Slot>, i: nat, h: nat, rv: Code)
    requires TableOk(hs, i) && h != 0
    ensures CheckEvent(hs, h) == rv <==> Notice(hs, h, rv)
  {
    var k := IndexOf(hs, h);
    if k < |hs| {
      assert hs[k].hCard == h && LegalEvent(hs[k].event) && hs[k] == Slot(h, hs[k].event);
      forall j | 0 <= j < |hs| && hs[j].hCard == h ensures j == k {
        assert hs[j].hCard == hs[k].hCard;
      }
    }
  }

  // ----- SCardBeginTransaction -----

  /** Begin succeeds exactly on a reader that works, for a handle without an event, with the lock free or its own; it takes
      the lock once more and changes nothing else. */
  lemma {:induction false} BeginExactly(r: Reader, i: nat, h: nat, found: bool)
    requires TableOk(r.sh.handles, i) && h != 0
    ensures var (r', rv) := Begin(r, h, found);
            && (rv == Success <==> r.live && !r.card.status.unknown && found && Slot(h, EVENT_NONE) in r.sh.handles
                                   && (r.sh.lockId == 0 || r.sh.lockId == h))
            && (rv == SharingViolation <==> r.live && !r.card.status.unknown && found && Slot(h, EVENT_NONE) in r.sh.handles
                                            && r.sh.lockId != 0 && r.sh.lockId != h)
            && (rv == ReaderUnavailable <==> !r.live || r.card.status.unknown)
            && (rv == Success ==> r' == r.(sh := r.sh.(lockId := h, lockCount := r.sh.lockCount + 1)))
            && (rv != Success ==> r' == r)
  {
    NoticeExactly(r.sh.handles, i, h, Success);
  }

  /** A call with a live handle is a call on its own reader. */
  lemma {:induction false} OnOwnReader(t: Table, i: nat, c: Call)
    requires TableInv(t) && ByHandle(c) && i < |t| && t[i].live && c.h != 0 && Holds(t[i].sh.handles, c.h)
    ensures Step(t, c) == (t[i := Apply(t[i], true, c).0], Apply(t[i], true, c).1)
  {
    HandleRoutes(t, i, c.h);
  }

  /** The same in the reader table: exactly then the lock of that reader goes to h, or one step up, and nothing else moves. */
  lemma {:induction false} BeginOnTable(t: Table, i: nat, h: nat)
    requires TableInv(t) && i < |t| && t[i].live && h != 0 && Holds(t[i].sh.handles, h)
    ensures var (t', rv) := Step(t, DoBegin(h));
            var s := t[i].sh;
            && (rv == Success <==> !t[i].card.status.unknown && Slot(h, EVENT_NONE) in s.handles && (s.lockId == 0 || s.lockId == h))
            && (rv == Success ==> t' == t[i := t[i].(sh := s.(lockId := h, lockCount := s.lockCount + 1))])
            && (rv != Success ==> t' == t)
  {
    assert ReaderOk(t[i], i);
    OnOwnReader(t, i, DoBegin(h));
    BeginExactly(t[i], i, h, true);
    assert t[i := t[i]] == t;
  }

  /** From a free lock: once a Begin by h has succeeded, h owns the lock, and as long as the run behind it stays ahead no
      connect and no locked call by another handle succeeds. */
  lemma {:induction false} ExclusionAfterBegin(t: Table, cs: seq<Call>, i: nat, h: nat, k: nat)
    requires TableInv(t) && cs != [] && Runnable(t, cs) && i < |t| && t[i].live && h != 0 && Holds(t[i].sh.handles, h)
    requires t[i].sh.lockId == 0 && cs[0] == DoBegin(h) && Results(t, cs)[0] == Success
    requires var t1 := Step(t, cs[0]).0; i < |t1| && Ahead(t1, cs[1..], i, h, 1)
    requires 0 < k < |cs|
    requires (cs[k].DoConnect? && cs[k].i == i)
             || (ByHandle(cs[k]) && NeedsLock(cs[k]) && cs[k].h != h && cs[k].h / IDENTITY_UNIT == i + 1)
    ensures k < |Results(t, cs)| && Results(t, cs)[k] != Success
  {
    assert ReaderOk(t[i], i);
    BeginOnTable(t, i, h);
    StepKeeps(t, cs[0]);
    var t1 := Step(t, cs[0]).0;
    assert HoldsLock(t1, i, h) && t1[i].sh.lockCount == 1;
    ExclusionOverRuns(t1, cs[1..], i, h, k - 1);
  }

  // ----- SCardEndTransaction, SCardCancelTransaction -----

  /** One release by h: the lock of another handle is left alone, the last release frees it. */
  predicate Released(s: Sharing, s': Sharing, h: nat) {
    && s'.contexts == s.contexts
    && (s.lockId != 0 && s.lockId != h ==> s'.lockId == s.lockId && s'.lockCount == s.lockCount)
    && (s.lockId == h && s.lockCount > 1 ==> s'.lockId == h && s'.lockCount == s.lockCount - 1)
    && (s.lockId == 0 || (s.lockId == h && s.lockCount <= 1) ==> s'.lockId == 0 && s'.lockCount == 0)
  }

  /** Every used slot carries event e, free slots are as they were. */
  ghost predicate AllMarked(hs: seq<Slot>, gs: seq<Slot>, e: nat) {
    |gs| == |hs| && forall k :: 0 <= k < |hs| ==> gs[k].hCard == hs[k].hCard && gs[k].event == if hs[k].hCard == 0 then hs[k].event else e
  }

  /** The card after a reset through Disconnect or End: powered if the driver says so, mute otherwise, with the answer to
      reset the driver left; an absent card stays absent unless it answered. */
  predicate WasReset(c: Card, c': Card, power: Power) {
    var ok := power.rv == Success;
    var w, w' := c.status, c'.status;
    && c'.atr == power.atr && c'.atrLength == (if ok then power.length else 0) && c'.protocol == {}
    && w'.powered == ok && w'.negotiable == ok && w'.swallowed == !ok && !w'.unknown && !w'.specific
    && w'.absent == (w.absent && !ok) && w'.present == (!w.absent || ok)
    && w'.spare == w.spare && w'.counter == w.counter
  }

  /** End is let in exactly for a known disposition and a handle without an event; it answers with the result of its power
      action, releases once, and resets the card and marks every handle only when asked to. */
  lemma {:induction false} EndExactly(r: Reader, i: nat, h: nat, found: bool, disposition: Disposition, power: Power, eject: Code)
    requires SharingOk(r.sh, i) && h != 0
    ensures var (r', rv) := End(r, h, found, disposition, power, eject);
            var reset := disposition == Reset || disposition == Unpower;
            if disposition != BadDisposition && found && Slot(h, EVENT_NONE) in r.sh.handles then
              && (reset ==> rv == power.rv) && (disposition == Eject ==> rv == eject) && (disposition == Leave ==> rv == Success)
              && Released(r.sh, r'.sh, h)
              && (reset ==> WasReset(r.card, r'.card, power) && AllMarked(r.sh.handles, r'.sh.handles, EVENT_RESET))
              && (!reset ==> r'.card == r.card && r'.sh.handles == r.sh.handles)
              && r'.live == r.live && r'.identity == r.identity && r'.card.published == r.card.published
            else
              && r' == r && rv != Success
              && (disposition == BadDisposition <==> rv == InvalidValue)
              && (disposition != BadDisposition && found ==> Notice(r.sh.handles, h, rv))
  {
    NoticeExactly(r.sh.handles, i, h, Success);
    NoticeExactly(r.sh.handles, i, h, CheckEvent(r.sh.handles, h));
  }

  lemma {:induction false} CancelExactly(r: Reader, i: nat, h: nat, found: bool)
    requires SharingOk(r.sh, i) && h != 0
    ensures var (r', rv) := Cancel(r, h, found);
            var clear := found && Slot(h, EVENT_NONE) in r.sh.handles;
            && (rv == Success <==> clear && (r.sh.lockId == 0 || r.sh.lockId == h))
            && (rv == SharingViolation <==> clear && r.sh.lockId != 0 && r.sh.lockId != h)
            && (rv == Success ==> Released(r.sh, r'.sh, h) && r' == r.(sh := r'.sh) && r'.sh.handles == r.sh.handles)
            && (rv != Success ==> r' == r)
  {
    NoticeExactly(r.sh.handles, i, h, CheckEvent(r.sh.handles, h));
    NoticeExactly(r.sh.handles, i, h, Success);
  }

  // ----- SCardTransmit, SCardControl, SCardGetAttrib, SCardSetAttrib, SCardStatus -----

  /** The reader works, the lock is free or the handle's own, and the handle has no event to take notice of. */
  predicate LetIn(r: Reader, h: nat, found: bool) {
    r.live && !r.card.status.unknown && found && (r.sh.lockId == 0 || r.sh.lockId == h) && Slot(h, EVENT_NONE) in r.sh.handles
  }

  /** The send header fits: raw, or a present card that speaks that protocol (any protocol at all for ANY_OLD). */
  predicate Fits(r: Reader, send: Mask) {
    send == {RAW} || (!r.card.status.absent && if send == {ANY_OLD} then r.card.protocol != {} else send == r.card.protocol)
  }

  lemma {:induction false} GateExactly(r: Reader, i: nat, h: nat, found: bool)
    requires TableOk(r.sh.handles, i) && h != 0
    ensures Gate(r, h, found) == Success <==> LetIn(r, h, found)
    ensures Gate(r, h, found) == SharingViolation <==> r.sh.lockId != 0 && r.sh.lockId != h
    ensures Gate(r, h, found) in {Success, SharingViolation, ReaderUnavailable, InvalidHandle, ResetCard, RemovedCard}
  {
    NoticeExactly(r.sh.handles, i, h, Success);
    NoticeExactly(r.sh.handles, i, h, CheckEvent(r.sh.handles, h));
  }

  /** Transmit reaches the driver, and answers as it does, exactly when the handle is let in and the header fits; a present
      card that speaks another protocol is a mismatch. */
  lemma {:induction false} TransmitExactly(r: Reader, i: nat, h: nat, found: bool, send: Mask, driver: Code)
    requires TableOk(r.sh.handles, i) && h != 0
    ensures LetIn(r, h, found) && Fits(r, send) ==> Transmit(r, h, found, send, driver) == driver
    ensures !(LetIn(r, h, found) && Fits(r, send)) ==> Transmit(r, h, found, send, driver) != Success
    ensures Transmit(r, h, found, send, Success) == Success <==> LetIn(r, h, found) && Fits(r, send)
    ensures Transmit(r, h, found, send, Success) == ProtoMismatch <==>
            LetIn(r, h, found) && !r.card.status.absent && send != {RAW} && send != {ANY_OLD} && send != r.card.protocol
    ensures Transmit(r, h, found, send, Success) == NoSmartcard <==> LetIn(r, h, found) && r.card.status.absent && send != {RAW}
    ensures Transmit(r, h, found, send, Success) == NeverReturns <==>
            LetIn(r, h, found) && !r.card.status.absent && send == {ANY_OLD} && r.card.protocol == {}
    ensures Reaches(r, h, found, send) <==> LetIn(r, h, found) && Fits(r, send)
  {
    GateExactly(r, i, h, found);
    assert RAW in {RAW} && ANY_OLD in {ANY_OLD} && RAW !in {ANY_OLD};
  }

  lemma {:induction false} ControlExactly(r: Reader, i: nat, h: nat, found: bool, bare: bool, driver: Code)
    requires TableOk(r.sh.handles, i) && h != 0
    ensures LetIn(r, h, found) && !bare ==> Control(r, h, found, bare, driver) == driver
    ensures !(LetIn(r, h, found) && !bare) ==> Control(r, h, found, bare, driver) != Success
    ensures Control(r, h, found, bare, Success) == InvalidParameter <==> bare && (r.sh.lockId == 0 || r.sh.lockId == h)
  {
    GateExactly(r, i, h, found);
  }

  /** Status needs no lock: it succeeds on a reader that works, with a believable ATR length, for a handle without an event. */
  lemma {:induction false} StatusExactly(r: Reader, i: nat, h: nat)
    requires TableOk(r.sh.handles, i) && h != 0
    ensures Status(r, h) == Success <==>
            r.live && !r.card.status.unknown && r.card.atrLength <= MAX_ATR_SIZE && Slot(h, EVENT_NONE) in r.sh.handles
    ensures Status(r, h) == InternalError <==> r.live && r.card.atrLength > MAX_ATR_SIZE
  {
    NoticeExactly(r.sh.handles, i, h, Success);
    NoticeExactly(r.sh.handles, i, h, CheckEvent(r.sh.handles, h));
  }
}
