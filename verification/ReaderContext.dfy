/**
 READER_CONTEXT as an object updated in place, with the functions of
 PCSC/src/readerfactory.c and the calls of PCSC/src/winscard.c that change it.
 Every method is proved to compute the transition of module Readers.
 */
module ReaderContexts {
  import opened StatusWord
  import opened Atr
  import opened Protocols
  import opened Readers
  import opened Sessions

  class ReaderContext {
    const psHandles: array<Slot>
    var loaded: bool  // vHandle and readerState are set
    var dwIdentity: nat
    var dwContexts: int
    var dwLockId: nat
    var lockCount: nat
    var readerState: Word
    var cardProtocol: Mask
    var cardAtr: Memory
    var cardAtrLength: nat
    var readerSharing: int
    var dwCurrentState: Seen
    var dwReaderSharing: int

    ghost function Shares(): Sharing
      reads this, psHandles
    {
      Sharing(dwContexts, dwLockId, lockCount, psHandles[..])
    }

    ghost function CardPart(): Card
      reads this
    {
      Card(readerState, cardProtocol, cardAtr, cardAtrLength, readerSharing)
    }

    /** The abstract value. */
    ghost function State(): Reader
      reads this, psHandles
    {
      Reader(loaded, dwIdentity, Shares(), CardPart(), dwCurrentState, dwReaderSharing)
    }

    /** Not in use, with room for handles and no handle in it. */
    ghost predicate Unused()
      reads this, psHandles
    {
      && !loaded && dwIdentity == 0 && dwContexts == 0 && dwLockId == 0 && lockCount == 0
      && psHandles.Length > 0 && forall k :: 0 <= k < psHandles.Length ==> psHandles[k].hCard == 0
    }

    /** An unused slot of the reader table. */
    constructor (channels: nat, atr: Memory)
      requires channels > 0
      ensures Unused() && fresh(psHandles) && psHandles.Length == channels
    {
      psHandles := new Slot[channels](_ => Slot(0, EVENT_NONE));
      loaded, dwIdentity, dwContexts, dwLockId, lockCount := false, 0, 0, 0, 0;
      readerState := Word(false, false, false, false, false, false, false, 0, 0);
      cardProtocol, cardAtr, cardAtrLength, readerSharing := {}, atr, 0, 0;
      dwCurrentState, dwReaderSharing := SeenAbsent, 0;
    }

    method FreeHandles()
      modifies psHandles
      ensures psHandles[..] == Freed(old(psHandles[..]))
    {
      var i := 0;
      while i < psHandles.Length
        invariant 0 <= i <= psHandles.Length
        invariant forall j {:trigger psHandles[j]} :: 0 <= j < i ==> psHandles[j] == Freed(old(psHandles[..]))[j]
        invariant forall j {:trigger psHandles[j]} :: i <= j < psHandles.Length ==> psHandles[j] == old(psHandles[..])[j]
      {
        psHandles[i] := Slot(0, psHandles[i].event);
        i := i + 1;
      }
    }

    /** Start of the polling thread: power up a card that is there. */
    method FirstLook(word: Word, power: Power)
      modifies this`readerState, this`cardProtocol, this`cardAtr, this`cardAtrLength, this`dwCurrentState
      ensures cardProtocol == {} && cardAtr == power.atr
      ensures readerState == (if !word.present then Gone(word) else if power.rv == Success then PoweredUp(word) else Mute(word))
      ensures cardAtrLength == if word.present then power.length else 0
      ensures dwCurrentState == if word.present then SeenPresent else SeenAbsent
    {
      cardAtr, cardAtrLength, cardProtocol := power.atr, power.length, {};
      if word.present {
        if power.rv == Success {
          readerState := word.(present := true, absent := false, powered := true, negotiable := true);
          readerState := readerState.(specific := false, swallowed := false, unknown := false);
        } else {
          readerState := word.(present := true, absent := false, swallowed := true, powered := false);
          readerState := readerState.(negotiable := false, specific := false, unknown := false);
        }
        dwCurrentState := SeenPresent;
      } else {
        readerState := word.(absent := true, present := false, powered := false, negotiable := false);
        readerState := readerState.(specific := false, swallowed := false, unknown := false);
        cardAtrLength := 0;
        dwCurrentState := SeenAbsent;
      }
    }

    /** RFAddReader for slot `index`, and the start of the polling thread. */
    method Attach(index: nat, word: Word, power: Power)
      modifies this, psHandles
      ensures State() == Attached(old(State()), index, word, power)
    {
      dwContexts, dwLockId, lockCount := 0, 0, 0;
      dwIdentity := (index + 1) * IDENTITY_UNIT;
      FreeHandles();
      loaded := true;
      FirstLook(word, power);
      readerSharing, dwReaderSharing := dwContexts, dwContexts;
    }

    /** RFRemoveReader for this slot. */
    method Detach()
      modifies this, psHandles
      ensures State() == Detached(old(State()))
    {
      dwContexts, dwLockId, lockCount, loaded, dwIdentity := 0, 0, 0, false, 0;
      FreeHandles();
    }

    method AddReaderHandle(h: nat) returns (ok: bool)
      modifies psHandles
      ensures psHandles[..] == AddHandle(old(psHandles[..]), h)
      ensures ok <==> Holds(old(psHandles[..]), 0)
    {
      var i := 0;
      while i < psHandles.Length
        invariant 0 <= i <= psHandles.Length && psHandles[..] == old(psHandles[..])
        invariant forall j :: 0 <= j < i ==> psHandles[j].hCard != 0
      {
        if psHandles[i].hCard == 0 {
          assert IndexOf(psHandles[..], 0) == i;
          psHandles[i] := Slot(h, EVENT_NONE);
          return true;
        }
        i := i + 1;
      }
      return false;
    }

    method RemoveReaderHandle(h: nat) returns (ok: bool)
      modifies psHandles
      ensures psHandles[..] == RemoveHandle(old(psHandles[..]), h)
      ensures ok <==> Holds(old(psHandles[..]), h)
    {
      var i := 0;
      while i < psHandles.Length
        invariant 0 <= i <= psHandles.Length && psHandles[..] == old(psHandles[..])
        invariant forall j :: 0 <= j < i ==> psHandles[j].hCard != h
      {
        if psHandles[i].hCard == h {
          assert IndexOf(psHandles[..], h) == i;
          psHandles[i] := Slot(0, EVENT_NONE);
          return true;
        }
        i := i + 1;
      }
      return false;
    }

    method SetReaderEventState(e: nat)
      modifies psHandles, this`dwLockId, this`lockCount
      ensures Shares() == SetEvent(old(Shares()), e)
    {
      var i := 0;
      while i < psHandles.Length
        invariant 0 <= i <= psHandles.Length && Shares() == old(Shares()).(handles := psHandles[..])
        invariant forall j {:trigger psHandles[j]} :: 0 <= j < i ==> psHandles[j] == Marked(old(psHandles[..]), e)[j]
        invariant forall j {:trigger psHandles[j]} :: i <= j < psHandles.Length ==> psHandles[j] == old(psHandles[..])[j]
      {
        if psHandles[i].hCard != 0 {
          psHandles[i] := Slot(psHandles[i].hCard, e);
        }
        i := i + 1;
      }
      assert psHandles[..] == Marked(old(psHandles[..]), e);
      if e == EVENT_REMOVED {
        dwLockId, lockCount := 0, 0;
      }
    }

    method CheckReaderEventState(h: nat) returns (rv: Code)
      ensures rv == CheckEvent(psHandles[..], h)
    {
      var i := 0;
      while i < psHandles.Length
        invariant 0 <= i <= psHandles.Length
        invariant forall j :: 0 <= j < i ==> psHandles[j].hCard != h
      {
        if psHandles[i].hCard == h {
          assert IndexOf(psHandles[..], h) == i;
          if psHandles[i].event == EVENT_REMOVED {
            return RemovedCard;
          } else if psHandles[i].event == EVENT_RESET {
            return ResetCard;
          } else if psHandles[i].event == EVENT_NONE {
            return Success;
          } else {
            return InvalidValue;
          }
        }
        i := i + 1;
      }
      return InvalidHandle;
    }

    method ClearReaderEventState(h: nat)
      modifies psHandles
      ensures psHandles[..] == Cleared(old(psHandles[..]), h)
    {
      var i := 0;
      while i < psHandles.Length
        invariant 0 <= i <= psHandles.Length
        invariant forall j {:trigger psHandles[j]} :: 0 <= j < i ==> psHandles[j] == Cleared(old(psHandles[..]), h)[j]
        invariant forall j {:trigger psHandles[j]} :: i <= j < psHandles.Length ==> psHandles[j] == old(psHandles[..])[j]
      {
        if psHandles[i].hCard == h {
          psHandles[i] := Slot(h, EVENT_NONE);
        }
        i := i + 1;
      }
    }

    method LockSharing(h: nat) returns (rv: Code)
      modifies this`dwLockId, this`lockCount
      ensures Shares() == Lock(old(Shares()), h)
      ensures rv == if MayUse(old(Shares()), h) then Success else SharingViolation
    {
      if dwLockId == 0 || dwLockId == h {
        lockCount := lockCount + 1;
        dwLockId := h;
        return Success;
      }
      return SharingViolation;
    }

    method UnlockSharing(h: nat) returns (rv: Code)
      modifies this`dwLockId, this`lockCount
      ensures Shares() == Unlock(old(Shares()), h)
      ensures rv == if MayUse(old(Shares()), h) then Success else SharingViolation
    {
      if dwLockId == 0 || dwLockId == h {
        if lockCount > 0 {
          lockCount := lockCount - 1;
        }
        if lockCount == 0 {
          dwLockId := 0;
        }
        return Success;
      }
      return SharingViolation;
    }

    method UnlockAllSharing(h: nat) returns (rv: Code)
      modifies this`dwLockId, this`lockCount
      ensures Shares() == UnlockAll(old(Shares()), h)
      ensures rv == if MayUse(old(Shares()), h) then Success else SharingViolation
    {
      if dwLockId == 0 || dwLockId == h {
        lockCount, dwLockId := 0, 0;
        return Success;
      }
      return SharingViolation;
    }

    /** Protocol section of SCardConnect and SCardReconnect. */
    method NegotiateProtocol(share: Share, preferred0: Mask, pts: Pts) returns (rv: Code)
      modifies this`cardProtocol
      ensures (cardProtocol, rv) == Negotiate(old(CardPart()), share, preferred0, pts)
    {
      var preferred := preferred0;
      if RAW in preferred {
        cardProtocol := {RAW};
      } else if share != DirectAccess {
        if cardProtocol == {} {
          var default := DefaultProtocol(cardAtr, cardAtrLength);
          var available := AvailableProtocols(cardAtr, cardAtrLength);
          if ANY_OLD in preferred {
            preferred := {T0, T1};
          }
          match SetProtocol(preferred, available, default, pts) {
            case PpsFailed => return UnresponsiveCard;
            case WrongArgument => return ProtoMismatch;
            case Use(p) => cardProtocol := p;
          }
        } else if preferred * cardProtocol == {} {
          return ProtoMismatch;
        }
      } else {
        cardProtocol := {};
      }
      return Success;
    }

    /** The reset of SCardDisconnect and SCardEndTransaction, flag by flag. */
    method PowerCycleCard(power: Power)
      modifies psHandles, this`dwLockId, this`lockCount, this`cardAtr, this`cardAtrLength, this`cardProtocol, this`readerState
      ensures State() == PowerCycle(old(State()), power)
    {
      cardAtr, cardAtrLength, cardProtocol := power.atr, power.length, {};
      SetReaderEventState(EVENT_RESET);
      if power.rv == Success {
        SetPoweredUp();
      } else {
        SetResetFailed();
        cardAtrLength := 0;
      }
    }

    method SetPoweredUp()
      modifies this`readerState
      ensures readerState == PoweredUp(old(readerState))
    {
      readerState := readerState.(present := true, absent := false);
      readerState := readerState.(powered := true, negotiable := true);
      readerState := readerState.(specific := false, swallowed := false, unknown := false);
    }

    method SetResetFailed()
      modifies this`readerState
      ensures readerState == ResetFailed(old(readerState))
    {
      if readerState.absent {
        readerState := readerState.(present := false);
      } else {
        readerState := readerState.(present := true);
      }
      readerState := readerState.(swallowed := true, powered := false, negotiable := false);
      readerState := readerState.(specific := false, unknown := false);
    }

    /** Takes up the session in the counters and the handle table; a full table takes the counter back. */
    method OpenSession(share: Share, h: nat) returns (rv: Code)
      modifies psHandles, this`dwContexts, this`dwLockId, this`lockCount, this`readerSharing
      ensures (State(), rv) == Admit(old(State()), share, h)
    {
      if share == Exclusive {
        if dwContexts == 0 {
          dwContexts := EXCLUSIVE_CONTEXT;
          var _ := LockSharing(h);
        } else {
          return SharingViolation;
        }
      } else {
        dwContexts := dwContexts + 1;
      }
      var ok := AddReaderHandle(h);
      if !ok {
        if dwContexts == EXCLUSIVE_CONTEXT {
          dwContexts := 0;
        } else if dwContexts > 0 {
          dwContexts := dwContexts - 1;
        }
        return InternalError;
      }
      readerSharing := dwContexts;
      return Success;
    }

    /** SCardConnect once the lock is free. */
    method ConnectFree(share: Share, preferred: Mask, pts: Pts, h: nat) returns (rv: Code)
      modifies this, psHandles
      ensures (State(), rv) == ConnectResumed(old(State()), share, preferred, pts, h)
    {
      if !loaded {
        return NoSmartcard;
      }
      if share != DirectAccess {
        if !readerState.present {
          return NoSmartcard;
        }
        if readerState.swallowed {
          return UnpoweredCard;
        }
      }
      rv := NegotiateProtocol(share, preferred, pts);
      if rv != Success {
        return;
      }
      rv := OpenSession(share, h);
    }

    /** SCardConnect on this reader; `h` is the handle RFCreateReaderHandle draws. */
    method SCardConnect(share: Share, preferred: Mask, pts: Pts, h: nat) returns (rv: Code)
      modifies this, psHandles
      ensures (State(), rv) == Connect(old(State()), share, preferred, pts, h)
    {
      if share != DirectAccess && T0 !in preferred && T1 !in preferred && RAW !in preferred && ANY_OLD !in preferred {
        return ProtoMismatch;
      }
      if share == BadShare {
        return InvalidValue;
      }
      if !loaded || readerState.unknown {
        return ReaderUnavailable;
      }
      if dwContexts == EXCLUSIVE_CONTEXT {
        return SharingViolation;
      }
      if dwLockId != 0 {
        return Waiting;
      }
      rv := ConnectFree(share, preferred, pts, h);
    }

    /** Reset section of SCardReconnect. */
    method NoteReset()
      modifies psHandles, this`dwLockId, this`lockCount, this`readerState
      ensures Shares() == SetEvent(old(Shares()), EVENT_RESET) && readerState == PoweredUp(old(readerState))
    {
      SetReaderEventState(EVENT_RESET);
      SetPoweredUp();
    }

    method ResetForReconnect(h: nat, power: Power, stillThere: bool) returns (rv: Code)
      modifies psHandles, this`dwLockId, this`lockCount, this`cardAtr, this`cardAtrLength, this`cardProtocol, this`readerState
      ensures (State(), rv) == ReconnectReset(old(State()), h, power, stillThere)
    {
      cardAtr, cardAtrLength, cardProtocol := power.atr, power.length, {};
      rv := CheckReaderEventState(h);
      match rv {
        case ResetCard => return Success;
        case RemovedCard => return RemovedCard;
        case Success =>
          NoteReset();
          if cardAtrLength == 0 {
            return if stillThere then UnresponsiveCard else NoSmartcard;
          }
          return Success;
        case _ => return InternalError;
      }
    }

    /** Share-mode section of SCardReconnect. */
    method ReshareForReconnect(h: nat, share: Share) returns (rv: Code)
      modifies psHandles, this`dwLockId, this`lockCount, this`dwContexts, this`readerSharing
      ensures (State(), rv) == Reshare(old(State()), h, share)
    {
      if share == Exclusive {
        if dwContexts != EXCLUSIVE_CONTEXT {
          if dwContexts == 1 {
            dwContexts := EXCLUSIVE_CONTEXT;
            var _ := LockSharing(h);
          } else {
            return SharingViolation;
          }
        }
      } else {
        if dwContexts == EXCLUSIVE_CONTEXT {
          var _ := UnlockSharing(h);
          dwContexts := 1;
        }
      }
      ClearReaderEventState(h);
      readerSharing := dwContexts;
      return Success;
    }

    method RenegotiateForReconnect(h: nat, share: Share, preferred: Mask, pts: Pts) returns (rv: Code)
      modifies psHandles, this`dwLockId, this`lockCount, this`dwContexts, this`readerSharing, this`cardProtocol
      ensures (State(), rv) == Renegotiate(old(State()), h, share, preferred, pts)
    {
      rv := NegotiateProtocol(share, preferred, pts);
      if rv != Success {
        return;
      }
      rv := ReshareForReconnect(h, share);
    }

    method RefreshForReconnect(h: nat, share: Share, preferred: Mask, init: Disposition, pts: Pts,
                               power: Power, stillThere: bool) returns (rv: Code)
      modifies this, psHandles
      ensures (State(), rv) == Refresh(old(State()), h, share, preferred, init, pts, power, stillThere)
    {
      if init != Leave {
        rv := ResetForReconnect(h, power, stillThere);
        if rv != Success {
          return;
        }
      }
      rv := RenegotiateForReconnect(h, share, preferred, pts);
    }

    method CheckReconnect(h: nat, found: bool, share: Share, preferred: Mask, init: Disposition) returns (rv: Code)
      ensures rv == ReconnectGate(State(), h, found, share, preferred, init)
    {
      if init == Eject || init == BadDisposition || share == BadShare {
        return InvalidValue;
      }
      if share != DirectAccess && T0 !in preferred && T1 !in preferred && RAW !in preferred && ANY_OLD !in preferred {
        return ProtoMismatch;
      }
      if !loaded || readerState.unknown {
        return ReaderUnavailable;
      }
      if !found {
        return InvalidHandle;
      }
      if dwLockId != 0 && dwLockId != h {
        return SharingViolation;
      }
      return Success;
    }

    method SCardReconnect(h: nat, found: bool, share: Share, preferred: Mask, init: Disposition, pts: Pts,
                          power: Power, stillThere: bool) returns (rv: Code)
      modifies this, psHandles
      ensures (State(), rv) == Reconnect(old(State()), h, found, share, preferred, init, pts, power, stillThere)
    {
      rv := CheckReconnect(h, found, share, preferred, init);
      if rv != Success {
        return;
      }
      rv := RefreshForReconnect(h, share, preferred, init, pts, power, stillThere);
    }

    /** The handle leaves the table and the context count. */
    method CloseSession(h: nat)
      modifies psHandles, this`dwContexts, this`readerSharing
      ensures State() == Leaves(old(State()), h)
    {
      var _ := RemoveReaderHandle(h);
      if dwContexts == EXCLUSIVE_CONTEXT {
        dwContexts := 0;
      } else {
        dwContexts := dwContexts - 1;
        if dwContexts < 0 {
          dwContexts := 0;
        }
      }
      readerSharing := dwContexts;
    }

    method SCardDisconnect(h: nat, found: bool, disposition: Disposition, power: Power) returns (rv: Code)
      modifies this, psHandles
      ensures (State(), rv) == Disconnect(old(State()), h, found, disposition, power)
    {
      if !found {
        return InvalidHandle;
      }
      if disposition == BadDisposition {
        return InvalidValue;
      }
      if disposition != Leave && dwLockId != 0 && dwLockId != h {
        return Waiting;
      }
      rv := DisconnectFree(h, disposition, power);
    }

    /** SCardDisconnect behind its wait. */
    method DisconnectFree(h: nat, disposition: Disposition, power: Power) returns (rv: Code)
      modifies this, psHandles
      ensures (State(), rv) == DisconnectResumed(old(State()), h, disposition, power)
    {
      if !loaded {
        return NoSmartcard;
      }
      rv := UnlockAllSharing(h);
      if rv != Success {
        return;
      }
      if disposition == Reset || disposition == Unpower {
        PowerCycleCard(power);
      }
      CloseSession(h);
      return Success;
    }

    method SCardBeginTransaction(h: nat, found: bool) returns (rv: Code)
      modifies this`dwLockId, this`lockCount
      ensures (State(), rv) == Begin(old(State()), h, found)
    {
      if !loaded || readerState.unknown {
        return ReaderUnavailable;
      }
      if !found {
        return InvalidHandle;
      }
      rv := CheckReaderEventState(h);
      if rv != Success {
        return;
      }
      rv := LockSharing(h);
    }

    method SCardEndTransaction(h: nat, found: bool, disposition: Disposition, power: Power, eject: Code) returns (rv: Code)
      modifies this, psHandles
      ensures (State(), rv) == End(old(State()), h, found, disposition, power, eject)
    {
      if disposition == BadDisposition {
        return InvalidValue;
      }
      if !found {
        return InvalidHandle;
      }
      rv := CheckReaderEventState(h);
      if rv != Success {
        return;
      }
      rv := EndAction(disposition, power, eject);
      var _ := UnlockSharing(h);
    }

    /** The reset, power-down or eject that ends a transaction. */
    method EndAction(disposition: Disposition, power: Power, eject: Code) returns (rv: Code)
      modifies psHandles, this`dwLockId, this`lockCount, this`cardAtr, this`cardAtrLength, this`cardProtocol, this`readerState
      ensures State() == if disposition == Reset || disposition == Unpower then PowerCycle(old(State()), power) else old(State())
      ensures rv == if disposition == Reset || disposition == Unpower then power.rv
                    else if disposition == Eject then eject else Success
    {
      if disposition == Reset || disposition == Unpower {
        PowerCycleCard(power);
        return power.rv;
      }
      return if disposition == Eject then eject else Success;
    }

    method SCardCancelTransaction(h: nat, found: bool) returns (rv: Code)
      modifies this`dwLockId, this`lockCount
      ensures (State(), rv) == Cancel(old(State()), h, found)
    {
      if !found {
        return InvalidHandle;
      }
      rv := CheckReaderEventState(h);
      if rv != Success {
        return;
      }
      rv := UnlockSharing(h);
    }

    /** The checks in front of every use of the card. */
    method UseGate(h: nat, found: bool) returns (rv: Code)
      ensures rv == Gate(State(), h, found)
    {
      if dwLockId != 0 && dwLockId != h {
        return SharingViolation;
      }
      if !loaded || readerState.unknown {
        return ReaderUnavailable;
      }
      if !found {
        return InvalidHandle;
      }
      rv := CheckReaderEventState(h);
    }

    method SCardControl(h: nat, found: bool, bare: bool, driver: Code) returns (rv: Code)
      ensures rv == Control(State(), h, found, bare, driver)
    {
      if dwLockId != 0 && dwLockId != h {
        return SharingViolation;
      }
      if bare {
        return InvalidParameter;
      }
      rv := UseGate(h, found);
      if rv == Success {
        rv := driver;
      }
    }

    /** `number` is the protocol number the driver is called with. */
    method SCardTransmit(h: nat, found: bool, send: Mask, driver: Code) returns (rv: Code, number: nat)
      ensures rv == Transmit(State(), h, found, send, driver)
      ensures Reaches(State(), h, found, send) ==> Addresses(send, cardProtocol, number)
    {
      number := 0;
      rv := UseGate(h, found);
      if rv != Success {
        return;
      }
      if send != {RAW} {
        if readerState.absent {
          return NoSmartcard, number;
        }
        if send != {ANY_OLD} && send != cardProtocol {
          return ProtoMismatch, number;
        }
      }
      if send == {T1} {
        number := 1;
      } else if send == {RAW} {
        number := 4;
      } else if send == {ANY_OLD} {
        ValueZero(cardProtocol);
        if Value(cardProtocol) == 0 {
          return NeverReturns, number;  // the shift loop has no end: Protocols.ShiftEnds
        }
        number := ShiftIndex(Value(cardProtocol));
      }
      return driver, number;
    }

    method SCardStatus(h: nat) returns (rv: Code)
      ensures rv == Status(State(), h)
    {
      if !loaded {
        return ReaderUnavailable;
      }
      if cardAtrLength > MAX_ATR_SIZE {
        return InternalError;
      }
      rv := CheckReaderEventState(h);
      if rv == Success && readerState.unknown {
        return ReaderUnavailable;
      }
    }

    /** The answer of the driver, and what a communication error makes of the status. */
    method TakeAnswer(answer: IccStatus)
      modifies this`cardAtr, this`cardAtrLength, this`cardProtocol, this`readerState, this`dwCurrentState
      ensures State() == Answered(old(State()), answer)
    {
      cardAtr, cardAtrLength := answer.atr, answer.length;
      if !answer.ok {
        readerState := readerState.(absent := false, present := false, powered := false, negotiable := false);
        readerState := readerState.(specific := false, swallowed := false, unknown := true);
        cardAtrLength, cardProtocol := 0, {};
        dwCurrentState := SeenUnknown;
      }
    }

    /** One turn of the loop of EHStatusHandlerThread. */
    method PollOnce(answer: IccStatus, power: Power)
      modifies this, psHandles
      ensures State() == Poll(old(State()), answer, power)
    {
      TakeAnswer(answer);
      if answer.absent {
        if dwCurrentState == SeenPresent || dwCurrentState == SeenUnknown {
          NoticeRemoval();
        }
      } else if answer.present {
        if dwCurrentState == SeenAbsent || dwCurrentState == SeenUnknown {
          NoticeInsertion(power);
        }
      }
      if dwReaderSharing != dwContexts {
        dwReaderSharing := dwContexts;
        readerSharing := dwReaderSharing;
      }
    }

    method NoticeRemoval()
      modifies this, psHandles
      ensures State() == CardRemoved(old(State()))
    {
      SetReaderEventState(EVENT_REMOVED);
      cardAtrLength, cardProtocol := 0, {};
      readerState := readerState.(absent := true, unknown := false, present := false, powered := false);
      readerState := readerState.(negotiable := false, swallowed := false, specific := false);
      dwCurrentState := SeenAbsent;
      readerState := Increment(readerState);
    }

    method NoticeInsertion(power: Power)
      modifies this
      ensures State() == CardInserted(old(State()), power)
    {
      cardAtr, cardAtrLength, cardProtocol := power.atr, power.length, {};
      if power.rv == Success {
        readerState := readerState.(present := true, absent := false, powered := true, negotiable := true);
        readerState := readerState.(specific := false, unknown := false, swallowed := false);
      } else {
        readerState := readerState.(present := true, absent := false, swallowed := true, powered := false);
        readerState := readerState.(negotiable := false, specific := false, unknown := false);
        cardAtrLength := 0;
      }
      dwCurrentState := SeenPresent;
      readerState := Increment(readerState);
    }
  }

  /** sReadersContexts: the reader table, allocated once. */
  class ReaderTable {
    const contexts: seq<ReaderContext>
    ghost var view: Table

    constructor (readers: seq<ReaderContext>)
      requires forall i, j :: 0 <= i < j < |readers| ==> readers[i] != readers[j] && readers[i].psHandles != readers[j].psHandles
      ensures contexts == readers && Valid()
      ensures (forall i :: 0 <= i < |readers| ==> readers[i].Unused()) ==> StartUp(view)
    {
      contexts := readers;
      new;
      ghost var v: Table := [];
      for k := 0 to |readers|
        invariant |v| == k && forall j :: 0 <= j < k ==> v[j] == readers[j].State()
      {
        v := v + [readers[k].State()];
      }
      view := v;
    }

    ghost function Arrays(): set<object> {
      set r | r in contexts :: r.psHandles
    }

    ghost predicate Valid()
      reads this, contexts, Arrays()
    {
      && |view| == |contexts|
      && (forall i, j :: 0 <= i < j < |contexts| ==> contexts[i] != contexts[j] && contexts[i].psHandles != contexts[j].psHandles)
      && (forall i :: 0 <= i < |contexts| ==> contexts[i].State() == view[i])
    }

    method ReaderInfoById(h: nat) returns (i: nat)
      requires Valid()
      ensures i == Route(view, h)
    {
      var identity := h / IDENTITY_UNIT * IDENTITY_UNIT;
      i := 0;
      while i < |contexts|
        invariant i <= |contexts|
        invariant forall j :: 0 <= j < i ==> view[j].identity != identity
      {
        assert contexts[i].State() == view[i];
        if contexts[i].dwIdentity == identity {
          return;
        }
        i := i + 1;
      }
    }

    method FindReaderHandle(h: nat) returns (found: bool)
      requires Valid()
      ensures found == Found(view, h)
    {
      var i := 0;
      while i < |contexts|
        invariant 0 <= i <= |contexts|
        invariant forall k :: 0 <= k < i ==> !(view[k].live && Holds(view[k].sh.handles, h))
      {
        assert contexts[i].State() == view[i];
        if contexts[i].loaded {
          var j := 0;
          while j < contexts[i].psHandles.Length
            invariant 0 <= j <= contexts[i].psHandles.Length
            invariant forall k :: 0 <= k < j ==> contexts[i].psHandles[k].hCard != h
          {
            if contexts[i].psHandles[j].hCard == h {
              assert view[i].sh.handles[j].hCard == h;
              assert Holds(view[i].sh.handles, h);
              return true;
            }
            j := j + 1;
          }
        }
        i := i + 1;
      }
      return false;
    }

    /** Any sequence of calls, on the heap: the table goes through the run of the state machine, gives its results, and
        keeps its invariant when new handles are fresh. */
    method RunCalls(cs: seq<Call>) returns (rvs: seq<Code>)
      requires Valid()
      modifies this`view, contexts, Arrays()
      ensures Valid() && view == Run(old(view), cs) && rvs == Results(old(view), cs)
      ensures (StartUp(old(view)) || TableInv(old(view))) && Runnable(old(view), cs) ==> TableInv(view)
    {
      rvs := [];
      var k := 0;
      while k < |cs|
        invariant 0 <= k <= |cs| && Valid()
        invariant Run(view, cs[k..]) == Run(old(view), cs)
        invariant rvs + Results(view, cs[k..]) == Results(old(view), cs)
      {
        assert cs[k..][0] == cs[k] && cs[k..][1..] == cs[k + 1..];
        var rv := Perform(cs[k]);
        rvs := rvs + [rv];
        k := k + 1;
      }
      assert cs[k..] == [];
      if Runnable(old(view), cs) {
        if StartUp(old(view)) {
          ReachableInvariant(old(view), cs);
        } else if TableInv(old(view)) {
          InvariantOverRuns(old(view), cs);
        }
      }
    }

    method Perform(c: Call) returns (rv: Code)
      requires Valid()
      modifies this`view, contexts, Arrays()
      ensures Valid() && (view, rv) == Step(old(view), c)
    {
      if ByHandle(c) {
        rv := ByCardHandle(c);
      } else {
        rv := BySlot(c);
      }
    }

    /** A call with a card handle, carried out on the reader it is routed to. */
    method ByCardHandle(c: Call) returns (rv: Code)
      requires Valid() && ByHandle(c)
      modifies this`view, contexts, Arrays()
      ensures Valid() && (view, rv) == Step(old(view), c)
    {
      if c.h == 0 {
        return InvalidHandle;
      }
      var i := ReaderInfoById(c.h);
      if i == |contexts| {
        return InvalidValue;
      }
      var found := FindReaderHandle(c.h);
      rv := OnReader(i, found, c);
    }

    method OnReader(i: nat, found: bool, c: Call) returns (rv: Code)
      requires Valid() && ByHandle(c) && i < |contexts|
      modifies this`view, contexts[i], contexts[i].psHandles
      ensures Valid() && view == old(view)[i := Apply(old(view)[i], found, c).0] && rv == Apply(old(view)[i], found, c).1
    {
      var r := contexts[i];
      match c {
        case DoReconnect(h, share, preferred, init, pts, power, stillThere) =>
          rv := r.SCardReconnect(h, found, share, preferred, init, pts, power, stillThere);
        case DoDisconnect(h, disposition, power) => rv := r.SCardDisconnect(h, found, disposition, power);
        case DoBegin(h) => rv := r.SCardBeginTransaction(h, found);
        case DoEnd(h, disposition, power, eject) => rv := r.SCardEndTransaction(h, found, disposition, power, eject);
        case DoCancel(h) => rv := r.SCardCancelTransaction(h, found);
        case DoTransmit(h, send, driver) =>
          var number;
          rv, number := r.SCardTransmit(h, found, send, driver);
        case DoControl(h, bare, driver) => rv := r.SCardControl(h, found, bare, driver);
        case DoStatus(h) => rv := r.SCardStatus(h);
      }
      view := view[i := r.State()];
    }

    /** SCardConnect, polling and reader management name the slot itself. */
    method BySlot(c: Call) returns (rv: Code)
      requires Valid() && !ByHandle(c)
      modifies this`view, contexts, Arrays()
      ensures Valid() && (view, rv) == Step(old(view), c)
    {
      if c.i >= |contexts| {
        return match c case DoConnect(_, _, _, _, _) => ReaderUnavailable case DoPoll(_, _, _) => ReaderUnavailable
                       case ResumeConnect(_, _, _, _, _) => ReaderUnavailable
                       case DoAttach(_, _, _) => InternalError case _ => InvalidValue;
      }
      rv := OnSlot(c.i, c);
    }

    method OnSlot(i: nat, c: Call) returns (rv: Code)
      requires Valid() && !ByHandle(c) && c.i == i < |contexts|
      modifies this`view, contexts[i], contexts[i].psHandles
      ensures Valid() && (view, rv) == Step(old(view), c)
    {
      if c.DoPoll? || c.DoAttach? || c.DoDetach? {
        rv := Manage(i, c);
      } else {
        rv := UseSlot(i, c);
      }
    }

    /** Connecting, and calls that go on behind their wait. */
    method UseSlot(i: nat, c: Call) returns (rv: Code)
      requires Valid() && (c.DoConnect? || c.ResumeConnect? || c.ResumeDisconnect?) && c.i == i < |contexts|
      modifies this`view, contexts[i], contexts[i].psHandles
      ensures Valid() && (view, rv) == Step(old(view), c)
    {
      var r := contexts[i];
      match c {
        case DoConnect(_, share, preferred, pts, h) => rv := r.SCardConnect(share, preferred, pts, h);
        case ResumeConnect(_, share, preferred, pts, h) => rv := r.ConnectFree(share, preferred, pts, h);
        case ResumeDisconnect(_, h, disposition, power) => rv := r.DisconnectFree(h, disposition, power);
      }
      view := view[i := r.State()];
    }

    /** Polling, adding and removing a reader. */
    method Manage(i: nat, c: Call) returns (rv: Code)
      requires Valid() && (c.DoPoll? || c.DoAttach? || c.DoDetach?) && c.i == i < |contexts|
      modifies this`view, contexts[i], contexts[i].psHandles
      ensures Valid() && (view, rv) == Step(old(view), c)
    {
      var r := contexts[i];
      rv := Success;
      match c {
        case DoPoll(_, answer, power) =>
          if !r.loaded {
            return ReaderUnavailable;
          }
          r.PollOnce(answer, power);
        case DoAttach(_, word, power) =>
          if r.loaded {
            return InternalError;
          }
          r.Attach(i, word, power);
        case DoDetach(_) =>
          if !r.loaded {
            return InvalidValue;
          }
          r.Detach();
      }
      view := view[i := r.State()];
    }
  }
}
