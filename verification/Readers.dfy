/**
 Specification of reader sharing, transaction locks, event notification and the
 polling thread: READER_CONTEXT of PCSC/src/readerfactory.c with the calls of
 PCSC/src/winscard.c and one turn of the thread of PCSC/src/eventhandler.c.
 Each call is one atomic step on a reader; driver answers are parameters; a call
 that would sleep until a lock is free answers Waiting and changes nothing.
 */
module Readers {
  import opened StatusWord
  import opened Atr
  import opened Protocols

  datatype Code =
    | Success | InvalidHandle | InvalidValue | ProtoMismatch | ReaderUnavailable | SharingViolation
    | NoSmartcard | UnpoweredCard | UnresponsiveCard | InternalError | ResetCard | RemovedCard
    | InvalidParameter | Waiting | NeverReturns | DriverError(code: int)

  datatype Share = Exclusive | Shared | DirectAccess | BadShare
  datatype Disposition = Leave | Reset | Unpower | Eject | BadDisposition

  /** IFDPowerICC: result and the answer to reset it leaves in the ATR buffer. */
  datatype Power = Power(rv: Code, atr: Memory, length: nat)

  /** IFDStatusICC: result, the two card bits that are looked at, and the ATR buffer. */
  datatype IccStatus = IccStatus(ok: bool, absent: bool, present: bool, atr: Memory, length: nat)

  const EVENT_NONE: nat := 0
  const EVENT_RESET: nat := 1
  const EVENT_REMOVED: nat := 4

  const EXCLUSIVE_CONTEXT: int := -1
  const IDENTITY_UNIT: nat := 0x1_0000

  datatype Slot = Slot(hCard: nat, event: nat)

  /** The part of READER_CONTEXT that arbitrates between handles. */
  datatype Sharing = Sharing(contexts: int, lockId: nat, lockCount: nat, handles: seq<Slot>)

  /** The public reader state. */
  datatype Card = Card(status: Word, protocol: Mask, atr: Memory, atrLength: nat, published: int)

  /** dwCurrentState of the polling thread. */
  datatype Seen = SeenAbsent | SeenPresent | SeenUnknown

  datatype Reader = Reader(live: bool, identity: nat, sh: Sharing, card: Card, seen: Seen, seenContexts: int)

  // ----- handle table -----

  /** First slot that holds h, or the table size. */
  function IndexOf(hs: seq<Slot>, h: nat): (i: nat)
    ensures i <= |hs|
    ensures i < |hs| ==> hs[i].hCard == h
    ensures forall j :: 0 <= j < i ==> hs[j].hCard != h
  {
    if hs == [] then 0 else if hs[0].hCard == h then 0 else 1 + IndexOf(hs[1..], h)
  }

  predicate Holds(hs: seq<Slot>, h: nat) {
    IndexOf(hs, h) < |hs|
  }

  /** RFAddReaderHandle: the first free slot takes h. */
  function AddHandle(hs: seq<Slot>, h: nat): seq<Slot> {
    var i := IndexOf(hs, 0);
    if i < |hs| then hs[i := Slot(h, EVENT_NONE)] else hs
  }

  /** RFRemoveReaderHandle: the first slot with h becomes free. */
  function RemoveHandle(hs: seq<Slot>, h: nat): seq<Slot> {
    var i := IndexOf(hs, h);
    if i < |hs| then hs[i := Slot(0, EVENT_NONE)] else hs
  }

  /** RFSetReaderEventState on the slots. */
  function Marked(hs: seq<Slot>, e: nat): (r: seq<Slot>)
    ensures |r| == |hs|
    ensures forall i {:trigger r[i]} :: 0 <= i < |hs| ==> r[i] == if hs[i].hCard != 0 then Slot(hs[i].hCard, e) else hs[i]
  {
    seq(|hs|, i requires 0 <= i < |hs| => if hs[i].hCard != 0 then Slot(hs[i].hCard, e) else hs[i])
  }

  /** RFClearReaderEventState. */
  function Cleared(hs: seq<Slot>, h: nat): (r: seq<Slot>)
    ensures |r| == |hs|
    ensures forall i {:trigger r[i]} :: 0 <= i < |hs| ==> r[i] == if hs[i].hCard == h then Slot(h, EVENT_NONE) else hs[i]
  {
    seq(|hs|, i requires 0 <= i < |hs| => if hs[i].hCard == h then Slot(h, EVENT_NONE) else hs[i])
  }

  /** RFCheckReaderEventState. */
  function CheckEvent(hs: seq<Slot>, h: nat): Code {
    var i := IndexOf(hs, h);
    if i == |hs| then InvalidHandle
    else if hs[i].event == EVENT_REMOVED then RemovedCard
    else if hs[i].event == EVENT_RESET then ResetCard
    else if hs[i].event == EVENT_NONE then Success
    else InvalidValue
  }

  // ----- lock -----

  /** RFCheckSharing. */
  predicate MayUse(s: Sharing, h: nat) {
    s.lockId == 0 || s.lockId == h
  }

  /** RFLockSharing. */
  function Lock(s: Sharing, h: nat): Sharing {
    if MayUse(s, h) then s.(lockCount := s.lockCount + 1, lockId := h) else s
  }

  /** RFUnlockSharing. */
  function Unlock(s: Sharing, h: nat): Sharing {
    if !MayUse(s, h) then s
    else if s.lockCount > 1 then s.(lockCount := s.lockCount - 1)
    else s.(lockCount := 0, lockId := 0)
  }

  /** RFUnlockAllSharing. */
  function UnlockAll(s: Sharing, h: nat): Sharing {
    if MayUse(s, h) then s.(lockCount := 0, lockId := 0) else s
  }

  /** RFSetReaderEventState: a removal also frees the lock. */
  function SetEvent(s: Sharing, e: nat): Sharing {
    var t := s.(handles := Marked(s.handles, e));
    if e == EVENT_REMOVED then t.(lockId := 0, lockCount := 0) else t
  }

  // ----- shared pieces of the calls -----

  /** RFCheckReaderStatus. */
  predicate Working(r: Reader) {
    r.live && !r.card.status.unknown
  }

  predicate AnyUsable(preferred: Mask) {
    T0 in preferred || T1 in preferred || RAW in preferred || ANY_OLD in preferred
  }

  /** The ATR and protocol section of SCardConnect and SCardReconnect: the protocol word and an error. */
  function Negotiate(c: Card, share: Share, preferred: Mask, pts: Pts): (Mask, Code) {
    if RAW in preferred then ({RAW}, Success)
    else if share == DirectAccess then ({}, Success)
    else if c.protocol == {} then
      var pref := if ANY_OLD in preferred then {T0, T1} else preferred;
      match SetProtocol(pref, AvailableProtocols(c.atr, c.atrLength), DefaultProtocol(c.atr, c.atrLength), pts)
      case PpsFailed => ({}, UnresponsiveCard)
      case WrongArgument => ({}, ProtoMismatch)
      case Use(p) => (p, Success)
    else if preferred * c.protocol == {} then (c.protocol, ProtoMismatch)
    else (c.protocol, Success)
  }

  /** The reset or power cycle of SCardDisconnect and SCardEndTransaction. */
  function PowerCycle(r: Reader, power: Power): Reader {
    var c := r.card.(atr := power.atr, atrLength := power.length, protocol := {});
    var c' := if power.rv == Success then c.(status := PoweredUp(c.status))
              else c.(status := ResetFailed(c.status), atrLength := 0);
    r.(card := c', sh := SetEvent(r.sh, EVENT_RESET))
  }

  function Publish(r: Reader): Reader {
    r.(card := r.card.(published := r.sh.contexts))
  }

  // ----- the calls -----

  /** The last section of SCardConnect: share mode, context count and handle table. */
  function Admit(r: Reader, share: Share, h: nat): (Reader, Code) {
    if share == Exclusive && r.sh.contexts != 0 then (r, SharingViolation)
    else
      var s := if share == Exclusive then Lock(r.sh.(contexts := EXCLUSIVE_CONTEXT), h)
               else r.sh.(contexts := r.sh.contexts + 1);
      if !Holds(s.handles, 0) then
        (r.(sh := s.(contexts := if s.contexts == EXCLUSIVE_CONTEXT then 0
                                 else if s.contexts > 0 then s.contexts - 1 else s.contexts)), InternalError)
      else (Publish(r.(sh := s.(handles := AddHandle(s.handles, h)))), Success)
  }

  /** SCardConnect from the wait for the lock on. */
  function ConnectResumed(r: Reader, share: Share, preferred: Mask, pts: Pts, h: nat): (Reader, Code) {
    if !r.live then (r, NoSmartcard)
    else if share != DirectAccess && !r.card.status.present then (r, NoSmartcard)
    else if share != DirectAccess && r.card.status.swallowed then (r, UnpoweredCard)
    else
      var (protocol, rv) := Negotiate(r.card, share, preferred, pts);
      var r1 := r.(card := r.card.(protocol := protocol));
      if rv != Success then (r1, rv) else Admit(r1, share, h)
  }

  function Connect(r: Reader, share: Share, preferred: Mask, pts: Pts, h: nat): (Reader, Code) {
    if share != DirectAccess && !AnyUsable(preferred) then (r, ProtoMismatch)
    else if share == BadShare then (r, InvalidValue)
    else if !Working(r) then (r, ReaderUnavailable)
    else if r.sh.contexts == EXCLUSIVE_CONTEXT then (r, SharingViolation)
    else if r.sh.lockId != 0 then (r, Waiting)
    else ConnectResumed(r, share, preferred, pts, h)
  }

  /** Outcome of the reset section of SCardReconnect. `stillThere` is the card bit of the extra status query. */
  function ReconnectReset(r: Reader, h: nat, power: Power, stillThere: bool): (Reader, Code) {
    var r1 := r.(card := r.card.(atr := power.atr, atrLength := power.length, protocol := {}));
    match CheckEvent(r.sh.handles, h)
    case ResetCard => (r1, Success)
    case RemovedCard => (r1, RemovedCard)
    case Success =>
      var r2 := r1.(sh := SetEvent(r1.sh, EVENT_RESET), card := r1.card.(status := PoweredUp(r1.card.status)));
      (r2, if r2.card.atrLength > 0 then Success else if stillThere then UnresponsiveCard else NoSmartcard)
    case _ => (r1, InternalError)
  }

  /** The last section of SCardReconnect: change of share mode. */
  function Reshare(r: Reader, h: nat, share: Share): (Reader, Code) {
    if share == Exclusive && r.sh.contexts != EXCLUSIVE_CONTEXT && r.sh.contexts != 1 then (r, SharingViolation)
    else
      var s := if share == Exclusive then
                 if r.sh.contexts == 1 then Lock(r.sh.(contexts := EXCLUSIVE_CONTEXT), h) else r.sh
               else if r.sh.contexts == EXCLUSIVE_CONTEXT then Unlock(r.sh, h).(contexts := 1) else r.sh;
      (Publish(r.(sh := s.(handles := Cleared(s.handles, h)))), Success)
  }

  /** SCardReconnect behind the reset section. */
  function Renegotiate(r: Reader, h: nat, share: Share, preferred: Mask, pts: Pts): (Reader, Code) {
    var (protocol, rv) := Negotiate(r.card, share, preferred, pts);
    var r1 := r.(card := r.card.(protocol := protocol));
    if rv != Success then (r1, rv) else Reshare(r1, h, share)
  }

  /** SCardReconnect once it is let in: reset if asked for, then the rest. */
  function Refresh(r: Reader, h: nat, share: Share, preferred: Mask, init: Disposition, pts: Pts,
                   power: Power, stillThere: bool): (Reader, Code) {
    var (r1, rv1) := if init == Leave then (r, Success) else ReconnectReset(r, h, power, stillThere);
    if rv1 != Success then (r1, rv1) else Renegotiate(r1, h, share, preferred, pts)
  }

  /** The checks in front of SCardReconnect; Success lets the call in. */
  function ReconnectGate(r: Reader, h: nat, found: bool, share: Share, preferred: Mask, init: Disposition): Code {
    if init == Eject || init == BadDisposition || share == BadShare then InvalidValue
    else if share != DirectAccess && !AnyUsable(preferred) then ProtoMismatch
    else if !Working(r) then ReaderUnavailable
    else if !found then InvalidHandle
    else if !MayUse(r.sh, h) then SharingViolation
    else Success
  }

  function Reconnect(r: Reader, h: nat, found: bool, share: Share, preferred: Mask, init: Disposition, pts: Pts,
                     power: Power, stillThere: bool): (Reader, Code) {
    var gate := ReconnectGate(r, h, found, share, preferred, init);
    if gate != Success then (r, gate) else Refresh(r, h, share, preferred, init, pts, power, stillThere)
  }

  /** The last section of SCardDisconnect. */
  function Leaves(r: Reader, h: nat): Reader {
    var n := if r.sh.contexts == EXCLUSIVE_CONTEXT then 0 else if r.sh.contexts > 0 then r.sh.contexts - 1 else 0;
    Publish(r.(sh := r.sh.(handles := RemoveHandle(r.sh.handles, h), contexts := n)))
  }

  function Disconnect(r: Reader, h: nat, found: bool, disposition: Disposition, power: Power): (Reader, Code) {
    if !found then (r, InvalidHandle)
    else if disposition == BadDisposition then (r, InvalidValue)
    else if disposition != Leave && !MayUse(r.sh, h) then (r, Waiting)
    else DisconnectResumed(r, h, disposition, power)
  }

  /** SCardDisconnect from the wait for the lock on. */
  function DisconnectResumed(r: Reader, h: nat, disposition: Disposition, power: Power): (Reader, Code) {
    if !r.live then (r, NoSmartcard)
    else if !MayUse(r.sh, h) then (r, SharingViolation)
    else
      var r1 := r.(sh := UnlockAll(r.sh, h));
      var r2 := if disposition == Reset || disposition == Unpower then PowerCycle(r1, power) else r1;
      (Leaves(r2, h), Success)
  }

  function Begin(r: Reader, h: nat, found: bool): (Reader, Code) {
    if !Working(r) then (r, ReaderUnavailable)
    else if !found then (r, InvalidHandle)
    else if CheckEvent(r.sh.handles, h) != Success then (r, CheckEvent(r.sh.handles, h))
    else if !MayUse(r.sh, h) then (r, SharingViolation)
    else (r.(sh := Lock(r.sh, h)), Success)
  }

  /** The result is that of the power action, not of the unlock. */
  function End(r: Reader, h: nat, found: bool, disposition: Disposition, power: Power, eject: Code): (Reader, Code) {
    if disposition == BadDisposition then (r, InvalidValue)
    else if !found then (r, InvalidHandle)
    else if CheckEvent(r.sh.handles, h) != Success then (r, CheckEvent(r.sh.handles, h))
    else
      var r1 := if disposition == Reset || disposition == Unpower then PowerCycle(r, power) else r;
      (r1.(sh := Unlock(r1.sh, h)),
       if disposition == Reset || disposition == Unpower then power.rv else if disposition == Eject then eject else Success)
  }

  function Cancel(r: Reader, h: nat, found: bool): (Reader, Code) {
    if !found then (r, InvalidHandle)
    else if CheckEvent(r.sh.handles, h) != Success then (r, CheckEvent(r.sh.handles, h))
    else (r.(sh := Unlock(r.sh, h)), if MayUse(r.sh, h) then Success else SharingViolation)
  }

  /** Gate of SCardControl, SCardGetAttrib, SCardSetAttrib and SCardTransmit. */
  function Gate(r: Reader, h: nat, found: bool): Code {
    if !MayUse(r.sh, h) then SharingViolation
    else if !Working(r) then ReaderUnavailable
    else if !found then InvalidHandle
    else CheckEvent(r.sh.handles, h)
  }

  /** SCardControl. `bare` says that the driver speaks version 2.0 of its interface and nothing is to be sent. */
  function Control(r: Reader, h: nat, found: bool, bare: bool, driver: Code): Code {
    if MayUse(r.sh, h) && bare then InvalidParameter
    else if Gate(r, h, found) != Success then Gate(r, h, found)
    else driver
  }

  /** SCardTransmit gets as far as the driver call. */
  predicate Reaches(r: Reader, h: nat, found: bool, send: Mask) {
    && Gate(r, h, found) == Success
    && (send != {RAW} ==> !r.card.status.absent && (send == {ANY_OLD} || send == r.card.protocol))
    && (send == {ANY_OLD} ==> r.card.protocol != {})
  }

  /** SCardTransmit up to the driver call. `send` is the protocol of the send header. */
  function Transmit(r: Reader, h: nat, found: bool, send: Mask, driver: Code): Code {
    if Gate(r, h, found) != Success then Gate(r, h, found)
    else if send != {RAW} && r.card.status.absent then NoSmartcard
    else if send != {RAW} && send != {ANY_OLD} && send != r.card.protocol then ProtoMismatch
    else if send == {ANY_OLD} && r.card.protocol == {} then NeverReturns
    else driver
  }

  function Status(r: Reader, h: nat): Code {
    if !r.live then ReaderUnavailable
    else if r.card.atrLength > MAX_ATR_SIZE then InternalError
    else if CheckEvent(r.sh.handles, h) != Success then CheckEvent(r.sh.handles, h)
    else if !Working(r) then ReaderUnavailable
    else Success
  }

  // ----- polling thread -----

  function CardRemoved(r: Reader): Reader {
    r.(sh := SetEvent(r.sh, EVENT_REMOVED), seen := SeenAbsent,
       card := r.card.(atrLength := 0, protocol := {}, status := Increment(Gone(r.card.status))))
  }

  function CardInserted(r: Reader, power: Power): Reader {
    var c := r.card.(atr := power.atr, atrLength := power.length, protocol := {});
    var c' := if power.rv == Success then c.(status := Increment(PoweredUp(c.status)))
              else c.(status := Increment(Mute(c.status)), atrLength := 0);
    r.(card := c', seen := SeenPresent)
  }

  /** The answer of the driver to a poll, communication errors included. */
  function Answered(r: Reader, answer: IccStatus): Reader {
    var r0 := r.(card := r.card.(atr := answer.atr, atrLength := answer.length));
    if answer.ok then r0
    else r0.(seen := SeenUnknown, card := r0.card.(status := CommError(r0.card.status), atrLength := 0, protocol := {}))
  }

  /** One turn of the loop of EHStatusHandlerThread. */
  function Poll(r: Reader, answer: IccStatus, power: Power): Reader {
    var r1 := Answered(r, answer);
    var r2 := if answer.absent then if r1.seen != SeenAbsent then CardRemoved(r1) else r1
              else if answer.present then if r1.seen != SeenPresent then CardInserted(r1, power) else r1
              else r1;
    if r2.seenContexts != r2.sh.contexts then Publish(r2.(seenContexts := r2.sh.contexts)) else r2
  }

  /** All slots free; stale event words stay until a slot is used again. */
  function Freed(hs: seq<Slot>): (r: seq<Slot>)
    ensures |r| == |hs| && forall i {:trigger r[i]} :: 0 <= i < |hs| ==> r[i] == Slot(0, hs[i].event)
  {
    seq(|hs|, i requires 0 <= i < |hs| => Slot(0, hs[i].event))
  }

  /** Slot i of the reader table right after RFAddReader and the start of its polling thread; `word` is the
      driver's first status. */
  function Attached(r: Reader, i: nat, word: Word, power: Power): Reader {
    var s := Sharing(0, 0, 0, Freed(r.sh.handles));
    var c := Card(word, {}, power.atr, power.length, 0);
    if word.present then
      Reader(true, (i + 1) * IDENTITY_UNIT, s,
             c.(status := if power.rv == Success then PoweredUp(word) else Mute(word)), SeenPresent, 0)
    else
      Reader(true, (i + 1) * IDENTITY_UNIT, s, c.(status := Gone(word), atrLength := 0), SeenAbsent, 0)
  }

  /** The slot after RFRemoveReader. */
  function Detached(r: Reader): Reader {
    r.(live := false, identity := 0, sh := Sharing(0, 0, 0, Freed(r.sh.handles)))
  }
}
