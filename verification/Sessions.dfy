/**
 The reader table as a state machine over all calls, and the invariant over whole runs.
 */
module Sessions {
  import opened StatusWord
  import opened Atr
  import opened Protocols
  import opened Readers
  import opened SharingInvariant
  import opened CallsKeepInvariant

  type Table = seq<Reader>

  datatype Call =
    | DoConnect(i: nat, share: Share, preferred: Mask, pts: Pts, h: nat)
    | DoReconnect(h: nat, share: Share, preferred: Mask, init: Disposition, pts: Pts, power: Power, stillThere: bool)
    | DoDisconnect(h: nat, disposition: Disposition, power: Power)
    | DoBegin(h: nat)
    | DoEnd(h: nat, disposition: Disposition, power: Power, eject: Code)
    | DoCancel(h: nat)
    | DoTransmit(h: nat, send: Mask, driver: Code)
    | DoControl(h: nat, bare: bool, driver: Code)  // SCardControl and, with `bare` false, SCardGetAttrib and SCardSetAttrib
    | DoStatus(h: nat)
    | DoPoll(i: nat, answer: IccStatus, power: Power)
    | DoAttach(i: nat, word: Word, power: Power)
    | DoDetach(i: nat)
    | ResumeConnect(i: nat, share: Share, preferred: Mask, pts: Pts, h: nat)  // behind the wait for the lock
    | ResumeDisconnect(i: nat, h: nat, disposition: Disposition, power: Power)

  /** Calls that name a card handle. */
  predicate ByHandle(c: Call) {
    !c.DoConnect? && !c.DoPoll? && !c.DoAttach? && !c.DoDetach? && !c.ResumeConnect? && !c.ResumeDisconnect?
  }

  /** RFReaderInfoById: the first slot whose identity is the high half of h, or the table size. */
  function Route(t: Table, h: nat): (i: nat)
    ensures i <= |t|
    ensures i < |t| ==> t[i].identity == h / IDENTITY_UNIT * IDENTITY_UNIT
    ensures forall j :: 0 <= j < i ==> t[j].identity != h / IDENTITY_UNIT * IDENTITY_UNIT
  {
    if t == [] then 0
    else if t[0].identity == h / IDENTITY_UNIT * IDENTITY_UNIT then 0
    else 1 + Route(t[1..], h)
  }

  /** RFFindReaderHandle. */
  predicate Found(t: Table, h: nat) {
    exists i :: 0 <= i < |t| && t[i].live && Holds(t[i].sh.handles, h)
  }

  /** A call with a handle on the reader it is routed to. */
  function Apply(r: Reader, found: bool, c: Call): (Reader, Code)
    requires ByHandle(c)
  {
    match c
    case DoReconnect(h, share, preferred, init, pts, power, stillThere) =>
      Reconnect(r, h, found, share, preferred, init, pts, power, stillThere)
    case DoDisconnect(h, disposition, power) => Disconnect(r, h, found, disposition, power)
    case DoBegin(h) => Begin(r, h, found)
    case DoEnd(h, disposition, power, eject) => End(r, h, found, disposition, power, eject)
    case DoCancel(h) => Cancel(r, h, found)
    case DoTransmit(h, send, driver) => (r, Transmit(r, h, found, send, driver))
    case DoControl(h, bare, driver) => (r, Control(r, h, found, bare, driver))
    case DoStatus(h) => (r, Status(r, h))
  }

  function Step(t: Table, c: Call): (Table, Code) {
    match c
    case DoConnect(i, share, preferred, pts, h) =>
      if i >= |t| then (t, ReaderUnavailable)
      else var (r, rv) := Connect(t[i], share, preferred, pts, h); (t[i := r], rv)
    case DoPoll(i, answer, power) =>
      if i >= |t| || !t[i].live then (t, ReaderUnavailable) else (t[i := Poll(t[i], answer, power)], Success)
    case DoAttach(i, word, power) =>
      if i >= |t| || t[i].live then (t, InternalError)
      else (t[i := Attached(t[i], i, word, power)], Success)
    case DoDetach(i) =>
      if i >= |t| || !t[i].live then (t, InvalidValue)
      else (t[i := Detached(t[i])], Success)
    case ResumeConnect(i, share, preferred, pts, h) =>
      if i >= |t| then (t, ReaderUnavailable)
      else var (r, rv) := ConnectResumed(t[i], share, preferred, pts, h); (t[i := r], rv)
    case ResumeDisconnect(i, h, disposition, power) =>
      if i >= |t| then (t, InvalidValue)
      else var (r, rv) := DisconnectResumed(t[i], h, disposition, power); (t[i := r], rv)
    case _ =>
      if c.h == 0 then (t, InvalidHandle)
      else
        var i := Route(t, c.h);
        if i == |t| then (t, InvalidValue)
        else var (r, rv) := Apply(t[i], Found(t, c.h), c); (t[i := r], rv)
  }

  /** The lock a call has waited for is free, and what the call checked before its wait, but not after it, still holds. */
  ghost predicate MayResume(r: Reader, i: nat, c: Call)
    requires c.ResumeConnect? || c.ResumeDisconnect?
  {
    && r.sh.lockId == 0
    && c.h / IDENTITY_UNIT == i + 1
    && (c.ResumeConnect? ==> !(r.sh.contexts == EXCLUSIVE_CONTEXT && c.share != Exclusive && Admitted(r, c.share, c.preferred, c.pts)))
    && (c.ResumeDisconnect? ==> Holds(r.sh.handles, c.h) || r.sh.contexts == 0)
  }

  /** New handles carry the identity of their reader and are not in use, and resumed calls find what they need. */
  ghost predicate Enabled(t: Table, c: Call) {
    && ((c.DoConnect? || c.ResumeConnect?) && c.i < |t| ==> Fresh(t[c.i], c.i, c.h))
    && ((c.ResumeConnect? || c.ResumeDisconnect?) && c.i < |t| ==> MayResume(t[c.i], c.i, c))
  }

  ghost predicate TableInv(t: Table) {
    forall i :: 0 <= i < |t| ==> ReaderOk(t[i], i)
  }

  /** A live handle is found and routed to its own reader. */
  lemma {:induction false} HandleRoutes(t: Table, i: nat, h: nat)
    requires TableInv(t) && i < |t| && t[i].live && h != 0 && Holds(t[i].sh.handles, h)
    ensures Route(t, h) == i && Found(t, h)
  {
    assert t[i].sh.handles[IndexOf(t[i].sh.handles, h)].hCard == h;
    assert h / IDENTITY_UNIT == i + 1;
    var j := Route(t, h);
    assert t[i].identity == h / IDENTITY_UNIT * IDENTITY_UNIT;
    assert j <= i;
    assert ReaderOk(t[j], j);
  }

  /** A handle that is found belongs to the reader it is routed to. */
  lemma {:induction false} FoundIsRouted(t: Table, h: nat)
    requires TableInv(t) && h != 0 && Found(t, h)
    ensures var i := Route(t, h); i < |t| && t[i].live && Holds(t[i].sh.handles, h)
  {
    var i :| 0 <= i < |t| && t[i].live && Holds(t[i].sh.handles, h);
    HandleRoutes(t, i, h);
  }

  lemma {:induction false} ApplyKeeps(r: Reader, i: nat, found: bool, c: Call)
    requires ByHandle(c) && c.h != 0 && ReaderOk(r, i) && (found ==> r.live && Holds(r.sh.handles, c.h))
    ensures ReaderOk(Apply(r, found, c).0, i)
  {
    match c
    case DoReconnect(h, share, preferred, init, pts, power, stillThere) =>
      ReconnectKeeps(r, i, h, found, share, preferred, init, pts, power, stillThere);
    case DoDisconnect(h, disposition, power) => DisconnectKeeps(r, i, h, found, disposition, power);
    case DoBegin(h) => BeginKeeps(r, i, h, found);
    case DoEnd(h, disposition, power, eject) => EndKeeps(r, i, h, found, disposition, power, eject);
    case DoCancel(h) => CancelKeeps(r, i, h, found);
    case _ =>
  }

  lemma {:induction false} UpdateKeeps(t: Table, i: nat, r: Reader)
    requires TableInv(t) && i < |t|
    ensures TableInv(t[i := r]) <==> ReaderOk(r, i)
  {
    assert t[i := r][i] == r;
  }

  lemma {:induction false} HandleStepKeeps(t: Table, c: Call)
    requires TableInv(t) && ByHandle(c)
    ensures TableInv(Step(t, c).0) && |Step(t, c).0| == |t|
  {
    if c.h != 0 && Route(t, c.h) < |t| {
      if Found(t, c.h) {
        FoundIsRouted(t, c.h);
      }
      var i := Route(t, c.h);
      ApplyKeeps(t[i], i, Found(t, c.h), c);
      UpdateKeeps(t, i, Apply(t[i], Found(t, c.h), c).0);
    }
  }

  lemma {:induction false} StepKeeps(t: Table, c: Call)
    requires TableInv(t) && Enabled(t, c)
    ensures TableInv(Step(t, c).0) && |Step(t, c).0| == |t|
  {
    if ByHandle(c) {
      HandleStepKeeps(t, c);
    } else {
      SlotStepKeeps(t, c);
    }
  }

  /** A resumed call keeps the invariant if and only if it may resume. */
  lemma {:induction false} ResumeKeepsExactly(t: Table, c: Call)
    requires TableInv(t) && (c.ResumeConnect? || c.ResumeDisconnect?) && c.i < |t|
    requires t[c.i].sh.lockId == 0 && c.h / IDENTITY_UNIT == c.i + 1 && (c.ResumeConnect? ==> Fresh(t[c.i], c.i, c.h))
    ensures TableInv(Step(t, c).0) <==> MayResume(t[c.i], c.i, c)
  {
    var r' := if c.ResumeConnect? then ConnectResumed(t[c.i], c.share, c.preferred, c.pts, c.h).0
              else DisconnectResumed(t[c.i], c.h, c.disposition, c.power).0;
    assert Step(t, c).0 == t[c.i := r'];
    UpdateKeeps(t, c.i, r');
    ResumeKeeps(t[c.i], c.i, c);
  }

  lemma {:induction false} ResumeKeeps(r: Reader, i: nat, c: Call)
    requires ReaderOk(r, i) && (c.ResumeConnect? || c.ResumeDisconnect?) && r.sh.lockId == 0 && c.h / IDENTITY_UNIT == i + 1
    requires c.ResumeConnect? ==> Fresh(r, i, c.h)
    ensures c.ResumeConnect? ==>
              (ReaderOk(ConnectResumed(r, c.share, c.preferred, c.pts, c.h).0, i) <==> MayResume(r, i, c))
    ensures c.ResumeDisconnect? ==>
              (ReaderOk(DisconnectResumed(r, c.h, c.disposition, c.power).0, i) <==> MayResume(r, i, c))
  {
    if c.ResumeDisconnect? {
      DisconnectResumedKeepsExactly(r, i, c.h, c.disposition, c.power);
    } else if r.live {
      ConnectResumedKeepsExactly(r, i, c.share, c.preferred, c.pts, c.h);
    }
  }

  lemma {:induction false} AttachStepKeeps(t: Table, c: Call)
    requires TableInv(t) && c.DoAttach? && c.i < |t| && !t[c.i].live
    ensures TableInv(Step(t, c).0) && |Step(t, c).0| == |t|
  {
    AttachKeeps(t[c.i], c.i, c.word, c.power);
    UpdateKeeps(t, c.i, Attached(t[c.i], c.i, c.word, c.power));
  }

  lemma {:induction false} DetachStepKeeps(t: Table, c: Call)
    requires TableInv(t) && c.DoDetach? && c.i < |t| && t[c.i].live
    ensures TableInv(Step(t, c).0) && |Step(t, c).0| == |t|
  {
    DetachKeeps(t[c.i], c.i);
    UpdateKeeps(t, c.i, Detached(t[c.i]));
  }

  lemma {:induction false} PlugStepKeeps(t: Table, c: Call)
    requires TableInv(t) && (c.DoAttach? || c.DoDetach?)
    ensures TableInv(Step(t, c).0) && |Step(t, c).0| == |t|
  {
    if c.i < |t| {
      if c.DoAttach? && !t[c.i].live {
        AttachStepKeeps(t, c);
      } else if c.DoDetach? && t[c.i].live {
        DetachStepKeeps(t, c);
      }
    }
  }

  lemma {:induction false} UseStepKeeps(t: Table, c: Call)
    requires TableInv(t) && Enabled(t, c) && (c.DoConnect? || c.DoPoll?)
    ensures TableInv(Step(t, c).0) && |Step(t, c).0| == |t|
  {
    if c.i < |t| {
      match c
      case DoConnect(i, share, preferred, pts, h) =>
        ConnectKeeps(t[i], i, share, preferred, pts, h);
        UpdateKeeps(t, i, Connect(t[i], share, preferred, pts, h).0);
      case DoPoll(i, answer, power) =>
        if t[i].live {
          PollKeeps(t[i], i, answer, power);
          UpdateKeeps(t, i, Poll(t[i], answer, power));
        }
    }
  }

  lemma {:induction false} SlotStepKeeps(t: Table, c: Call)
    requires TableInv(t) && Enabled(t, c) && !ByHandle(c)
    ensures TableInv(Step(t, c).0) && |Step(t, c).0| == |t|
  {
    if c.DoAttach? || c.DoDetach? {
      PlugStepKeeps(t, c);
    } else if c.DoConnect? || c.DoPoll? {
      UseStepKeeps(t, c);
    } else if c.i < |t| {
      ResumeKeepsExactly(t, c);
    }
  }

  // ----- runs -----

  function Run(t: Table, cs: seq<Call>): Table
    decreases |cs|
  {
    if cs == [] then t else Run(Step(t, cs[0]).0, cs[1..])
  }

  /** Results of the calls of a run. */
  function Results(t: Table, cs: seq<Call>): seq<Code>
    decreases |cs|
  {
    if cs == [] then [] else [Step(t, cs[0]).1] + Results(Step(t, cs[0]).0, cs[1..])
  }

  /** Every call of the run is enabled when its turn comes. */
  ghost predicate Runnable(t: Table, cs: seq<Call>)
    decreases |cs|
  {
    cs == [] || (Enabled(t, cs[0]) && Runnable(Step(t, cs[0]).0, cs[1..]))
  }

  /** Start-up: every slot of the table unused, with at least one channel, and no handle in it. */
  ghost predicate StartUp(t: Table) {
    forall i :: 0 <= i < |t| ==>
      && !t[i].live && t[i].identity == 0 && |t[i].sh.handles| > 0
      && t[i].sh.contexts == 0 && t[i].sh.lockId == 0 && t[i].sh.lockCount == 0
      && forall k :: 0 <= k < |t[i].sh.handles| ==> t[i].sh.handles[k].hCard == 0
  }

  /** In every reachable state: handle count, routing, lock ownership, coherent status word, legal protocol. */
  lemma {:induction false} InvariantOverRuns(t: Table, cs: seq<Call>)
    requires TableInv(t) && Runnable(t, cs)
    ensures TableInv(Run(t, cs)) && |Run(t, cs)| == |t|
    decreases |cs|
  {
    if cs != [] {
      StepKeeps(t, cs[0]);
      InvariantOverRuns(Step(t, cs[0]).0, cs[1..]);
    }
  }

  lemma {:induction false} ReachableInvariant(t: Table, cs: seq<Call>)
    requires StartUp(t) && Runnable(t, cs)
    ensures TableInv(Run(t, cs))
  {
    forall i | 0 <= i < |t| ensures ReaderOk(t[i], i) {
      CountZero(t[i].sh.handles);
    }
    InvariantOverRuns(t, cs);
  }

  lemma {:induction false} DisconnectWaits(t: Table, i: nat, h: nat, disposition: Disposition, power: Power)
    requires TableInv(t) && i < |t| && t[i].live && h != 0 && Holds(t[i].sh.handles, h) && !MayUse(t[i].sh, h)
    requires disposition != Leave && disposition != BadDisposition
    ensures Step(t, DoDisconnect(h, disposition, power)) == (t, Waiting)
    ensures h / IDENTITY_UNIT == i + 1
  {
    HandleRoutes(t, i, h);
    assert t[i := t[i]] == t;
    assert t[i].sh.handles[IndexOf(t[i].sh.handles, h)].hCard == h;
  }

  /** The reader in slot i is unplugged and plugged in again, and g connects directly. */
  lemma {:induction false} Replugged(t: Table, i: nat, g: nat, h: nat, word: Word, up: Power)
    requires TableInv(t) && i < |t| && t[i].live && h != 0 && g != h && g / IDENTITY_UNIT == i + 1
    ensures var a, b, c := DoDetach(i), DoAttach(i, word, up), DoConnect(i, DirectAccess, {}, Accepted, g);
            var t1 := Step(t, a).0;
            var t2 := Step(t1, b).0;
            var t3 := Step(t2, c).0;
            && Enabled(t, a) && Enabled(t1, b) && Enabled(t2, c)
            && Step(t, a).1 == Success && Step(t1, b).1 == Success && Step(t2, c).1 == Success
            && TableInv(t3) && |t3| == |t|
            && t3[i].sh.lockId == 0 && t3[i].sh.contexts == 1 && !Holds(t3[i].sh.handles, h)
  {
    var a, b, c := DoDetach(i), DoAttach(i, word, up), DoConnect(i, DirectAccess, {}, Accepted, g);
    StepKeeps(t, a);
    var t1 := Step(t, a).0;
    assert !t1[i].live;
    StepKeeps(t1, b);
    var t2 := Step(t1, b).0;
    assert t2[i].live && t2[i].sh.contexts == 0 && Working(t2[i]);
    PluggedAgain(t2[i], i, g, h);
    StepKeeps(t2, c);
  }

  /** A run that breaks the count: while a disconnect of h waits for the lock, the reader is unplugged and plugged in again
      in the same slot, and g connects; the resumed disconnect then takes away the context of g. */
  lemma {:induction false} WaitingDisconnectBreaksCount(t: Table, i: nat, h: nat, g: nat, power: Power, word: Word, up: Power)
    requires TableInv(t) && i < |t| && t[i].live && h != 0 && g != h && Holds(t[i].sh.handles, h)
    requires t[i].sh.lockId != 0 && t[i].sh.lockId != h && g / IDENTITY_UNIT == i + 1
    ensures Step(t, DoDisconnect(h, Reset, power)) == (t, Waiting)
    ensures var cs := [DoDetach(i), DoAttach(i, word, up), DoConnect(i, DirectAccess, {}, Accepted, g)];
            && Runnable(t, cs) && Results(t, cs) == [Success, Success, Success] && TableInv(Run(t, cs))
            && !TableInv(Step(Run(t, cs), ResumeDisconnect(i, h, Reset, power)).0)
  {
    DisconnectWaits(t, i, h, Reset, power);
    Replugged(t, i, g, h, word, up);
    RunThree(t, DoDetach(i), DoAttach(i, word, up), DoConnect(i, DirectAccess, {}, Accepted, g));
    var t3 := Run(t, [DoDetach(i), DoAttach(i, word, up), DoConnect(i, DirectAccess, {}, Accepted, g)]);
    ResumeKeepsExactly(t3, ResumeDisconnect(i, h, Reset, power));
  }

  lemma {:induction false} PluggedAgain(r: Reader, i: nat, g: nat, h: nat)
    requires ReaderOk(r, i) && Working(r) && r.sh.contexts == 0 && g / IDENTITY_UNIT == i + 1 && g != h && h != 0
    ensures Fresh(r, i, g)
    ensures var (r', rv) := Connect(r, DirectAccess, {}, Accepted, g);
            rv == Success && r'.sh.lockId == 0 && r'.sh.contexts == 1 && !Holds(r'.sh.handles, h)
  {
    CountZero(r.sh.handles);
    ExclusiveFindsSlot(r, i);
  }

  lemma {:induction false} RunThree(t: Table, a: Call, b: Call, c: Call)
    ensures var t1 := Step(t, a).0;
            var t2 := Step(t1, b).0;
            && Run(t, [a, b, c]) == Step(t2, c).0
            && Results(t, [a, b, c]) == [Step(t, a).1, Step(t1, b).1, Step(t2, c).1]
            && (Enabled(t, a) && Enabled(t1, b) && Enabled(t2, c) ==> Runnable(t, [a, b, c]))
  {
    var t1 := Step(t, a).0;
    var t2 := Step(t1, b).0;
    assert [a, b, c][1..] == [b, c] && [b, c][1..] == [c];
    RunOne(t2, c);
    assert [Step(t1, b).1] + [Step(t2, c).1] == Results(t1, [b, c]);
  }

  lemma {:induction false} RunOne(t: Table, c: Call)
    ensures Run(t, [c]) == Step(t, c).0 && Results(t, [c]) == [Step(t, c).1]
    ensures Enabled(t, c) ==> Runnable(t, [c])
  {
    assert [c][1..] == [];
  }
}
