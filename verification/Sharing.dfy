/**
 What every step keeps for one reader: the handle table agrees with the context
 count, handles route back to their reader, and a lock belongs to a live handle.
 */
module SharingInvariant {
  import opened StatusWord
  import opened Atr
  import opened Protocols
  import opened Readers

  /** Number of occupied slots. */
  function Count(hs: seq<Slot>): nat {
    if hs == [] then 0 else (if hs[0].hCard != 0 then 1 else 0) + Count(hs[1..])
  }

  lemma {:induction false} CountUpdate(hs: seq<Slot>, i: nat, x: Slot)
    requires i < |hs|
    ensures Count(hs[i := x]) == Count(hs) + (if x.hCard != 0 then 1 else 0) - (if hs[i].hCard != 0 then 1 else 0)
  {
    if i == 0 {
      assert hs[0 := x][1..] == hs[1..];
    } else {
      assert hs[i := x][1..] == hs[1..][i - 1 := x];
      CountUpdate(hs[1..], i - 1, x);
    }
  }

  lemma {:induction false} CountSame(hs: seq<Slot>, gs: seq<Slot>)
    requires |hs| == |gs| && forall i :: 0 <= i < |hs| ==> hs[i].hCard == gs[i].hCard
    ensures Count(hs) == Count(gs)
  {
    if hs != [] {
      CountSame(hs[1..], gs[1..]);
    }
  }

  lemma {:induction false} CountZero(hs: seq<Slot>)
    ensures Count(hs) == 0 <==> forall i :: 0 <= i < |hs| ==> hs[i].hCard == 0
    ensures Count(hs) <= |hs|
    ensures Count(hs) == |hs| <==> forall i :: 0 <= i < |hs| ==> hs[i].hCard != 0
  {
    if hs != [] {
      CountZero(hs[1..]);
      assert forall i :: 1 <= i < |hs| ==> hs[i] == hs[1..][i - 1];
    }
  }

  predicate LegalEvent(e: nat) {
    e == EVENT_NONE || e == EVENT_RESET || e == EVENT_REMOVED
  }

  /** The handle table of the reader in slot i of the reader table. */
  ghost predicate TableOk(hs: seq<Slot>, i: nat) {
    && |hs| > 0
    && (forall k :: 0 <= k < |hs| && hs[k].hCard != 0 ==> hs[k].hCard / IDENTITY_UNIT == i + 1)
    && (forall j, k :: 0 <= j < k < |hs| && hs[j].hCard == hs[k].hCard ==> hs[j].hCard == 0)
    && (forall k :: 0 <= k < |hs| && hs[k].hCard != 0 ==> LegalEvent(hs[k].event))
  }

  /** The main invariant of READER_CONTEXT. */
  ghost predicate SharingOk(s: Sharing, i: nat) {
    && TableOk(s.handles, i)
    && Count(s.handles) == (if s.contexts == EXCLUSIVE_CONTEXT then 1 else s.contexts)
    && (s.lockCount == 0 <==> s.lockId == 0)
    && (s.lockId != 0 ==> Holds(s.handles, s.lockId))
  }

  predicate CardOk(c: Card) {
    && Coherent(c.status)
    && (c.protocol == {} || c.protocol == {T0} || c.protocol == {T1} || c.protocol == {RAW})
  }

  ghost predicate ReaderOk(r: Reader, i: nat) {
    && SharingOk(r.sh, i)
    && (r.live ==> r.identity == (i + 1) * IDENTITY_UNIT && CardOk(r.card))
    && (!r.live ==> r.identity == 0 && r.sh.contexts == 0)
  }

  // ----- the pieces -----

  lemma {:induction false} HoldsAt(hs: seq<Slot>, h: nat, k: nat)
    requires k < |hs| && hs[k].hCard == h
    ensures Holds(hs, h)
  {
  }

  /** Slots with the same handles find the same handles. */
  lemma {:induction false} HoldsSame(hs: seq<Slot>, gs: seq<Slot>, h: nat)
    requires |hs| == |gs| && forall i :: 0 <= i < |hs| ==> hs[i].hCard == gs[i].hCard
    ensures IndexOf(hs, h) == IndexOf(gs, h)
  {
    var i, j := IndexOf(hs, h), IndexOf(gs, h);
    assert i < |hs| ==> gs[i].hCard == h;
    assert j < |gs| ==> hs[j].hCard == h;
  }

  lemma {:induction false} AddKeeps(hs: seq<Slot>, i: nat, h: nat)
    requires TableOk(hs, i) && Holds(hs, 0) && h / IDENTITY_UNIT == i + 1 && !Holds(hs, h)
    ensures var gs := AddHandle(hs, h);
            TableOk(gs, i) && |gs| == |hs| && Count(gs) == Count(hs) + 1 && Holds(gs, h)
    ensures forall g :: g != 0 && Holds(hs, g) ==> Holds(AddHandle(hs, h), g)
  {
    var k := IndexOf(hs, 0);
    var gs := AddHandle(hs, h);
    CountUpdate(hs, k, Slot(h, EVENT_NONE));
    assert gs[k].hCard == h;
    forall g | g != 0 && Holds(hs, g) ensures Holds(gs, g) {
      assert gs[IndexOf(hs, g)].hCard == g;
    }
    forall j | 0 <= j < |hs| ensures hs[j].hCard != h {
    }
  }

  lemma {:induction false} RemoveKeeps(hs: seq<Slot>, i: nat, h: nat)
    requires TableOk(hs, i) && Holds(hs, h) && h != 0
    ensures var gs := RemoveHandle(hs, h);
            TableOk(gs, i) && |gs| == |hs| && Count(gs) == Count(hs) - 1 && !Holds(gs, h)
  {
    var k := IndexOf(hs, h);
    var gs := RemoveHandle(hs, h);
    CountUpdate(hs, k, Slot(0, EVENT_NONE));
    assert forall j :: 0 <= j < |gs| && j != k ==> gs[j] == hs[j];
    assert gs[k].hCard == 0 && forall j :: 0 <= j < |hs| && j != k ==> hs[j].hCard != h;
  }

  lemma {:induction false} MarkKeeps(s: Sharing, i: nat, e: nat)
    requires SharingOk(s, i) && LegalEvent(e)
    ensures SharingOk(SetEvent(s, e), i)
    ensures SetEvent(s, e).contexts == s.contexts && |SetEvent(s, e).handles| == |s.handles|
    ensures forall h :: IndexOf(SetEvent(s, e).handles, h) == IndexOf(s.handles, h)
  {
    var gs := Marked(s.handles, e);
    CountSame(s.handles, gs);
    forall h ensures IndexOf(gs, h) == IndexOf(s.handles, h) {
      HoldsSame(s.handles, gs, h);
    }
  }

  lemma {:induction false} ClearKeeps(s: Sharing, i: nat, h: nat)
    requires SharingOk(s, i)
    ensures SharingOk(s.(handles := Cleared(s.handles, h)), i)
    ensures forall g :: IndexOf(Cleared(s.handles, h), g) == IndexOf(s.handles, g)
  {
    var gs := Cleared(s.handles, h);
    CountSame(s.handles, gs);
    forall g ensures IndexOf(gs, g) == IndexOf(s.handles, g) {
      HoldsSame(s.handles, gs, g);
    }
  }

  lemma {:induction false} NegotiateKeeps(c: Card, share: Share, preferred: Mask, pts: Pts)
    requires CardOk(c)
    ensures var (p, rv) := Negotiate(c, share, preferred, pts);
            && CardOk(c.(protocol := p))
            && (rv == Success && share != DirectAccess && RAW !in preferred ==> p == {T0} || p == {T1})
  {
    var pref := if ANY_OLD in preferred then {T0, T1} else preferred;
    ChoiceIsOffered(c.atr, c.atrLength, pref, pts);
  }
}
