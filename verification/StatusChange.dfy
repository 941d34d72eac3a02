/**
 The client side of status notification: the per-reader comparison of
 SCardGetStatusChange (PCSC/src/winscard_clnt.c).
 */
module StatusChange {
  import opened StatusWord
  import Readers

  /** Published context count of an exclusively used reader. */
  const EXCLUSIVE := Readers.EXCLUSIVE_CONTEXT

  /** A dwCurrentState or dwEventState word of the caller. */
  datatype Event = Event(ignore: bool, changed: bool, unknown: bool, unavailable: bool, empty: bool, present: bool,
                         atrmatch: bool, exclusive: bool, inuse: bool, mute: bool, unpowered: bool, counter: Half)

  const UNAWARE := Event(false, false, false, false, false, false, false, false, false, false, false, 0)

  /** Why the call returns for a known reader with status word w and `sharing` contexts. */
  predicate SharingDropped(cur: Event, w: Word, sharing: int) {
    || (sharing == EXCLUSIVE && cur.inuse)
    || (sharing >= 1 && w.present && cur.exclusive)
    || (sharing == 0 && (cur.inuse || cur.exclusive))
  }

  predicate CardDiffers(cur: Event, w: Word) {
    || (w.absent && cur.present)
    || (!w.absent && w.present && (cur.empty || w.swallowed != cur.mute))
  }

  predicate CounterDiffers(cur: Event, w: Word) {
    cur.counter != 0 && cur.counter != w.counter
  }

  predicate Wakes(cur: Event, w: Word, sharing: int) {
    || cur.unknown
    || CounterDiffers(cur, w)
    || w.unknown != cur.unavailable
    || CardDiffers(cur, w)
    || SharingDropped(cur, w, sharing)
    || cur == UNAWARE
  }

  /** What is reported to the caller. */
  function Report(cur: Event, w: Word, sharing: int): Event {
    UNAWARE.(
      changed := if w.unknown then !cur.unavailable || CardDiffers(cur, w) || SharingDropped(cur, w, sharing) || cur == UNAWARE
                 else Wakes(cur, w, sharing),
      unavailable := w.unknown && !w.absent && !w.present,
      empty := w.absent,
      present := !w.absent && w.present,
      mute := !w.absent && w.present && w.swallowed,
      exclusive := sharing == EXCLUSIVE,
      inuse := sharing >= 1 && w.present,
      counter := if cur.counter != 0 && !w.unknown then w.counter else 0)
  }

  // ----- one pass of the comparison -----

  /** Counter and reader section: the event word that the pass before left behind is carried on. */
  function ReaderSection(prev: Event, cur: Event, w: Word): Event {
    if w.unknown then UNAWARE.(unavailable := true, changed := !cur.unavailable)
    else
      prev.(unknown := prev.unknown && !cur.unknown,
            counter := if cur.counter != 0 then w.counter else prev.counter,
            unavailable := prev.unavailable && !cur.unavailable,
            changed := prev.changed || cur.unknown || CounterDiffers(cur, w) || cur.unavailable)
  }

  /** The UNKNOWN flag and the counter of the event word, and whether they make the call return. */
  method CompareCounter(prev: Event, cur: Event, w: Word) returns (unknown: bool, counter: Half, brk: bool)
    ensures brk == (cur.unknown || CounterDiffers(cur, w))
    ensures unknown == (prev.unknown && !cur.unknown) && counter == if cur.counter != 0 then w.counter else prev.counter
  {
    unknown, counter, brk := prev.unknown, prev.counter, false;
    if cur.unknown {
      unknown, brk := false, true;
    }
    if cur.counter != 0 {
      if w.counter != cur.counter {
        brk := true;
      }
      counter := w.counter;
    }
  }

  method CompareReaderState(prev: Event, cur: Event, w: Word) returns (ev: Event, brk: bool)
    ensures brk == (cur.unknown || CounterDiffers(cur, w) || w.unknown != cur.unavailable)
    ensures ev == ReaderSection(prev, cur, w)
  {
    var unknown, counter;
    unknown, counter, brk := CompareCounter(prev, cur, w);
    if w.unknown {
      ev, brk := UNAWARE.(unavailable := true, changed := !cur.unavailable), brk || !cur.unavailable;
    } else {
      brk := brk || cur.unavailable;
      ev := prev.(unknown := unknown, counter := counter, unavailable := prev.unavailable && !cur.unavailable,
                  changed := prev.changed || brk);
    }
  }

  /** Card section of the comparison. */
  function CardSection(ev: Event, cur: Event, w: Word): Event {
    if w.absent then
      ev.(empty := true, present := false, ignore := false, unknown := false, unavailable := false,
          atrmatch := false, mute := false, inuse := false, changed := ev.changed || CardDiffers(cur, w))
    else if w.present then
      ev.(present := true, empty := false, ignore := false, unknown := false, unavailable := false,
          mute := w.swallowed, changed := ev.changed || CardDiffers(cur, w))
    else ev
  }

  method CompareCard(cur: Event, w: Word, ev0: Event, brk0: bool) returns (ev: Event, brk: bool)
    ensures brk == (brk0 || CardDiffers(cur, w))
    ensures ev == CardSection(ev0, cur, w)
  {
    ev, brk := ev0, brk0;
    if w.absent {
      ev := ev.(empty := true, present := false, ignore := false, unknown := false, unavailable := false);
      ev := ev.(atrmatch := false, mute := false, inuse := false);
      if cur.present {
        ev, brk := ev.(changed := true), true;
      }
    } else if w.present {
      ev := ev.(present := true, empty := false, ignore := false, unknown := false, unavailable := false, mute := false);
      if cur.empty {
        ev, brk := ev.(changed := true), true;
      }
      if w.swallowed {
        ev := ev.(mute := true);
        if !cur.mute {
          ev, brk := ev.(changed := true), true;
        }
      } else if cur.mute {
        ev, brk := ev.(changed := true), true;
      }
    }
  }

  /** The sharing section says something about the reader: shared use counts only with a card in it. */
  predicate SharingShows(present: bool, sharing: int) {
    sharing == EXCLUSIVE || sharing == 0 || (sharing >= 1 && present)
  }

  /** Sharing section of the comparison: the two flags, and whether use has been given up. */
  method CompareSharing(prev: (bool, bool), curInuse: bool, curExclusive: bool, present: bool, sharing: int)
    returns (exclusive: bool, inuse: bool, drop: bool)
    ensures (exclusive, inuse) == if SharingShows(present, sharing) then (sharing == EXCLUSIVE, sharing >= 1) else prev
    ensures drop == ((sharing == EXCLUSIVE && curInuse) || (sharing >= 1 && present && curExclusive)
                     || (sharing == 0 && (curInuse || curExclusive)))
  {
    exclusive, inuse, drop := prev.0, prev.1, false;
    if sharing == EXCLUSIVE {
      exclusive, inuse := true, false;
      if curInuse {
        drop := true;
      }
    } else if sharing >= 1 {
      if present {
        inuse, exclusive := true, false;
        if curExclusive {
          drop := true;
        }
      }
    } else if sharing == 0 {
      inuse, exclusive := false, false;
      if curInuse {
        drop := true;
      } else if curExclusive {
        drop := true;
      }
    }
  }

  /** Sharing section, and the caller that knows nothing. */
  function UseSection(ev: Event, cur: Event, w: Word, sharing: int): Event {
    ev.(exclusive := if SharingShows(w.present, sharing) then sharing == EXCLUSIVE else ev.exclusive,
        inuse := if SharingShows(w.present, sharing) then sharing >= 1 else ev.inuse,
        changed := ev.changed || SharingDropped(cur, w, sharing) || cur == UNAWARE)
  }

  /** The event word after one pass, the word before it being `prev`. */
  function Pass(prev: Event, cur: Event, w: Word, sharing: int): Event {
    UseSection(CardSection(ReaderSection(prev, cur, w), cur, w), cur, w, sharing)
  }

  method CompareUse(cur: Event, w: Word, sharing: int, ev0: Event, brk0: bool) returns (ev: Event, brk: bool)
    ensures brk == (brk0 || SharingDropped(cur, w, sharing) || cur == UNAWARE)
    ensures ev == UseSection(ev0, cur, w, sharing)
  {
    var exclusive, inuse, drop := CompareSharing((ev0.exclusive, ev0.inuse), cur.inuse, cur.exclusive, w.present, sharing);
    ev, brk := ev0.(exclusive := exclusive, inuse := inuse), brk0;
    if drop || cur == UNAWARE {
      ev, brk := ev.(changed := true), true;
    }
  }

  /** The comparison as the source makes it, flag by flag. */
  method CompareReader(prev: Event, cur: Event, w: Word, sharing: int) returns (ev: Event, brk: bool)
    ensures brk == Wakes(cur, w, sharing) && ev == Pass(prev, cur, w, sharing)
  {
    ev, brk := CompareReaderState(prev, cur, w);
    ev, brk := CompareCard(cur, w, ev, brk);
    ev, brk := CompareUse(cur, w, sharing, ev, brk);
  }

  // ----- passes until something wakes the caller -----

  /** What one pass sees of the reader. */
  datatype Sight = Sight(w: Word, sharing: int)

  ghost predicate Legal(s: Sight) {
    Coherent(s.w) && s.sharing >= EXCLUSIVE
  }

  ghost predicate AllLegal(ss: seq<Sight>) {
    forall k :: 0 <= k < |ss| ==> Legal(ss[k])
  }

  /** None of the passes wakes the caller. */
  ghost predicate Sleeps(cur: Event, ss: seq<Sight>) {
    forall k :: 0 <= k < |ss| ==> !Wakes(cur, ss[k].w, ss[k].sharing)
  }

  /** The event word after passes that start with a cleared word. */
  ghost function AfterPasses(cur: Event, ss: seq<Sight>): Event {
    if ss == [] then UNAWARE
    else var s := ss[|ss| - 1]; Pass(AfterPasses(cur, ss[..|ss| - 1]), cur, s.w, s.sharing)
  }

  /** Column j: what the passes see of reader j. */
  ghost function Column(sss: seq<seq<Sight>>, j: nat): (ss: seq<Sight>)
    requires forall k :: 0 <= k < |sss| ==> j < |sss[k]|
    ensures |ss| == |sss| && forall k :: 0 <= k < |sss| ==> ss[k] == sss[k][j]
  {
    seq(|sss|, k requires 0 <= k < |sss| => sss[k][j])
  }

  /** Some reader wakes the caller in this pass. */
  ghost predicate AnyWakes(curs: seq<Event>, ss: seq<Sight>)
    requires |curs| == |ss|
  {
    exists j :: 0 <= j < |curs| && Wakes(curs[j], ss[j].w, ss[j].sharing)
  }

  /** One pass over all readers. */
  method CompareAll(prevs: seq<Event>, curs: seq<Event>, ss: seq<Sight>) returns (evs: seq<Event>, brk: bool)
    requires |prevs| == |curs| == |ss|
    ensures |evs| == |curs| && forall j :: 0 <= j < |curs| ==> evs[j] == Pass(prevs[j], curs[j], ss[j].w, ss[j].sharing)
    ensures brk <==> AnyWakes(curs, ss)
  {
    evs, brk := [], false;
    var j := 0;
    while j < |curs|
      invariant 0 <= j <= |curs| && |evs| == j
      invariant forall k :: 0 <= k < j ==> evs[k] == Pass(prevs[k], curs[k], ss[k].w, ss[k].sharing)
      invariant brk <==> exists k :: 0 <= k < j && Wakes(curs[k], ss[k].w, ss[k].sharing)
    {
      var ev, wakes := CompareReader(prevs[j], curs[j], ss[j].w, ss[j].sharing);
      evs, brk := evs + [ev], brk || wakes;
      j := j + 1;
    }
  }

  /** The event words of all readers after the first n passes. */
  ghost predicate AllAfter(curs: seq<Event>, sss: seq<seq<Sight>>, n: nat, evs: seq<Event>)
    requires n <= |sss| && forall k :: 0 <= k < |sss| ==> |sss[k]| == |curs|
  {
    |evs| == |curs| && forall j :: 0 <= j < |curs| ==> evs[j] == AfterPasses(curs[j], Column(sss[..n], j))
  }

  lemma {:induction false} PassMore(cur: Event, sss: seq<seq<Sight>>, n: nat, j: nat)
    requires n < |sss| && forall k :: 0 <= k < |sss| ==> j < |sss[k]|
    ensures AfterPasses(cur, Column(sss[..n + 1], j)) ==
            Pass(AfterPasses(cur, Column(sss[..n], j)), cur, sss[n][j].w, sss[n][j].sharing)
  {
    assert Column(sss[..n + 1], j)[..n] == Column(sss[..n], j);
  }

  lemma {:induction false} AllPassMore(curs: seq<Event>, sss: seq<seq<Sight>>, n: nat, prevs: seq<Event>, evs: seq<Event>)
    requires n < |sss| && (forall k :: 0 <= k < |sss| ==> |sss[k]| == |curs|) && AllAfter(curs, sss, n, prevs)
    requires |evs| == |curs|
    requires forall j :: 0 <= j < |curs| ==> evs[j] == Pass(prevs[j], curs[j], sss[n][j].w, sss[n][j].sharing)
    ensures AllAfter(curs, sss, n + 1, evs)
  {
    forall j | 0 <= j < |curs| ensures evs[j] == AfterPasses(curs[j], Column(sss[..n + 1], j)) {
      PassMore(curs[j], sss, n, j);
    }
  }

  /** Of the first n passes, none woke the caller but, if `brk`, the last one. */
  ghost predicate OnlyLastWakes(curs: seq<Event>, sss: seq<seq<Sight>>, n: nat, brk: bool)
    requires n <= |sss| && forall k :: 0 <= k < |sss| ==> |sss[k]| == |curs|
  {
    forall k :: 0 <= k < n ==> (AnyWakes(curs, sss[k]) <==> brk && k == n - 1)
  }

  lemma {:induction false} OneMoreAwake(curs: seq<Event>, sss: seq<seq<Sight>>, n: nat, brk: bool)
    requires n < |sss| && forall k :: 0 <= k < |sss| ==> |sss[k]| == |curs|
    requires OnlyLastWakes(curs, sss, n, false) && (brk <==> AnyWakes(curs, sss[n]))
    ensures OnlyLastWakes(curs, sss, n + 1, brk)
  {
  }

  /** The loop for several readers: it ends with the first pass in which any of them wakes the caller, or when the sights
      do (a timeout), and every reader is reported on as in all the passes so far. */
  method WatchAll(curs: seq<Event>, sss: seq<seq<Sight>>) returns (evs: seq<Event>, brk: bool, n: nat)
    requires forall k :: 0 <= k < |sss| ==> |sss[k]| == |curs|
    ensures n <= |sss| && AllAfter(curs, sss, n, evs)
    ensures brk ==> n > 0
    ensures !brk ==> n == |sss|
    ensures OnlyLastWakes(curs, sss, n, brk)
  {
    evs, brk, n := seq(|curs|, _ => UNAWARE), false, 0;
    while n < |sss| && !brk
      invariant 0 <= n <= |sss| && AllAfter(curs, sss, n, evs)
      invariant (brk ==> n > 0) && OnlyLastWakes(curs, sss, n, brk)
      decreases |sss| - n
    {
      ghost var prevs := evs;
      evs, brk := CompareAll(evs, curs, sss[n]);
      AllPassMore(curs, sss, n, prevs, evs);
      OneMoreAwake(curs, sss, n, brk);
      n := n + 1;
    }
  }

  /** What a sleeping pass leaves alone or clear. */
  predicate Clean(ev: Event, cur: Event) {
    !ev.changed && !ev.atrmatch && !ev.unpowered && (cur.counter == 0 ==> ev.counter == 0)
  }

  /** Only the EXCLUSIVE flag is ever carried on: by a pass that sees shared use of an empty reader. */
  lemma {:induction false} CleanPass(prev: Event, cur: Event, s: Sight)
    requires Legal(s) && Clean(prev, cur)
    ensures var r := Report(cur, s.w, s.sharing);
            Pass(prev, cur, s.w, s.sharing) == r.(exclusive := r.exclusive || (s.sharing >= 1 && s.w.absent && prev.exclusive))
    ensures !Wakes(cur, s.w, s.sharing) ==> Clean(Pass(prev, cur, s.w, s.sharing), cur)
  {
  }

  lemma {:induction false} SleepsClean(cur: Event, ss: seq<Sight>)
    requires AllLegal(ss) && Sleeps(cur, ss)
    ensures Clean(AfterPasses(cur, ss), cur)
    decreases |ss|
  {
    if ss != [] {
      var init, s := ss[..|ss| - 1], ss[|ss| - 1];
      assert Legal(s) && AllLegal(init) && Sleeps(cur, init);
      SleepsClean(cur, init);
      CleanPass(AfterPasses(cur, init), cur, s);
    }
  }

  /** The reader was last seen exclusively used, and since then only without a card and in shared use. */
  predicate Lingers(ss: seq<Sight>) {
    ss != [] && var s := ss[|ss| - 1];
    s.sharing == EXCLUSIVE || (s.sharing >= 1 && s.w.absent && Lingers(ss[..|ss| - 1]))
  }

  lemma {:induction false} ExclusiveLingers(cur: Event, ss: seq<Sight>)
    requires AllLegal(ss) && Sleeps(cur, ss)
    ensures AfterPasses(cur, ss).exclusive <==> Lingers(ss)
    decreases |ss|
  {
    if ss != [] {
      var init, s := ss[..|ss| - 1], ss[|ss| - 1];
      assert Legal(s) && AllLegal(init) && Sleeps(cur, init);
      ExclusiveLingers(cur, init);
      SleepsClean(cur, init);
      CleanPass(AfterPasses(cur, init), cur, s);
    }
  }

  /** What the caller is told after any number of passes is the report on the last one, exactly unless that one sees
      shared use of an empty reader while an EXCLUSIVE flag lingers from a pass before it. */
  lemma {:induction false} ReportOverPasses(cur: Event, ss: seq<Sight>)
    requires ss != [] && AllLegal(ss) && Sleeps(cur, ss[..|ss| - 1])
    ensures var init, s := ss[..|ss| - 1], ss[|ss| - 1];
            AfterPasses(cur, ss) == Report(cur, s.w, s.sharing) <==> !(s.sharing >= 1 && s.w.absent && Lingers(init))
    ensures var s := ss[|ss| - 1];
            AfterPasses(cur, ss) == Report(cur, s.w, s.sharing).(exclusive := Lingers(ss))
  {
    var init, s := ss[..|ss| - 1], ss[|ss| - 1];
    assert Legal(s) && AllLegal(init);
    SleepsClean(cur, init);
    ExclusiveLingers(cur, init);
    CleanPass(AfterPasses(cur, init), cur, s);
  }

  /** A reader that was exclusively used and is then shared, without a card in it, is reported exclusive. */
  lemma {:induction false} StaleExclusive(w: Word)
    requires Coherent(w) && w.absent
    ensures var cur := UNAWARE.(empty := true);
            var ss := [Sight(w, EXCLUSIVE), Sight(w, 1)];
            Sleeps(cur, ss) && AfterPasses(cur, ss).exclusive && !Report(cur, w, 1).exclusive
  {
    var cur := UNAWARE.(empty := true);
    var ss := [Sight(w, EXCLUSIVE), Sight(w, 1)];
    assert ss[..1] == [ss[0]] && [ss[0]][..0] == [];
    assert forall k :: 0 <= k < |ss| ==> Legal(ss[k]);
    assert Lingers([ss[0]]);
    ExclusiveLingers(cur, ss);
  }

  /** No spurious wake-up: a caller that feeds the reported state back does not return while nothing changes. */
  lemma {:induction false} Quiescent(cur: Event, ss: seq<Sight>, changed: bool)
    requires ss != [] && AllLegal(ss) && Sleeps(cur, ss[..|ss| - 1])
    ensures var s := ss[|ss| - 1];
            !Wakes(AfterPasses(cur, ss).(changed := changed), s.w, s.sharing)
  {
    assert Legal(ss[|ss| - 1]);
    ReportOverPasses(cur, ss);
  }

  datatype CardClass = Unreadable | Empty | Silent | Answering

  function ClassOf(w: Word): CardClass {
    if w.unknown then Unreadable else if w.absent then Empty else if w.swallowed then Silent else Answering
  }

  /** What does wake a caller that fed back the report on (w, s): another card class, another event counter while
      one is tracked, or use of the reader being given up. Use being taken up does not wake it. */
  lemma {:induction false} DetectsExactly(cur: Event, w: Word, s: int, w': Word, s': int)
    requires Coherent(w) && Coherent(w') && s >= EXCLUSIVE && s' >= EXCLUSIVE
    ensures var ev := Report(cur, w, s);
            Wakes(ev, w', s') <==>
            || ClassOf(w) != ClassOf(w')
            || (ev.counter != 0 && w.counter != w'.counter)
            || (s == EXCLUSIVE && (s' == 0 || (s' >= 1 && w'.present)))
            || (s >= 1 && w.present && s' <= 0)
  {
  }

  /** A reader that becomes used, even exclusively, goes unnoticed. */
  lemma {:induction false} TakingUpUseIsMissed(w: Word)
    requires Coherent(w)
    ensures !Wakes(Report(UNAWARE, w, 0), w, 1) && !Wakes(Report(UNAWARE, w, 0), w, EXCLUSIVE)
    ensures Report(UNAWARE, w, EXCLUSIVE) != Report(UNAWARE, w, 0)
  {
  }

  /** The caller is told CHANGED whenever the call returns, except when the reader is unreadable, the caller knows
      it, and only the counter or a stale UNKNOWN flag made the call return. */
  lemma {:induction false} ChangedExactly(cur: Event, w: Word, sharing: int)
    requires Coherent(w)
    ensures Wakes(cur, w, sharing) && !Report(cur, w, sharing).changed <==>
            w.unknown && cur.unavailable && (cur.unknown || CounterDiffers(cur, w)) && !SharingDropped(cur, w, sharing)
  {
  }

  // ----- callers that feed reports back -----

  /** What a caller holds after calls that each end with a report, fed back into the next one. */
  ghost function Fed(cur: Event, ss: seq<Sight>): Event
    decreases |ss|
  {
    if ss == [] then cur else Fed(Report(cur, ss[0].w, ss[0].sharing), ss[1..])
  }

  /** The counter is tracked on exactly as long as the caller brought one and no report came from an unreadable reader
      or with a counter that had just wrapped to zero. */
  lemma {:induction false} TrackedExactly(cur: Event, ss: seq<Sight>)
    ensures Fed(cur, ss).counter != 0 <==>
            cur.counter != 0 && forall k :: 0 <= k < |ss| ==> !ss[k].w.unknown && ss[k].w.counter != 0
    decreases |ss|
  {
    if ss != [] {
      TrackedExactly(Report(cur, ss[0].w, ss[0].sharing), ss[1..]);
      assert forall k :: 1 <= k < |ss| ==> ss[k] == ss[1..][k - 1];
    }
  }

  /** A caller that starts unaware never gets a counter, and no counter ever wakes it. */
  lemma {:induction false} UnawareNeverTracks(ss: seq<Sight>, w: Word)
    ensures Fed(UNAWARE, ss).counter == 0 && !CounterDiffers(Fed(UNAWARE, ss), w)
  {
    TrackedExactly(UNAWARE, ss);
  }
}
