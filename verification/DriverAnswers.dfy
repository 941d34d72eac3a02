/**
 What plugging in a reader does to the reader table of PCSC/src/readerfactory.c, said
 about the contexts, the counters and the open libraries themselves.
 */
module DriverAnswers {
  import opened Wrappers
  import opened DriverCounts

  /** Live contexts of the reader with this name and port. */
  function TagCount(cs: seq<Context>, tag: nat): nat {
    if cs == [] then 0 else (if HasTag(cs[0], tag) then 1 else 0) + TagCount(cs[1..], tag)
  }

  lemma {:induction false} TagCountUpdate(cs: seq<Context>, i: nat, x: Context, tag: nat)
    requires i < |cs|
    ensures TagCount(cs[i := x], tag) ==
            TagCount(cs, tag) + (if HasTag(x, tag) then 1 else 0) - (if HasTag(cs[i], tag) then 1 else 0)
  {
    if i == 0 {
      assert cs[0 := x][1..] == cs[1..];
    } else {
      assert cs[i := x][1..] == cs[1..][i - 1 := x];
      TagCountUpdate(cs[1..], i - 1, x, tag);
    }
  }

  lemma {:induction false} NoneTagged(cs: seq<Context>, tag: nat)
    ensures TagCount(cs, tag) == 0 <==> forall k :: 0 <= k < |cs| ==> !HasTag(cs[k], tag)
    ensures TagCount(cs, tag) == 0 <==> WithTag(cs, tag) == |cs|
  {
    if cs != [] {
      NoneTagged(cs[1..], tag);
      assert forall k :: 1 <= k < |cs| ==> cs[k] == cs[1..][k - 1];
    }
  }

  predicate AllUp(slots: seq<Slot>) {
    forall j :: 0 <= j < |slots| ==> slots[j].start == Up
  }

  /** Slots whose driver is not thread safe. */
  function Unsafe(slots: seq<Slot>): nat {
    if slots == [] then 0 else (if slots[0].threadSafe then 0 else 1) + Unsafe(slots[1..])
  }

  /** Every context is as it was, or was unused and now carries the tag, with library v and feed counter f. */
  ghost predicate OnlyJoined(cs: seq<Context>, cs': seq<Context>, tag: nat, v: nat, f: nat) {
    && |cs'| == |cs|
    && forall k :: 0 <= k < |cs| ==>
         cs'[k] == cs[k] || (!Live(cs[k]) && HasTag(cs'[k], tag) && cs'[k].vHandle == v && cs'[k].feeds == f)
  }

  /** The counters from before are as they were, except that f went up by n and m by u. */
  ghost predicate Raised(cells: map<nat, nat>, cells': map<nat, nat>, f: nat, m: nat, n: nat, u: nat) {
    && f in cells && m in cells && f in cells' && m in cells'
    && cells'[f] == cells[f] + n && cells'[m] == cells[m] + u
    && forall a :: a in cells && a != f && a != m ==> a in cells' && cells'[a] == cells[a]
  }

  /** n contexts joined library v: no library was opened or closed, f counts n more, and the mutex counter m counts the u of
      them that point at it. */
  ghost predicate Joined(d: Drivers, d': Drivers, tag: nat, v: nat, f: nat, m: nat, n: nat, u: nat) {
    && OnlyJoined(d.contexts, d'.contexts, tag, v, f)
    && TagCount(d'.contexts, tag) == TagCount(d.contexts, tag) + n
    && MutexUsers(d'.contexts, m) == MutexUsers(d.contexts, m) + u
    && d'.open == d.open
    && Raised(d.cells, d'.cells, f, m, n, u)
  }

  /** n contexts came with a library v of their own: it was not open, it is the only one opened, its feed counter f is n,
      and its mutex counter m counts the u of them that point at it. */
  ghost predicate Loaded(d: Drivers, d': Drivers, tag: nat, v: nat, f: nat, m: nat, n: nat, u: nat) {
    && OnlyJoined(d.contexts, d'.contexts, tag, v, f)
    && TagCount(d'.contexts, tag) == TagCount(d.contexts, tag) + n
    && v !in d.open && d'.open == d.open + {v}
    && f !in d.cells && m !in d.cells && f in d'.cells && m in d'.cells && f != m
    && d'.cells[f] == n && d'.cells[m] == u == MutexUsers(d'.contexts, m)
    && forall a :: a in d.cells ==> a in d'.cells && d'.cells[a] == d.cells[a]
  }

  lemma {:induction false} OneJoins(d: Drivers, p: nat, tag: nat, threadSafe: bool)
    requires Sound(d, false) && Shareable(d, p) && FreeSlot(d.contexts) < |d.contexts|
    ensures var c := d.contexts[p];
            Joined(d, AddShared(d, p, tag, threadSafe, true), tag, c.vHandle, c.feeds, c.mutex, 1, if threadSafe then 0 else 1)
  {
    var i := FreeSlot(d.contexts);
    var x := AddShared(d, p, tag, threadSafe, true).contexts[i];
    TagCountUpdate(d.contexts, i, x, tag);
    UsersUpdate(d.contexts, i, x, d.contexts[p].mutex);
  }

  lemma {:induction false} JoinedTwice(d: Drivers, e: Drivers, g: Drivers, tag: nat, v: nat, f: nat, m: nat, n: nat, u: nat, n': nat, u': nat)
    requires Joined(d, e, tag, v, f, m, n, u) && Joined(e, g, tag, v, f, m, n', u')
    ensures Joined(d, g, tag, v, f, m, n + n', u + u')
  {
  }

  lemma {:induction false} LoadedThenJoined(d: Drivers, e: Drivers, g: Drivers, tag: nat, v: nat, f: nat, m: nat, n: nat, u: nat, n': nat, u': nat)
    requires Loaded(d, e, tag, v, f, m, n, u) && Joined(e, g, tag, v, f, m, n', u')
    ensures Loaded(d, g, tag, v, f, m, n + n', u + u')
  {
  }

  lemma {:induction false} SlotsJoin(d: Drivers, p: nat, tag: nat, slots: seq<Slot>)
    requires Sound(d, false) && Shareable(d, p) && AllUp(slots) && LiveCount(d.contexts) + |slots| <= |d.contexts|
    ensures var c := d.contexts[p];
            Joined(d, AddSlots(d, p, tag, slots), tag, c.vHandle, c.feeds, c.mutex, |slots|, Unsafe(slots))
    decreases |slots|
  {
    if slots != [] {
      var c := d.contexts[p];
      var u := if slots[0].threadSafe then 0 else 1;
      var e := AddShared(d, p, tag, slots[0].threadSafe, true);
      FreeSlotExists(d.contexts);
      OneJoins(d, p, tag, slots[0].threadSafe);
      AddSharedKeeps(d, p, tag, slots[0].threadSafe, true, false);
      AddSharedLives(d, p, tag, slots[0].threadSafe);
      SlotsJoin(e, p, tag, slots[1..]);
      assert e.contexts[p] == c;
      JoinedTwice(d, e, AddSlots(e, p, tag, slots[1..]), tag, c.vHandle, c.feeds, c.mutex, 1, u, |slots| - 1, Unsafe(slots[1..]));
    }
  }

  /** RFAddReader goes through: name and port are new, the parent can be shared, all slots come up and find a context. */
  ghost predicate GoesThrough(d: Drivers, o: Op) {
    && o.Plug? && TagCount(d.contexts, o.tag) == 0
    && (o.parent.Some? ==> Shareable(d, o.parent.value))
    && o.start == Up && AllUp(o.slots)
    && LiveCount(d.contexts) + 1 + |o.slots| <= |d.contexts|
  }

  lemma {:induction false} FirstLoads(d: Drivers, tag: nat)
    requires Sound(d, false) && FreeSlot(d.contexts) < |d.contexts|
    ensures var e := AddFirst(d, tag, true);
            var c := e.contexts[FreeSlot(d.contexts)];
            Loaded(d, e, tag, c.vHandle, c.feeds, c.mutex, 1, 1)
  {
    var i := FreeSlot(d.contexts);
    var x := AddFirst(d, tag, true).contexts[i];
    TagCountUpdate(d.contexts, i, x, tag);
    UsersUpdate(d.contexts, i, x, x.mutex);
    NoUsers(d.contexts, x.mutex);
  }

  /** A reader of its own: one context for it and one for each further slot, all on one library that was not open before,
      and the counters say how many. */
  lemma {:induction false} OwnReaderExactly(d: Drivers, o: Op) returns (v: nat, f: nat, m: nat)
    requires Sound(d, false) && GoesThrough(d, o) && o.parent.None?
    ensures Loaded(d, Perform(d, o), o.tag, v, f, m, 1 + |o.slots|, 1 + Unsafe(o.slots))
    ensures TagCount(Perform(d, o).contexts, o.tag) == 1 + |o.slots|
  {
    var i := FreeSlot(d.contexts);
    var e := AddFirst(d, o.tag, true);
    FreeSlotExists(d.contexts);
    NoneTagged(d.contexts, o.tag);
    FirstLoads(d, o.tag);
    AddFirstKeeps(d, o.tag, true, false);
    AddFirstLives(d, o.tag);
    SlotsJoin(e, i, o.tag, o.slots);
    var c := e.contexts[i];
    v, f, m := c.vHandle, c.feeds, c.mutex;
    LoadedThenJoined(d, e, AddSlots(e, i, o.tag, o.slots), o.tag, v, f, m, 1, 1, |o.slots|, Unsafe(o.slots));
  }

  // ----- clones -----

  /** n contexts joined the library of context c, none was opened or closed, and its feed counter counts them. The mutex
      counter m of the new reader, which u of them point at, is that of c, or a fresh one when the driver is thread safe. */
  ghost predicate Cloned(d: Drivers, d': Drivers, tag: nat, c: Context, threadSafe: bool, m: nat, n: nat, u: nat) {
    && OnlyJoined(d.contexts, d'.contexts, tag, c.vHandle, c.feeds)
    && TagCount(d'.contexts, tag) == TagCount(d.contexts, tag) + n
    && d'.open == d.open
    && if threadSafe then
         && m !in d.cells && m in d'.cells && d'.cells[m] == u == MutexUsers(d'.contexts, m)
         && c.feeds in d.cells && c.feeds in d'.cells && d'.cells[c.feeds] == d.cells[c.feeds] + n
         && forall a :: a in d.cells && a != c.feeds ==> a in d'.cells && d'.cells[a] == d.cells[a]
       else
         && m == c.mutex && Raised(d.cells, d'.cells, c.feeds, m, n, u)
         && MutexUsers(d'.contexts, m) == MutexUsers(d.contexts, m) + u
  }

  /** A thread-safe clone has a mutex counter of its own, at 1. */
  lemma {:induction false} OwnMutex(d: Drivers, p: nat, tag: nat)
    requires Sound(d, false) && Shareable(d, p) && FreeSlot(d.contexts) < |d.contexts|
    ensures var e := AddShared(d, p, tag, true, true);
            var m := e.contexts[FreeSlot(d.contexts)].mutex;
            m !in d.cells && m in e.cells && e.cells[m] == 1 == MutexUsers(e.contexts, m)
  {
    var i := FreeSlot(d.contexts);
    var x := AddShared(d, p, tag, true, true).contexts[i];
    UsersUpdate(d.contexts, i, x, x.mutex);
    NoUsers(d.contexts, x.mutex);
  }

  lemma {:induction false} SafeThenJoined(d: Drivers, e: Drivers, g: Drivers, tag: nat, c: Context, m: nat, n: nat, u: nat)
    requires Joined(d, e, tag, c.vHandle, c.feeds, c.mutex, 1, 0)
    requires m !in d.cells && m in e.cells && e.cells[m] == 1 == MutexUsers(e.contexts, m)
    requires Joined(e, g, tag, c.vHandle, c.feeds, m, n, u)
    ensures Cloned(d, g, tag, c, true, m, 1 + n, 1 + u)
  {
  }

  lemma {:induction false} UnsafeThenJoined(d: Drivers, e: Drivers, g: Drivers, tag: nat, c: Context, n: nat, u: nat)
    requires Joined(d, e, tag, c.vHandle, c.feeds, c.mutex, 1, 1)
    requires Joined(e, g, tag, c.vHandle, c.feeds, c.mutex, n, u)
    ensures Cloned(d, g, tag, c, false, c.mutex, 1 + n, 1 + u)
  {
    JoinedTwice(d, e, g, tag, c.vHandle, c.feeds, c.mutex, 1, 1, n, u);
  }

  /** A clone: one context for it and one for each further slot, all on the library of its parent. */
  lemma {:induction false} CloneExactly(d: Drivers, o: Op) returns (m: nat)
    requires Sound(d, false) && GoesThrough(d, o) && o.parent.Some?
    ensures Cloned(d, Perform(d, o), o.tag, d.contexts[o.parent.value], o.threadSafe, m, 1 + |o.slots|, 1 + Unsafe(o.slots))
    ensures TagCount(Perform(d, o).contexts, o.tag) == 1 + |o.slots|
  {
    var p, i := o.parent.value, FreeSlot(d.contexts);
    var c, e := d.contexts[p], AddShared(d, p, o.tag, o.threadSafe, true);
    FreeSlotExists(d.contexts);
    NoneTagged(d.contexts, o.tag);
    AddSharedKeeps(d, p, o.tag, o.threadSafe, true, false);
    AddSharedLives(d, p, o.tag, o.threadSafe);
    m := e.contexts[i].mutex;
    ClonePutTogether(d, o, p, i, e);
  }

  lemma {:induction false} ClonePutTogether(d: Drivers, o: Op, p: nat, i: nat, e: Drivers)
    requires Sound(d, false) && GoesThrough(d, o) && o.parent == Some(p) && i == FreeSlot(d.contexts) < |d.contexts|
    requires e == AddShared(d, p, o.tag, o.threadSafe, true)
    requires Sound(e, false) && Shareable(e, i) && |e.contexts| == |d.contexts| && LiveCount(e.contexts) == LiveCount(d.contexts) + 1
    ensures Cloned(d, AddSlots(e, i, o.tag, o.slots), o.tag, d.contexts[p], o.threadSafe, e.contexts[i].mutex, 1 + |o.slots|, 1 + Unsafe(o.slots))
  {
    var c := d.contexts[p];
    OneJoins(d, p, o.tag, o.threadSafe);
    SlotsJoin(e, i, o.tag, o.slots);
    if o.threadSafe {
      OwnMutex(d, p, o.tag);
      SafeThenJoined(d, e, AddSlots(e, i, o.tag, o.slots), o.tag, c, e.contexts[i].mutex, |o.slots|, Unsafe(o.slots));
    } else {
      UnsafeThenJoined(d, e, AddSlots(e, i, o.tag, o.slots), o.tag, c, |o.slots|, Unsafe(o.slots));
    }
  }

  // ----- readers that do not come up -----

  /** Live contexts are as they were; an unused one is still unused, or carries the tag. */
  ghost predicate Between(cs: seq<Context>, cs': seq<Context>, tag: nat) {
    && |cs'| == |cs|
    && forall k :: 0 <= k < |cs| ==> if Live(cs[k]) then cs'[k] == cs[k] else !Live(cs'[k]) || HasTag(cs'[k], tag)
  }

  /** Live contexts are as they were, and unused ones are unused. */
  ghost predicate Undone(cs: seq<Context>, cs': seq<Context>) {
    && |cs'| == |cs|
    && forall k :: 0 <= k < |cs| ==> if Live(cs[k]) then cs'[k] == cs[k] else !Live(cs'[k])
  }

  lemma {:induction false} BackedOut(cs: seq<Context>, d: Drivers, tag: nat)
    requires Sound(d, false) && Between(cs, d.contexts, tag) && TagCount(cs, tag) == 0
    ensures Undone(cs, RemoveAll(d, tag).contexts)
  {
    NoneTagged(cs, tag);
    RemoveAllKeeps(d, tag, false);
    forall k | 0 <= k < |cs|
      ensures var c := RemoveAll(d, tag).contexts[k]; if Live(cs[k]) then c == cs[k] else !Live(c)
    {
      assert !HasTag(cs[k], tag);
    }
  }

  lemma {:induction false} OneMoreBetween(cs: seq<Context>, d: Drivers, p: nat, tag: nat, threadSafe: bool, ok: bool)
    requires Sound(d, false) && Shareable(d, p) && FreeSlot(d.contexts) < |d.contexts| && Between(cs, d.contexts, tag)
    ensures var e := AddShared(d, p, tag, threadSafe, ok); Sound(e, false) && Between(cs, e.contexts, tag)
  {
    AddSharedKeeps(d, p, tag, threadSafe, ok, false);
  }

  /** A shared context that does not come up takes the whole reader with it. */
  lemma {:induction false} SharedDown(cs: seq<Context>, d: Drivers, p: nat, tag: nat, threadSafe: bool, ok: bool)
    requires Sound(d, false) && Shareable(d, p) && FreeSlot(d.contexts) < |d.contexts|
    requires Between(cs, d.contexts, tag) && TagCount(cs, tag) == 0
    ensures Undone(cs, RemoveAll(AddShared(d, p, tag, threadSafe, ok), tag).contexts)
  {
    OneMoreBetween(cs, d, p, tag, threadSafe, ok);
    BackedOut(cs, AddShared(d, p, tag, threadSafe, ok), tag);
  }

  lemma {:induction false} SlotsUndone(cs: seq<Context>, d: Drivers, p: nat, tag: nat, slots: seq<Slot>)
    requires Sound(d, false) && Shareable(d, p) && Between(cs, d.contexts, tag) && TagCount(cs, tag) == 0
    requires !(AllUp(slots) && LiveCount(d.contexts) + |slots| <= |d.contexts|)
    ensures Undone(cs, AddSlots(d, p, tag, slots).contexts)
    decreases |slots|
  {
    FreeSlotExists(d.contexts);
    if FreeSlot(d.contexts) == |d.contexts| {
      BackedOut(cs, d, tag);
    } else {
      if slots[0].start == Up {
        OneMoreBetween(cs, d, p, tag, slots[0].threadSafe, true);
        AddSharedLives(d, p, tag, slots[0].threadSafe);
        SlotsUndone(cs, AddShared(d, p, tag, slots[0].threadSafe, true), p, tag, slots[1..]);
      } else {
        SharedDown(cs, d, p, tag, slots[0].threadSafe, slots[0].start != InitFails);
      }
    }
  }

  /** RFAddReader gives up before it takes a context. */
  ghost predicate TurnedAway(d: Drivers, o: Op) {
    TagCount(d.contexts, o.tag) > 0 || LiveCount(d.contexts) == |d.contexts|
    || (o.Plug? && o.parent.Some? && !Shareable(d, o.parent.value))
  }

  lemma {:induction false} OwnReaderUndone(d: Drivers, o: Op)
    requires Sound(d, false) && o.Plug? && o.parent.None? && !GoesThrough(d, o) && !TurnedAway(d, o)
    ensures Undone(d.contexts, Perform(d, o).contexts)
  {
    var e := AddFirst(d, o.tag, o.start != InitFails);
    FreeSlotExists(d.contexts);
    NoneTagged(d.contexts, o.tag);
    AddFirstKeeps(d, o.tag, o.start != InitFails, false);
    if o.start == Up {
      AddFirstLives(d, o.tag);
      SlotsUndone(d.contexts, e, FreeSlot(d.contexts), o.tag, o.slots);
    } else {
      BackedOut(d.contexts, e, o.tag);
    }
  }

  lemma {:induction false} CloneSlotsUndone(d: Drivers, p: nat, tag: nat, threadSafe: bool, slots: seq<Slot>)
    requires Sound(d, false) && Shareable(d, p) && FreeSlot(d.contexts) < |d.contexts| && TagCount(d.contexts, tag) == 0
    requires !(AllUp(slots) && LiveCount(d.contexts) + 1 + |slots| <= |d.contexts|)
    ensures Undone(d.contexts, AddSlots(AddShared(d, p, tag, threadSafe, true), FreeSlot(d.contexts), tag, slots).contexts)
  {
    OneMoreBetween(d.contexts, d, p, tag, threadSafe, true);
    AddSharedLives(d, p, tag, threadSafe);
    SlotsUndone(d.contexts, AddShared(d, p, tag, threadSafe, true), FreeSlot(d.contexts), tag, slots);
  }

  lemma {:induction false} CloneUndone(d: Drivers, o: Op, p: nat)
    requires Sound(d, false) && o.Plug? && o.parent == Some(p) && !GoesThrough(d, o) && !TurnedAway(d, o)
    ensures Undone(d.contexts, Perform(d, o).contexts)
  {
    FreeSlotExists(d.contexts);
    NoneTagged(d.contexts, o.tag);
    if o.start == Up {
      CloneSlotsUndone(d, p, o.tag, o.threadSafe, o.slots);
    } else {
      SharedDown(d.contexts, d, p, o.tag, o.threadSafe, o.start != InitFails);
    }
  }

  lemma {:induction false} UndoneTags(cs: seq<Context>, cs': seq<Context>, tag: nat)
    requires Undone(cs, cs')
    ensures TagCount(cs', tag) == TagCount(cs, tag)
  {
    if cs != [] {
      UndoneTags(cs[1..], cs'[1..], tag);
    }
  }

  /** A reader that is turned away changes nothing at all. */
  lemma {:induction false} TurnedAwayExactly(d: Drivers, o: Op)
    requires Sound(d, false) && o.Plug? && TurnedAway(d, o)
    ensures Perform(d, o) == d
  {
    FreeSlotExists(d.contexts);
    NoneTagged(d.contexts, o.tag);
  }

  /** Plugging in a new reader leaves contexts with its name and port, one for it and one for each further slot, exactly
      when it goes through; otherwise it leaves none, and every other context as it was. */
  lemma {:induction false} PlugExactly(d: Drivers, o: Op)
    requires Sound(d, false) && o.Plug? && TagCount(d.contexts, o.tag) == 0
    ensures TagCount(Perform(d, o).contexts, o.tag) == if GoesThrough(d, o) then 1 + |o.slots| else 0
    ensures !GoesThrough(d, o) ==> Undone(d.contexts, Perform(d, o).contexts)
  {
    if GoesThrough(d, o) {
      if o.parent.None? {
        var v, f, m := OwnReaderExactly(d, o);
      } else {
        var m := CloneExactly(d, o);
      }
    } else {
      PlugUndone(d, o);
      UndoneTags(d.contexts, Perform(d, o).contexts, o.tag);
    }
  }

  lemma {:induction false} PlugUndone(d: Drivers, o: Op)
    requires Sound(d, false) && o.Plug? && !GoesThrough(d, o)
    ensures Undone(d.contexts, Perform(d, o).contexts)
  {
    if TurnedAway(d, o) {
      TurnedAwayExactly(d, o);
    } else if o.parent.None? {
      OwnReaderUndone(d, o);
    } else {
      CloneUndone(d, o, o.parent.value);
    }
  }

  /** Unless a shared initialisation fails, a reader that does not come up leaves the open libraries as they were. */
  lemma {:induction false} UndoneCloses(d: Drivers, o: Op)
    requires DriversOk(d) && o.Plug? && !GoesThrough(d, o) && !SharedFails(d, o)
    ensures Perform(d, o).open == d.open
  {
    var d' := Perform(d, o);
    ExactIsSound(d);
    PerformKeeps(d, o);
    PlugUndone(d, o);
    forall v ensures v in d'.open <==> v in d.open {
      if v in d.open {
        var k :| 0 <= k < |d.contexts| && Live(d.contexts[k]) && d.contexts[k].vHandle == v;
        assert d'.contexts[k] == d.contexts[k];
      }
      if v in d'.open {
        var k :| 0 <= k < |d'.contexts| && Live(d'.contexts[k]) && d'.contexts[k].vHandle == v;
        assert d'.contexts[k] == d.contexts[k];
      }
    }
  }
}
