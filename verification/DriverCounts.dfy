/**
 Shared driver accounting of PCSC/src/readerfactory.c: every reader context points
 at a feed counter and a mutex counter, which clones and slots of one reader share.
 Counters are heap cells, named by the address malloc returned; address 0 is NULL.
 */
module DriverCounts {
  import opened Wrappers

  /** How bringing up a context ends: RFInitializeReader fails, or EHSpawnEventHandler does, or neither. */
  datatype Start = Up | InitFails | ThreadFails

  /** A further slot of a multi-slot reader. */
  datatype Slot = Slot(threadSafe: bool, start: Start)

  datatype Context = Context(vHandle: nat, feeds: nat, mutex: nat, tag: nat)

  /** Reader table, counter cells, open libraries and the next unused address. `tag` is reader name and port. */
  datatype Drivers = Drivers(contexts: seq<Context>, cells: map<nat, nat>, open: set<nat>, next: nat)

  predicate Live(c: Context) {
    c.vHandle != 0
  }

  /** Live contexts whose feed counter is cell a. */
  function FeedUsers(cs: seq<Context>, a: nat): nat {
    if cs == [] then 0 else (if Live(cs[0]) && cs[0].feeds == a then 1 else 0) + FeedUsers(cs[1..], a)
  }

  /** Live contexts whose mutex counter is cell a. */
  function MutexUsers(cs: seq<Context>, a: nat): nat {
    if cs == [] then 0 else (if Live(cs[0]) && cs[0].mutex == a then 1 else 0) + MutexUsers(cs[1..], a)
  }

  lemma {:induction false} UsersUpdate(cs: seq<Context>, i: nat, x: Context, a: nat)
    requires i < |cs|
    ensures FeedUsers(cs[i := x], a) == FeedUsers(cs, a) + (if Live(x) && x.feeds == a then 1 else 0) - (if Live(cs[i]) && cs[i].feeds == a then 1 else 0)
    ensures MutexUsers(cs[i := x], a) == MutexUsers(cs, a) + (if Live(x) && x.mutex == a then 1 else 0) - (if Live(cs[i]) && cs[i].mutex == a then 1 else 0)
  {
    if i == 0 {
      assert cs[0 := x][1..] == cs[1..];
    } else {
      assert cs[i := x][1..] == cs[1..][i - 1 := x];
      UsersUpdate(cs[1..], i - 1, x, a);
    }
  }

  lemma {:induction false} UsersPositive(cs: seq<Context>, i: nat)
    requires i < |cs| && Live(cs[i])
    ensures FeedUsers(cs, cs[i].feeds) > 0 && MutexUsers(cs, cs[i].mutex) > 0
  {
    if i > 0 {
      UsersPositive(cs[1..], i - 1);
    }
  }

  lemma {:induction false} SoleUser(cs: seq<Context>, i: nat, j: nat)
    requires i < |cs| && j < |cs| && i != j && Live(cs[i]) && Live(cs[j])
    ensures cs[i].feeds == cs[j].feeds ==> FeedUsers(cs, cs[i].feeds) > 1
    ensures cs[i].mutex == cs[j].mutex ==> MutexUsers(cs, cs[i].mutex) > 1
  {
    if i == 0 {
      UsersPositive(cs[1..], j - 1);
    } else if j == 0 {
      UsersPositive(cs[1..], i - 1);
    } else {
      SoleUser(cs[1..], i - 1, j - 1);
    }
  }

  lemma {:induction false} NoUsers(cs: seq<Context>, a: nat)
    ensures FeedUsers(cs, a) == 0 <==> forall i :: 0 <= i < |cs| && Live(cs[i]) ==> cs[i].feeds != a
    ensures MutexUsers(cs, a) == 0 <==> forall i :: 0 <= i < |cs| && Live(cs[i]) ==> cs[i].mutex != a
  {
    if cs != [] {
      NoUsers(cs[1..], a);
      assert forall i :: 1 <= i < |cs| ==> cs[i] == cs[1..][i - 1];
    }
  }

  // ----- the invariant -----

  /** Addresses handed out so far: live contexts use allocated cells and open libraries only. */
  ghost predicate Allocated(d: Drivers) {
    && d.next > 0
    && (forall a :: a in d.cells ==> 0 < a < d.next)
    && (forall v :: v in d.open ==> 0 < v < d.next)
    && (forall i :: 0 <= i < |d.contexts| && Live(d.contexts[i]) ==>
          d.contexts[i].vHandle in d.open && d.contexts[i].feeds in d.cells && d.contexts[i].mutex in d.cells)
  }

  /** A counter that `users` contexts point at: it says so, or, unless `exact`, it says more. */
  predicate Covers(count: nat, users: nat, exact: bool) {
    count == users || (!exact && count > users)
  }

  /** Each counter of a live context covers the live contexts that point at it. */
  ghost predicate Counted(d: Drivers, exact: bool) {
    forall i :: 0 <= i < |d.contexts| && Live(d.contexts[i]) ==>
      var c := d.contexts[i];
      && c.feeds in d.cells && Covers(d.cells[c.feeds], FeedUsers(d.contexts, c.feeds), exact)
      && c.mutex in d.cells && Covers(d.cells[c.mutex], MutexUsers(d.contexts, c.mutex), exact)
  }

  /** Feed and mutex cells are different, and contexts share a library exactly when they share the feed cell. */
  ghost predicate Apart(cs: seq<Context>) {
    forall i, j :: 0 <= i < |cs| && 0 <= j < |cs| && Live(cs[i]) && Live(cs[j]) ==>
      cs[i].feeds != cs[j].mutex && (cs[i].feeds == cs[j].feeds <==> cs[i].vHandle == cs[j].vHandle)
  }

  /** No library stays open that no live context uses. */
  ghost predicate NoneLeftOpen(d: Drivers) {
    forall v :: v in d.open ==> exists i :: 0 <= i < |d.contexts| && Live(d.contexts[i]) && d.contexts[i].vHandle == v
  }

  /** What holds in any case: counters are never too small, and a library that is used is open. */
  ghost predicate Sound(d: Drivers, exact: bool) {
    Allocated(d) && Counted(d, exact) && Apart(d.contexts)
  }

  /** Exact accounting: every counter is the number of live contexts that point at it, and a library is open exactly
      while a live context uses it. */
  ghost predicate DriversOk(d: Drivers) {
    Sound(d, true) && NoneLeftOpen(d)
  }

  /** A leak: library v is open and its feed counter a is above the number of contexts that use it. */
  ghost predicate Leaks(d: Drivers, a: nat, v: nat) {
    && a in d.cells && v in d.open && d.cells[a] > FeedUsers(d.contexts, a)
    && forall i :: 0 <= i < |d.contexts| && Live(d.contexts[i]) ==>
         d.contexts[i].mutex != a && (d.contexts[i].feeds == a <==> d.contexts[i].vHandle == v)
  }

  lemma {:induction false} LeakIsNotOk(d: Drivers, a: nat, v: nat)
    requires Leaks(d, a, v)
    ensures !DriversOk(d)
  {
  }

  // ----- the operations -----

  /** First unused context, or the table size. */
  function FreeSlot(cs: seq<Context>): (i: nat)
    ensures i <= |cs| && (i < |cs| ==> !Live(cs[i]))
    ensures forall j :: 0 <= j < i ==> Live(cs[j])
  {
    if cs == [] then 0 else if !Live(cs[0]) then 0 else 1 + FreeSlot(cs[1..])
  }

  /** A reader of its own: fresh counters at 1. When its initialisation succeeds its library is open; when it does not,
      the library is closed again, or was never opened, and the context stays unused. */
  function AddFirst(d: Drivers, tag: nat, ok: bool): Drivers {
    var i := FreeSlot(d.contexts);
    if i == |d.contexts| then d
    else
      var n := d.next;
      Drivers(d.contexts[i := Context(if ok then n + 2 else 0, n, n + 1, tag)], d.cells[n := 1][n + 1 := 1],
              if ok then d.open + {n + 2} else d.open, n + 3)
  }

  /** A clone or a further slot of context p: it shares the feed counter and, unless the driver is thread safe, the
      mutex counter. When its initialisation fails, the context stays unused but the counters stay raised. */
  function AddShared(d: Drivers, p: nat, tag: nat, threadSafe: bool, ok: bool): Drivers
    requires p < |d.contexts| && Live(d.contexts[p]) && d.contexts[p].feeds in d.cells && d.contexts[p].mutex in d.cells
  {
    var i := FreeSlot(d.contexts);
    if i == |d.contexts| then d
    else
      var q := d.contexts[p];
      var v := if ok then q.vHandle else 0;
      var cells := d.cells[q.feeds := d.cells[q.feeds] + 1];
      if threadSafe then
        Drivers(d.contexts[i := Context(v, q.feeds, d.next, tag)], cells[d.next := 1], d.open, d.next + 1)
      else
        Drivers(d.contexts[i := Context(v, q.feeds, q.mutex, tag)], cells[q.mutex := cells[q.mutex] + 1], d.open, d.next)
  }

  /** Decrements cell a and frees it at zero. */
  function Release(cells: map<nat, nat>, a: nat): map<nat, nat> {
    if a !in cells then cells
    else if cells[a] <= 1 then map k | k in cells && k != a :: cells[k]
    else cells[a := cells[a] - 1]
  }

  /** One turn of the loop of RFRemoveReader, on context i. */
  function RemoveOne(d: Drivers, i: nat): Drivers
    requires i < |d.contexts|
  {
    var c := d.contexts[i];
    var open := if c.feeds in d.cells && d.cells[c.feeds] == 1 then d.open - {c.vHandle} else d.open;
    Drivers(d.contexts[i := c.(vHandle := 0)], Release(Release(d.cells, c.mutex), c.feeds), open, d.next)
  }

  predicate HasTag(c: Context, tag: nat) {
    Live(c) && c.tag == tag
  }

  /** First live context with the given name and port, or the table size. */
  function WithTag(cs: seq<Context>, tag: nat): (i: nat)
    ensures i <= |cs| && (i < |cs| ==> HasTag(cs[i], tag))
    ensures forall j :: 0 <= j < i ==> !HasTag(cs[j], tag)
  {
    if cs == [] then 0 else if HasTag(cs[0], tag) then 0 else 1 + WithTag(cs[1..], tag)
  }

  function LiveCount(cs: seq<Context>): (n: nat)
    ensures n <= |cs|
  {
    if cs == [] then 0 else (if Live(cs[0]) then 1 else 0) + LiveCount(cs[1..])
  }

  lemma {:induction false} LiveCountUpdate(cs: seq<Context>, i: nat, x: Context)
    requires i < |cs|
    ensures LiveCount(cs[i := x]) == LiveCount(cs) + (if Live(x) then 1 else 0) - (if Live(cs[i]) then 1 else 0)
  {
    if i == 0 {
      assert cs[0 := x][1..] == cs[1..];
    } else {
      assert cs[i := x][1..] == cs[1..][i - 1 := x];
      LiveCountUpdate(cs[1..], i - 1, x);
    }
  }

  lemma {:induction false} FreeSlotExists(cs: seq<Context>)
    ensures FreeSlot(cs) < |cs| <==> LiveCount(cs) < |cs|
  {
    if cs != [] {
      FreeSlotExists(cs[1..]);
    }
  }

  /** RFRemoveReader: contexts with the tag go one by one. */
  function RemoveAll(d: Drivers, tag: nat): Drivers
    decreases LiveCount(d.contexts)
  {
    var i := WithTag(d.contexts, tag);
    if i == |d.contexts| then d
    else
      LiveCountUpdate(d.contexts, i, d.contexts[i].(vHandle := 0));
      RemoveAll(RemoveOne(d, i), tag)
  }

  /** Context p is live and its counters are there. */
  predicate Shareable(d: Drivers, p: nat) {
    p < |d.contexts| && Live(d.contexts[p]) && d.contexts[p].feeds in d.cells && d.contexts[p].mutex in d.cells
  }

  /** The slots behind the first one of a multi-slot reader in context p; a full table and a slot that does not come up
      undo the whole reader. */
  function AddSlots(d: Drivers, p: nat, tag: nat, slots: seq<Slot>): Drivers
    decreases |slots|
  {
    if slots == [] || !Shareable(d, p) then d
    else if FreeSlot(d.contexts) == |d.contexts| then RemoveAll(d, tag)
    else
      var d' := AddShared(d, p, tag, slots[0].threadSafe, slots[0].start != InitFails);
      if slots[0].start == Up then AddSlots(d', p, tag, slots[1..]) else RemoveAll(d', tag)
  }

  /** RFAddReader: refused for a known name and port, a clone when RFSetReaderName finds a parent, a reader of its own
      otherwise; one that does not come up is removed again. */
  function AddReader(d: Drivers, tag: nat, parent: Option<nat>, threadSafe: bool, start: Start, slots: seq<Slot>): Drivers {
    var i := FreeSlot(d.contexts);
    if WithTag(d.contexts, tag) < |d.contexts| || i == |d.contexts| || (parent.Some? && !Shareable(d, parent.value)) then d
    else
      var d' := if parent.None? then AddFirst(d, tag, start != InitFails)
                else AddShared(d, parent.value, tag, threadSafe, start != InitFails);
      if start == Up then AddSlots(d', i, tag, slots) else RemoveAll(d', tag)
  }

  datatype Op =
    | Plug(tag: nat, parent: Option<nat>, threadSafe: bool, start: Start, slots: seq<Slot>)
    | Unplug(tag: nat)

  function Perform(d: Drivers, o: Op): Drivers {
    match o
    case Plug(tag, parent, threadSafe, start, slots) => AddReader(d, tag, parent, threadSafe, start, slots)
    case Unplug(tag) => RemoveAll(d, tag)
  }

  function RunOps(d: Drivers, os: seq<Op>): Drivers
    decreases |os|
  {
    if os == [] then d else RunOps(Perform(d, os[0]), os[1..])
  }

  // ----- one context -----

  lemma {:induction false} CountedAfterFirst(d: Drivers, tag: nat, ok: bool, exact: bool)
    requires Sound(d, exact) && FreeSlot(d.contexts) < |d.contexts|
    ensures Counted(AddFirst(d, tag, ok), exact)
  {
    var i := FreeSlot(d.contexts);
    var d' := AddFirst(d, tag, ok);
    var x := d'.contexts[i];
    forall k | 0 <= k < |d.contexts| && Live(d'.contexts[k])
      ensures var c := d'.contexts[k];
              && c.feeds in d'.cells && Covers(d'.cells[c.feeds], FeedUsers(d'.contexts, c.feeds), exact)
              && c.mutex in d'.cells && Covers(d'.cells[c.mutex], MutexUsers(d'.contexts, c.mutex), exact)
    {
      var c := d'.contexts[k];
      UsersUpdate(d.contexts, i, x, c.feeds);
      UsersUpdate(d.contexts, i, x, c.mutex);
      if k == i {
        NoUsers(d.contexts, x.feeds);
        NoUsers(d.contexts, x.mutex);
      } else {
        assert c == d.contexts[k];
      }
    }
  }

  lemma {:induction false} ApartAfterFirst(d: Drivers, tag: nat, ok: bool, exact: bool)
    requires Sound(d, exact) && FreeSlot(d.contexts) < |d.contexts|
    ensures Allocated(AddFirst(d, tag, ok)) && Apart(AddFirst(d, tag, ok).contexts)
  {
  }

  lemma {:induction false} AddFirstKeeps(d: Drivers, tag: nat, ok: bool, exact: bool)
    requires Sound(d, exact)
    ensures Sound(AddFirst(d, tag, ok), exact)
    ensures NoneLeftOpen(d) ==> NoneLeftOpen(AddFirst(d, tag, ok))
  {
    var i := FreeSlot(d.contexts);
    if i < |d.contexts| {
      CountedAfterFirst(d, tag, ok, exact);
      ApartAfterFirst(d, tag, ok, exact);
      OpenAfterAdd(d, AddFirst(d, tag, ok), i);
    }
  }

  lemma {:induction false} OpenAfterAdd(d: Drivers, d': Drivers, i: nat)
    requires i < |d.contexts| && !Live(d.contexts[i])
    requires |d'.contexts| == |d.contexts| && forall k :: 0 <= k < |d.contexts| && k != i ==> d'.contexts[k] == d.contexts[k]
    requires d'.open <= d.open + {d'.contexts[i].vHandle} && (d'.open <= d.open || Live(d'.contexts[i]))
    ensures NoneLeftOpen(d) ==> NoneLeftOpen(d')
  {
    if NoneLeftOpen(d) {
      forall v | v in d'.open ensures exists k :: 0 <= k < |d'.contexts| && Live(d'.contexts[k]) && d'.contexts[k].vHandle == v {
        if v in d.open {
          var k :| 0 <= k < |d.contexts| && Live(d.contexts[k]) && d.contexts[k].vHandle == v;
          assert d'.contexts[k].vHandle == v;
        } else {
          assert d'.contexts[i].vHandle == v;
        }
      }
    }
  }

  lemma {:induction false} CountedAfterShare(d: Drivers, p: nat, tag: nat, threadSafe: bool, ok: bool, exact: bool)
    requires Sound(d, exact) && Shareable(d, p) && FreeSlot(d.contexts) < |d.contexts| && (ok || !exact)
    ensures Counted(AddShared(d, p, tag, threadSafe, ok), exact)
  {
    var i := FreeSlot(d.contexts);
    var d' := AddShared(d, p, tag, threadSafe, ok);
    var x := d'.contexts[i];
    forall k | 0 <= k < |d.contexts| && Live(d'.contexts[k])
      ensures var c := d'.contexts[k];
              && c.feeds in d'.cells && Covers(d'.cells[c.feeds], FeedUsers(d'.contexts, c.feeds), exact)
              && c.mutex in d'.cells && Covers(d'.cells[c.mutex], MutexUsers(d'.contexts, c.mutex), exact)
    {
      var c := d'.contexts[k];
      UsersUpdate(d.contexts, i, x, c.feeds);
      UsersUpdate(d.contexts, i, x, c.mutex);
      if k == i {
        NoUsers(d.contexts, d.next);
      } else {
        assert c == d.contexts[k];
      }
    }
  }

  lemma {:induction false} ApartAfterShare(d: Drivers, p: nat, tag: nat, threadSafe: bool, ok: bool, exact: bool)
    requires Sound(d, exact) && Shareable(d, p) && FreeSlot(d.contexts) < |d.contexts|
    ensures Allocated(AddShared(d, p, tag, threadSafe, ok)) && Apart(AddShared(d, p, tag, threadSafe, ok).contexts)
  {
  }

  lemma {:induction false} AddSharedKeeps(d: Drivers, p: nat, tag: nat, threadSafe: bool, ok: bool, exact: bool)
    requires Sound(d, exact) && Shareable(d, p) && (ok || !exact)
    ensures Sound(AddShared(d, p, tag, threadSafe, ok), exact)
    ensures NoneLeftOpen(d) ==> NoneLeftOpen(AddShared(d, p, tag, threadSafe, ok))
  {
    var i := FreeSlot(d.contexts);
    if i < |d.contexts| {
      CountedAfterShare(d, p, tag, threadSafe, ok, exact);
      ApartAfterShare(d, p, tag, threadSafe, ok, exact);
      OpenAfterAdd(d, AddShared(d, p, tag, threadSafe, ok), i);
    }
  }

  /** A library is closed exactly when its last sharer goes. */
  lemma {:induction false} RemoveOneKeeps(d: Drivers, i: nat, exact: bool)
    requires Sound(d, exact) && i < |d.contexts| && Live(d.contexts[i])
    ensures Sound(RemoveOne(d, i), exact)
    ensures exact && NoneLeftOpen(d) ==> NoneLeftOpen(RemoveOne(d, i))
    ensures exact ==> (d.contexts[i].vHandle !in RemoveOne(d, i).open <==>
                       forall j :: 0 <= j < |d.contexts| && j != i ==> d.contexts[j].vHandle != d.contexts[i].vHandle)
  {
    var d' := RemoveOne(d, i);
    UsersPositive(d.contexts, i);
    forall k | 0 <= k < |d.contexts| && Live(d'.contexts[k])
      ensures var e := d'.contexts[k];
              && e.feeds in d'.cells && Covers(d'.cells[e.feeds], FeedUsers(d'.contexts, e.feeds), exact)
              && e.mutex in d'.cells && Covers(d'.cells[e.mutex], MutexUsers(d'.contexts, e.mutex), exact)
              && e.vHandle in d'.open
    {
      var e := d.contexts[k];
      assert k != i && d'.contexts[k] == e;
      SoleUser(d.contexts, i, k);
      UsersUpdate(d.contexts, i, d'.contexts[i], e.feeds);
      UsersUpdate(d.contexts, i, d'.contexts[i], e.mutex);
    }
    if exact {
      OpenAfterRemove(d, i);
    }
  }

  lemma {:induction false} OpenAfterRemove(d: Drivers, i: nat)
    requires Sound(d, true) && i < |d.contexts| && Live(d.contexts[i])
    ensures NoneLeftOpen(d) ==> NoneLeftOpen(RemoveOne(d, i))
    ensures d.contexts[i].vHandle !in RemoveOne(d, i).open <==>
            forall j :: 0 <= j < |d.contexts| && j != i ==> d.contexts[j].vHandle != d.contexts[i].vHandle
  {
    var d' := RemoveOne(d, i);
    var c := d.contexts[i];
    var last := d.cells[c.feeds] == 1;
    if j :| 0 <= j < |d.contexts| && j != i && d.contexts[j].vHandle == c.vHandle {
      SoleUser(d.contexts, i, j);
      assert !last;
    } else {
      UsersUpdate(d.contexts, i, c.(vHandle := 0), c.feeds);
      NoUsers(d'.contexts, c.feeds);
      assert last;
    }
    if NoneLeftOpen(d) {
      forall v | v in d'.open ensures exists k :: 0 <= k < |d'.contexts| && Live(d'.contexts[k]) && d'.contexts[k].vHandle == v {
        if v != c.vHandle {
          var k :| 0 <= k < |d.contexts| && Live(d.contexts[k]) && d.contexts[k].vHandle == v;
          assert d'.contexts[k].vHandle == v;
        } else {
          var j :| 0 <= j < |d.contexts| && j != i && d.contexts[j].vHandle == c.vHandle;
          assert d'.contexts[j].vHandle == v;
        }
      }
    }
  }

  // ----- leaks -----

  lemma {:induction false} LeakAfterAddFirst(d: Drivers, tag: nat, ok: bool, a: nat, v: nat)
    requires Sound(d, false) && Leaks(d, a, v)
    ensures Leaks(AddFirst(d, tag, ok), a, v)
  {
    var i := FreeSlot(d.contexts);
    if i < |d.contexts| {
      UsersUpdate(d.contexts, i, AddFirst(d, tag, ok).contexts[i], a);
    }
  }

  lemma {:induction false} LeakAfterAddShared(d: Drivers, p: nat, tag: nat, threadSafe: bool, ok: bool, a: nat, v: nat)
    requires Sound(d, false) && Shareable(d, p) && Leaks(d, a, v)
    ensures Leaks(AddShared(d, p, tag, threadSafe, ok), a, v)
  {
    var i := FreeSlot(d.contexts);
    if i < |d.contexts| {
      UsersUpdate(d.contexts, i, AddShared(d, p, tag, threadSafe, ok).contexts[i], a);
    }
  }

  lemma {:induction false} LeakAfterRemove(d: Drivers, i: nat, a: nat, v: nat)
    requires Sound(d, false) && Leaks(d, a, v) && i < |d.contexts| && Live(d.contexts[i])
    ensures Leaks(RemoveOne(d, i), a, v)
  {
    UsersPositive(d.contexts, i);
    UsersUpdate(d.contexts, i, RemoveOne(d, i).contexts[i], a);
  }

  /** A shared context that does not come up leaks the library of its parent. */
  lemma {:induction false} FailureLeaks(d: Drivers, p: nat, tag: nat, threadSafe: bool)
    requires Sound(d, false) && Shareable(d, p) && FreeSlot(d.contexts) < |d.contexts|
    ensures Leaks(AddShared(d, p, tag, threadSafe, false), d.contexts[p].feeds, d.contexts[p].vHandle)
  {
    var d' := AddShared(d, p, tag, threadSafe, false);
    UsersUpdate(d.contexts, FreeSlot(d.contexts), d'.contexts[FreeSlot(d.contexts)], d.contexts[p].feeds);
  }

  // ----- readers -----

  /** RFRemoveReader leaves no context with that name and port, every other context as it was, and the accounting intact;
      it mends no leak. */
  lemma {:induction false} RemoveAllKeeps(d: Drivers, tag: nat, exact: bool)
    requires Sound(d, exact)
    ensures Sound(RemoveAll(d, tag), exact) && |RemoveAll(d, tag).contexts| == |d.contexts|
    ensures exact && NoneLeftOpen(d) ==> NoneLeftOpen(RemoveAll(d, tag))
    ensures forall k :: 0 <= k < |d.contexts| ==>
              RemoveAll(d, tag).contexts[k] == if HasTag(d.contexts[k], tag) then d.contexts[k].(vHandle := 0) else d.contexts[k]
    decreases LiveCount(d.contexts)
  {
    var i := WithTag(d.contexts, tag);
    if i < |d.contexts| {
      LiveCountUpdate(d.contexts, i, d.contexts[i].(vHandle := 0));
      RemoveOneKeeps(d, i, exact);
      RemoveAllKeeps(RemoveOne(d, i), tag, exact);
    }
  }

  lemma {:induction false} LeakAfterRemoveAll(d: Drivers, tag: nat, a: nat, v: nat)
    requires Sound(d, false) && Leaks(d, a, v)
    ensures Leaks(RemoveAll(d, tag), a, v)
    decreases LiveCount(d.contexts)
  {
    var i := WithTag(d.contexts, tag);
    if i < |d.contexts| {
      LiveCountUpdate(d.contexts, i, d.contexts[i].(vHandle := 0));
      RemoveOneKeeps(d, i, false);
      LeakAfterRemove(d, i, a, v);
      LeakAfterRemoveAll(RemoveOne(d, i), tag, a, v);
    }
  }

  lemma {:induction false} ExactIsSound(d: Drivers)
    requires Sound(d, true)
    ensures Sound(d, false)
  {
  }

  /** A clone or a further slot, with the clean-up that follows when it does not come up, keeps the exact accounting if and
      only if its initialisation succeeds. */
  lemma {:induction false} AddSharedKeepsExactly(d: Drivers, p: nat, tag: nat, threadSafe: bool, start: Start)
    requires DriversOk(d) && Shareable(d, p) && FreeSlot(d.contexts) < |d.contexts|
    ensures var d' := AddShared(d, p, tag, threadSafe, start != InitFails);
            DriversOk(if start == Up then d' else RemoveAll(d', tag)) <==> start != InitFails
  {
    var d' := AddShared(d, p, tag, threadSafe, start != InitFails);
    if start == InitFails {
      var a, v := d.contexts[p].feeds, d.contexts[p].vHandle;
      ExactIsSound(d);
      FailureLeaks(d, p, tag, threadSafe);
      AddSharedKeeps(d, p, tag, threadSafe, false, false);
      LeakAfterRemoveAll(d', tag, a, v);
      LeakIsNotOk(RemoveAll(d', tag), a, v);
    } else {
      AddSharedKeeps(d, p, tag, threadSafe, true, true);
      RemoveAllKeeps(d', tag, true);
    }
  }

  /** Some slot fails to initialise before another one ends the loop, `room` contexts being free. */
  predicate SlotFails(slots: seq<Slot>, room: nat) {
    slots != [] && room > 0 && (slots[0].start == InitFails || (slots[0].start == Up && SlotFails(slots[1..], room - 1)))
  }

  /** RFAddReader gets as far as taking a context for the reader. */
  predicate Taken(d: Drivers, o: Op) {
    o.Plug? && WithTag(d.contexts, o.tag) == |d.contexts| && LiveCount(d.contexts) < |d.contexts|
    && (o.parent.Some? ==> Shareable(d, o.parent.value))
  }

  /** Some context that shares its driver fails to initialise. */
  predicate SharedFails(d: Drivers, o: Op) {
    Taken(d, o)
    && ((o.parent.Some? && o.start == InitFails)
        || (o.start == Up && SlotFails(o.slots, |d.contexts| - LiveCount(d.contexts) - 1)))
  }

  lemma {:induction false} AddSharedLives(d: Drivers, p: nat, tag: nat, threadSafe: bool)
    requires Sound(d, false) && Shareable(d, p) && FreeSlot(d.contexts) < |d.contexts|
    ensures var d' := AddShared(d, p, tag, threadSafe, true);
            && Shareable(d', p) && Shareable(d', FreeSlot(d.contexts)) && |d'.contexts| == |d.contexts|
            && LiveCount(d'.contexts) == LiveCount(d.contexts) + 1
  {
    var i := FreeSlot(d.contexts);
    LiveCountUpdate(d.contexts, i, AddShared(d, p, tag, threadSafe, true).contexts[i]);
  }

  lemma {:induction false} AddFirstLives(d: Drivers, tag: nat)
    requires Sound(d, false) && FreeSlot(d.contexts) < |d.contexts|
    ensures var d' := AddFirst(d, tag, true);
            && Shareable(d', FreeSlot(d.contexts)) && |d'.contexts| == |d.contexts|
            && LiveCount(d'.contexts) == LiveCount(d.contexts) + 1
  {
    var i := FreeSlot(d.contexts);
    LiveCountUpdate(d.contexts, i, AddFirst(d, tag, true).contexts[i]);
  }

  /** The slots keep what holds in any case, and mend no leak. */
  lemma {:induction false} AddSlotsSound(d: Drivers, p: nat, tag: nat, slots: seq<Slot>)
    requires Sound(d, false)
    ensures Sound(AddSlots(d, p, tag, slots), false)
    ensures forall a, v :: Leaks(d, a, v) ==> Leaks(AddSlots(d, p, tag, slots), a, v)
    decreases |slots|
  {
    if slots != [] && Shareable(d, p) {
      if FreeSlot(d.contexts) == |d.contexts| {
        RemoveAllSound(d, tag);
      } else {
        var d' := AddShared(d, p, tag, slots[0].threadSafe, slots[0].start != InitFails);
        AddSharedSound(d, p, tag, slots[0].threadSafe, slots[0].start != InitFails);
        if slots[0].start == Up {
          AddSlotsSound(d', p, tag, slots[1..]);
        } else {
          RemoveAllSound(d', tag);
        }
      }
    }
  }

  lemma {:induction false} AddSharedSound(d: Drivers, p: nat, tag: nat, threadSafe: bool, ok: bool)
    requires Sound(d, false) && Shareable(d, p)
    ensures Sound(AddShared(d, p, tag, threadSafe, ok), false)
    ensures forall a, v :: Leaks(d, a, v) ==> Leaks(AddShared(d, p, tag, threadSafe, ok), a, v)
  {
    AddSharedKeeps(d, p, tag, threadSafe, ok, false);
    forall a, v | Leaks(d, a, v) ensures Leaks(AddShared(d, p, tag, threadSafe, ok), a, v) {
      LeakAfterAddShared(d, p, tag, threadSafe, ok, a, v);
    }
  }

  lemma {:induction false} AddFirstSound(d: Drivers, tag: nat, ok: bool)
    requires Sound(d, false)
    ensures Sound(AddFirst(d, tag, ok), false)
    ensures forall a, v :: Leaks(d, a, v) ==> Leaks(AddFirst(d, tag, ok), a, v)
  {
    AddFirstKeeps(d, tag, ok, false);
    forall a, v | Leaks(d, a, v) ensures Leaks(AddFirst(d, tag, ok), a, v) {
      LeakAfterAddFirst(d, tag, ok, a, v);
    }
  }

  lemma {:induction false} RemoveAllSound(d: Drivers, tag: nat)
    requires Sound(d, false)
    ensures Sound(RemoveAll(d, tag), false)
    ensures forall a, v :: Leaks(d, a, v) ==> Leaks(RemoveAll(d, tag), a, v)
  {
    RemoveAllKeeps(d, tag, false);
    forall a, v | Leaks(d, a, v) ensures Leaks(RemoveAll(d, tag), a, v) {
      LeakAfterRemoveAll(d, tag, a, v);
    }
  }

  lemma {:induction false} OwnReaderSound(d: Drivers, tag: nat, start: Start, slots: seq<Slot>)
    requires Sound(d, false)
    ensures var d' := AddFirst(d, tag, start != InitFails);
            var d'' := if start == Up then AddSlots(d', FreeSlot(d.contexts), tag, slots) else RemoveAll(d', tag);
            Sound(d'', false) && forall a, v :: Leaks(d, a, v) ==> Leaks(d'', a, v)
  {
    AddFirstSound(d, tag, start != InitFails);
    var d' := AddFirst(d, tag, start != InitFails);
    if start == Up {
      AddSlotsSound(d', FreeSlot(d.contexts), tag, slots);
    } else {
      RemoveAllSound(d', tag);
    }
  }

  lemma {:induction false} CloneSound(d: Drivers, p: nat, tag: nat, threadSafe: bool, start: Start, slots: seq<Slot>)
    requires Sound(d, false) && Shareable(d, p)
    ensures var d' := AddShared(d, p, tag, threadSafe, start != InitFails);
            var d'' := if start == Up then AddSlots(d', FreeSlot(d.contexts), tag, slots) else RemoveAll(d', tag);
            Sound(d'', false) && forall a, v :: Leaks(d, a, v) ==> Leaks(d'', a, v)
  {
    AddSharedSound(d, p, tag, threadSafe, start != InitFails);
    var d' := AddShared(d, p, tag, threadSafe, start != InitFails);
    if start == Up {
      AddSlotsSound(d', FreeSlot(d.contexts), tag, slots);
    } else {
      RemoveAllSound(d', tag);
    }
  }

  lemma {:induction false} PerformSound(d: Drivers, o: Op)
    requires Sound(d, false)
    ensures Sound(Perform(d, o), false)
    ensures forall a, v :: Leaks(d, a, v) ==> Leaks(Perform(d, o), a, v)
  {
    match o
    case Unplug(tag) => RemoveAllSound(d, tag);
    case Plug(tag, parent, threadSafe, start, slots) =>
      if parent.None? {
        OwnReaderSound(d, tag, start, slots);
      } else if Shareable(d, parent.value) {
        CloneSound(d, parent.value, tag, threadSafe, start, slots);
      }
  }

  lemma {:induction false} SharedUp(d: Drivers, p: nat, tag: nat, threadSafe: bool)
    requires DriversOk(d) && Shareable(d, p) && FreeSlot(d.contexts) < |d.contexts|
    ensures var d' := AddShared(d, p, tag, threadSafe, true);
            && DriversOk(d') && Shareable(d', p) && Shareable(d', FreeSlot(d.contexts))
            && |d'.contexts| == |d.contexts| && LiveCount(d'.contexts) == LiveCount(d.contexts) + 1
  {
    ExactIsSound(d);
    AddSharedKeeps(d, p, tag, threadSafe, true, true);
    AddSharedLives(d, p, tag, threadSafe);
  }

  lemma {:induction false} NoRoomKeepsExactly(d: Drivers, p: nat, tag: nat, slots: seq<Slot>)
    requires DriversOk(d) && Shareable(d, p) && FreeSlot(d.contexts) == |d.contexts|
    ensures DriversOk(AddSlots(d, p, tag, slots)) <==> !SlotFails(slots, |d.contexts| - LiveCount(d.contexts))
  {
    FreeSlotExists(d.contexts);
    RemoveAllKeeps(d, tag, true);
  }

  lemma {:induction false} SlotDownKeepsExactly(d: Drivers, p: nat, tag: nat, slots: seq<Slot>)
    requires DriversOk(d) && Shareable(d, p) && FreeSlot(d.contexts) < |d.contexts| && slots != [] && slots[0].start != Up
    ensures DriversOk(AddSlots(d, p, tag, slots)) <==> !SlotFails(slots, |d.contexts| - LiveCount(d.contexts))
  {
    FreeSlotExists(d.contexts);
    AddSharedKeepsExactly(d, p, tag, slots[0].threadSafe, slots[0].start);
  }

  lemma {:induction false} SlotUpKeepsExactly(d: Drivers, p: nat, tag: nat, slots: seq<Slot>, d': Drivers)
    requires Shareable(d, p) && FreeSlot(d.contexts) < |d.contexts| && slots != [] && slots[0].start == Up
    requires d' == AddShared(d, p, tag, slots[0].threadSafe, true)
    requires |d'.contexts| == |d.contexts| && LiveCount(d'.contexts) == LiveCount(d.contexts) + 1
    ensures AddSlots(d, p, tag, slots) == AddSlots(d', p, tag, slots[1..])
    ensures SlotFails(slots, |d.contexts| - LiveCount(d.contexts)) <==> SlotFails(slots[1..], |d'.contexts| - LiveCount(d'.contexts))
  {
    FreeSlotExists(d.contexts);
  }

  /** Further slots keep the exact accounting if and only if none of them fails to initialise. */
  lemma {:induction false} AddSlotsKeepsExactly(d: Drivers, p: nat, tag: nat, slots: seq<Slot>)
    requires DriversOk(d) && Shareable(d, p)
    ensures DriversOk(AddSlots(d, p, tag, slots)) <==> !SlotFails(slots, |d.contexts| - LiveCount(d.contexts))
    decreases |slots|
  {
    if slots != [] {
      if FreeSlot(d.contexts) == |d.contexts| {
        NoRoomKeepsExactly(d, p, tag, slots);
      } else if slots[0].start == Up {
        SharedUp(d, p, tag, slots[0].threadSafe);
        var d' := AddShared(d, p, tag, slots[0].threadSafe, true);
        AddSlotsKeepsExactly(d', p, tag, slots[1..]);
        SlotUpKeepsExactly(d, p, tag, slots, d');
      } else {
        SlotDownKeepsExactly(d, p, tag, slots);
      }
    }
  }

  lemma {:induction false} OwnReaderUpKeepsExactly(d: Drivers, tag: nat, slots: seq<Slot>)
    requires DriversOk(d) && LiveCount(d.contexts) < |d.contexts| && FreeSlot(d.contexts) < |d.contexts|
    ensures DriversOk(AddSlots(AddFirst(d, tag, true), FreeSlot(d.contexts), tag, slots)) <==>
            !SlotFails(slots, |d.contexts| - LiveCount(d.contexts) - 1)
  {
    AddFirstKeeps(d, tag, true, true);
    ExactIsSound(d);
    AddFirstLives(d, tag);
    AddSlotsKeepsExactly(AddFirst(d, tag, true), FreeSlot(d.contexts), tag, slots);
  }

  lemma {:induction false} OwnReaderDownKeeps(d: Drivers, tag: nat, ok: bool)
    requires DriversOk(d)
    ensures DriversOk(RemoveAll(AddFirst(d, tag, ok), tag))
  {
    AddFirstKeeps(d, tag, ok, true);
    RemoveAllKeeps(AddFirst(d, tag, ok), tag, true);
  }

  lemma {:induction false} OwnReaderKeepsExactly(d: Drivers, o: Op)
    requires DriversOk(d) && Taken(d, o) && o.parent.None?
    ensures DriversOk(Perform(d, o)) <==> !SharedFails(d, o)
  {
    FreeSlotExists(d.contexts);
    if o.start == Up {
      OwnReaderUpKeepsExactly(d, o.tag, o.slots);
    } else {
      OwnReaderDownKeeps(d, o.tag, o.start != InitFails);
    }
  }

  lemma {:induction false} CloneKeepsExactly(d: Drivers, o: Op)
    requires DriversOk(d) && Taken(d, o) && o.parent.Some?
    ensures DriversOk(Perform(d, o)) <==> !SharedFails(d, o)
  {
    FreeSlotExists(d.contexts);
    if o.start == Up {
      CloneUpKeepsExactly(d, o.parent.value, o.tag, o.threadSafe, o.slots);
    } else {
      AddSharedKeepsExactly(d, o.parent.value, o.tag, o.threadSafe, o.start);
    }
  }

  lemma {:induction false} CloneUpKeepsExactly(d: Drivers, p: nat, tag: nat, threadSafe: bool, slots: seq<Slot>)
    requires DriversOk(d) && Shareable(d, p) && LiveCount(d.contexts) < |d.contexts| && FreeSlot(d.contexts) < |d.contexts|
    ensures DriversOk(AddSlots(AddShared(d, p, tag, threadSafe, true), FreeSlot(d.contexts), tag, slots)) <==>
            !SlotFails(slots, |d.contexts| - LiveCount(d.contexts) - 1)
  {
    SharedUp(d, p, tag, threadSafe);
    AddSlotsKeepsExactly(AddShared(d, p, tag, threadSafe, true), FreeSlot(d.contexts), tag, slots);
  }

  /** A shared context that fails to initialise leaves a leak behind, whatever is cleaned up after it. */
  lemma {:induction false} SlotFailureLeaks(d: Drivers, p: nat, tag: nat, slots: seq<Slot>) returns (a: nat, v: nat)
    requires Sound(d, false) && Shareable(d, p) && SlotFails(slots, |d.contexts| - LiveCount(d.contexts))
    ensures Leaks(AddSlots(d, p, tag, slots), a, v)
    decreases |slots|
  {
    FreeSlotExists(d.contexts);
    AddSharedSound(d, p, tag, slots[0].threadSafe, slots[0].start != InitFails);
    if slots[0].start == InitFails {
      a, v := d.contexts[p].feeds, d.contexts[p].vHandle;
      FailureLeaks(d, p, tag, slots[0].threadSafe);
      RemoveAllSound(AddShared(d, p, tag, slots[0].threadSafe, false), tag);
    } else {
      AddSharedLives(d, p, tag, slots[0].threadSafe);
      a, v := SlotFailureLeaks(AddShared(d, p, tag, slots[0].threadSafe, true), p, tag, slots[1..]);
    }
  }

  lemma {:induction false} PlugFailureLeaks(d: Drivers, o: Op) returns (a: nat, v: nat)
    requires Sound(d, false) && SharedFails(d, o)
    ensures Leaks(Perform(d, o), a, v)
  {
    var i := FreeSlot(d.contexts);
    FreeSlotExists(d.contexts);
    if o.parent.None? {
      AddFirstSound(d, o.tag, true);
      AddFirstLives(d, o.tag);
      a, v := SlotFailureLeaks(AddFirst(d, o.tag, true), i, o.tag, o.slots);
    } else {
      var p := o.parent.value;
      AddSharedSound(d, p, o.tag, o.threadSafe, o.start != InitFails);
      if o.start == InitFails {
        a, v := d.contexts[p].feeds, d.contexts[p].vHandle;
        FailureLeaks(d, p, o.tag, o.threadSafe);
        RemoveAllSound(AddShared(d, p, o.tag, o.threadSafe, false), o.tag);
      } else {
        AddSharedLives(d, p, o.tag, o.threadSafe);
        a, v := SlotFailureLeaks(AddShared(d, p, o.tag, o.threadSafe, true), i, o.tag, o.slots);
      }
    }
  }

  // ----- runs -----

  /** At some point of the run a context that shares its driver fails to initialise. */
  predicate EverFails(d: Drivers, os: seq<Op>)
    decreases |os|
  {
    os != [] && (SharedFails(d, os[0]) || EverFails(Perform(d, os[0]), os[1..]))
  }

  lemma {:induction false} PerformKeeps(d: Drivers, o: Op)
    requires DriversOk(d) && !SharedFails(d, o)
    ensures DriversOk(Perform(d, o))
  {
    if o.Unplug? {
      RemoveAllKeeps(d, o.tag, true);
    } else if Taken(d, o) {
      if o.parent.None? {
        OwnReaderKeepsExactly(d, o);
      } else {
        CloneKeepsExactly(d, o);
      }
    } else {
      FreeSlotExists(d.contexts);
    }
  }

  /** A leak stays for good. */
  lemma {:induction false} LeakOverRuns(d: Drivers, os: seq<Op>, a: nat, v: nat)
    requires Sound(d, false) && Leaks(d, a, v)
    ensures Leaks(RunOps(d, os), a, v)
    decreases |os|
  {
    if os != [] {
      PerformSound(d, os[0]);
      LeakOverRuns(Perform(d, os[0]), os[1..], a, v);
    }
  }

  /** Over every run of adding and removing readers, with clones, multi-slot readers and failures of every kind: the
      accounting is exact if and only if no context that shares its driver ever failed to initialise; and a library
      that such a failure leaves behind is never closed. */
  lemma {:induction false} AccountingOverRuns(d: Drivers, os: seq<Op>)
    requires DriversOk(d)
    ensures DriversOk(RunOps(d, os)) <==> !EverFails(d, os)
    ensures EverFails(d, os) ==> exists a, v :: Leaks(RunOps(d, os), a, v)
    decreases |os|
  {
    if os != [] {
      if SharedFails(d, os[0]) {
        ExactIsSound(d);
        PerformSound(d, os[0]);
        var a, v := PlugFailureLeaks(d, os[0]);
        LeakOverRuns(Perform(d, os[0]), os[1..], a, v);
        LeakIsNotOk(RunOps(d, os), a, v);
      } else {
        PerformKeeps(d, os[0]);
        AccountingOverRuns(Perform(d, os[0]), os[1..]);
      }
    }
  }

  /** After a run that leaves no reader plugged in, every library is closed if and only if no such failure happened. */
  lemma {:induction false} AllClosedInTheEnd(d: Drivers, os: seq<Op>)
    requires DriversOk(d) && forall i :: 0 <= i < |RunOps(d, os).contexts| ==> !Live(RunOps(d, os).contexts[i])
    ensures RunOps(d, os).open == {} <==> !EverFails(d, os)
  {
    AccountingOverRuns(d, os);
  }

  /** The tables of readerfactory.c, updated in place. */
  class Registry {
    var contexts: seq<Context>
    var cells: map<nat, nat>
    var open: set<nat>
    var next: nat

    ghost function State(): Drivers
      reads this
    {
      Drivers(contexts, cells, open, next)
    }

    /** RFRemoveReader. */
    method RemoveReader(tag: nat)
      requires Sound(State(), false)
      modifies this
      ensures State() == RemoveAll(old(State()), tag) && Sound(State(), false)
      ensures forall i :: 0 <= i < |contexts| ==> !HasTag(contexts[i], tag)
    {
      var i := FindTag(tag);
      while i < |contexts|
        invariant RemoveAll(State(), tag) == RemoveAll(old(State()), tag)
        invariant Sound(State(), false) && i == WithTag(contexts, tag)
        decreases LiveCount(contexts)
      {
        LiveCountUpdate(contexts, i, contexts[i].(vHandle := 0));
        RemoveOneKeeps(State(), i, false);
        RemoveContext(i);
        i := FindTag(tag);
      }
    }

    method FindFree() returns (i: nat)
      ensures i == FreeSlot(contexts)
    {
      i := 0;
      while i < |contexts|
        invariant i <= |contexts| && forall j :: 0 <= j < i ==> Live(contexts[j])
      {
        if contexts[i].vHandle == 0 {
          return;
        }
        i := i + 1;
      }
    }

    /** Takes over the counters of context p for the unused context i, and initialises it. */
    method Share(i: nat, p: nat, tag: nat, threadSafe: bool, ok: bool)
      requires Sound(State(), false) && Shareable(State(), p) && i == FreeSlot(contexts) < |contexts|
      modifies this
      ensures State() == AddShared(old(State()), p, tag, threadSafe, ok)
    {
      var q := contexts[p];
      var v := if ok then q.vHandle else 0;
      cells := cells[q.feeds := cells[q.feeds] + 1];
      if threadSafe {
        cells := cells[next := 1];
        contexts := contexts[i := Context(v, q.feeds, next, tag)];
        next := next + 1;
      } else {
        cells := cells[q.mutex := cells[q.mutex] + 1];
        contexts := contexts[i := Context(v, q.feeds, q.mutex, tag)];
      }
    }

    method LoadFirst(i: nat, tag: nat, ok: bool)
      requires i == FreeSlot(contexts) < |contexts|
      modifies this
      ensures State() == AddFirst(old(State()), tag, ok)
    {
      contexts := contexts[i := Context(if ok then next + 2 else 0, next, next + 1, tag)];
      cells := cells[next := 1][next + 1 := 1];
      if ok {
        open := open + {next + 2};
      }
      next := next + 3;
    }

    /** RFAddReader. */
    method AddReaderContexts(tag: nat, parent: Option<nat>, threadSafe: bool, start: Start, slots: seq<Slot>)
      requires Sound(State(), false)
      modifies this
      ensures State() == AddReader(old(State()), tag, parent, threadSafe, start, slots) && Sound(State(), false)
    {
      var known := FindTag(tag);
      var i := FindFree();
      if known < |contexts| || i == |contexts| {
        return;
      }
      if parent.Some? && (parent.value >= |contexts| || contexts[parent.value].vHandle == 0) {
        return;
      }
      if parent.None? {
        AddFirstKeeps(State(), tag, start != InitFails, false);
        LoadFirst(i, tag, start != InitFails);
      } else {
        AddSharedKeeps(State(), parent.value, tag, threadSafe, start != InitFails, false);
        Share(i, parent.value, tag, threadSafe, start != InitFails);
      }
      if start == Up {
        AddSlotsSound(State(), i, tag, slots);
        AddFurtherSlots(i, tag, slots);
      } else {
        RemoveReader(tag);
      }
    }

    method AddFurtherSlots(p: nat, tag: nat, slots: seq<Slot>)
      requires Sound(State(), false) && p < |contexts| && HasTag(contexts[p], tag)
      modifies this
      ensures State() == AddSlots(old(State()), p, tag, slots)
    {
      var j := 0;
      while j < |slots|
        invariant 0 <= j <= |slots| && Sound(State(), false) && p < |contexts| && HasTag(contexts[p], tag)
        invariant AddSlots(State(), p, tag, slots[j..]) == AddSlots(old(State()), p, tag, slots)
      {
        assert slots[j..][1..] == slots[j + 1..];
        var up := AddSlot(p, tag, slots[j]);
        if !up {
          return;
        }
        j := j + 1;
      }
    }

    /** One further slot; when it does not come up, or there is no room for it, the whole reader goes. */
    method AddSlot(p: nat, tag: nat, slot: Slot) returns (up: bool)
      requires Sound(State(), false) && p < |contexts| && HasTag(contexts[p], tag)
      modifies this
      ensures Sound(State(), false)
      ensures up <==> slot.start == Up && FreeSlot(old(contexts)) < |old(contexts)|
      ensures up ==> State() == AddShared(old(State()), p, tag, slot.threadSafe, true) && p < |contexts| && HasTag(contexts[p], tag)
      ensures !up ==> State() == if FreeSlot(old(contexts)) == |old(contexts)| then RemoveAll(old(State()), tag)
                                 else RemoveAll(AddShared(old(State()), p, tag, slot.threadSafe, slot.start != InitFails), tag)
    {
      var i := FindFree();
      if i == |contexts| {
        RemoveReader(tag);
        return false;
      }
      AddSharedKeeps(State(), p, tag, slot.threadSafe, slot.start != InitFails, false);
      Share(i, p, tag, slot.threadSafe, slot.start != InitFails);
      if slot.start != Up {
        RemoveReader(tag);
      }
      return slot.start == Up;
    }

    /** RFReaderInfoNamePort. */
    method FindTag(tag: nat) returns (i: nat)
      ensures i == WithTag(contexts, tag)
    {
      i := 0;
      while i < |contexts|
        invariant i <= |contexts| && forall j :: 0 <= j < i ==> !HasTag(contexts[j], tag)
      {
        if contexts[i].vHandle != 0 && contexts[i].tag == tag {
          return;
        }
        i := i + 1;
      }
    }

    method RemoveContext(i: nat)
      requires Sound(State(), false) && i < |contexts| && Live(contexts[i])
      modifies this
      ensures State() == RemoveOne(old(State()), i)
    {
      var c := contexts[i];
      if cells[c.feeds] == 1 {
        open := open - {c.vHandle};
      }
      contexts := contexts[i := c.(vHandle := 0)];
      DropCell(c.mutex);
      DropCell(c.feeds);
    }

    method DropCell(a: nat)
      modifies this`cells
      ensures cells == Release(old(cells), a)
    {
      if a in cells {
        if cells[a] <= 1 {
          cells := map k | k in cells && k != a :: cells[k];
        } else {
          cells := cells[a := cells[a] - 1];
        }
      }
    }
  }
}
