/**
 The random draw of RFCreateReaderHandle (PCSC/src/readerfactory.c): on a collision
 it draws again and goes on with the next slot, without looking at the slots it has
 already passed.
 */
module HandleDraw {
  import opened Wrappers
  import opened Atr
  import opened Protocols
  import opened Readers
  import opened SharingInvariant
  import opened CallsKeepInvariant
  import opened Sessions

  /** The handles a reader with the given identity can be given: SYS_RandomInt(10, 65000) on top of the identity. */
  predicate Drawable(identity: nat, h: nat) {
    identity + 10 <= h <= identity + 65000
  }

  ghost predicate DrawnFor(identity: nat, draw: nat -> nat) {
    forall n :: Drawable(identity, draw(n))
  }

  /** Number of draws taken after passing all slots. `used` lists the handle words in scan order, and `draw(n)` is the
      identity plus the n-th random number. */
  function DrawsTaken(used: seq<nat>, draw: nat -> nat, n: nat): nat {
    if used == [] then n
    else DrawsTaken(used[1..], draw, if draw(n) == used[0] then n + 1 else n)
  }

  method CreateReaderHandle(used: seq<nat>, draw: nat -> nat) returns (h: nat)
    ensures h == draw(DrawsTaken(used, draw, 0))
  {
    var n := 0;
    var j := 0;
    while j < |used|
      invariant 0 <= j <= |used|
      invariant DrawsTaken(used[j..], draw, n) == DrawsTaken(used, draw, 0)
    {
      if draw(n) == used[j] {
        n := n + 1;
      }
      j := j + 1;
    }
    return draw(n);
  }

  // ----- when the result is fresh -----

  /** The handle that is handed out is not in use. */
  ghost predicate DrawsFresh(used: seq<nat>, draw: nat -> nat) {
    draw(DrawsTaken(used, draw, 0)) !in used
  }

  /** Slot of handle h, or the table size. */
  function SlotOf(used: seq<nat>, h: nat): (i: nat)
    ensures i <= |used| && (i < |used| ==> used[i] == h)
    ensures forall j :: 0 <= j < i ==> used[j] != h
  {
    if used == [] then 0 else if used[0] == h then 0 else 1 + SlotOf(used[1..], h)
  }

  /** The first k draws are all in use, each in a slot behind that of the draw before it. */
  ghost predicate Climbs(used: seq<nat>, draw: nat -> nat, k: nat) {
    && (forall m :: 0 <= m < k ==> SlotOf(used, draw(m)) < |used|)
    && (forall m :: 0 < m < k ==> SlotOf(used, draw(m - 1)) < SlotOf(used, draw(m)))
  }

  /** After a climb of k draws the next one is in use again, but in a slot that has already been passed. */
  ghost predicate FallsBack(used: seq<nat>, draw: nat -> nat, k: nat) {
    k > 0 && Climbs(used, draw, k) && SlotOf(used, draw(k)) <= SlotOf(used, draw(k - 1))
  }

  /** The loop at slot j, holding draw n. */
  ghost predicate Passing(used: seq<nat>, draw: nat -> nat, j: nat, n: nat) {
    && j <= |used| && Climbs(used, draw, n)
    && (n > 0 ==> SlotOf(used, draw(n - 1)) < j)
    && forall k :: (if n > 0 then SlotOf(used, draw(n - 1)) + 1 else 0) <= k < j ==> used[k] != draw(n)
  }

  lemma {:induction false} OnePass(used: seq<nat>, draw: nat -> nat, j: nat, n: nat)
    requires Distinct(used) && Passing(used, draw, j, n) && j < |used|
    ensures Passing(used, draw, j + 1, if draw(n) == used[j] then n + 1 else n)
  {
    var s := SlotOf(used, draw(n));
    if draw(n) == used[j] {
      assert s == j;
    }
  }

  lemma {:induction false} PassedAll(used: seq<nat>, draw: nat -> nat, n: nat)
    requires Passing(used, draw, |used|, n)
    ensures Climbs(used, draw, n) && !Climbs(used, draw, n + 1)
  {
    var s := SlotOf(used, draw(n));
    assert s < |used| ==> used[s] == draw(n);
  }

  lemma {:induction false} PassingToTheEnd(used: seq<nat>, draw: nat -> nat, j: nat, n: nat)
    requires Distinct(used) && Passing(used, draw, j, n)
    ensures Passing(used, draw, |used|, DrawsTaken(used[j..], draw, n))
    decreases |used| - j
  {
    if j < |used| {
      assert used[j..][1..] == used[j + 1..];
      OnePass(used, draw, j, n);
      PassingToTheEnd(used, draw, j + 1, if draw(n) == used[j] then n + 1 else n);
    } else {
      assert used[j..] == [];
    }
  }

  /** The loop hands out the draw at which the climb stops. */
  lemma {:induction false} StopsClimbing(used: seq<nat>, draw: nat -> nat)
    requires Distinct(used)
    ensures var k := DrawsTaken(used, draw, 0);
            Climbs(used, draw, k) && !Climbs(used, draw, k + 1)
  {
    assert used[0..] == used;
    PassingToTheEnd(used, draw, 0, 0);
    PassedAll(used, draw, DrawsTaken(used, draw, 0));
  }

  /** A new handle is fresh if and only if the draws do not fall back: a condition on the table and the draws alone. */
  lemma {:induction false} FreshExactly(used: seq<nat>, draw: nat -> nat)
    requires Distinct(used)
    ensures DrawsFresh(used, draw) <==> !exists k: nat :: FallsBack(used, draw, k)
  {
    var k := DrawsTaken(used, draw, 0);
    StopsClimbing(used, draw);
    if draw(k) in used {
      assert FallsBack(used, draw, k) by {
        var i :| 0 <= i < |used| && used[i] == draw(k);
        assert SlotOf(used, draw(k)) < |used|;
      }
    }
    forall m: nat | FallsBack(used, draw, m) ensures draw(k) in used {
      FallsBackAtTheEnd(used, draw, m, k);
    }
  }

  lemma {:induction false} FallsBackAtTheEnd(used: seq<nat>, draw: nat -> nat, m: nat, k: nat)
    requires FallsBack(used, draw, m) && Climbs(used, draw, k) && !Climbs(used, draw, k + 1)
    ensures m == k && draw(k) in used
  {
    assert !Climbs(used, draw, m + 1);
    ClimbsLess(used, draw, k + 1, m);
    ClimbsLess(used, draw, m + 1, k);
    assert m == k;
    assert used[SlotOf(used, draw(k))] == draw(k);
  }

  lemma {:induction false} ClimbsLess(used: seq<nat>, draw: nat -> nat, k: nat, m: nat)
    ensures k <= m && Climbs(used, draw, m) ==> Climbs(used, draw, k)
  {
  }

  /** A first draw that is not in use is handed out as it is. */
  lemma {:induction false} FirstDrawFresh(used: seq<nat>, draw: nat -> nat, n: nat)
    requires draw(n) !in used
    ensures DrawsTaken(used, draw, n) == n
  {
    if used != [] {
      FirstDrawFresh(used[1..], draw, n);
    }
  }

  /** Whatever is drawn, the handle is fresh if and only if no handle that could be drawn is in use: with one in use,
      drawing it twice hands it out again. */
  lemma {:induction false} AlwaysFreshExactly(identity: nat, used: seq<nat>)
    ensures (forall draw: nat -> nat :: DrawnFor(identity, draw) ==> DrawsFresh(used, draw)) <==>
            forall h :: h in used ==> !Drawable(identity, h)
  {
    if h :| h in used && Drawable(identity, h) {
      var draw: nat -> nat := n => h;
      assert DrawnFor(identity, draw) && !DrawsFresh(used, draw);
    } else {
      forall draw: nat -> nat | DrawnFor(identity, draw) ensures DrawsFresh(used, draw) {
        assert Drawable(identity, draw(0));
        FirstDrawFresh(used, draw, 0);
      }
    }
  }

  /** The draws that are actually taken differ. */
  ghost predicate DrawsDiffer(used: seq<nat>, draw: nat -> nat) {
    forall m: nat, n: nat :: m < n <= DrawsTaken(used, draw, 0) ==> draw(m) != draw(n)
  }

  /** At most one handle that could be drawn is in use. */
  ghost predicate AtMostOne(identity: nat, used: seq<nat>) {
    forall i, j :: 0 <= i < j < |used| ==> !(Drawable(identity, used[i]) && Drawable(identity, used[j]))
  }

  lemma {:induction false} OneInUse(identity: nat, used: seq<nat>, draw: nat -> nat)
    requires Distinct(used) && AtMostOne(identity, used) && DrawnFor(identity, draw) && DrawsDiffer(used, draw)
    ensures DrawsFresh(used, draw)
  {
    FreshExactly(used, draw);
    StopsClimbing(used, draw);
    forall k: nat ensures !FallsBack(used, draw, k) {
      if FallsBack(used, draw, k) {
        FallsBackAtTheEnd(used, draw, k, DrawsTaken(used, draw, 0));
        SameSlot(identity, used, draw, k - 1, k);
        assert false;
      }
    }
  }

  lemma {:induction false} SameSlot(identity: nat, used: seq<nat>, draw: nat -> nat, m: nat, k: nat)
    requires AtMostOne(identity, used) && DrawnFor(identity, draw)
    requires SlotOf(used, draw(m)) < |used| && SlotOf(used, draw(k)) < |used|
    ensures draw(m) == draw(k)
  {
    var i, j := SlotOf(used, draw(m)), SlotOf(used, draw(k));
    assert Drawable(identity, used[i]) && Drawable(identity, used[j]);
    assert i == j;
  }

  lemma {:induction false} TwoInUse(identity: nat, used: seq<nat>, i: nat, j: nat, draw: nat -> nat)
    requires Distinct(used) && i < j < |used| && draw(0) == used[j] && forall n :: n > 0 ==> draw(n) == used[i]
    ensures DrawsTaken(used, draw, 0) == 1 && !DrawsFresh(used, draw)
  {
    assert SlotOf(used, draw(0)) == j && SlotOf(used, draw(1)) == i;
    assert FallsBack(used, draw, 1);
    StopsClimbing(used, draw);
    FallsBackAtTheEnd(used, draw, 1, DrawsTaken(used, draw, 0));
  }

  /** Draws that differ always give a fresh handle if and only if at most one handle that could be drawn is in use: with
      two in use, drawing the later and then the earlier one hands out the earlier one again. */
  lemma {:induction false} DifferentDrawsFreshExactly(identity: nat, used: seq<nat>)
    requires Distinct(used)
    ensures (forall draw: nat -> nat :: DrawnFor(identity, draw) && DrawsDiffer(used, draw) ==> DrawsFresh(used, draw)) <==>
            AtMostOne(identity, used)
  {
    if AtMostOne(identity, used) {
      forall draw: nat -> nat | DrawnFor(identity, draw) && DrawsDiffer(used, draw) ensures DrawsFresh(used, draw) {
        OneInUse(identity, used, draw);
      }
    } else {
      var i, j :| 0 <= i < j < |used| && Drawable(identity, used[i]) && Drawable(identity, used[j]);
      var draw: nat -> nat := n => if n == 0 then used[j] else used[i];
      TwoInUse(identity, used, i, j, draw);
      assert DrawnFor(identity, draw) && DrawsDiffer(used, draw);
    }
  }

  /** Two runs for the reader in the first slot that hand out a handle in use: 0x1000A drawn twice while it is in use, and
      0x1000B and then 0x1000A while both are. */
  lemma {:induction false} DrawCanCollide()
    ensures var draw := (n: nat) => 0x1000A;
            DrawnFor(IDENTITY_UNIT, draw) && draw(DrawsTaken([0x1000A], draw, 0)) == 0x1000A
    ensures var draw := (n: nat) => if n == 0 then 0x1000B else 0x1000A;
            DrawnFor(IDENTITY_UNIT, draw) && draw(DrawsTaken([0x1000A, 0x1000B], draw, 0)) == 0x1000A
  {
    var draw := (n: nat) => if n == 0 then 0x1000B else 0x1000A;
    var used := [0x1000A, 0x1000B];
    assert used[1..] == [0x1000B] && [0x1000B][1..] == [];
    assert DrawsTaken([], draw, 1) == 1;
    assert DrawsTaken([0x1000B], draw, 0) == 1;
  }

  // ----- the reader table -----

  /** The handle words of one reader. */
  function Words(hs: seq<Slot>): seq<nat> {
    if hs == [] then [] else [hs[0].hCard] + Words(hs[1..])
  }

  /** The handle words of all live readers, in the order of the scan. */
  function Scanned(t: Table): seq<nat> {
    if t == [] then [] else (if t[0].live then Words(t[0].sh.handles) else []) + Scanned(t[1..])
  }

  /** The words that stand for a handle. */
  function NonZero(ws: seq<nat>): (r: seq<nat>)
    ensures forall h :: h in r <==> h in ws && h != 0
  {
    if ws == [] then [] else (if ws[0] != 0 then [ws[0]] else []) + NonZero(ws[1..])
  }

  /** The handles in use. */
  function InUse(t: Table): seq<nat> {
    NonZero(Scanned(t))
  }

  lemma {:induction false} NonZeroConcat(a: seq<nat>, b: seq<nat>)
    ensures NonZero(a + b) == NonZero(a) + NonZero(b)
  {
    if a == [] {
      assert a + b == b;
    } else {
      assert (a + b)[1..] == a[1..] + b;
      NonZeroConcat(a[1..], b);
    }
  }

  /** Free slots make no difference to the draws. */
  lemma {:induction false} FreeSlotsPassed(ws: seq<nat>, draw: nat -> nat, n: nat)
    requires forall m :: draw(m) != 0
    ensures DrawsTaken(ws, draw, n) == DrawsTaken(NonZero(ws), draw, n)
    decreases |ws|
  {
    if ws != [] {
      var m := if draw(n) == ws[0] then n + 1 else n;
      FreeSlotsPassed(ws[1..], draw, m);
      assert ws[0] != 0 ==> NonZero(ws)[1..] == NonZero(ws[1..]);
      assert ws[0] == 0 ==> NonZero(ws) == NonZero(ws[1..]);
    }
  }

  lemma {:induction false} WordsHold(hs: seq<Slot>, h: nat)
    ensures h in Words(hs) <==> Holds(hs, h)
  {
    if hs != [] {
      WordsHold(hs[1..], h);
    }
  }

  /** A handle is in use exactly when RFFindReaderHandle finds it. */
  lemma {:induction false} InUseFound(t: Table, h: nat)
    requires h != 0
    ensures h in InUse(t) <==> Found(t, h)
  {
    if t != [] {
      InUseFound(t[1..], h);
      WordsHold(t[0].sh.handles, h);
      assert Found(t, h) <==> (t[0].live && Holds(t[0].sh.handles, h)) || Found(t[1..], h) by {
        assert forall k :: 1 <= k < |t| ==> t[k] == t[1..][k - 1];
        assert forall k :: 0 <= k < |t| - 1 ==> t[1..][k] == t[k + 1];
      }
    }
  }

  ghost predicate TablesFrom(t: Table, first: nat) {
    forall k :: 0 <= k < |t| ==> TableOk(t[k].sh.handles, first + k)
  }

  lemma {:induction false} WordsDistinct(hs: seq<Slot>, i: nat)
    requires forall k :: 0 <= k < |hs| && hs[k].hCard != 0 ==> hs[k].hCard / IDENTITY_UNIT == i + 1
    requires forall j, k :: 0 <= j < k < |hs| && hs[j].hCard == hs[k].hCard ==> hs[j].hCard == 0
    ensures Distinct(NonZero(Words(hs)))
    ensures forall h :: h in NonZero(Words(hs)) ==> h / IDENTITY_UNIT == i + 1
  {
    if hs != [] {
      WordsDistinct(hs[1..], i);
      WordsHold(hs[1..], hs[0].hCard);
      if hs[0].hCard != 0 {
        DistinctConcat([hs[0].hCard], NonZero(Words(hs[1..])));
      } else {
        assert NonZero(Words(hs)) == NonZero(Words(hs[1..]));
      }
    }
  }

  lemma {:induction false} DistinctConcat(a: seq<nat>, b: seq<nat>)
    requires Distinct(a) && Distinct(b) && forall h :: h in a ==> h !in b
    ensures Distinct(a + b)
  {
    forall i, j | 0 <= i < j < |a + b| ensures (a + b)[i] != (a + b)[j] {
      if i < |a| <= j {
        assert a[i] in a && b[j - |a|] in b;
      }
    }
  }

  lemma {:induction false} InUseDistinct(t: Table, first: nat)
    requires TablesFrom(t, first)
    ensures Distinct(InUse(t)) && forall h :: h in InUse(t) ==> h / IDENTITY_UNIT > first
  {
    if t != [] {
      assert TablesFrom(t[1..], first + 1);
      InUseDistinct(t[1..], first + 1);
      var a := if t[0].live then Words(t[0].sh.handles) else [];
      assert TableOk(t[0].sh.handles, first);
      WordsDistinct(t[0].sh.handles, first);
      NonZeroConcat(a, Scanned(t[1..]));
      DistinctConcat(NonZero(a), InUse(t[1..]));
    }
  }

  /** What RFCreateReaderHandle hands out for the reader in slot i may be connected with, exactly when the draws do not
      fall back on the handles in use; so this is the condition under which a run is one of those covered. */
  lemma {:induction false} EnabledExactly(t: Table, i: nat, draw: nat -> nat, share: Share, preferred: Mask, pts: Pts)
    requires TableInv(t) && i < |t| && t[i].live && DrawnFor(t[i].identity, draw)
    ensures var h := draw(DrawsTaken(Scanned(t), draw, 0));
            Enabled(t, DoConnect(i, share, preferred, pts, h)) <==> !exists k: nat :: FallsBack(InUse(t), draw, k)
  {
    assert ReaderOk(t[i], i);
    DrawnAtHome(t[i].identity, i, draw);
    FreeSlotsPassed(Scanned(t), draw, 0);
    assert TablesFrom(t, 0);
    InUseDistinct(t, 0);
    FreshExactly(InUse(t), draw);
    FreshAtHome(t, i, draw(DrawsTaken(Scanned(t), draw, 0)));
  }

  lemma {:induction false} DrawnAtHome(identity: nat, i: nat, draw: nat -> nat)
    requires identity == (i + 1) * IDENTITY_UNIT && DrawnFor(identity, draw)
    ensures forall m :: draw(m) != 0 && draw(m) / IDENTITY_UNIT == i + 1
  {
    forall m ensures draw(m) != 0 && draw(m) / IDENTITY_UNIT == i + 1 {
      assert Drawable(identity, draw(m));
    }
  }

  lemma {:induction false} FreshAtHome(t: Table, i: nat, h: nat)
    requires TableInv(t) && i < |t| && t[i].live && h != 0 && h / IDENTITY_UNIT == i + 1
    ensures Fresh(t[i], i, h) <==> h !in InUse(t)
  {
    InUseFound(t, h);
    FoundAtHome(t, i, h);
  }

  lemma {:induction false} FoundAtHome(t: Table, i: nat, h: nat)
    requires TableInv(t) && i < |t| && t[i].live && h != 0 && h / IDENTITY_UNIT == i + 1
    ensures Found(t, h) <==> Holds(t[i].sh.handles, h)
  {
    forall k | 0 <= k < |t| && t[k].live && Holds(t[k].sh.handles, h) ensures k == i {
      HandleRoutes(t, k, h);
      assert t[k].sh.handles[IndexOf(t[k].sh.handles, h)].hCard == h;
    }
  }
}
