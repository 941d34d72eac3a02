/**
 The doubly linked list of PCSC/src/simclist.c: two sentinels, a cached middle
 node, a pool of spare nodes and one iterator. `chain` is the node sequence from
 the head sentinel to the tail sentinel and `contents` is the plain sequence the
 list stands for; `Valid()` ties both to the pointers.
 */
module SimcList {
  import opened Wrappers

  const MAX_SPARE_ELEMS: nat := 5

  class Node<T(0)> {
    var data: T
    var next: Node?<T>
    var prev: Node?<T>

    constructor ()
      ensures next == null && prev == null
    {
      next, prev := null, null;
    }
  }

  /** `prev` and `next` are mutually inverse along the nodes of s. */
  ghost predicate Linked<T(0)>(s: seq<Node<T>>)
    reads s
  {
    && (forall i {:trigger s[i].next} :: 0 <= i < |s| - 1 ==> s[i].next == s[i + 1])
    && (forall i {:trigger s[i].prev} :: 1 <= i < |s| ==> s[i].prev == s[i - 1])
  }

  lemma {:induction false} LinkedConcat<T(0)>(a: seq<Node<T>>, b: seq<Node<T>>)
    requires Linked(a) && Linked(b) && a != [] && b != []
    requires a[|a| - 1].next == b[0] && b[0].prev == a[|a| - 1]
    ensures Linked(a + b)
  {
  }

  lemma {:induction false} DistinctInsert<T>(s: seq<T>, k: nat, x: T)
    requires Distinct(s) && k <= |s| && x !in s
    ensures Distinct(s[..k] + [x] + s[k..])
    ensures forall y :: y in s[..k] + [x] + s[k..] <==> y in s || y == x
  {
    var t := s[..k] + [x] + s[k..];
    forall y ensures y in t <==> y in s || y == x {
      assert s == s[..k] + s[k..];
    }
  }

  /** The nodes between the two sentinels of s carry the elements of xs. */
  ghost predicate Carries<T(0)>(s: seq<Node<T>>, xs: seq<T>)
    reads s
  {
    && |s| == |xs| + 2
    && forall i {:trigger xs[i]} :: 0 <= i < |xs| ==> s[i + 1].data == xs[i]
  }

  lemma {:induction false} CarriesInsert<T(0)>(s: seq<Node<T>>, xs: seq<T>, k: nat, n: Node<T>)
    requires Carries(s, xs) && k <= |xs|
    ensures Carries(s[..k + 1] + [n] + s[k + 1..], xs[..k] + [n.data] + xs[k..])
  {
  }

  /** Links node n between the runs a and b. */
  method LinkBetween<T(0)>(n: Node<T>, prec: Node<T>, ghost a: seq<Node<T>>, ghost b: seq<Node<T>>)
    requires a != [] && b != [] && prec == a[|a| - 1] && prec.next == b[0]
    requires Linked(a) && Linked(b) && Distinct(a) && Distinct(b)
    requires n !in a && n !in b && prec !in b && b[0] !in a
    modifies n`next, n`prev, prec`next, prec.next`prev
    ensures Linked(a + [n] + b)
  {
    var succ := prec.next;
    prec.next := n;
    n.prev := prec;
    n.next := succ;
    succ.prev := n;
    LinkedConcat(a, [n]);
    LinkedConcat(a + [n], b);
  }

  lemma {:induction false} CarriesRemove<T(0)>(s: seq<Node<T>>, xs: seq<T>, lo: nat, hi: nat)
    requires Carries(s, xs) && lo <= hi <= |xs|
    ensures Carries(s[..lo + 1] + s[hi + 1..], xs[..lo] + xs[hi..])
  {
  }

  lemma {:induction false} DistinctRemove<T>(s: seq<T>, lo: nat, hi: nat)
    requires Distinct(s) && lo <= hi <= |s|
    ensures Distinct(s[..lo] + s[hi..])
  {
  }

  /** Joins the runs a and b, which drops whatever stood between them. */
  method JoinRuns<T(0)>(prec: Node<T>, succ: Node<T>, ghost a: seq<Node<T>>, ghost b: seq<Node<T>>)
    requires a != [] && b != [] && prec == a[|a| - 1] && succ == b[0]
    requires Linked(a) && Linked(b) && Distinct(a) && Distinct(b)
    requires prec !in b && succ !in a
    modifies prec`next, succ`prev
    ensures Linked(a + b)
  {
    prec.next := succ;
    succ.prev := prec;
    LinkedConcat(a, b);
  }

  method NewSentinels<T(0)>() returns (h: Node<T>, t: Node<T>)
    ensures fresh(h) && fresh(t) && h != t
    ensures h.prev == null && t.next == null && Linked([h, t])
  {
    h := new Node<T>();
    t := new Node<T>();
    h.next := t;
    t.prev := h;
  }

  /** Index of the cached middle element of a list of n > 0 elements. */
  function MidIndex(n: nat): nat {
    if n == 0 then 0 else (n - 1) / 2
  }

  /** Index, before removal, of the middle element that is left once `del` < n elements from `lo` on are gone. */
  function MidAfterRemoval(n: nat, lo: nat, del: nat): nat
    requires del < n
  {
    var m := (n - 1 - del) / 2;
    if m < lo then m else m + del
  }

  lemma {:induction false} MidSurvives<X>(s: seq<X>, n: nat, lo: nat, del: nat)
    requires |s| == n + 2 && lo + del <= n && del < n
    ensures (s[..lo + 1] + s[lo + del + 1..])[MidIndex(n - del) + 1] == s[MidAfterRemoval(n, lo, del) + 1]
  {
  }

  const UINT_RANGE: nat := 0x1_0000_0000

  const INT_RANGE: nat := 0x8000_0000

  /** What list_delete_range does: it deletes, refuses, or walks off the list along a null pointer. */
  datatype RangeOutcome = Deleted | Refused | WalksOff

  /** The unsigned number n read as a signed one. */
  function AsInt(n: nat): int
    requires n < UINT_RANGE
  {
    if n < INT_RANGE then n else n - UINT_RANGE
  }

  /** The signed number of steps list_delete_range takes from the old middle element to the new one. */
  function RangeMove(n: nat, posstart: nat, posend: nat): int
    requires posstart <= posend < n < UINT_RANGE
  {
    AsInt((RangeMid(n, posstart, posend) - (n - 1) / 2) % UINT_RANGE)
  }

  /** The walk ends on the middle of what remains, or, exactly when the whole list goes, leaves the list at its head:
      the index wraps, and as a signed number the way to it is far to the left. */
  lemma {:induction false} RangeMoveOnChain(n: nat, posstart: nat, posend: nat)
    requires posstart <= posend < n < INT_RANGE
    ensures posend - posstart + 1 < n ==>
              (n - 1) / 2 + RangeMove(n, posstart, posend) == MidAfterRemoval(n, posstart, posend - posstart + 1)
    ensures (n - 1) / 2 + RangeMove(n, posstart, posend) < -1 <==> posend - posstart + 1 == n
  {
    RangeMidOnChain(n, posstart, posend);
    var r, m := RangeMid(n, posstart, posend), (n - 1) / 2;
    if posend - posstart + 1 == n {
      assert (r - m) % UINT_RANGE == r - m;
    } else if r < m {
      assert (r - m) % UINT_RANGE == r - m + UINT_RANGE;
    } else {
      assert (r - m) % UINT_RANGE == r - m;
    }
  }

  /** The index list_delete_range computes, in 32-bit unsigned arithmetic, for the new middle element. */
  function RangeMid(n: nat, posstart: nat, posend: nat): nat
    requires posstart <= posend < n < UINT_RANGE
  {
    var numdel := posend - posstart + 1;
    var m := ((n - 1 - numdel) % UINT_RANGE) / 2;
    if m < posstart then m else (m + numdel) % UINT_RANGE
  }

  /** That index names a surviving element exactly when some element survives: for the whole list
      the subtraction wraps and the index lies far behind the tail. */
  lemma {:induction false} RangeMidOnChain(n: nat, posstart: nat, posend: nat)
    requires posstart <= posend < n < UINT_RANGE / 2
    ensures var r := RangeMid(n, posstart, posend);
            r < n && !(posstart <= r <= posend) <==> posend - posstart + 1 < n
    ensures posend - posstart + 1 < n ==> RangeMid(n, posstart, posend) == MidAfterRemoval(n, posstart, posend - posstart + 1)
    ensures RangeMid(n, 0, n - 1) == UINT_RANGE / 2 - 1 + n
  {
    if posend - posstart + 1 == n {
      assert (n - 1 - n) % UINT_RANGE == UINT_RANGE - 1;
    } else {
      var numdel := posend - posstart + 1;
      assert (n - 1 - numdel) % UINT_RANGE == n - 1 - numdel;
    }
  }

  class List<T(0,==)> {
    var head: Node<T>
    var tail: Node<T>
    var mid: Node?<T>
    var numels: nat
    var spareels: array<Node?<T>>
    var spareelsnum: nat
    var iterActive: bool
    var iterPos: nat
    var iterCur: Node?<T>
    var comparator: Option<(T, T) -> int>
    ghost var chain: seq<Node<T>>
    ghost var contents: seq<T>
    ghost var repr: set<object>  // every object the list may write

    /** Node layout: sentinels, links and data. */
    ghost predicate Spine()
      reads this, chain
    {
      && |chain| == numels + 2
      && head == chain[0]
      && tail == chain[numels + 1]
      && Distinct(chain)
      && Linked(chain)
      && head.prev == null && tail.next == null
      && (forall n :: n in chain ==> n in repr)
      && Carries(chain, contents)
    }

    /** The spare pool: at most MAX_SPARE_ELEMS distinct nodes. */
    ghost predicate Pool()
      reads this, spareels
    {
      && this in repr && spareels in repr
      && spareels.Length == MAX_SPARE_ELEMS
      && spareelsnum <= MAX_SPARE_ELEMS
      && (forall k :: 0 <= k < spareelsnum ==> spareels[k] != null && spareels[k] in repr)
      && (forall j, k :: 0 <= j < k < spareelsnum ==> spareels[j] != spareels[k])
    }

    /** No spare node is in the chain. */
    ghost predicate Apart()
      reads this, spareels
    {
      forall i, k :: 0 <= k < spareelsnum && k < spareels.Length && 0 <= i < |chain| ==> spareels[k] != chain[i]
    }

    /** A spare node that is still in the chain is one of the elements lo..hi-1. */
    ghost predicate ApartExcept(lo: nat, hi: nat)
      reads this, spareels
    {
      forall i, k :: 0 <= k < spareelsnum && k < spareels.Length && 0 <= i < |chain| && spareels[k] == chain[i] ==> lo < i <= hi
    }

    ghost predicate Valid()
      reads this, chain, spareels
    {
      && Spine() && Pool() && Apart()
      && (numels > 0 ==> mid == chain[MidIndex(numels) + 1])
      && (iterActive ==> iterPos <= numels + 1 && iterCur == if iterPos <= numels then chain[iterPos + 1] else null)
    }

    constructor ()
      ensures Valid() && contents == [] && !iterActive && comparator == None
      ensures fresh(repr)
    {
      head := new Node<T>();
      tail := new Node<T>();
      spareels := new Node?<T>[0];
      new;
      Init();
    }

    /** list_init: makes this object an empty list on fresh nodes, whatever it held before. */
    method Init()
      modifies this
      ensures Valid() && spareelsnum == 0 && contents == [] && !iterActive && comparator == None
      ensures repr == {this, head, tail, spareels} && fresh(head) && fresh(tail) && fresh(spareels)
    {
      var h, t := NewSentinels<T>();
      var pool := new Node?<T>[MAX_SPARE_ELEMS];
      numels, head, tail, mid := 0, h, t, null;
      iterActive, iterPos, iterCur := false, 0, null;
      spareels, spareelsnum := pool, 0;
      comparator := None;
      Bare(h, t, pool);
    }

    /** The empty layout on two linked sentinels and an unused pool. */
    ghost method Bare(h: Node<T>, t: Node<T>, pool: array<Node?<T>>)
      requires head == h && tail == t && h != t && Linked([h, t]) && h.prev == null && t.next == null
      requires numels == 0 && !iterActive && spareels == pool && pool.Length == MAX_SPARE_ELEMS && spareelsnum == 0
      modifies this`chain, this`contents, this`repr
      ensures Valid() && contents == [] && repr == {this, h, t, pool}
    {
      chain := [h, t];
      contents := [];
      repr := {this, h, t, pool};
    }

    /** Node at index `pos`, walking from the nearest of head, middle and tail.
        Positions -1 and numels name the two sentinels. */
    method FindPos(pos: int) returns (p: Node?<T>)
      requires Valid()
      ensures -1 <= pos <= numels ==> p == chain[pos + 1]
      ensures !(-1 <= pos <= numels) ==> p == null
    {
      if pos < -1 || pos > numels {
        return null;
      }
      var i: int;
      if numels > 0 && 4 * (pos + 1) <= numels {
        i, p := -1, head;
        while i < pos
          invariant -1 <= i <= pos && p == chain[i + 1]
        {
          p, i := p.next, i + 1;
        }
      } else if numels > 0 && 2 * (pos + 1) < numels {
        i, p := (numels - 1) / 2, mid;
        while i > pos
          invariant pos <= i < numels && p == chain[i + 1]
        {
          p, i := p.prev, i - 1;
        }
      } else if numels > 0 && 4 * (pos + 1) <= 3 * numels {
        i, p := (numels - 1) / 2, mid;
        while i < pos
          invariant 0 <= i <= pos && p == chain[i + 1]
        {
          p, i := p.next, i + 1;
        }
      } else {
        i, p := numels, tail;
        while i > pos
          invariant pos <= i <= numels && p == chain[i + 1]
        {
          p, i := p.prev, i - 1;
        }
      }
    }

    /** Takes a node from the spare pool, or allocates one when the pool is empty. */
    method TakeNode() returns (n: Node<T>)
      requires Valid()
      modifies this`spareelsnum, this`repr
      ensures Valid() && n !in chain && n in repr
      ensures repr == old(repr) || (repr == old(repr) + {n} && fresh(n))
      ensures forall k :: 0 <= k < spareelsnum ==> spareels[k] != n
    {
      if spareelsnum > 0 {
        n := spareels[spareelsnum - 1];
        spareelsnum := spareelsnum - 1;
      } else {
        n := new Node<T>();
        repr := repr + {n};
      }
    }

    /** Links `n`, carrying `x`, behind the node at index `pos` - 1. */
    method LinkAt(n: Node<T>, prec: Node<T>, x: T, ghost pos: nat)
      requires Spine() && pos <= numels && prec == chain[pos] && n !in chain && n in repr
      modifies this`chain, this`contents, this`numels, n, prec, prec.next`prev
      ensures Spine() && numels == old(numels) + 1
      ensures forall y :: y in chain <==> y in old(chain) || y == n
      ensures contents == old(contents)[..pos] + [x] + old(contents)[pos..]
      ensures chain == old(chain)[..pos + 1] + [n] + old(chain)[pos + 1..]
    {
      DistinctInsert(chain, pos + 1, n);
      ghost var a, b := chain[..pos + 1], chain[pos + 1..];
      n.data := x;
      LinkBetween(n, prec, a, b);
      CarriesInsert(chain, contents, pos, n);
      chain := a + [n] + b;
      contents := contents[..pos] + [x] + contents[pos..];
      numels := numels + 1;
    }

    /** Moves the middle pointer after `n` has been linked at index `pos`. */
    method FixMidAfterInsert(n: Node<T>, pos: nat)
      requires Spine() && Pool() && Apart() && !iterActive && pos < numels && n == chain[pos + 1]
      requires numels > 1 ==> var m := MidIndex(numels - 1); mid == chain[if pos <= m then m + 2 else m + 1]
      modifies this`mid
      ensures Valid()
    {
      if numels == 1 {
        mid := n;
      } else if numels % 2 != 0 {
        if pos >= (numels - 1) / 2 {
          mid := mid.next;
        }
      } else {
        if pos <= (numels - 1) / 2 {
          mid := mid.prev;
        }
      }
    }

    /** Puts the node `n` into the list at index `pos`. */
    method InsertNode(n: Node<T>, x: T, pos: nat)
      requires Valid() && !iterActive && pos <= numels && n !in chain && n in repr
      requires forall k :: 0 <= k < spareelsnum ==> spareels[k] != n
      modifies repr
      ensures Valid() && repr == old(repr)
      ensures contents == old(contents)[..pos] + [x] + old(contents)[pos..]
      ensures iterActive == old(iterActive) && comparator == old(comparator)
    {
      var prec := FindPos(pos - 1);
      LinkBehind(n, prec, x, pos);
    }

    method LinkBehind(n: Node<T>, prec: Node<T>, x: T, pos: nat)
      requires Valid() && !iterActive && pos <= numels && n !in chain && n in repr && prec == chain[pos]
      requires forall k :: 0 <= k < spareelsnum ==> spareels[k] != n
      modifies this`chain, this`contents, this`numels, this`mid, n, prec, prec.next`prev
      ensures Valid()
      ensures contents == old(contents)[..pos] + [x] + old(contents)[pos..]
    {
      LinkAt(n, prec, x, pos);
      FixMidAfterInsert(n, pos);
    }

    method InsertAt(x: T, pos: nat) returns (ok: bool)
      requires Valid()
      modifies repr
      ensures Valid() && fresh(repr - old(repr))
      ensures ok <==> !old(iterActive) && pos <= old(numels)
      ensures ok ==> contents == old(contents)[..pos] + [x] + old(contents)[pos..]
      ensures !ok ==> contents == old(contents) && chain == old(chain)
      ensures iterActive == old(iterActive) && comparator == old(comparator)
    {
      if iterActive || pos > numels {
        return false;
      }
      var n := TakeNode();
      InsertNode(n, x, pos);
      return true;
    }

    /** Unlinks the elements lo..hi-1; the caller repairs `mid` and the spare pool. */
    method UnlinkSlice(prec: Node<T>, succ: Node<T>, ghost lo: nat, ghost hi: nat, count: nat)
      requires Spine() && lo <= hi <= numels && count == hi - lo
      requires prec == chain[lo] && succ == chain[hi + 1]
      modifies this`chain, this`contents, this`numels, prec`next, succ`prev
      ensures Spine() && numels == old(numels) - count
      ensures contents == old(contents)[..lo] + old(contents)[hi..]
      ensures chain == old(chain)[..lo + 1] + old(chain)[hi + 1..]
    {
      DistinctRemove(chain, lo + 1, hi + 1);
      ghost var a, b := chain[..lo + 1], chain[hi + 1..];
      assert prec != tail && succ != head;
      JoinRuns(prec, succ, a, b);
      CarriesRemove(chain, contents, lo, hi);
      chain := a + b;
      contents := contents[..lo] + contents[hi..];
      numels := numels - count;
    }

    /** UnlinkSlice when every spare node is outside the chain or in the slice that goes. */
    method UnlinkStowed(prec: Node<T>, succ: Node<T>, ghost lo: nat, ghost hi: nat, count: nat)
      requires Spine() && Pool() && lo <= hi <= numels && count == hi - lo
      requires prec == chain[lo] && succ == chain[hi + 1]
      requires ApartExcept(lo, hi) && !iterActive
      requires count < numels ==> mid == chain[MidAfterRemoval(numels, lo, count) + 1]
      modifies this`chain, this`contents, this`numels, prec`next, succ`prev
      ensures Valid() && contents == old(contents)[..lo] + old(contents)[hi..]
      ensures chain == old(chain)[..lo + 1] + old(chain)[hi + 1..]
    {
      if count < numels {
        MidSurvives(chain, numels, lo, count);
      }
      UnlinkSlice(prec, succ, lo, hi, count);
    }

    /** Keeps `n` for later insertions when the pool has room, and forgets it otherwise. */
    method Stow(n: Node<T>)
      requires Spine() && Pool() && n in repr
      requires forall k :: 0 <= k < spareelsnum ==> spareels[k] != n
      modifies this`spareelsnum, spareels
      ensures Spine() && Pool() && spareelsnum == (if old(spareelsnum) < MAX_SPARE_ELEMS then old(spareelsnum) + 1 else old(spareelsnum))
      ensures forall k :: 0 <= k < old(spareelsnum) ==> spareels[k] == old(spareels[k])
      ensures spareelsnum > old(spareelsnum) ==> spareels[old(spareelsnum)] == n
      ensures old(Valid()) && n !in chain ==> Valid()
    {
      if spareelsnum < MAX_SPARE_ELEMS {
        spareels[spareelsnum] := n;
        spareelsnum := spareelsnum + 1;
      }
    }

    /** Moves the middle pointer to the node that is in the middle once index `pos` is gone. */
    method FixMidBeforeDrop(pos: nat)
      requires Valid() && pos < numels
      modifies this`mid
      ensures Spine() && Pool() && Apart()
      ensures numels > 1 ==> var m := MidIndex(numels - 1); mid == chain[if m < pos then m + 1 else m + 2]
    {
      if numels % 2 != 0 {
        if pos >= numels / 2 {
          mid := mid.prev;
        }
      } else {
        if pos < numels / 2 {
          mid := mid.next;
        }
      }
    }

    /** Unlinks the node at index `pos` and leaves it to the caller. */
    method TakeOut(tmp: Node<T>, pos: nat)
      requires Valid() && !iterActive && pos < numels && tmp == chain[pos + 1]
      modifies this`mid, this`chain, this`contents, this`numels, tmp.prev`next, tmp.next`prev
      ensures Valid() && tmp !in chain
      ensures forall k :: 0 <= k < spareelsnum ==> spareels[k] != tmp
      ensures contents == old(contents)[..pos] + old(contents)[pos + 1..]
    {
      FixMidBeforeDrop(pos);
      UnlinkStowed(tmp.prev, tmp.next, pos, pos + 1, 1);
    }

    method DropElem(tmp: Node<T>, pos: nat)
      requires Valid() && !iterActive && pos < numels && tmp == chain[pos + 1]
      modifies repr
      ensures Valid() && repr == old(repr)
      ensures contents == old(contents)[..pos] + old(contents)[pos + 1..]
      ensures iterActive == old(iterActive) && comparator == old(comparator)
    {
      TakeOut(tmp, pos);
      Stow(tmp);
    }

    method DeleteAt(pos: int) returns (ok: bool)
      requires Valid()
      modifies repr
      ensures Valid() && repr == old(repr)
      ensures ok <==> !old(iterActive) && 0 <= pos < old(numels)
      ensures contents == if ok then old(contents)[..pos] + old(contents)[pos + 1..] else old(contents)
      ensures iterActive == old(iterActive) && comparator == old(comparator)
    {
      if iterActive || pos < 0 || pos >= numels {
        return false;
      }
      var tmp := FindPos(pos);
      DropElem(tmp, pos);
      return true;
    }

    method ExtractAt(pos: int) returns (r: Option<T>)
      requires Valid()
      modifies repr
      ensures Valid() && repr == old(repr)
      ensures r.Some? <==> !old(iterActive) && 0 <= pos < old(numels)
      ensures r.Some? ==> r.value == old(contents)[pos]
      ensures contents == if r.Some? then old(contents)[..pos] + old(contents)[pos + 1..] else old(contents)
      ensures iterActive == old(iterActive) && comparator == old(comparator)
    {
      if iterActive || pos < 0 || pos >= numels {
        return None;
      }
      var tmp := FindPos(pos);
      r := Some(tmp.data);
      DropElem(tmp, pos);
    }

    method MidForward(k: nat, ghost at: nat)
      requires Spine() && Pool() && Apart() && at + k < |chain| && mid == chain[at]
      modifies this`mid
      ensures Spine() && Pool() && Apart() && mid == chain[at + k]
    {
      var i := 0;
      while i < k
        invariant 0 <= i <= k && mid == chain[at + i] && Spine()
      {
        mid, i := mid.next, i + 1;
      }
    }

    method MidBack(k: nat, ghost at: nat)
      requires Spine() && Pool() && Apart() && k <= at < |chain| && mid == chain[at]
      modifies this`mid
      ensures Spine() && Pool() && Apart() && mid == chain[at - k]
    {
      var i := 0;
      while i < k
        invariant 0 <= i <= k && mid == chain[at - i] && Spine()
      {
        mid, i := mid.prev, i + 1;
      }
    }

    /** Walks the middle pointer by the signed offset `movedx`. */
    method MoveMid(movedx: int)
      requires Valid() && 0 <= (numels - 1) / 2 + movedx < numels
      modifies this`mid
      ensures Spine() && Pool() && Apart() && mid == chain[(numels - 1) / 2 + movedx + 1]
    {
      if movedx > 0 {
        MidForward(movedx, MidIndex(numels) + 1);
      } else {
        MidBack(-movedx, MidIndex(numels) + 1);
      }
    }

    /** Stows the `count` nodes from `first` on; they are still linked. */
    method StowRun(first: Node<T>, lo: nat, count: nat) returns (next: Node<T>)
      requires Spine() && Pool() && Apart() && lo + count <= numels && first == chain[lo + 1]
      modifies this`spareelsnum, spareels
      ensures Spine() && Pool() && next == chain[lo + count + 1]
      ensures ApartExcept(lo, lo + count)
    {
      next := first;
      var i := 0;
      while i < count
        invariant 0 <= i <= count && next == chain[lo + i + 1]
        invariant Spine() && Pool()
        invariant ApartExcept(lo, lo + i)
      {
        var tmp := next;
        next := next.next;
        Stow(tmp);
        i := i + 1;
      }
    }

    method RemoveRange(posstart: nat, posend: nat, movedx: int)
      requires Valid() && !iterActive && posstart <= posend < numels && posend - posstart + 1 < numels
      requires (numels - 1) / 2 + movedx == MidAfterRemoval(numels, posstart, posend - posstart + 1)
      modifies repr
      ensures Valid() && repr == old(repr) && !iterActive && comparator == old(comparator)
      ensures contents == old(contents)[..posstart] + old(contents)[posend + 1..]
    {
      var tmp := FindPos(posstart);
      var lastvalid := tmp.prev;
      var numdel := posend - posstart + 1;
      MoveAndDrop(tmp, lastvalid, posstart, numdel, movedx);
    }

    method MoveAndDrop(first: Node<T>, prec: Node<T>, lo: nat, count: nat, movedx: int)
      requires Valid() && !iterActive && lo + count <= numels && count < numels && prec == chain[lo] && first == chain[lo + 1]
      requires (numels - 1) / 2 + movedx == MidAfterRemoval(numels, lo, count)
      modifies repr
      ensures Valid() && repr == old(repr) && !iterActive && comparator == old(comparator)
      ensures contents == old(contents)[..lo] + old(contents)[lo + count..]
    {
      MoveMid(movedx);
      DropRange(first, prec, lo, count);
    }

    /** Stows and unlinks the `count` elements from `first` on; `mid` already stands on a survivor. */
    method DropRange(first: Node<T>, prec: Node<T>, lo: nat, count: nat)
      requires Spine() && Pool() && Apart() && !iterActive && lo + count <= numels && count < numels
      requires prec == chain[lo] && first == chain[lo + 1]
      requires mid == chain[MidAfterRemoval(numels, lo, count) + 1]
      modifies repr
      ensures Valid() && repr == old(repr) && !iterActive && comparator == old(comparator)
      ensures contents == old(contents)[..lo] + old(contents)[lo + count..]
    {
      var next := StowRun(first, lo, count);
      UnlinkStowed(prec, next, lo, lo + count, count);
    }

    /** Deletes the elements at posstart..posend. Asked for the whole list, the source follows null pointers to the left of
        the head sentinel, and with 2^31 or more elements list_findpos, which reads the size as an int, finds no first
        node; the model stops there with the list unchanged. */
    method DeleteRange(posstart: nat, posend: nat) returns (r: RangeOutcome)
      requires Valid()
      modifies repr
      ensures Valid() && repr == old(repr)
      ensures r == if old(iterActive) || posend < posstart || posend >= old(numels) then Refused
                   else if posend - posstart + 1 == old(numels) || old(numels) >= INT_RANGE then WalksOff else Deleted
      ensures contents == if r == Deleted then old(contents)[..posstart] + old(contents)[posend + 1..] else old(contents)
      ensures iterActive == old(iterActive) && comparator == old(comparator)
    {
      if iterActive || posend < posstart || posend >= numels {
        return Refused;
      }
      if numels >= INT_RANGE {
        return WalksOff;
      }
      RangeMoveOnChain(numels, posstart, posend);
      var movedx := RangeMove(numels, posstart, posend);
      if (numels - 1) / 2 + movedx < -1 {
        return WalksOff;
      }
      RemoveRange(posstart, posend, movedx);
      return Deleted;
    }

    /** Stows nodes from the first element on until the pool is full or the list ends. */
    method StowWhileRoom() returns (s: Node<T>, i: nat)
      requires Valid()
      modifies this`spareelsnum, spareels
      ensures Spine() && Pool() && i <= numels && s == chain[i + 1]
      ensures ApartExcept(0, i)
    {
      s, i := head.next, 0;
      while spareelsnum < MAX_SPARE_ELEMS && s != tail
        invariant 0 <= i <= numels && s == chain[i + 1]
        invariant Spine() && Pool()
        invariant ApartExcept(0, i)
        decreases numels - i
      {
        Stow(s);
        s, i := s.next, i + 1;
      }
    }

    method Clear() returns (ok: bool)
      requires Valid()
      modifies repr
      ensures Valid() && repr == old(repr)
      ensures ok <==> !old(iterActive)
      ensures contents == if ok then [] else old(contents)
      ensures iterActive == old(iterActive) && comparator == old(comparator)
    {
      if iterActive {
        return false;
      }
      var s, i := StowWhileRoom();
      while s != tail
        invariant 0 <= i <= numels && s == chain[i + 1]
        decreases numels - i
        modifies {}
      {
        s, i := s.next, i + 1;
      }
      UnlinkStowed(head, tail, 0, numels, numels);
      mid := null;
      return true;
    }

    /** Position of the first element that the comparator (or, without one, equality) matches with x. */
    method Locate(x: T) returns (pos: int)
      requires Valid()
      ensures -1 <= pos < numels
      ensures pos >= 0 ==> Matches(x, contents[pos])
      ensures forall i :: 0 <= i < (if pos >= 0 then pos else numels) ==> !Matches(x, contents[i])
    {
      var el := head.next;
      pos := 0;
      while el != tail
        invariant 0 <= pos <= numels && el == chain[pos + 1]
        invariant forall i :: 0 <= i < pos ==> !Matches(x, contents[i])
        decreases numels - pos
      {
        if Matches(x, el.data) {
          return;
        }
        el, pos := el.next, pos + 1;
      }
      return -1;
    }

    predicate Matches(x: T, y: T)
      reads this`comparator
    {
      if comparator.Some? then comparator.value(x, y) == 0 else x == y
    }

    method IteratorStart() returns (ok: bool)
      requires Valid()
      modifies this`iterActive, this`iterPos, this`iterCur
      ensures Valid() && iterActive && ok == !old(iterActive)
      ensures ok ==> iterPos == 0
      ensures !ok ==> iterPos == old(iterPos)
    {
      if iterActive {
        return false;
      }
      iterPos, iterActive, iterCur := 0, true, head.next;
      return true;
    }

    predicate IteratorHasNext()
      reads this
    {
      iterActive && iterPos < numels
    }

    /** Behind the last element the tail sentinel is read, which carries no data; after that the iterator stands on no
        node at all. */
    method IteratorNext() returns (r: Option<T>)
      requires Valid() && (iterActive ==> iterPos <= numels)
      modifies this`iterPos, this`iterCur
      ensures Valid()
      ensures r == if iterActive && old(iterPos) < numels then Some(contents[old(iterPos)]) else None
      ensures iterActive ==> iterPos == old(iterPos) + 1
    {
      if !iterActive {
        return None;
      }
      r := if iterCur == tail then None else Some(iterCur.data);
      iterCur := iterCur.next;
      iterPos := iterPos + 1;
    }

    method IteratorStop() returns (ok: bool)
      requires Valid()
      modifies this`iterActive, this`iterPos
      ensures Valid() && !iterActive && ok == old(iterActive)
    {
      ok := iterActive;
      if iterActive {
        iterPos, iterActive := 0, false;
      }
    }

    /** Moves `mid` from the last element of the first part to the middle of the whole, by the
        two truncating divisions of list_concat. */
    method FixMidAfterConcat(n1: nat, n2: nat)
      requires Spine() && Pool() && Apart() && !iterActive
      requires numels == n1 + n2 > 0 && mid == chain[n1]
      modifies this`mid
      ensures Valid()
    {
      var err: int := n2 - n1;
      if TruncHalf(err + 1) > 0 {
        MidForward(TruncHalf(err + 1), n1);
      } else if TruncHalf(err) < 0 {
        MidBack(TruncHalf(-err), n1);
      }
    }

    /** Ties the run of copied nodes to the tail sentinel. */
    method CloseRun(el: Node<T>, ghost run: seq<Node<T>>, ghost xs: seq<T>, n: nat)
      requires Pool() && spareelsnum == 0 && tail.next == null && head.prev == null
      requires run != [] && run[0] == head && el == run[|run| - 1] && tail !in run
      requires n == |xs| && |run| == n + 1 && Linked(run) && Distinct(run)
      requires forall i :: 0 <= i < n ==> run[i + 1].data == xs[i]
      modifies this`numels, this`chain, this`contents, this`repr, el`next, tail`prev
      ensures Spine() && Pool() && Apart() && numels == n && contents == xs && chain == run + [tail]
      ensures repr == {this, spareels, tail} + (set m | m in run)
    {
      el.next := tail;
      tail.prev := el;
      LinkedConcat(run, [tail]);
      DistinctInsert(run, |run|, tail);
      numels, contents := n, xs;
      chain := run + [tail];
      repr := {this, spareels, tail} + (set m | m in run);
    }

    /** Fills this freshly initialised list with copies of the elements of l1 and l2. */
    method Fill(l1: List<T>, l2: List<T>)
      requires l1.Valid() && l2.Valid() && l1 != this && l2 != this && l1.numels + l2.numels > 0
      requires Valid() && contents == [] && spareelsnum == 0 && !iterActive
      requires head !in l1.chain && head !in l2.chain && tail !in l1.chain && tail !in l2.chain
      modifies this, head`next, tail`prev
      ensures Valid() && contents == l1.contents + l2.contents && !iterActive
      ensures spareels == old(spareels) && head == old(head) && tail == old(tail)
      ensures forall i :: 1 <= i < |chain| - 1 ==> fresh(chain[i])
    {
      var el, m, run := CopyBoth(l1, l2, head);
      Assemble(el, m, run, l1.contents + l2.contents, l1.numels, l2.numels);
    }

    /** Makes the run of copied nodes the list; m is its node number n1. */
    method Assemble(el: Node<T>, m: Node<T>, ghost run: seq<Node<T>>, ghost xs: seq<T>, n1: nat, n2: nat)
      requires Pool() && spareelsnum == 0 && tail.next == null && head.prev == null && !iterActive
      requires run != [] && run[0] == head && el == run[|run| - 1] && tail !in run
      requires n1 + n2 == |xs| > 0 && |run| == |xs| + 1 && Linked(run) && Distinct(run) && m == run[n1]
      requires forall i :: 0 <= i < |xs| ==> run[i + 1].data == xs[i]
      modifies this`mid, this`numels, this`chain, this`contents, this`repr, el`next, tail`prev
      ensures Valid() && contents == xs && chain == run + [tail]
    {
      mid := m;
      CloseRun(el, run, xs, n1 + n2);
      assert chain[n1] == run[n1];
      FixMidAfterConcat(n1, n2);
    }

    /** Rebuilds this list as the concatenation of l1 and l2, on fresh nodes. */
    method ConcatFrom(l1: List<T>, l2: List<T>) returns (ok: bool)
      requires l1.Valid() && l2.Valid()
      modifies this
      ensures ok <==> this != l1 && this != l2
      ensures ok ==> Valid() && contents == l1.contents + l2.contents && !iterActive
      ensures ok ==> fresh(spareels) && forall i :: 0 <= i < |chain| ==> fresh(chain[i])
      ensures !ok ==> unchanged(this)
    {
      if l1 == this || l2 == this {
        return false;
      }
      Init();
      if l1.numels + l2.numels == 0 {
        return true;
      }
      Fill(l1, l2);
      return true;
    }
  }

  /** C's division by two, which truncates toward zero. */
  function TruncHalf(x: int): int {
    if x >= 0 then x / 2 else -((-x) / 2)
  }

  /** Appends one fresh node that carries x to the run that ends in `last`. */
  method AppendCopy<T(0,==)>(last: Node<T>, x: T, ghost run: seq<Node<T>>) returns (n: Node<T>, ghost run': seq<Node<T>>)
    requires run != [] && last == run[|run| - 1] && Linked(run) && Distinct(run)
    modifies last`next
    ensures fresh(n) && n.data == x && run' == run + [n] && Linked(run') && Distinct(run')
  {
    n := new Node<T>();
    last.next := n;
    n.prev := last;
    LinkedConcat(run, [n]);
    DistinctInsert(run, |run|, n);
    n.data := x;
    run' := run + [n];
  }

  /** Appends to the run that ends in `last` one fresh node per element of src. */
  method CopyRun<T(0,==)>(src: List<T>, last: Node<T>, ghost run: seq<Node<T>>)
    returns (el: Node<T>, ghost run': seq<Node<T>>)
    requires src.Spine() && last !in src.chain
    requires run != [] && last == run[|run| - 1] && Linked(run) && Distinct(run)
    modifies last`next
    ensures run <= run' && |run'| == |run| + |src.contents| && el == run'[|run'| - 1]
    ensures Linked(run') && Distinct(run')
    ensures forall i :: |run| <= i < |run'| ==> fresh(run'[i]) && run'[i].data == src.contents[i - |run|]
  {
    el, run' := last, run;
    var srcel := src.head.next;
    ghost var i := 0;
    while srcel != src.tail
      invariant 0 <= i <= src.numels && srcel == src.chain[i + 1] && src.Spine() && el !in src.chain
      invariant run <= run' && |run'| == |run| + i && el == run'[|run'| - 1]
      invariant Linked(run') && Distinct(run')
      invariant forall j :: |run| <= j < |run'| ==> fresh(run'[j]) && run'[j].data == src.contents[j - |run|]
      decreases src.numels - i
    {
      el, run' := AppendCopy(el, srcel.data, run');
      srcel, i := srcel.next, i + 1;
    }
  }

  /** The two copy loops of list_concat; m is the last node of the first copy. */
  method CopyBoth<T(0,==)>(l1: List<T>, l2: List<T>, h: Node<T>) returns (el: Node<T>, m: Node<T>, ghost run: seq<Node<T>>)
    requires l1.Spine() && l2.Spine() && h !in l1.chain && h !in l2.chain
    modifies h`next
    ensures |run| == l1.numels + l2.numels + 1 && run[0] == h && Linked(run) && Distinct(run)
    ensures m == run[l1.numels] && el == run[|run| - 1]
    ensures forall i :: 1 <= i < |run| ==> fresh(run[i]) && run[i].data == (l1.contents + l2.contents)[i - 1]
  {
    m, run := CopyRun(l1, h, [h]);
    ghost var first := run;
    el, run := CopyRun(l2, m, run);
    assert forall i :: 0 <= i < |first| ==> run[i] == first[i];
  }
}
