/**
 list_sort of PCSC/src/simclist.c: quicksort with a random pivot, falling back to
 selection sort on short ranges. Only element data moves; no link is written.
 `ord(a, b)` stands for comparator(a, b) * -versus, so `ord(a, b) <= 0` says that
 a may stand before b.
 */
module ListSort {
  import opened SimcList

  const MIN_QUICKSORT_ELS: nat := 24

  ghost predicate TotalPreorder<T(!new)>(ord: (T, T) -> int) {
    && (forall a, b :: ord(a, b) > 0 <==> ord(b, a) < 0)
    && (forall a, b, c {:trigger Via(a, b, c)} :: Via(a, b, c) && ord(a, b) <= 0 && ord(b, c) <= 0 ==> ord(a, c) <= 0)
  }

  /** Always true; names the middle term when transitivity is used. */
  ghost predicate Via<T>(a: T, b: T, c: T) {
    true
  }

  /** Positions lo..hi-1 of s are in order. */
  ghost predicate SortedRange<T>(ord: (T, T) -> int, s: seq<T>, lo: nat, hi: nat)
    requires hi <= |s|
  {
    forall i, j :: lo <= i < j < hi ==> ord(s[i], s[j]) <= 0
  }

  /** t rearranges positions lo..hi-1 of s and leaves the rest alone. */
  ghost predicate Rearranges<T>(s: seq<T>, t: seq<T>, lo: nat, hi: nat) {
    && |s| == |t|
    && multiset(s) == multiset(t)
    && forall k :: 0 <= k < |s| && !(lo <= k < hi) ==> s[k] == t[k]
  }

  lemma {:induction false} RearrangesTrans<T>(s: seq<T>, t: seq<T>, u: seq<T>, lo: nat, hi: nat, lo': nat, hi': nat)
    requires Rearranges(s, t, lo, hi) && Rearranges(t, u, lo', hi') && lo <= lo' && hi' <= hi
    ensures Rearranges(s, u, lo, hi)
  {
  }

  /** Every element of the rearranged range was in that range before. */
  lemma {:induction false} RearrangedFrom<T>(s: seq<T>, t: seq<T>, lo: nat, hi: nat, k: nat) returns (j: nat)
    requires Rearranges(s, t, lo, hi) && lo <= k < hi <= |s|
    ensures lo <= j < hi && t[k] == s[j]
  {
    var x := t[k];
    CountByParts(s, lo, hi, x);
    CountByParts(t, lo, hi, x);
    assert s[..lo] == t[..lo] && s[hi..] == t[hi..];
    assert x == t[lo..hi][k - lo];
    assert x in multiset(t[lo..hi]);
    assert x in s[lo..hi];
    var i :| 0 <= i < |s[lo..hi]| && s[lo..hi][i] == x;
    j := lo + i;
  }

  lemma {:induction false} CountByParts<T>(s: seq<T>, lo: nat, hi: nat, x: T)
    requires lo <= hi <= |s|
    ensures multiset(s)[x] == multiset(s[..lo])[x] + multiset(s[lo..hi])[x] + multiset(s[hi..])[x]
  {
    assert s == s[..lo] + s[lo..hi] + s[hi..];
  }

  /** s is split at p: nothing before p is above s[p] and nothing after p is below it. */
  ghost predicate SplitAt<T>(ord: (T, T) -> int, s: seq<T>, lo: nat, p: nat, hi: nat)
    requires lo <= p < hi <= |s|
  {
    && (forall k :: lo <= k < p ==> ord(s[k], s[p]) <= 0)
    && (forall k :: p < k < hi ==> ord(s[p], s[k]) <= 0)
  }

  lemma {:induction false} SplitAfterLeft<T(!new)>(ord: (T, T) -> int, s: seq<T>, t: seq<T>, lo: nat, p: nat, hi: nat)
    requires lo <= p < hi <= |s| && SplitAt(ord, s, lo, p, hi) && Rearranges(s, t, lo, p)
    ensures SplitAt(ord, t, lo, p, hi)
  {
    forall k | lo <= k < p ensures ord(t[k], t[p]) <= 0 {
      var j := RearrangedFrom(s, t, lo, p, k);
    }
  }

  lemma {:induction false} SplitAfterRight<T(!new)>(ord: (T, T) -> int, s: seq<T>, t: seq<T>, lo: nat, p: nat, hi: nat)
    requires lo <= p < hi <= |s| && SplitAt(ord, s, lo, p, hi) && Rearranges(s, t, p + 1, hi)
    ensures SplitAt(ord, t, lo, p, hi)
  {
    forall k | p < k < hi ensures ord(t[p], t[k]) <= 0 {
      var j := RearrangedFrom(s, t, p + 1, hi, k);
    }
  }

  /** Sorting both sides of a split sorts the range. */
  lemma {:induction false} SortedFromSplit<T(!new)>(ord: (T, T) -> int, s: seq<T>, lo: nat, p: nat, hi: nat)
    requires TotalPreorder(ord) && lo <= p < hi <= |s| && SplitAt(ord, s, lo, p, hi)
    requires SortedRange(ord, s, lo, p) && SortedRange(ord, s, p + 1, hi)
    ensures SortedRange(ord, s, lo, hi)
  {
    forall i, j | lo <= i < j < hi ensures ord(s[i], s[j]) <= 0 {
      if i < p && p < j {
        assert Via(s[i], s[p], s[j]);
      }
    }
  }

  lemma {:induction false} SortedBySides<T(!new)>(ord: (T, T) -> int, s: seq<T>, t: seq<T>, u: seq<T>, lo: nat, p: nat, hi: nat)
    requires TotalPreorder(ord) && lo <= p < hi <= |s| && SplitAt(ord, s, lo, p, hi)
    requires Rearranges(s, t, lo, p) && SortedRange(ord, t, lo, p)
    requires Rearranges(t, u, p + 1, hi) && SortedRange(ord, u, p + 1, hi)
    ensures Rearranges(s, u, lo, hi) && SortedRange(ord, u, lo, hi)
  {
    SplitAfterLeft(ord, s, t, lo, p, hi);
    SplitAfterRight(ord, t, u, lo, p, hi);
    RearrangesTrans(s, t, t, lo, hi, lo, p);
    SortedFromSplit(ord, u, lo, p, hi);
  }

  lemma {:induction false} SwapRearranges<T>(s: seq<T>, i: nat, j: nat, lo: nat, hi: nat)
    requires lo <= i < hi <= |s| && lo <= j < hi
    ensures Rearranges(s, s[i := s[j]][j := s[i]], lo, hi)
  {
  }

  method SwapData<T(0,==)>(l: List<T>, a: Node<T>, b: Node<T>, ghost i: nat, ghost j: nat)
    requires l.Spine() && i < l.numels && j < l.numels && a == l.chain[i + 1] && b == l.chain[j + 1]
    modifies l`contents, a`data, b`data
    ensures l.Spine() && l.contents == old(l.contents[i := l.contents[j]][j := l.contents[i]])
  {
    var tmp := a.data;
    a.data := b.data;
    b.data := tmp;
    l.contents := l.contents[i := l.contents[j]][j := l.contents[i]];
  }

  /** First minimal element from `from` to `lel`. */
  method FindMin<T(0,==,!new)>(l: List<T>, ord: (T, T) -> int, from: Node<T>, lel: Node<T>, ghost u: nat, ghost last: nat)
    returns (toswap: Node<T>, ghost m: nat)
    requires l.Spine() && TotalPreorder(ord) && u <= last < l.numels
    requires from == l.chain[u + 1] && lel == l.chain[last + 1]
    ensures u <= m <= last && toswap == l.chain[m + 1]
    ensures forall k :: u <= k <= last ==> ord(l.contents[m], l.contents[k]) <= 0
  {
    toswap, m := from, u;
    var cursor := from.next;
    ghost var c := u + 1;
    while cursor != lel.next
      invariant u < c <= last + 1 && cursor == l.chain[c + 1]
      invariant u <= m < c && toswap == l.chain[m + 1]
      invariant forall k :: u <= k < c ==> ord(l.contents[m], l.contents[k]) <= 0
      decreases last - c
    {
      if ord(toswap.data, cursor.data) > 0 {
        forall k | u <= k < c ensures ord(l.contents[c], l.contents[k]) <= 0 {
          assert Via(l.contents[c], l.contents[m], l.contents[k]);
        }
        toswap, m := cursor, c;
      }
      cursor, c := cursor.next, c + 1;
    }
  }

  /** Positions first..u-1 hold, in order, elements that may stand before all that follow up to last. */
  ghost predicate Selected<T>(ord: (T, T) -> int, s: seq<T>, first: nat, u: nat, last: nat)
    requires last < |s|
  {
    forall i, j :: first <= i < u && i < j <= last ==> ord(s[i], s[j]) <= 0
  }

  lemma {:induction false} SelectStep<T>(ord: (T, T) -> int, s: seq<T>, first: nat, u: nat, m: nat, last: nat)
    requires first <= u <= m <= last < |s| && Selected(ord, s, first, u, last)
    requires forall k :: u <= k <= last ==> ord(s[m], s[k]) <= 0
    ensures Selected(ord, s[u := s[m]][m := s[u]], first, u + 1, last)
    ensures Rearranges(s, s[u := s[m]][m := s[u]], first, last + 1)
  {
  }

  /** One pass of selection sort: brings the minimum of the rest to position u. */
  method SelectOne<T(0,==,!new)>(l: List<T>, ord: (T, T) -> int, cur: Node<T>, lel: Node<T>, ghost first: nat, ghost u: nat, ghost last: nat)
    requires l.Spine() && TotalPreorder(ord) && first <= u <= last < l.numels
    requires cur == l.chain[u + 1] && lel == l.chain[last + 1]
    requires Selected(ord, l.contents, first, u, last)
    modifies l`contents, (set n | n in l.chain)`data
    ensures l.Spine() && Rearranges(old(l.contents), l.contents, first, last + 1)
    ensures Selected(ord, l.contents, first, u + 1, last)
  {
    var toswap, m := FindMin(l, ord, cur, lel, u, last);
    SelectStep(ord, l.contents, first, u, m, last);
    if toswap != cur {
      SwapData(l, cur, toswap, u, m);
    } else {
      assert l.contents == l.contents[u := l.contents[m]][m := l.contents[u]];
    }
  }

  method SelectionSort<T(0,==,!new)>(l: List<T>, ord: (T, T) -> int, first: nat, fel: Node<T>, last: nat, lel: Node<T>)
    requires l.Spine() && TotalPreorder(ord) && first <= last < l.numels
    requires fel == l.chain[first + 1] && lel == l.chain[last + 1]
    modifies l`contents, (set n | n in l.chain)`data
    ensures l.Spine() && Rearranges(old(l.contents), l.contents, first, last + 1)
    ensures SortedRange(ord, l.contents, first, last + 1)
  {
    var cur := fel;
    ghost var u := first;
    while cur != lel
      invariant l.Spine() && first <= u <= last && cur == l.chain[u + 1]
      invariant Rearranges(old(l.contents), l.contents, first, last + 1)
      invariant Selected(ord, l.contents, first, u, last)
      decreases last - u
    {
      ghost var before := l.contents;
      SelectOne(l, ord, cur, lel, first, u, last);
      RearrangesTrans(old(l.contents), before, l.contents, first, last + 1, first, last + 1);
      cur, u := cur.next, u + 1;
    }
  }

  /** The rotation left -> pivot -> pivot->prev -> left; a swap when left is pivot->prev. */
  method RotateBack<T(0,==)>(l: List<T>, left: Node<T>, pivot: Node<T>, ghost i: nat, ghost p: nat)
    requires l.Spine() && i < p < l.numels && left == l.chain[i + 1] && pivot == l.chain[p + 1]
    modifies l`contents, left`data, pivot`data, pivot.prev`data
    ensures l.Spine()
    ensures l.contents == old(l.contents[i := l.contents[p - 1]][p - 1 := l.contents[p]][p := l.contents[i]])
  {
    assert pivot.prev == l.chain[p];
    var tmp := left.data;
    left.data := pivot.prev.data;
    pivot.prev.data := pivot.data;
    pivot.data := tmp;
    l.contents := l.contents[i := l.contents[p - 1]][p - 1 := l.contents[p]][p := l.contents[i]];
  }

  /** The mirror rotation right -> pivot -> pivot->next -> right. */
  method RotateForward<T(0,==)>(l: List<T>, right: Node<T>, pivot: Node<T>, ghost i: nat, ghost p: nat)
    requires l.Spine() && p < i < l.numels && right == l.chain[i + 1] && pivot == l.chain[p + 1]
    modifies l`contents, right`data, pivot`data, pivot.next`data
    ensures l.Spine()
    ensures l.contents == old(l.contents[i := l.contents[p + 1]][p + 1 := l.contents[p]][p := l.contents[i]])
  {
    assert pivot.next == l.chain[p + 2];
    var tmp := right.data;
    right.data := pivot.next.data;
    pivot.next.data := pivot.data;
    pivot.data := tmp;
    l.contents := l.contents[i := l.contents[p + 1]][p + 1 := l.contents[p]][p := l.contents[i]];
  }

  /** Left of `li` nothing is above the pivot, right of `ri` nothing is below it. */
  ghost predicate Closing<T>(ord: (T, T) -> int, s: seq<T>, first: nat, li: nat, p: nat, ri: nat, last: nat)
    requires last < |s|
  {
    && first <= li <= p <= ri <= last
    && (forall k :: first <= k < li ==> ord(s[k], s[p]) <= 0)
    && (forall k :: ri < k <= last ==> ord(s[p], s[k]) <= 0)
  }

  lemma {:induction false} ClosingSwap<T(!new)>(ord: (T, T) -> int, s: seq<T>, first: nat, li: nat, p: nat, ri: nat, last: nat)
    requires last < |s| && Closing(ord, s, first, li, p, ri, last) && li < p < ri
    requires TotalPreorder(ord) && ord(s[li], s[p]) > 0 && ord(s[ri], s[p]) < 0
    ensures Closing(ord, s[li := s[ri]][ri := s[li]], first, li + 1, p, ri - 1, last)
    ensures Rearranges(s, s[li := s[ri]][ri := s[li]], first, last + 1)
  {
    SwapRearranges(s, li, ri, first, last + 1);
  }

  lemma {:induction false} ClosingRotateBack<T(!new)>(ord: (T, T) -> int, s: seq<T>, first: nat, li: nat, p: nat, last: nat)
    requires last < |s| && Closing(ord, s, first, li, p, p, last) && li < p
    requires TotalPreorder(ord) && ord(s[li], s[p]) > 0
    ensures var t := s[li := s[p - 1]][p - 1 := s[p]][p := s[li]];
            Closing(ord, t, first, li, p - 1, p - 1, last) && Rearranges(s, t, first, last + 1)
  {
  }

  lemma {:induction false} ClosingRotateForward<T(!new)>(ord: (T, T) -> int, s: seq<T>, first: nat, p: nat, ri: nat, last: nat)
    requires last < |s| && Closing(ord, s, first, p, p, ri, last) && p < ri
    requires TotalPreorder(ord) && ord(s[ri], s[p]) < 0
    ensures var t := s[ri := s[p + 1]][p + 1 := s[p]][p := s[ri]];
            Closing(ord, t, first, p + 1, p + 1, ri, last) && Rearranges(s, t, first, last + 1)
  {
  }

  /** Walks both ends toward the pivot and swaps misplaced pairs until one end meets the pivot. */
  method MeetAtPivot<T(0,==,!new)>(l: List<T>, ord: (T, T) -> int, fel: Node<T>, lel: Node<T>, pivot: Node<T>,
                                   ghost first: nat, ghost p: nat, ghost last: nat)
    returns (left: Node<T>, right: Node<T>, ghost li: nat, ghost ri: nat)
    requires l.Spine() && TotalPreorder(ord) && first <= p <= last < l.numels
    requires fel == l.chain[first + 1] && lel == l.chain[last + 1] && pivot == l.chain[p + 1]
    modifies l`contents, (set n | n in l.chain)`data
    ensures l.Spine() && Rearranges(old(l.contents), l.contents, first, last + 1)
    ensures Closing(ord, l.contents, first, li, p, ri, last) && (li == p || ri == p)
    ensures left == l.chain[li + 1] && right == l.chain[ri + 1]
  {
    left, right, li, ri := fel, lel, first, last;
    while left != pivot && right != pivot
      invariant l.Spine() && Rearranges(old(l.contents), l.contents, first, last + 1)
      invariant Closing(ord, l.contents, first, li, p, ri, last)
      invariant left == l.chain[li + 1] && right == l.chain[ri + 1]
      decreases ri - li
    {
      ghost var before := l.contents;
      left, right, li, ri := Round(l, ord, left, right, pivot, first, li, p, ri, last);
      RearrangesTrans(old(l.contents), before, l.contents, first, last + 1, first, last + 1);
    }
  }

  /** One round: both ends walk to the next misplaced element, or to the pivot, and misplaced pairs are swapped. */
  method Round<T(0,==,!new)>(l: List<T>, ord: (T, T) -> int, left: Node<T>, right: Node<T>, pivot: Node<T>,
                             ghost first: nat, ghost li: nat, ghost p: nat, ghost ri: nat, ghost last: nat)
    returns (left': Node<T>, right': Node<T>, ghost li': nat, ghost ri': nat)
    requires l.Spine() && TotalPreorder(ord) && last < l.numels && Closing(ord, l.contents, first, li, p, ri, last)
    requires left == l.chain[li + 1] && right == l.chain[ri + 1] && pivot == l.chain[p + 1] && li < p < ri
    modifies l`contents, (set n | n in l.chain)`data
    ensures l.Spine() && Rearranges(old(l.contents), l.contents, first, last + 1)
    ensures Closing(ord, l.contents, first, li', p, ri', last) && ri' - li' < ri - li
    ensures left' == l.chain[li' + 1] && right' == l.chain[ri' + 1]
  {
    left', right', li', ri' := Approach(l, ord, left, right, pivot, first, li, p, ri, last);
    if left' != pivot && right' != pivot {
      left', right' := SwapEnds(l, ord, left', right', first, li', p, ri', last);
      li', ri' := li' + 1, ri' - 1;
    }
  }

  method SwapEnds<T(0,==,!new)>(l: List<T>, ord: (T, T) -> int, left: Node<T>, right: Node<T>,
                                ghost first: nat, ghost li: nat, ghost p: nat, ghost ri: nat, ghost last: nat)
    returns (left': Node<T>, right': Node<T>)
    requires l.Spine() && TotalPreorder(ord) && last < l.numels && Closing(ord, l.contents, first, li, p, ri, last)
    requires li < p < ri && left == l.chain[li + 1] && right == l.chain[ri + 1]
    requires ord(l.contents[li], l.contents[p]) > 0 && ord(l.contents[ri], l.contents[p]) < 0
    modifies l`contents, left`data, right`data
    ensures l.Spine() && Closing(ord, l.contents, first, li + 1, p, ri - 1, last)
    ensures left' == l.chain[li + 2] && right' == l.chain[ri]
    ensures Rearranges(old(l.contents), l.contents, first, last + 1)
  {
    ClosingSwap(ord, l.contents, first, li, p, ri, last);
    SwapData(l, left, right, li, ri);
    left', right' := left.next, right.prev;
  }

  /** Both ends walk to the next misplaced element or to the pivot; one of them moves unless both are misplaced. */
  method Approach<T(0,==,!new)>(l: List<T>, ord: (T, T) -> int, left: Node<T>, right: Node<T>, pivot: Node<T>,
                                ghost first: nat, ghost li: nat, ghost p: nat, ghost ri: nat, ghost last: nat)
    returns (left': Node<T>, right': Node<T>, ghost li': nat, ghost ri': nat)
    requires l.Spine() && TotalPreorder(ord) && last < l.numels && Closing(ord, l.contents, first, li, p, ri, last)
    requires left == l.chain[li + 1] && right == l.chain[ri + 1] && pivot == l.chain[p + 1]
    ensures Closing(ord, l.contents, first, li', p, ri', last) && li <= li' && ri' <= ri
    ensures left' == l.chain[li' + 1] && right' == l.chain[ri' + 1]
    ensures left' == pivot <==> li' == p
    ensures right' == pivot <==> ri' == p
    ensures li' < p ==> ord(l.contents[li'], l.contents[p]) > 0
    ensures ri' > p ==> ord(l.contents[ri'], l.contents[p]) < 0
  {
    left', li' := AdvanceLeft(l, ord, left, pivot, first, li, p, ri, last);
    right', ri' := RetreatRight(l, ord, right, pivot, first, li', p, ri, last);
  }

  method AdvanceLeft<T(0,==,!new)>(l: List<T>, ord: (T, T) -> int, from: Node<T>, pivot: Node<T>,
                                   ghost first: nat, ghost at: nat, ghost p: nat, ghost ri: nat, ghost last: nat)
    returns (left: Node<T>, ghost li: nat)
    requires l.Spine() && last < l.numels && Closing(ord, l.contents, first, at, p, ri, last)
    requires from == l.chain[at + 1] && pivot == l.chain[p + 1]
    ensures Closing(ord, l.contents, first, li, p, ri, last) && at <= li && left == l.chain[li + 1]
    ensures li < p ==> ord(l.contents[li], l.contents[p]) > 0
  {
    left, li := from, at;
    while left != pivot && ord(left.data, pivot.data) <= 0
      invariant at <= li <= p && left == l.chain[li + 1]
      invariant Closing(ord, l.contents, first, li, p, ri, last)
      decreases p - li
    {
      left, li := left.next, li + 1;
    }
  }

  method RetreatRight<T(0,==,!new)>(l: List<T>, ord: (T, T) -> int, from: Node<T>, pivot: Node<T>,
                                    ghost first: nat, ghost li: nat, ghost p: nat, ghost at: nat, ghost last: nat)
    returns (right: Node<T>, ghost ri: nat)
    requires l.Spine() && TotalPreorder(ord) && last < l.numels && Closing(ord, l.contents, first, li, p, at, last)
    requires from == l.chain[at + 1] && pivot == l.chain[p + 1]
    ensures Closing(ord, l.contents, first, li, p, ri, last) && ri <= at && right == l.chain[ri + 1]
    ensures ri > p ==> ord(l.contents[ri], l.contents[p]) < 0
  {
    right, ri := from, at;
    while right != pivot && ord(right.data, pivot.data) >= 0
      invariant p <= ri <= at && right == l.chain[ri + 1]
      invariant Closing(ord, l.contents, first, li, p, ri, last)
      decreases ri - p
    {
      right, ri := right.prev, ri - 1;
    }
  }

  method PassBack<T(0,==,!new)>(l: List<T>, ord: (T, T) -> int, left: Node<T>, pivot: Node<T>,
                                ghost first: nat, ghost li: nat, ghost p: nat, ghost last: nat) returns (pivot': Node<T>)
    requires l.Spine() && TotalPreorder(ord) && last < l.numels && Closing(ord, l.contents, first, li, p, p, last)
    requires li < p && left == l.chain[li + 1] && pivot == l.chain[p + 1] && ord(l.contents[li], l.contents[p]) > 0
    modifies l`contents, (set n | n in l.chain)`data
    ensures l.Spine() && Closing(ord, l.contents, first, li, p - 1, p - 1, last) && pivot' == l.chain[p]
    ensures Rearranges(old(l.contents), l.contents, first, last + 1)
  {
    ClosingRotateBack(ord, l.contents, first, li, p, last);
    RotateBack(l, left, pivot, li, p);
    pivot' := pivot.prev;
  }

  /** One step of the left rotate-past-pivot loop: an element above the pivot goes behind it, any other is passed over. */
  method LeftStep<T(0,==,!new)>(l: List<T>, ord: (T, T) -> int, left: Node<T>, pivot: Node<T>,
                                ghost first: nat, ghost li: nat, ghost p: nat, ghost last: nat)
    returns (left': Node<T>, pivot': Node<T>, moved: bool, ghost li': nat, ghost p': nat)
    requires l.Spine() && TotalPreorder(ord) && last < l.numels && Closing(ord, l.contents, first, li, p, p, last)
    requires li < p && left == l.chain[li + 1] && pivot == l.chain[p + 1]
    modifies l`contents, (set n | n in l.chain)`data
    ensures l.Spine() && Rearranges(old(l.contents), l.contents, first, last + 1)
    ensures Closing(ord, l.contents, first, li', p', p', last) && left' == l.chain[li' + 1] && pivot' == l.chain[p' + 1]
    ensures if moved then li' == li && p' == p - 1 else li' == li + 1 && p' == p
  {
    moved, li', p' := ord(left.data, pivot.data) > 0, li + 1, p;
    if moved {
      li', p' := li, p - 1;
      pivot' := PassBack(l, ord, left, pivot, first, li, p, last);
      left' := left;
    } else {
      left', pivot' := left.next, pivot;
    }
  }

  method PassForward<T(0,==,!new)>(l: List<T>, ord: (T, T) -> int, right: Node<T>, pivot: Node<T>,
                                   ghost first: nat, ghost p: nat, ghost ri: nat, ghost last: nat) returns (pivot': Node<T>)
    requires l.Spine() && TotalPreorder(ord) && last < l.numels && Closing(ord, l.contents, first, p, p, ri, last)
    requires p < ri && right == l.chain[ri + 1] && pivot == l.chain[p + 1] && ord(l.contents[ri], l.contents[p]) < 0
    modifies l`contents, (set n | n in l.chain)`data
    ensures l.Spine() && Closing(ord, l.contents, first, p + 1, p + 1, ri, last) && pivot' == l.chain[p + 2]
    ensures Rearranges(old(l.contents), l.contents, first, last + 1)
  {
    ClosingRotateForward(ord, l.contents, first, p, ri, last);
    RotateForward(l, right, pivot, ri, p);
    pivot' := pivot.next;
  }

  method RightStep<T(0,==,!new)>(l: List<T>, ord: (T, T) -> int, right: Node<T>, pivot: Node<T>,
                                 ghost first: nat, ghost p: nat, ghost ri: nat, ghost last: nat)
    returns (right': Node<T>, pivot': Node<T>, moved: bool, ghost p': nat, ghost ri': nat)
    requires l.Spine() && TotalPreorder(ord) && last < l.numels && Closing(ord, l.contents, first, p, p, ri, last)
    requires p < ri && right == l.chain[ri + 1] && pivot == l.chain[p + 1]
    modifies l`contents, (set n | n in l.chain)`data
    ensures l.Spine() && Rearranges(old(l.contents), l.contents, first, last + 1)
    ensures Closing(ord, l.contents, first, p', p', ri', last) && right' == l.chain[ri' + 1] && pivot' == l.chain[p' + 1]
    ensures if moved then p' == p + 1 && ri' == ri else p' == p && ri' == ri - 1
  {
    moved, p', ri' := ord(right.data, pivot.data) < 0, p, ri - 1;
    if moved {
      p', ri' := p + 1, ri;
      pivot' := PassForward(l, ord, right, pivot, first, p, ri, last);
      right' := right;
    } else {
      right', pivot' := right.prev, pivot;
    }
  }

  method DrainLeft<T(0,==,!new)>(l: List<T>, ord: (T, T) -> int, left0: Node<T>, pivot0: Node<T>, id0: nat,
                                 ghost li0: nat, first: nat, ghost last: nat)
    returns (pivot: Node<T>, pivotid: nat)
    requires l.Spine() && TotalPreorder(ord) && last < l.numels
    requires Closing(ord, l.contents, first, li0, first + id0, first + id0, last)
    requires left0 == l.chain[li0 + 1] && pivot0 == l.chain[first + id0 + 1]
    modifies l`contents, (set n | n in l.chain)`data
    ensures l.Spine() && Rearranges(old(l.contents), l.contents, first, last + 1)
    ensures first + pivotid <= last && pivot == l.chain[first + pivotid + 1]
    ensures SplitAt(ord, l.contents, first, first + pivotid, last + 1)
  {
    var left := left0;
    ghost var li: nat, p: nat := li0, first + id0;
    pivot, pivotid := pivot0, id0;
    while left != pivot
      invariant l.Spine() && Rearranges(old(l.contents), l.contents, first, last + 1)
      invariant Closing(ord, l.contents, first, li, p, p, last) && p == first + pivotid
      invariant left == l.chain[li + 1] && pivot == l.chain[p + 1]
      decreases p - li
    {
      ghost var before := l.contents;
      var moved;
      left, pivot, moved, li, p := LeftStep(l, ord, left, pivot, first, li, p, last);
      RearrangesTrans(old(l.contents), before, l.contents, first, last + 1, first, last + 1);
      if moved {
        pivotid := pivotid - 1;
      }
    }
  }

  method DrainRight<T(0,==,!new)>(l: List<T>, ord: (T, T) -> int, right0: Node<T>, pivot0: Node<T>, id0: nat,
                                  ghost ri0: nat, first: nat, ghost last: nat)
    returns (pivot: Node<T>, pivotid: nat)
    requires l.Spine() && TotalPreorder(ord) && last < l.numels
    requires Closing(ord, l.contents, first, first + id0, first + id0, ri0, last)
    requires right0 == l.chain[ri0 + 1] && pivot0 == l.chain[first + id0 + 1]
    modifies l`contents, (set n | n in l.chain)`data
    ensures l.Spine() && Rearranges(old(l.contents), l.contents, first, last + 1)
    ensures first + pivotid <= last && pivot == l.chain[first + pivotid + 1]
    ensures SplitAt(ord, l.contents, first, first + pivotid, last + 1)
  {
    var right := right0;
    ghost var p: nat, ri: nat := first + id0, ri0;
    pivot, pivotid := pivot0, id0;
    while right != pivot
      invariant l.Spine() && Rearranges(old(l.contents), l.contents, first, last + 1)
      invariant Closing(ord, l.contents, first, p, p, ri, last) && p == first + pivotid
      invariant right == l.chain[ri + 1] && pivot == l.chain[p + 1]
      decreases ri - p
    {
      ghost var before := l.contents;
      var moved;
      right, pivot, moved, p, ri := RightStep(l, ord, right, pivot, first, p, ri, last);
      RearrangesTrans(old(l.contents), before, l.contents, first, last + 1, first, last + 1);
      if moved {
        pivotid := pivotid + 1;
      }
    }
  }

  /** Node at offset `pivotid` of the range, from the nearer end. */
  method FindPivot<T(0,==)>(l: List<T>, first: nat, fel: Node<T>, last: nat, lel: Node<T>, pivotid: nat) returns (pivot: Node<T>)
    requires l.Spine() && first + pivotid <= last < l.numels
    requires fel == l.chain[first + 1] && lel == l.chain[last + 1]
    ensures pivot == l.chain[first + pivotid + 1]
  {
    var i: nat;
    if pivotid < (last - first + 1) / 2 {
      i, pivot := 0, fel;
      while i < pivotid
        invariant i <= pivotid && pivot == l.chain[first + i + 1]
      {
        pivot, i := pivot.next, i + 1;
      }
    } else {
      i, pivot := last - first, lel;
      while i > pivotid
        invariant pivotid <= i <= last - first && pivot == l.chain[first + i + 1]
      {
        pivot, i := pivot.prev, i - 1;
      }
    }
  }

  /** Splits the range at a pivot that stood at any offset, and returns where it ends up. */
  method Partition<T(0,==,!new)>(l: List<T>, ord: (T, T) -> int, first: nat, fel: Node<T>, last: nat, lel: Node<T>, id0: nat)
    returns (pivot: Node<T>, pivotid: nat)
    requires l.Spine() && TotalPreorder(ord) && first + id0 <= last < l.numels
    requires fel == l.chain[first + 1] && lel == l.chain[last + 1]
    modifies l`contents, (set n | n in l.chain)`data
    ensures l.Spine() && Rearranges(old(l.contents), l.contents, first, last + 1)
    ensures first + pivotid <= last && pivot == l.chain[first + pivotid + 1]
    ensures SplitAt(ord, l.contents, first, first + pivotid, last + 1)
  {
    pivot := FindPivot(l, first, fel, last, lel, id0);
    var left, right, li, ri := MeetAtPivot(l, ord, fel, lel, pivot, first, first + id0, last);
    ghost var before := l.contents;
    pivot, pivotid := Drain(l, ord, left, right, pivot, id0, li, ri, first, last);
    RearrangesTrans(old(l.contents), before, l.contents, first, last + 1, first, last + 1);
  }

  method Drain<T(0,==,!new)>(l: List<T>, ord: (T, T) -> int, left: Node<T>, right: Node<T>, pivot0: Node<T>, id0: nat,
                             ghost li: nat, ghost ri: nat, first: nat, ghost last: nat)
    returns (pivot: Node<T>, pivotid: nat)
    requires l.Spine() && TotalPreorder(ord) && last < l.numels
    requires Closing(ord, l.contents, first, li, first + id0, ri, last) && (li == first + id0 || ri == first + id0)
    requires left == l.chain[li + 1] && right == l.chain[ri + 1] && pivot0 == l.chain[first + id0 + 1]
    modifies l`contents, (set n | n in l.chain)`data
    ensures l.Spine() && Rearranges(old(l.contents), l.contents, first, last + 1)
    ensures first + pivotid <= last && pivot == l.chain[first + pivotid + 1]
    ensures SplitAt(ord, l.contents, first, first + pivotid, last + 1)
  {
    if right == pivot0 {
      pivot, pivotid := DrainLeft(l, ord, left, pivot0, id0, li, first, last);
    } else {
      pivot, pivotid := DrainRight(l, ord, right, pivot0, id0, ri, first, last);
    }
  }

  method QuickSort<T(0,==,!new)>(l: List<T>, ord: (T, T) -> int, first: nat, fel: Node<T>, last: nat, lel: Node<T>)
    requires l.Spine() && TotalPreorder(ord) && first <= last < l.numels
    requires fel == l.chain[first + 1] && lel == l.chain[last + 1]
    modifies l`contents, (set n | n in l.chain)`data
    ensures l.Spine() && Rearranges(old(l.contents), l.contents, first, last + 1)
    ensures SortedRange(ord, l.contents, first, last + 1)
    decreases last - first, 2
  {
    if last <= first {
      return;
    }
    if last - first + 1 <= MIN_QUICKSORT_ELS {
      SelectionSort(l, ord, first, fel, last, lel);
      return;
    }
    var id0: nat :| id0 <= last - first;  // random() % (last - first + 1)
    var pivot, pivotid := Partition(l, ord, first, fel, last, lel, id0);
    ghost var s := l.contents;
    SortSides(l, ord, first, fel, last, lel, pivot, pivotid);
    RearrangesTrans(old(l.contents), s, l.contents, first, last + 1, first, last + 1);
  }

  /** Sorts what stands before and behind the pivot. */
  method SortLeft<T(0,==,!new)>(l: List<T>, ord: (T, T) -> int, first: nat, fel: Node<T>, ghost last: nat, pivot: Node<T>, pivotid: nat)
    requires l.Spine() && TotalPreorder(ord) && first + pivotid <= last < l.numels
    requires fel == l.chain[first + 1] && pivot == l.chain[first + pivotid + 1]
    modifies l`contents, (set n | n in l.chain)`data
    ensures l.Spine() && Rearranges(old(l.contents), l.contents, first, first + pivotid)
    ensures SortedRange(ord, l.contents, first, first + pivotid)
    decreases last - first, 0
  {
    if pivotid > 0 {
      QuickSort(l, ord, first, fel, first + pivotid - 1, pivot.prev);
    }
  }

  method SortRight<T(0,==,!new)>(l: List<T>, ord: (T, T) -> int, first: nat, last: nat, lel: Node<T>, pivot: Node<T>, pivotid: nat)
    requires l.Spine() && TotalPreorder(ord) && first + pivotid <= last < l.numels
    requires lel == l.chain[last + 1] && pivot == l.chain[first + pivotid + 1]
    modifies l`contents, (set n | n in l.chain)`data
    ensures l.Spine() && Rearranges(old(l.contents), l.contents, first + pivotid + 1, last + 1)
    ensures SortedRange(ord, l.contents, first + pivotid + 1, last + 1)
    decreases last - first, 0
  {
    if first + pivotid < last {
      QuickSort(l, ord, first + pivotid + 1, pivot.next, last, lel);
    }
  }

  method SortSides<T(0,==,!new)>(l: List<T>, ord: (T, T) -> int, first: nat, fel: Node<T>, last: nat, lel: Node<T>,
                                 pivot: Node<T>, pivotid: nat)
    requires l.Spine() && TotalPreorder(ord) && first + pivotid <= last < l.numels
    requires fel == l.chain[first + 1] && lel == l.chain[last + 1] && pivot == l.chain[first + pivotid + 1]
    requires SplitAt(ord, l.contents, first, first + pivotid, last + 1)
    modifies l`contents, (set n | n in l.chain)`data
    ensures l.Spine() && Rearranges(old(l.contents), l.contents, first, last + 1)
    ensures SortedRange(ord, l.contents, first, last + 1)
    decreases last - first, 1
  {
    SortLeft(l, ord, first, fel, last, pivot, pivotid);
    ghost var t := l.contents;
    SortRight(l, ord, first, last, lel, pivot, pivotid);
    SortedBySides(ord, old(l.contents), t, l.contents, first, first + pivotid, last + 1);
  }

  /** comparator(a, b) * -versus is a total preorder whenever the comparator is one. */
  lemma {:induction false} VersusPreorder<T(!new)>(cmp: (T, T) -> int, versus: int)
    requires TotalPreorder(cmp)
    ensures TotalPreorder((a, b) => cmp(a, b) * -versus)
  {
    var ord := (a: T, b: T) => cmp(a, b) * -versus;
    forall a, b ensures ord(a, b) > 0 <==> ord(b, a) < 0 {
      SignOfProduct(cmp(a, b), versus);
      SignOfProduct(cmp(b, a), versus);
      assert cmp(a, b) > 0 <==> cmp(b, a) < 0;
    }
    forall a, b, c | ord(a, b) <= 0 && ord(b, c) <= 0 ensures ord(a, c) <= 0 {
      SignOfProduct(cmp(a, b), versus);
      SignOfProduct(cmp(b, c), versus);
      SignOfProduct(cmp(a, c), versus);
      assert Via(a, b, c) && Via(c, b, a);
    }
  }

  lemma {:induction false} SignOfProduct(x: int, versus: int)
    ensures x * -versus > 0 <==> (x > 0 && versus < 0) || (x < 0 && versus > 0)
    ensures x * -versus < 0 <==> (x > 0 && versus > 0) || (x < 0 && versus < 0)
  {
  }

  method Sort<T(0,==,!new)>(l: List<T>, versus: int) returns (ok: bool)
    requires l.Valid() && (l.comparator.Some? ==> TotalPreorder(l.comparator.value))
    modifies l`contents, (set n | n in l.chain)`data
    ensures l.Valid()
    ensures ok <==> !l.iterActive && l.comparator.Some?
    ensures multiset(l.contents) == multiset(old(l.contents))
    ensures ok && versus > 0 ==> forall i, j :: 0 <= i < j < l.numels ==> l.comparator.value(l.contents[i], l.contents[j]) >= 0
    ensures ok && versus < 0 ==> forall i, j :: 0 <= i < j < l.numels ==> l.comparator.value(l.contents[i], l.contents[j]) <= 0
    ensures !ok ==> l.contents == old(l.contents)
  {
    if l.iterActive || l.comparator.None? {
      return false;
    }
    if l.numels <= 1 {
      return true;
    }
    var cmp := l.comparator.value;
    VersusPreorder(cmp, versus);
    var ord := (a, b) => cmp(a, b) * -versus;
    QuickSort(l, ord, 0, l.head.next, l.numels - 1, l.tail.prev);
    forall i, j | 0 <= i < j < l.numels
      ensures versus > 0 ==> cmp(l.contents[i], l.contents[j]) >= 0
      ensures versus < 0 ==> cmp(l.contents[i], l.contents[j]) <= 0
    {
      SignOfProduct(cmp(l.contents[i], l.contents[j]), versus);
    }
    return true;
  }
}
