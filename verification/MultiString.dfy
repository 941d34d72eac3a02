/**
 Reader names as a multi-string: the length query and the fill of SCardListReaders in
 PCSC/src/winscard_clnt.c, and the scan of pcsc-tools/pcsc_scan.c that takes it apart.
 */
module MultiString {
  const NUL := '\0'

  /** A cell of readerStates: live when its reader id is not 0. */
  datatype ReaderState = ReaderState(readerId: int, name: string)

  datatype Code = Success | NoReaders | InsufficientBuffer | InvalidParameter

  /** What the caller passes: no buffer (the size query), a buffer of `room` bytes, or SCARD_AUTOALLOCATE, with or without
      a place to put the new buffer. */
  datatype Target = SizeOnly | Given(buf: array<char>, room: nat) | Allocate(wanted: bool)

  ghost predicate NulFree(s: string) { forall i :: 0 <= i < |s| ==> s[i] != NUL }

  ghost predicate AllNulFree(states: seq<ReaderState>) { forall i :: 0 <= i < |states| ==> NulFree(states[i].name) }

  /** Names of the live cells in table order. */
  ghost function Names(states: seq<ReaderState>): (r: seq<string>) {
    if states == [] then []
    else if states[0].readerId != 0 then [states[0].name] + Names(states[1..])
    else Names(states[1..])
  }

  /** Live cells among the first k. */
  ghost function Rank(states: seq<ReaderState>, k: nat): nat
    requires k <= |states|
  {
    if k == 0 then 0 else Rank(states, k - 1) + if states[k - 1].readerId != 0 then 1 else 0
  }

  lemma {:induction false} RankTail(states: seq<ReaderState>, k: nat)
    requires 0 < k <= |states|
    ensures Rank(states, k) == Rank(states[1..], k - 1) + if states[0].readerId != 0 then 1 else 0
  {
    if k > 1 {
      RankTail(states, k - 1);
    } else {
      assert Rank(states, 0) == 0;
    }
  }

  /** The names are those of the live cells, each at the place its cell has among the live ones, and no others. */
  lemma {:induction false} NamesExactly(states: seq<ReaderState>, i: nat)
    requires i < |states|
    ensures |Names(states)| == Rank(states, |states|)
    ensures states[i].readerId != 0 ==>
              Rank(states, i) < |Names(states)| && Names(states)[Rank(states, i)] == states[i].name
  {
    RankTail(states, |states|);
    if i > 0 {
      NamesExactly(states[1..], i - 1);
      RankTail(states, i);
    } else if |states| > 1 {
      NamesExactly(states[1..], 0);
    }
  }

  ghost function Joined(names: seq<string>): (r: string) {
    if names == [] then [] else names[0] + [NUL] + Joined(names[1..])
  }

  /** The multi-string a caller expects: every name with its terminator, then one more. */
  ghost function Packed(names: seq<string>): (r: string) { Joined(names) + [NUL] }

  /** Where name k begins in the multi-string. */
  ghost function StartOf(names: seq<string>, k: nat): nat
    requires k <= |names|
  {
    if k == 0 then 0 else |names[0]| + 1 + StartOf(names[1..], k - 1)
  }

  /** Name k and its terminator stand behind the names before it. */
  lemma {:induction false} JoinedAt(names: seq<string>, k: nat)
    requires k < |names|
    ensures var at, len := StartOf(names, k), |names[k]|;
            at + len + 1 <= |Joined(names)| && Joined(names)[at..at + len] == names[k] && Joined(names)[at + len] == NUL
    ensures |Joined(names)| == StartOf(names, |names|)
  {
    var first, rest := names[0] + [NUL], Joined(names[1..]);
    assert Joined(names) == first + rest;
    if |names| > 1 {
      var j := if k > 0 then k - 1 else 0;
      JoinedAt(names[1..], j);
      var at, len := StartOf(names[1..], j), |names[1..][j]|;
      assert (first + rest)[|first| + at..|first| + at + len] == rest[at..at + len];
    }
  }

  /** In the multi-string every name stands behind the names before it, with its terminator, and one more terminator ends
      it. */
  lemma {:induction false} PackedExactly(names: seq<string>, k: nat)
    requires k < |names|
    ensures |Packed(names)| == StartOf(names, |names|) + 1 && Packed(names)[|Packed(names)| - 1] == NUL
    ensures var at, len := StartOf(names, k), |names[k]|;
            at + len + 1 < |Packed(names)| && Packed(names)[at..at + len] == names[k] && Packed(names)[at + len] == NUL
  {
    JoinedAt(names, k);
    var at, len := StartOf(names, k), |names[k]|;
    assert (Joined(names) + [NUL])[at..at + len] == Joined(names)[at..at + len];
  }

  lemma {:induction false} NamesSnoc(states: seq<ReaderState>, s: ReaderState)
    ensures Names(states + [s]) == Names(states) + if s.readerId != 0 then [s.name] else []
  {
    if states == [] {
      assert (states + [s])[1..] == [];
    } else {
      assert (states + [s])[1..] == states[1..] + [s];
      NamesSnoc(states[1..], s);
    }
  }

  lemma {:induction false} JoinedSnoc(names: seq<string>, n: string)
    ensures Joined(names + [n]) == Joined(names) + n + [NUL]
  {
    if names == [] {
      assert (names + [n])[1..] == [];
    } else {
      assert (names + [n])[1..] == names[1..] + [n];
      JoinedSnoc(names[1..], n);
    }
  }

  lemma {:induction false} JoinedNames(states: seq<ReaderState>, i: nat)
    requires i < |states|
    ensures Joined(Names(states[..i + 1])) ==
            Joined(Names(states[..i])) + if states[i].readerId != 0 then states[i].name + [NUL] else []
  {
    assert states[..i + 1] == states[..i] + [states[i]];
    NamesSnoc(states[..i], states[i]);
    if states[i].readerId != 0 {
      JoinedSnoc(Names(states[..i]), states[i].name);
    } else {
      assert Names(states[..i + 1]) == Names(states[..i]);
    }
  }

  lemma {:induction false} JoinedGrows(states: seq<ReaderState>, i: nat)
    requires i <= |states|
    ensures |Joined(Names(states[..i]))| <= |Joined(Names(states))|
    decreases |states| - i
  {
    if i < |states| {
      JoinedNames(states, i);
      JoinedGrows(states, i + 1);
    } else {
      assert states[..i] == states;
    }
  }

  /** The size query. */
  method QueryLength(states: seq<ReaderState>) returns (len: nat)
    ensures len == |Packed(Names(states))|
  {
    len := 0;
    var i := 0;
    while i < |states|
      invariant 0 <= i <= |states|
      invariant len == |Joined(Names(states[..i]))|
    {
      JoinedNames(states, i);
      if states[i].readerId != 0 {
        len := len + |states[i].name| + 1;
      }
      i := i + 1;
    }
    assert states[..i] == states;
    len := len + 1;
  }

  /** strcpy of a name and its terminator at buf[at..]. */
  method CopyName(buf: array<char>, at: nat, name: string)
    requires at + |name| + 1 <= buf.Length
    modifies buf
    ensures buf[..at + |name| + 1] == old(buf[..at]) + name + [NUL]
    ensures buf[at + |name| + 1..] == old(buf[at + |name| + 1..])
  {
    var j := 0;
    while j < |name|
      invariant 0 <= j <= |name|
      invariant buf[..at + j] == old(buf[..at]) + name[..j]
      invariant buf[at + j..] == old(buf[at + j..])
    {
      buf[at + j] := name[j];
      assert buf[at + j + 1..] == old(buf[at + j..])[1..];
      j := j + 1;
    }
    buf[at + j] := NUL;
    assert buf[at + j + 1..] == old(buf[at + j..])[1..];
  }

  /** The fill loop: writes exactly the queried length and nothing behind it. */
  method Fill(states: seq<ReaderState>, buf: array<char>)
    requires |Packed(Names(states))| <= buf.Length
    modifies buf
    ensures buf[..|Packed(Names(states))|] == Packed(Names(states))
    ensures buf[|Packed(Names(states))|..] == old(buf[|Packed(Names(states))|..])
  {
    var at, i := 0, 0;
    while i < |states|
      invariant 0 <= i <= |states|
      invariant at == |Joined(Names(states[..i]))| < buf.Length
      invariant buf[..at] == Joined(Names(states[..i]))
      invariant buf[at..] == old(buf[at..])
    {
      JoinedNames(states, i);
      JoinedGrows(states, i + 1);
      if states[i].readerId != 0 {
        var n := |states[i].name| + 1;
        ghost var tail := buf[at..];
        assert tail[n..] == buf[at + n..] && old(buf[at..])[n..] == old(buf[at + n..]);
        CopyName(buf, at, states[i].name);
        at := at + n;
      }
      i := i + 1;
    }
    assert states[..i] == states;
    buf[at] := NUL;
    assert buf[at + 1..] == old(buf[at..])[1..];
  }

  /** SCardListReaders. `out` is the buffer the caller has afterwards. */
  method ListReaders(states: seq<ReaderState>, target: Target) returns (rv: Code, len: nat, out: array?<char>)
    requires target.Given? ==> target.room <= target.buf.Length
    modifies if target.Given? then {target.buf} else {}
    ensures len == |Packed(Names(states))|
    ensures rv == if Names(states) == [] then NoReaders
                  else if target == Allocate(false) then InvalidParameter
                  else if target.Given? && target.room < len then InsufficientBuffer else Success
    ensures target.Given? ==> out == target.buf
    ensures target.Given? && rv == Success ==> target.buf[..] == Packed(Names(states)) + old(target.buf[len..])
    ensures target.Given? && rv != Success ==> target.buf[..] == old(target.buf[..])
    ensures target.Allocate? && rv == Success ==> out != null && fresh(out) && out[..] == Packed(Names(states))
  {
    out := if target.Given? then target.buf else null;
    len := QueryLength(states);
    if len == 1 {
      return NoReaders, len, out;
    }
    if target.Allocate? {
      out := new char[len](_ => NUL);
      if !target.wanted {
        return InvalidParameter, len, out;
      }
    } else if target.Given? && target.room < len {
      return InsufficientBuffer, len, out;
    }
    if out != null {
      Fill(states, out);
      assert out[..] == out[..len] + out[len..];
    }
    rv := Success;
  }

  method Strlen(buf: string, p: nat) returns (n: nat)
    requires exists z :: p <= z < |buf| && buf[z] == NUL
    ensures p + n < |buf| && buf[p + n] == NUL && NulFree(buf[p..p + n])
  {
    n := 0;
    ghost var z :| p <= z < |buf| && buf[z] == NUL;
    while buf[p + n] != NUL
      invariant p + n <= z
      invariant NulFree(buf[p..p + n])
      decreases z - n
    {
      assert buf[p..p + n + 1] == buf[p..p + n] + [buf[p + n]];
      n := n + 1;
    }
  }

  /** Names up to the first empty one: an empty name reads as the final terminator. */
  ghost function BeforeEmpty(names: seq<string>): (r: seq<string>) {
    if names == [] || names[0] == [] then [] else [names[0]] + BeforeEmpty(names[1..])
  }

  lemma {:induction false} BeforeEmptyWhole(names: seq<string>)
    ensures BeforeEmpty(names) == names <==> [] !in names
  {
    if names != [] && names[0] != [] {
      BeforeEmptyWhole(names[1..]);
      assert names == [names[0]] + names[1..];
    } else if names != [] {
      assert [] in names;
    }
  }

  /** Two NUL-free strings followed by NUL that start the same text are equal. */
  lemma {:induction false} SameWord(a: string, b: string, u: string, v: string)
    requires NulFree(a) && NulFree(b) && a + [NUL] + u == b + [NUL] + v
    ensures a == b && u == v
  {
    var s, t := a + [NUL] + u, b + [NUL] + v;
    assert s[|a|] == NUL && t[|b|] == NUL;
    assert forall k :: 0 <= k < |a| ==> s[k] == a[k] != NUL;
    assert forall k :: 0 <= k < |b| ==> t[k] == b[k] != NUL;
    assert |a| == |b|;
    assert a == s[..|a|] && b == t[..|b|];
    assert u == s[|a| + 1..] && v == t[|b| + 1..];
  }

  /** A NUL in front ends the scan, and stands there exactly when no further name is recovered. */
  lemma {:induction false} FirstByte(names: seq<string>, rest: string)
    requires forall n :: n in names ==> NulFree(n)
    ensures (Packed(names) + rest)[0] == NUL <==> BeforeEmpty(names) == []
  {
    if names != [] && names[0] != [] {
      assert names[0] in names;
      assert (Packed(names) + rest)[0] == names[0][0];
    }
  }

  /** The scan loop over a multi-string followed by arbitrary bytes. */
  method Scan(buf: string, ghost names: seq<string>, ghost rest: string) returns (found: seq<string>)
    requires (forall n :: n in names ==> NulFree(n)) && buf == Packed(names) + rest
    ensures found == BeforeEmpty(names)
  {
    found := [];
    var p := 0;
    ghost var todo := names;
    assert buf[0..] == buf;
    while buf[p] != NUL
      invariant p < |buf| && buf[p..] == Packed(todo) + rest
      invariant forall n :: n in todo ==> NulFree(n)
      invariant BeforeEmpty(names) == found + BeforeEmpty(todo)
      decreases |buf| - p
    {
      NameAhead(buf, p, todo, rest);
      var n := Strlen(buf, p);
      ghost var tail := Packed(todo[1..]) + rest;
      assert buf[p..] == buf[p..p + n] + [NUL] + buf[p + n + 1..];
      SameWord(buf[p..p + n], todo[0], buf[p + n + 1..], tail);
      assert todo[0] != [] by { assert buf[p..][0] == buf[p]; }
      found := found + [buf[p..p + n]];
      p := p + n + 1;
      todo := todo[1..];
    }
    assert buf[p..][0] == buf[p];
    FirstByte(todo, rest);
  }

  lemma {:induction false} NameAhead(buf: string, p: nat, todo: seq<string>, rest: string)
    requires p < |buf| && buf[p..] == Packed(todo) + rest && buf[p] != NUL
    ensures todo != [] && buf[p..] == todo[0] + [NUL] + (Packed(todo[1..]) + rest)
    ensures exists z :: p <= z < |buf| && buf[z] == NUL
  {
    assert buf[p..][0] == buf[p];
    assert todo != [];
    assert buf[p..] == todo[0] + [NUL] + (Packed(todo[1..]) + rest);
    assert buf[p..][|todo[0]|] == NUL == buf[p + |todo[0]|];
  }

  lemma {:induction false} NamesNulFree(states: seq<ReaderState>)
    requires AllNulFree(states)
    ensures forall n :: n in Names(states) ==> NulFree(n)
  {
    if states != [] {
      NamesNulFree(states[1..]);
    }
  }

  /** Query, allocate, fill and scan: the live names come back in table order exactly when none of them is empty. */
  method RoundTrip(states: seq<ReaderState>) returns (rv: Code, found: seq<string>)
    requires AllNulFree(states)
    ensures rv == NoReaders <==> Names(states) == []
    ensures found == BeforeEmpty(Names(states))
    ensures found == Names(states) <==> [] !in Names(states)
  {
    NamesNulFree(states);
    BeforeEmptyWhole(Names(states));
    var _, room, _ := ListReaders(states, SizeOnly);
    var buf := new char[room](_ => NUL);
    var len, out;
    rv, len, out := ListReaders(states, Given(buf, room));
    assert buf[..] == Packed(Names(states)) + [];
    found := Scan(buf[..], Names(states), []);
  }
}
