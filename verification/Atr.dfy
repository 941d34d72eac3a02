/**
 ATRDecodeAtr of PCSC/src/atrhandler.c: the Answer-To-Reset of section 8.2 of
 ISO/IEC 7816-3:2006. Protocol bit masks are sets of protocol bits.
 */
module Atr {
  import opened Wrappers

  /** The protocol bits; SCARD_PROTOCOL_UNDEFINED is the empty mask. */
  datatype Protocol = T0 | T1 | RAW | T15 | ANY_OLD
  type Mask = set<Protocol>

  datatype Convention = Direct | Inverse

  const MAX_ATR_SIZE: nat := 33

  /** Bytes of memory, from the start of the ATR buffer on, that a decode may look at. */
  const SPAN: nat := 49
  type Memory = s: seq<Byte> | |s| == SPAN witness seq(SPAN, _ => 0)

  datatype Extension = Extension(convention: Convention, current: Mask, available: Mask, history: seq<Byte>, value: seq<Byte>)

  // ----- the decoder -----

  /** A presence nibble Y: which of TA, TB, TC and TD follow. */
  datatype Presence = Presence(a: bool, b: bool, c: bool, d: bool)

  const NOTHING := Presence(false, false, false, false)

  function ToPresence(y: nat): Presence {
    Presence(Odd(y), Odd(y / 2), Odd(y / 4), Odd(y / 8))
  }

  predicate Odd(n: nat) {
    n % 2 == 1
  }

  /** A byte seen as its two nibbles: the groups it announces and a number. */
  datatype Octet = Octet(groups: Presence, low: nat)

  function Nibbles(b: Byte): Octet {
    Octet(ToPresence(b / 16), b % 16)
  }

  function Split(s: seq<Byte>): (r: seq<Octet>)
    ensures |r| == |s| && forall j {:trigger r[j]} :: 0 <= j < |s| ==> r[j] == Nibbles(s[j])
  {
    seq(|s|, j requires 0 <= j < |s| => Nibbles(s[j]))
  }

  type Octets = s: seq<Octet> | |s| == SPAN witness seq(SPAN, _ => Octet(NOTHING, 0))

  function Skip(p: nat, present: bool): nat {
    if present then p + 1 else p
  }

  /** What the interface-byte loop leaves behind. */
  datatype Scanned = Bad | Done(p: nat, current: Mask, available: Mask)

  function Named(t: nat): Mask {
    if t == 0 then {T0} else if t == 1 then {T1} else if t == 15 then {T15} else {}
  }

  /** Effect of a TD byte that names t and, in the second group, of a TA byte that names ta on the two masks. */
  function Select(i: nat, ta: Option<nat>, t: nat, current: Mask, available: Mask): Option<(Mask, Mask)> {
    if current == {} && t > 1 then None
    else
      var cur := if current == {} then Named(t) else current;
      var av := available + Named(t);
      if i == 2 && ta.Some? then
        if ta.value <= 1 then Some((Named(ta.value), Named(ta.value))) else None
      else Some((cur, av))
  }

  /** The do-while loop from group i on, with presence nibble y and read position p. */
  function Scan(os: Octets, p: nat, y: Presence, i: nat, current: Mask, available: Mask): Scanned
    requires p <= MAX_ATR_SIZE
    decreases MAX_ATR_SIZE - p
  {
    var c := Skip(Skip(Skip(p, y.a), y.b), y.c);
    if !y.d then
      if c > MAX_ATR_SIZE then Bad else Done(c, current, available)
    else
      var td := os[c];
      match Select(i, if y.a then Some(os[p].low) else None, td.low, current, available)
      case None => Bad
      case Some((cur, av)) =>
        if c + 1 > MAX_ATR_SIZE then Bad
        else if td.groups == NOTHING then Done(c + 1, cur, av)
        else Scan(os, c + 1, td.groups, i + 1, cur, av)
  }

  /** Masks after the loop: without any TD byte the card speaks T=0. */
  function Finish(s: Scanned): (r: Scanned)
    requires s.Done?
    ensures r.Done?
  {
    if s.current == {} then Done(s.p, {T0}, s.available + {T0}) else s
  }

  /** Between groups: the current protocol is none, T=0 or T=1, and it is available. */
  predicate Settled(current: Mask, available: Mask) {
    current <= available && (current == {} || current == {T0} || current == {T1})
  }

  lemma {:induction false} SelectSettles(i: nat, ta: Option<nat>, t: nat, current: Mask, available: Mask)
    requires Settled(current, available)
    ensures var s := Select(i, ta, t, current, available); s.Some? ==> Settled(s.value.0, s.value.1)
  {
  }

  lemma {:induction false} ScanStays(os: Octets, p: nat, y: Presence, i: nat, current: Mask, available: Mask)
    requires p <= MAX_ATR_SIZE && Settled(current, available)
    ensures var s := Scan(os, p, y, i, current, available);
            s.Done? ==> s.p <= MAX_ATR_SIZE && Settled(s.current, s.available)
    decreases MAX_ATR_SIZE - p
  {
    if y.d {
      var c := Skip(Skip(Skip(p, y.a), y.b), y.c);
      var ta := if y.a then Some(os[p].low) else None;
      SelectSettles(i, ta, os[c].low, current, available);
      var s := Select(i, ta, os[c].low, current, available);
      if s.Some? && c + 1 <= MAX_ATR_SIZE {
        ScanStays(os, c + 1, os[c].groups, i + 1, s.value.0, s.value.1);
      }
    }
  }

  /** What HistoryValue holds: the k bytes at p, but the buffer for the whole string lies right in front of it, and a
      string of more than MAX_ATR_SIZE bytes runs over its beginning. */
  function Kept(mem: Memory, p: nat, k: nat, total: nat): (r: seq<Byte>)
    requires p <= MAX_ATR_SIZE && k < 16 && p + k <= total <= p + k + 1
    ensures |r| == k
    ensures forall j {:trigger r[j]} :: 0 <= j < k ==> r[j] == if MAX_ATR_SIZE + j < total then mem[MAX_ATR_SIZE + j] else mem[p + j]
  {
    var over := if total <= MAX_ATR_SIZE then 0 else if total - MAX_ATR_SIZE < k then total - MAX_ATR_SIZE else k;
    mem[MAX_ATR_SIZE..MAX_ATR_SIZE + over] + mem[p + over..p + k]
  }

  function DecodeSpec(mem: Memory, length: nat): Option<Extension> {
    if length < 2 || (mem[0] != 0x3F && mem[0] != 0x3B) then None
    else
      var t0 := Nibbles(mem[1]);
      DecodeBody(mem, if mem[0] == 0x3F then Inverse else Direct, t0.groups, t0.low)
  }

  /** What is made of the end of the loop, with k historical bytes behind it. */
  function Conclude(mem: Memory, convention: Convention, s: Scanned, k: nat): Option<Extension>
    requires k < 16 && (s.Done? ==> s.p <= MAX_ATR_SIZE)
  {
    if s.Bad? then None
    else
      var f := Finish(s);
      var total := f.p + k + if T1 in f.available then 1 else 0;
      Some(Extension(convention, f.current, f.available, Kept(mem, f.p, k, total), mem[..total]))
  }

  /** The decoder behind the first two bytes, which give the convention, the groups that follow and the number of
      historical bytes. */
  function DecodeBody(mem: Memory, convention: Convention, y: Presence, k: nat): Option<Extension>
    requires k < 16
  {
    ScanStays(Split(mem), 2, y, 1, {}, {});
    Conclude(mem, convention, Scan(Split(mem), 2, y, 1, {}, {}), k)
  }

  /** An answer of fewer than two bytes is rejected, and one that does not begin with 0x3B or 0x3F; these two give the
      convention. */
  lemma {:induction false} FirstByte(mem: Memory, length: nat)
    ensures var r := DecodeSpec(mem, length);
            r.Some? ==> length >= 2 && mem[0] in {0x3B, 0x3F} && (r.value.convention == Inverse <==> mem[0] == 0x3F)
  {
    var t0 := Nibbles(mem[1]);
    ScanStays(Split(mem), 2, t0.groups, 1, {}, {});
  }

  function LowOf(o: Option<Byte>): Option<nat> {
    if o.Some? then Some(o.value % 16) else None
  }

  /** The protocol part of one turn of the loop. */
  method SelectProtocol(i: nat, ta: Option<Byte>, t: nat, current0: Mask, available0: Mask)
    returns (ok: bool, current: Mask, available: Mask)
    ensures Select(i, LowOf(ta), t, current0, available0) == if ok then Some((current, available)) else None
  {
    ok, current, available := true, current0, available0;
    if current == {} {
      if t == 0 {
        current := {T0};
      } else if t == 1 {
        current := {T1};
      } else {
        ok := false;
        return;
      }
    }
    if t == 0 {
      available := available + {T0};
    } else if t == 1 {
      available := available + {T1};
    } else if t == 15 {
      available := available + {T15};
    } else {
      assert available == available + Named(t);
    }
    if i == 2 && ta.Some? {
      if ta.value % 16 == 0 {
        current, available := {T0}, {T0};
      } else if ta.value % 16 == 1 {
        current, available := {T1}, {T1};
      } else {
        ok := false;
      }
    }
  }

  /** TA, TB and TC of a group, as far as present. */
  method ReadHead(mem: Memory, p0: nat, y: Presence) returns (ta: Option<Byte>, p: nat)
    requires p0 <= MAX_ATR_SIZE
    ensures p == Skip(Skip(Skip(p0, y.a), y.b), y.c) && p0 <= p <= p0 + 3
    ensures ta == if y.a then Some(mem[p0]) else None
  {
    ta, p := None, p0;
    if y.a {
      ta, p := Some(mem[p]), p + 1;
    }
    if y.b {
      p := p + 1;
    }
    if y.c {
      p := p + 1;
    }
  }

  /** One turn of the loop: reads the interface bytes of group i. */
  method ReadGroup(mem: Memory, p0: nat, y0: Presence, i: nat, current0: Mask, available0: Mask)
    returns (ok: bool, p: nat, y: Presence, current: Mask, available: Mask)
    requires p0 <= MAX_ATR_SIZE
    ensures ok ==> p <= MAX_ATR_SIZE && (y != NOTHING ==> p > p0)
    ensures Scan(Split(mem), p0, y0, i, current0, available0) ==
            if !ok then Bad
            else if y == NOTHING then Done(p, current, available)
            else Scan(Split(mem), p, y, i + 1, current, available)
  {
    ok, p, y, current, available := true, p0, y0, current0, available0;
    var ta, td: Option<Byte> := None, None;
    ta, p := ReadHead(mem, p0, y);
    if y.d {
      assert Split(mem)[p] == Nibbles(mem[p]) && (y.a ==> Split(mem)[p0] == Nibbles(mem[p0]));
      td, p := Some(mem[p]), p + 1;
    }
    if td.Some? {
      y := ToPresence(td.value / 16);
      ok, current, available := SelectProtocol(i, ta, td.value % 16, current, available);
    } else {
      y := NOTHING;
    }
    if p > MAX_ATR_SIZE {
      ok := false;
    }
  }

  /** The do-while loop. */
  method ReadGroups(mem: Memory, y0: Presence) returns (ok: bool, p: nat, current: Mask, available: Mask)
    ensures Scan(Split(mem), 2, y0, 1, {}, {}) == if ok then Done(p, current, available) else Bad
    ensures ok ==> p <= MAX_ATR_SIZE
  {
    var y, i: nat;
    ok, p, y, current, available := ReadGroup(mem, 2, y0, 1, {}, {});
    i := 2;
    while ok && y != NOTHING
      invariant ok ==> p <= MAX_ATR_SIZE
      invariant Scan(Split(mem), 2, y0, 1, {}, {}) ==
                if !ok then Bad
                else if y == NOTHING then Done(p, current, available)
                else Scan(Split(mem), p, y, i, current, available)
      decreases ok && y != NOTHING, if ok then MAX_ATR_SIZE - p else 0
    {
      ok, p, y, current, available := ReadGroup(mem, p, y, i, current, available);
      i := i + 1;
    }
  }

  method Decode(mem: Memory, length: nat) returns (r: Option<Extension>)
    ensures r == DecodeSpec(mem, length)
  {
    if length < 2 {
      return None;
    }
    if mem[0] == 0x3F {
      r := ReadBody(mem, Inverse, ToPresence(mem[1] / 16), mem[1] % 16);
    } else if mem[0] == 0x3B {
      r := ReadBody(mem, Direct, ToPresence(mem[1] / 16), mem[1] % 16);
    } else {
      return None;
    }
  }

  method ReadBody(mem: Memory, convention: Convention, y: Presence, k: nat) returns (r: Option<Extension>)
    requires k < 16
    ensures r == DecodeBody(mem, convention, y, k)
  {
    var ok, p, current, available := ReadGroups(mem, y);
    if !ok {
      return None;
    }
    r := ReadEnd(mem, convention, p, current, available, k);
  }

  method ReadEnd(mem: Memory, convention: Convention, p: nat, current0: Mask, available0: Mask, k: nat) returns (r: Option<Extension>)
    requires k < 16 && p <= MAX_ATR_SIZE
    ensures r == Conclude(mem, convention, Done(p, current0, available0), k)
  {
    var current, available := current0, available0;
    if current == {} {
      current, available := {T0}, available + {T0};
    }
    var history, value := ReadRest(mem, p, k, T1 in available);
    return Some(Extension(convention, current, available, history, value));
  }

  /** memcpy into the result. */
  method CopyBytes(buf: array<Byte>, at: nat, src: seq<Byte>)
    requires at + |src| <= buf.Length
    modifies buf
    ensures forall j :: 0 <= j < buf.Length ==> buf[j] == if at <= j < at + |src| then src[j - at] else old(buf[j])
  {
    var n := 0;
    while n < |src|
      invariant 0 <= n <= |src|
      invariant forall j :: 0 <= j < buf.Length ==> buf[j] == if at <= j < at + n then src[j - at] else old(buf[j])
    {
      buf[at + n] := src[n];
      n := n + 1;
    }
  }

  /** Value and HistoryValue, one behind the other: first the k historical bytes at p go into the second, then the whole
      string of `total` bytes goes into the first. */
  method FillResult(mem: Memory, p: nat, k: nat, total: nat) returns (b: seq<Byte>)
    requires p <= MAX_ATR_SIZE && k < 16 && total <= SPAN
    ensures |b| == 2 * MAX_ATR_SIZE
    ensures forall j {:trigger b[j]} :: 0 <= j < |b| ==> b[j] == if j < total then mem[j]
                                                 else if MAX_ATR_SIZE <= j < MAX_ATR_SIZE + k then mem[p + j - MAX_ATR_SIZE] else 0
  {
    var buf := new Byte[2 * MAX_ATR_SIZE](_ => 0);
    CopyBytes(buf, MAX_ATR_SIZE, mem[p..p + k]);
    CopyBytes(buf, 0, mem[..total]);
    b := buf[..];
  }

  /** Historical bytes, check byte and the whole string. */
  method ReadRest(mem: Memory, p0: nat, k: nat, check: bool) returns (history: seq<Byte>, value: seq<Byte>)
    requires p0 <= MAX_ATR_SIZE && k < 16
    ensures var total := p0 + k + if check then 1 else 0;
            history == Kept(mem, p0, k, total) && value == mem[..total]
  {
    var p := p0 + k;
    if check {
      p := p + 1;
    }
    var b := FillResult(mem, p0, k, p);
    history, value := b[MAX_ATR_SIZE..MAX_ATR_SIZE + k], b[..p];
    forall j | 0 <= j < k ensures history[j] == Kept(mem, p0, k, p)[j] {
      var at := MAX_ATR_SIZE + j;
      assert history[j] == b[at];
      assert b[at] == if at < p then mem[at] else mem[p0 + j];
    }
  }

  /** Every successful decode names T=0 or T=1 as current, and that protocol is among the available ones. */
  lemma {:induction false} CurrentIsOffered(mem: Memory, length: nat)
    ensures DecodeSpec(mem, length).Some? ==>
              var x := DecodeSpec(mem, length).value;
              (x.current == {T0} || x.current == {T1}) && x.current <= x.available && x.available != {}
  {
    if length >= 2 {
      ScanStays(Split(mem), 2, ToPresence(mem[1] / 16), 1, {}, {});
    }
  }
}
