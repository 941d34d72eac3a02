/**
 Answer-To-Reset strings built from their parts, after section 8.2 of
 ISO/IEC 7816-3:2006, and what ATRDecodeAtr recovers from them.
 */
module AtrRoundTrip {
  import opened Wrappers
  import opened Atr

  type Nibble = n: nat | n < 16

  /** A chain of interface groups; every group but the last ends in a TD byte that names protocol t. */
  datatype Chain =
    | Last(ta: Option<Byte>, tb: Option<Byte>, tc: Option<Byte>)
    | More(ta: Option<Byte>, tb: Option<Byte>, tc: Option<Byte>, t: Nibble, rest: Chain)

  function PresenceOf(c: Chain): Presence {
    Presence(c.ta.Some?, c.tb.Some?, c.tc.Some?, c.More?)
  }

  function Weight(b: bool, w: nat): nat {
    if b then w else 0
  }

  function ToNibble(y: Presence): Nibble {
    Weight(y.a, 1) + Weight(y.b, 2) + Weight(y.c, 4) + Weight(y.d, 8)
  }

  lemma {:induction false} NibbleRoundTrip(y: Presence)
    ensures ToPresence(ToNibble(y)) == y
  {
  }

  /** The TD byte (or T0 byte) with presence nibble y and low nibble t. */
  function Pack(y: Presence, t: Nibble): Byte {
    16 * ToNibble(y) + t
  }

  lemma {:induction false} NibbleParts(n: nat, t: Nibble)
    ensures (16 * n + t) % 16 == t && (16 * n + t) / 16 == n
  {
  }

  lemma {:induction false} Unpack(y: Presence, t: Nibble)
    ensures Nibbles(Pack(y, t)) == Octet(y, t)
  {
    NibbleRoundTrip(y);
    NibbleParts(ToNibble(y), t);
  }

  function Opt(o: Option<Byte>): seq<Byte> {
    if o.Some? then [o.value] else []
  }

  /** TA, TB and TC, as far as present. */
  function Head(c: Chain): seq<Byte> {
    Opt(c.ta) + Opt(c.tb) + Opt(c.tc)
  }

  function Bytes(c: Chain): seq<Byte> {
    if c.Last? then Head(c) else Head(c) + [Pack(PresenceOf(c.rest), c.t)] + Bytes(c.rest)
  }

  type History = h: seq<Byte> | |h| <= 15

  function Encode(convention: Convention, c: Chain, history: History, tck: Option<Byte>): seq<Byte> {
    var ts: Byte := if convention == Inverse then 0x3F else 0x3B;
    [ts, Pack(PresenceOf(c), |history|)] + Bytes(c) + history + Opt(tck)
  }

  /** The protocol masks the groups ask for, read off the chain itself. */
  function Interpret(c: Chain, i: nat, current: Mask, available: Mask): Option<(Mask, Mask)> {
    if c.Last? then Some((current, available))
    else
      match Select(i, LowOf(c.ta), c.t, current, available)
      case None => None
      case Some((cur, av)) => Interpret(c.rest, i + 1, cur, av)
  }

  /** The elements of mem at `at` are those of s. */
  ghost predicate Holds<T>(mem: seq<T>, at: nat, s: seq<T>) {
    at + |s| <= |mem| && forall k :: 0 <= k < |s| ==> mem[at + k] == s[k]
  }

  lemma {:induction false} HoldsParts<T>(mem: seq<T>, at: nat, s: seq<T>, t: seq<T>)
    requires Holds(mem, at, s + t)
    ensures Holds(mem, at, s) && Holds(mem, at + |s|, t)
  {
    assert forall k :: 0 <= k < |s| ==> s[k] == (s + t)[k];
    assert forall k :: 0 <= k < |t| ==> t[k] == (s + t)[|s| + k];
  }

  lemma {:induction false} HoldsAround<T>(mem: seq<T>, p: nat, h: seq<T>, td: T, r: seq<T>)
    requires Holds(mem, p, h + [td] + r)
    ensures Holds(mem, p, h) && mem[p + |h|] == td && Holds(mem, p + |h| + 1, r)
  {
    assert h + [td] + r == h + ([td] + r);
    HoldsParts(mem, p, h, [td] + r);
    HoldsParts(mem, p + |h|, [td], r);
    assert mem[p + |h|] == [td][0];
  }

  lemma {:induction false} HoldsSplit(mem: Memory, p: nat, s: seq<Byte>)
    requires Holds(mem, p, s)
    ensures Holds(Split(mem), p, Split(s))
  {
  }

  /** The bytes of a chain as the loop sees them. */
  function OctetsOf(c: Chain): seq<Octet> {
    if c.Last? then Split(Head(c)) else Split(Head(c)) + [Octet(PresenceOf(c.rest), c.t)] + OctetsOf(c.rest)
  }

  lemma {:induction false} SplitAround(h: seq<Byte>, td: Byte, r: seq<Byte>)
    ensures Split(h + [td] + r) == Split(h) + [Nibbles(td)] + Split(r)
  {
  }

  lemma {:induction false} SplitBytes(c: Chain)
    ensures Split(Bytes(c)) == OctetsOf(c)
    decreases c
  {
    if c.More? {
      SplitBytes(c.rest);
      SplitAround(Head(c), Pack(PresenceOf(c.rest), c.t), Bytes(c.rest));
      Unpack(PresenceOf(c.rest), c.t);
    }
  }

  /** Position of the TD byte of a group at p. */
  function TdAt(p: nat, y: Presence): nat {
    Skip(Skip(Skip(p, y.a), y.b), y.c)
  }

  lemma {:induction false} HeadLayout(os: Octets, p: nat, c: Chain)
    requires Holds(os, p, Split(Head(c)))
    ensures TdAt(p, PresenceOf(c)) == p + |Head(c)|
    ensures c.ta.Some? ==> |Head(c)| > 0 && LowOf(c.ta) == Some(os[p].low)
  {
    if c.ta.Some? {
      assert os[p] == Split(Head(c))[0] == Nibbles(c.ta.value);
    }
  }

  /** One turn of the loop that finds a TD byte, in terms of what that byte says. */
  lemma {:induction false} ScanTurn(os: Octets, p: nat, y: Presence, i: nat, current: Mask, available: Mask, ta: Option<nat>, next: Presence, t: nat)
    requires p <= MAX_ATR_SIZE && y.d && TdAt(p, y) + 1 <= MAX_ATR_SIZE && os[TdAt(p, y)] == Octet(next, t)
    requires ta == if y.a then Some(os[p].low) else None
    ensures Scan(os, p, y, i, current, available) ==
            match Select(i, ta, t, current, available)
            case None => Bad
            case Some((cur, av)) => Scan(os, TdAt(p, y) + 1, next, i + 1, cur, av)
  {
  }

  /** Where the interface bytes of c end when they stand in memory from p on, seen byte by byte. */
  ghost function EndOf(os: Octets, p: nat, c: Chain): (q: Option<nat>)
    ensures q.Some? ==> TdAt(p, PresenceOf(c)) + (if c.More? then 1 else 0) <= q.value
    decreases c
  {
    var d := TdAt(p, PresenceOf(c));
    if c.ta.Some? && (p >= |os| || LowOf(c.ta) != Some(os[p].low)) then None
    else if c.Last? then Some(d)
    else if d >= |os| || os[d] != Octet(PresenceOf(c.rest), c.t) then None
    else EndOf(os, d + 1, c.rest)
  }

  /** What stands where in the bytes of a group with a TD byte. */
  lemma {:induction false} MoreLayout(os: Octets, p: nat, c: Chain) returns (d: nat)
    requires c.More? && Holds(os, p, OctetsOf(c))
    ensures d == TdAt(p, PresenceOf(c)) && d + 1 + |OctetsOf(c.rest)| == p + |OctetsOf(c)| <= |os|
    ensures os[d] == Octet(PresenceOf(c.rest), c.t) && Holds(os, d + 1, OctetsOf(c.rest))
    ensures c.ta.Some? ==> LowOf(c.ta) == Some(os[p].low)
  {
    HoldsAround(os, p, Split(Head(c)), Octet(PresenceOf(c.rest), c.t), OctetsOf(c.rest));
    HeadLayout(os, p, c);
    d := p + |Head(c)|;
  }

  lemma {:induction false} EndOfMore(os: Octets, p: nat, c: Chain, d: nat, q: nat)
    requires c.More? && d == TdAt(p, PresenceOf(c)) && d < |os| && (c.ta.Some? ==> LowOf(c.ta) == Some(os[p].low))
    requires os[d] == Octet(PresenceOf(c.rest), c.t) && EndOf(os, d + 1, c.rest) == Some(q)
    ensures EndOf(os, p, c) == Some(q)
  {
  }

  lemma {:induction false} EndOfLast(os: Octets, p: nat, c: Chain)
    requires c.Last? && Holds(os, p, OctetsOf(c))
    ensures EndOf(os, p, c) == Some(p + |OctetsOf(c)|)
  {
    HeadLayout(os, p, c);
  }

  lemma {:induction false} BytesEnd(os: Octets, p: nat, c: Chain, q: nat)
    requires Holds(os, p, OctetsOf(c)) && q == p + |OctetsOf(c)|
    ensures EndOf(os, p, c) == Some(q)
    decreases c
  {
    if c.More? {
      var d := MoreLayout(os, p, c);
      BytesEnd(os, d + 1, c.rest, q);
      EndOfMore(os, p, c, d, q);
    } else {
      EndOfLast(os, p, c);
    }
  }

  function Outcome(masks: Option<(Mask, Mask)>, p: nat): Scanned {
    if masks.None? then Bad else Done(p, masks.value.0, masks.value.1)
  }

  /** One turn on the bytes of a chain: the scan stops as the chain does, or goes on at p' with the rest of the chain. */
  lemma {:induction false} ChainTurn(os: Octets, p: nat, c: Chain, q: nat, i: nat, current: Mask, available: Mask)
    returns (stop: bool, p': nat, cur: Mask, av: Mask)
    requires c.More? && EndOf(os, p, c) == Some(q) && p <= q <= MAX_ATR_SIZE
    ensures stop ==> Scan(os, p, PresenceOf(c), i, current, available) == Bad && Interpret(c, i, current, available) == None
    ensures !stop ==> p' <= q && EndOf(os, p', c.rest) == Some(q)
    ensures !stop ==> Scan(os, p, PresenceOf(c), i, current, available) == Scan(os, p', PresenceOf(c.rest), i + 1, cur, av)
    ensures !stop ==> Interpret(c, i, current, available) == Interpret(c.rest, i + 1, cur, av)
  {
    ScanTurn(os, p, PresenceOf(c), i, current, available, LowOf(c.ta), PresenceOf(c.rest), c.t);
    var s := Select(i, LowOf(c.ta), c.t, current, available);
    stop, p', cur, av := s.None?, TdAt(p, PresenceOf(c)) + 1, {}, {};
    if s.Some? {
      cur, av := s.value.0, s.value.1;
    }
  }

  lemma {:induction false} ChainEnds(os: Octets, p: nat, c: Chain, q: nat, i: nat, current: Mask, available: Mask)
    requires c.Last? && EndOf(os, p, c) == Some(q) && p <= q <= MAX_ATR_SIZE
    ensures Scan(os, p, PresenceOf(c), i, current, available) == Done(q, current, available)
    ensures Interpret(c, i, current, available) == Some((current, available))
  {
  }

  /** Scanning the bytes of a chain computes what the chain asks for, and stops right behind it. */
  lemma {:induction false} ScanBytes(os: Octets, p: nat, c: Chain, q: nat, i: nat, current: Mask, available: Mask)
    requires EndOf(os, p, c) == Some(q) && q <= MAX_ATR_SIZE && p <= q
    ensures Scan(os, p, PresenceOf(c), i, current, available) == Outcome(Interpret(c, i, current, available), q)
    decreases c
  {
    if c.Last? {
      ChainEnds(os, p, c, q, i, current, available);
    } else {
      var stop, p', cur, av := ChainTurn(os, p, c, q, i, current, available);
      if !stop {
        ScanBytes(os, p', c.rest, q, i + 1, cur, av);
      }
    }
  }

  /** What stands where in an encoded ATR. */
  lemma {:induction false} EncodedHead(convention: Convention, c: Chain, history: History, tck: Option<Byte>, mem: Memory)
    requires Encode(convention, c, history, tck) <= mem
    ensures mem[0] == if convention == Inverse then 0x3F else 0x3B
    ensures mem[1] == Encode(convention, c, history, tck)[1] && Nibbles(mem[1]) == Octet(PresenceOf(c), |history|)
  {
    var atr := Encode(convention, c, history, tck);
    Unpack(PresenceOf(c), |history|);
    assert mem[0] == atr[0] && mem[1] == atr[1];
  }

  lemma {:induction false} EncodedBody(convention: Convention, c: Chain, history: History, tck: Option<Byte>, mem: Memory)
    requires Encode(convention, c, history, tck) <= mem
    ensures Holds(mem, 2, Bytes(c)) && Holds(mem, 2 + |Bytes(c)|, history)
  {
    EncodedHead(convention, c, history, tck, mem);
    Regroup([mem[0], mem[1]], Bytes(c), history, Opt(tck), mem);
  }

  lemma {:induction false} Regroup(a: seq<Byte>, b: seq<Byte>, c: seq<Byte>, d: seq<Byte>, mem: Memory)
    requires a + b + c + d <= mem
    ensures Holds(mem, |a|, b) && Holds(mem, |a| + |b|, c)
  {
    var all := a + b + c + d;
    assert all == a + (b + (c + d));
    assert Holds(mem, 0, all);
    HoldsParts(mem, 0, a, b + (c + d));
    HoldsParts(mem, |a|, b, c + d);
    HoldsParts(mem, |a| + |b|, c, d);
  }

  lemma {:induction false} ScanOctets(os: Octets, c: Chain, q: nat)
    requires Holds(os, 2, OctetsOf(c)) && q == 2 + |OctetsOf(c)| && q <= MAX_ATR_SIZE
    ensures Scan(os, 2, PresenceOf(c), 1, {}, {}) == Outcome(Interpret(c, 1, {}, {}), q)
  {
    BytesEnd(os, 2, c, q);
    ScanBytes(os, 2, c, q, 1, {}, {});
  }

  lemma {:induction false} ScanEncoded(mem: Memory, c: Chain)
    requires Holds(mem, 2, Bytes(c)) && 2 + |Bytes(c)| <= MAX_ATR_SIZE
    ensures Scan(Split(mem), 2, PresenceOf(c), 1, {}, {}) == Asked(c)
  {
    HoldsSplit(mem, 2, Bytes(c));
    SplitBytes(c);
    ScanOctets(Split(mem), c, 2 + |Bytes(c)|);
  }

  lemma {:induction false} DecodeBy(mem: Memory, length: nat, convention: Convention, y: Presence, k: Nibble, s: Scanned)
    requires length >= 2 && mem[0] == (if convention == Inverse then 0x3F else 0x3B) && Nibbles(mem[1]) == Octet(y, k)
    requires s == Scan(Split(mem), 2, y, 1, {}, {}) && (s.Done? ==> s.p <= MAX_ATR_SIZE)
    ensures DecodeSpec(mem, length) == Conclude(mem, convention, s, k)
  {
  }

  /** What the chain asks for, and where its bytes end. */
  ghost function Asked(c: Chain): (s: Scanned)
    ensures s.Done? ==> s.p == 2 + |Bytes(c)|
  {
    Outcome(Interpret(c, 1, {}, {}), 2 + |Bytes(c)|)
  }

  /** The parts of an answer to reset stand in memory, one behind the other. */
  ghost predicate Laid(mem: Memory, convention: Convention, c: Chain, history: History) {
    && mem[0] == (if convention == Inverse then 0x3F else 0x3B)
    && Nibbles(mem[1]) == Octet(PresenceOf(c), |history|)
    && Holds(mem, 2, Bytes(c)) && Holds(mem, 2 + |Bytes(c)|, history)
    && 2 + |Bytes(c)| + |history| <= MAX_ATR_SIZE
  }

  lemma {:induction false} EncodedLength(convention: Convention, c: Chain, history: History, tck: Option<Byte>)
    ensures |Encode(convention, c, history, tck)| == 2 + |Bytes(c)| + |history| + if tck.Some? then 1 else 0
  {
  }

  lemma {:induction false} EncodedLaid(convention: Convention, c: Chain, history: History, tck: Option<Byte>, mem: Memory)
    requires |Encode(convention, c, history, tck)| <= MAX_ATR_SIZE && Encode(convention, c, history, tck) <= mem
    ensures Laid(mem, convention, c, history)
  {
    EncodedHead(convention, c, history, tck, mem);
    EncodedBody(convention, c, history, tck, mem);
    EncodedLength(convention, c, history, tck);
  }

  lemma {:induction false} DecodeLaid(mem: Memory, length: nat, convention: Convention, c: Chain, history: History)
    requires length >= 2 && Laid(mem, convention, c, history)
    ensures DecodeSpec(mem, length) == Conclude(mem, convention, Asked(c), |history|)
  {
    ScanEncoded(mem, c);
    DecodeBy(mem, length, convention, PresenceOf(c), |history|, Asked(c));
  }

  /** Decoding an encoded ATR, for every chain: rejected exactly when Interpret rejects, and otherwise
      convention and masks come back and the historical bytes are read from their place. */
  lemma {:induction false} DecodeEncoded(convention: Convention, c: Chain, history: History, tck: Option<Byte>, mem: Memory, length: nat)
    requires length >= 2 && |Encode(convention, c, history, tck)| <= MAX_ATR_SIZE
    requires Encode(convention, c, history, tck) <= mem
    ensures 2 + |Bytes(c)| <= MAX_ATR_SIZE && DecodeSpec(mem, length) == Conclude(mem, convention, Asked(c), |history|)
  {
    EncodedLaid(convention, c, history, tck, mem);
    DecodeLaid(mem, length, convention, c, history);
  }

  /** Exactly which chains are accepted: TD1 must name T=0 or T=1, and a TA2 must do so when TD2 follows it. */
  lemma {:induction false} AcceptedExactly(c: Chain)
    ensures Interpret(c, 1, {}, {}).Some? <==>
            (c.More? ==> c.t <= 1 && (c.rest.More? && c.rest.ta.Some? ==> c.rest.ta.value % 16 <= 1))
  {
    if c.More? && c.t <= 1 && c.rest.More? && (c.rest.ta.Some? ==> c.rest.ta.value % 16 <= 1) {
      var s := Select(2, LowOf(c.rest.ta), c.rest.t, Named(c.t), {} + Named(c.t));
      LaterGroupsAccepted(c.rest.rest, 3, s.value.0, s.value.1);
    }
  }

  lemma {:induction false} LaterGroupsAccepted(c: Chain, i: nat, current: Mask, available: Mask)
    requires i > 2 && current != {}
    ensures Interpret(c, i, current, available).Some?
    ensures Interpret(c, i, current, available).value == (current, available + Offered(c))
    decreases c
  {
    if c.More? {
      LaterGroupsAccepted(c.rest, i + 1, current, available + Named(c.t));
      assert available + Named(c.t) + Offered(c.rest) == available + Offered(c);
    } else {
      assert available + {} == available;
    }
  }

  /** The protocols the TD bytes of a chain offer. */
  function Offered(c: Chain): Mask {
    if c.Last? then {} else Named(c.t) + Offered(c.rest)
  }

  /** Without a TA2 that counts, all offered protocols are available and the first one is current. */
  lemma {:induction false} Negotiable(c: Chain)
    requires c.More? ==> c.t <= 1 && c.rest.ta.None?
    ensures Interpret(c, 1, {}, {}) == Some((if c.Last? then {} else Named(c.t), Offered(c)))
  {
    OfferedAvailable(c);
  }

  lemma {:induction false} OfferedAvailable(c: Chain)
    requires c.More? ==> c.t <= 1 && !(c.rest.More? && c.rest.ta.Some?)
    ensures Interpret(c, 1, {}, {}) == Some((if c.Last? then {} else Named(c.t), Offered(c)))
  {
    if c.More? && c.rest.More? {
      var av := {} + Named(c.t) + Named(c.rest.t);
      LaterGroupsAccepted(c.rest.rest, 3, Named(c.t), av);
      assert av + Offered(c.rest.rest) == Offered(c);
    } else if c.More? {
      assert Offered(c) == {} + Named(c.t);
    }
  }

  lemma {:induction false} FinishNegotiable(c: Chain, p: nat)
    requires c.More? ==> c.t <= 1
    ensures Finish(Done(p, if c.Last? then {} else Named(c.t), Offered(c))) ==
            Done(p, if c.More? then Named(c.t) else {T0}, if c.More? then Offered(c) else {T0})
  {
    if c.More? {
      assert T0 in Named(c.t) || T1 in Named(c.t);
    } else {
      assert {} + {T0} == {T0};
    }
  }

  /** Round trip: convention, protocols, historical bytes and the exact string, for every ATR whose first
      protocol is T=0 or T=1, without TA2, and with a check byte exactly when T=1 is offered. */
  lemma {:induction false} RoundTrip(convention: Convention, c: Chain, history: History, tck: Option<Byte>, mem: Memory)
    requires c.More? ==> c.t <= 1 && c.rest.ta.None?
    requires tck.Some? <==> T1 in Offered(c)
    requires |Encode(convention, c, history, tck)| <= MAX_ATR_SIZE && Encode(convention, c, history, tck) <= mem
    ensures var atr := Encode(convention, c, history, tck);
            DecodeSpec(mem, |atr|) ==
            Some(Extension(convention, if c.More? then Named(c.t) else {T0}, if c.More? then Offered(c) else {T0}, history, atr))
  {
    var atr := Encode(convention, c, history, tck);
    DecodeEncoded(convention, c, history, tck, mem, |atr|);
    Negotiable(c);
    FinishNegotiable(c, 2 + |Bytes(c)|);
    LengthExact(convention, c, history, tck, mem);
    HistoryExact(convention, c, history, tck, mem);
  }

  /** The protocols a chain leaves available: all that are offered, unless a TA2 that counts narrows them to its own. */
  function Spoken(c: Chain): Mask {
    if c.More? && c.rest.More? && c.rest.ta.Some? then Named(c.rest.ta.value % 16) + Offered(c.rest.rest) else Offered(c)
  }

  lemma {:induction false} SpokenAvailable(c: Chain)
    requires Interpret(c, 1, {}, {}).Some?
    ensures Interpret(c, 1, {}, {}).value.1 == Spoken(c)
  {
    AcceptedExactly(c);
    if c.More? && c.rest.More? && c.rest.ta.Some? {
      var m := Named(c.rest.ta.value % 16);
      assert T0 in Named(0) && T1 in Named(1);
      LaterGroupsAccepted(c.rest.rest, 3, m, m);
    } else {
      OfferedAvailable(c);
    }
  }

  /** The decoded string is the encoded one exactly when the check byte is present just for T=1. */
  lemma {:induction false} LengthExact(convention: Convention, c: Chain, history: History, tck: Option<Byte>, mem: Memory)
    requires Interpret(c, 1, {}, {}).Some?
    requires |Encode(convention, c, history, tck)| <= MAX_ATR_SIZE && Encode(convention, c, history, tck) <= mem
    ensures var atr := Encode(convention, c, history, tck);
            DecodeSpec(mem, |atr|).Some? &&
            (DecodeSpec(mem, |atr|).value.value == atr <==> (tck.Some? <==> T1 in Spoken(c)))
  {
    var atr := Encode(convention, c, history, tck);
    DecodeEncoded(convention, c, history, tck, mem, |atr|);
    SpokenAvailable(c);
    assert mem[..|atr|] == atr;
  }

  lemma {:induction false} RecoveredHistory(mem: Memory, convention: Convention, s: Scanned, k: Nibble)
    requires s.Done? && s.p <= MAX_ATR_SIZE
    ensures var x := Conclude(mem, convention, s, k);
            x.Some? && x.value.history == Kept(mem, s.p, k, s.p + k + if T1 in s.available then 1 else 0)
  {
    assert Finish(s).p == s.p && (T1 in Finish(s).available <==> T1 in s.available);
  }

  /** The historical bytes come back exactly unless the string fills the whole buffer without the check byte that is
      looked for, and the byte that happens to lie behind it runs over the first of them. */
  lemma {:induction false} HistoryExact(convention: Convention, c: Chain, history: History, tck: Option<Byte>, mem: Memory)
    requires Interpret(c, 1, {}, {}).Some?
    requires |Encode(convention, c, history, tck)| <= MAX_ATR_SIZE && Encode(convention, c, history, tck) <= mem
    ensures var atr := Encode(convention, c, history, tck);
            DecodeSpec(mem, |atr|).Some? &&
            (DecodeSpec(mem, |atr|).value.history == history <==>
             !(history != [] && |atr| == MAX_ATR_SIZE && tck.None? && T1 in Spoken(c) && mem[MAX_ATR_SIZE] != history[0]))
  {
    EncodedLaid(convention, c, history, tck, mem);
    EncodedLength(convention, c, history, tck);
    var n := |Encode(convention, c, history, tck)|;
    DecodeLaid(mem, n, convention, c, history);
    HistoryFrom(DecodeSpec(mem, n), mem, n, convention, c, history, tck.Some?);
  }

  lemma {:induction false} HistoryFrom(d: Option<Extension>, mem: Memory, n: nat, convention: Convention, c: Chain, history: History, tck: bool)
    requires Interpret(c, 1, {}, {}).Some? && Holds(mem, 2 + |Bytes(c)|, history)
    requires n == 2 + |Bytes(c)| + |history| + (if tck then 1 else 0) && n <= MAX_ATR_SIZE
    requires d == Conclude(mem, convention, Asked(c), |history|)
    ensures d.Some?
    ensures d.value.history == history <==>
            !(history != [] && n == MAX_ATR_SIZE && !tck && T1 in Spoken(c) && mem[MAX_ATR_SIZE] != history[0])
  {
    SpokenAvailable(c);
    ConcludedHistory(d, mem, n, convention, Asked(c), history, tck);
  }

  lemma {:induction false} ConcludedHistory(d: Option<Extension>, mem: Memory, n: nat, convention: Convention, s: Scanned, history: History, tck: bool)
    requires s.Done? && s.p <= MAX_ATR_SIZE && Holds(mem, s.p, history)
    requires n == s.p + |history| + (if tck then 1 else 0) && n <= MAX_ATR_SIZE
    requires d == Conclude(mem, convention, s, |history|)
    ensures d.Some?
    ensures d.value.history == history <==>
            !(history != [] && n == MAX_ATR_SIZE && !tck && T1 in s.available && mem[MAX_ATR_SIZE] != history[0])
  {
    RecoveredHistory(mem, convention, s, |history|);
    HistoryOf(d.value, mem, n, s.p, history, tck, T1 in s.available);
  }

  lemma {:induction false} HistoryOf(x: Extension, mem: Memory, n: nat, p: nat, history: History, tck: bool, looked: bool)
    requires n == p + |history| + (if tck then 1 else 0) && n <= MAX_ATR_SIZE && Holds(mem, p, history)
    requires x.history == Kept(mem, p, |history|, p + |history| + if looked then 1 else 0)
    ensures x.history == history <==>
            !(history != [] && n == MAX_ATR_SIZE && !tck && looked && mem[MAX_ATR_SIZE] != history[0])
  {
    KeptIfRoom(mem, p, history, n, tck, looked);
  }

  /** The same for a string of n bytes, with or without a check byte, decoded with or without looking for one. */
  lemma {:induction false} KeptIfRoom(mem: Memory, p: nat, history: History, n: nat, tck: bool, looked: bool)
    requires n == p + |history| + (if tck then 1 else 0) && n <= MAX_ATR_SIZE && Holds(mem, p, history)
    ensures Kept(mem, p, |history|, p + |history| + if looked then 1 else 0) == history <==>
            !(history != [] && n == MAX_ATR_SIZE && !tck && looked && mem[MAX_ATR_SIZE] != history[0])
  {
    KeptExactly(mem, p, history, p + |history| + if looked then 1 else 0);
  }

  lemma {:induction false} KeptExactly(mem: Memory, p: nat, history: History, total: nat)
    requires p + |history| <= MAX_ATR_SIZE && Holds(mem, p, history) && p + |history| <= total <= p + |history| + 1
    ensures Kept(mem, p, |history|, total) == history <==>
            !(history != [] && total == MAX_ATR_SIZE + 1 && mem[MAX_ATR_SIZE] != history[0])
  {
    var r := Kept(mem, p, |history|, total);
    assert forall j :: 0 <= j < |history| ==> mem[p + j] == history[j];
    assert forall j :: 1 <= j < |history| ==> r[j] == history[j];
    assert history != [] ==> (r[0] == history[0] <==> !(total == MAX_ATR_SIZE + 1 && mem[MAX_ATR_SIZE] != history[0]));
  }

  /** An answer that keeps announcing TD bytes up to the last byte of the buffer: the decoded string is 48 bytes long. */
  lemma {:induction false} LongValue(mem: Memory)
    requires mem[0] == 0x3B && mem[1] == 0x8F && mem[32] == 0x00 && forall k :: 2 <= k < 32 ==> mem[k] == 0x80
    ensures var x := DecodeSpec(mem, MAX_ATR_SIZE); x.Some? && |x.value.value| == 48
  {
    var os := Split(mem);
    assert os[32] == Octet(NOTHING, 0) && Nibbles(mem[1]) == Octet(ONLY_TD, 15);
    assert forall k :: 2 <= k < 32 ==> os[k] == Octet(ONLY_TD, 0);
    LongScan(os, 2, 1, {}, {});
  }

  const ONLY_TD := Presence(false, false, false, true)

  lemma {:induction false} LongScan(os: Octets, p: nat, i: nat, current: Mask, available: Mask)
    requires 2 <= p <= 32 && os[32] == Octet(NOTHING, 0) && forall k :: 2 <= k < 32 ==> os[k] == Octet(ONLY_TD, 0)
    requires (current == {} && available == {}) || (current == {T0} && available == {T0})
    ensures Scan(os, p, ONLY_TD, i, current, available) == Done(33, {T0}, {T0})
    decreases 32 - p
  {
    assert {} + {T0} == {T0} && {T0} + {T0} == {T0};
    assert Select(i, None, 0, current, available) == Some(({T0}, {T0}));
    if p < 32 {
      LongScan(os, p + 1, i + 1, {T0}, {T0});
    }
  }

  /** Specific mode: a TA2 that disagrees with TD1 decides the current protocol exactly when TD2 is present. */
  lemma {:induction false} Ta2NeedsTd2(c: Chain)
    requires c.More? && c.t <= 1 && c.rest.ta.Some? && c.rest.ta.value % 16 <= 1 && c.rest.ta.value % 16 != c.t
    ensures Interpret(c, 1, {}, {}).Some?
    ensures Interpret(c, 1, {}, {}).value.0 == Named(c.rest.ta.value % 16) <==> c.rest.More?
  {
    if c.rest.More? {
      var m := Named(c.rest.ta.value % 16);
      LaterGroupsAccepted(c.rest.rest, 3, m, m);
    } else {
      assert T0 in Named(0) && T1 in Named(1);
      assert Named(c.t) != Named(c.rest.ta.value % 16);
    }
  }

  /** T=15 asks for a check byte too, but the decoder expects one for T=1 only. */
  lemma {:induction false} T15CheckByteMissed(mem: Memory)
    requires Encode(Direct, More(None, None, None, 0, More(None, None, None, 15, Last(None, None, None))), [], Some(0x8F)) <= mem
    ensures var x := DecodeSpec(mem, 5); x.Some? && |x.value.value| == 4
  {
    var c2 := More(None, None, None, 15, Last(None, None, None));
    var c := More(None, None, None, 0, c2);
    DecodeEncoded(Direct, c, [], Some(0x8F), mem, 5);
    Negotiable(c);
    assert Bytes(c2) == [Pack(NOTHING, 15)];
    assert |Bytes(c)| == 2;
    assert Offered(c2) == {T15} && Offered(c) == {T0, T15};
  }

  // ----- the bytes of section 8.2 -----

  /** A TD byte, or T0: bits 5 to 8 announce TA, TB, TC and TD, and the low nibble is the number. */
  predicate Announces(b: Byte, ta: bool, tb: bool, tc: bool, td: bool, t: nat) {
    && (b / 0x10 % 2 == 1 <==> ta) && (b / 0x20 % 2 == 1 <==> tb)
    && (b / 0x40 % 2 == 1 <==> tc) && (b / 0x80 % 2 == 1 <==> td)
    && b % 0x10 == t
  }

  lemma {:induction false} PackBits(c: Chain, t: Nibble)
    ensures Announces(Pack(PresenceOf(c), t), c.ta.Some?, c.tb.Some?, c.tc.Some?, c.More?, t)
  {
    var y := PresenceOf(c);
    assert Pack(y, t) / 0x10 == ToNibble(y);
  }

  /** TA, TB and TC stand in this order as far as present, with n bytes in all. */
  predicate HeadAt(b: seq<Byte>, c: Chain, n: nat) {
    && n == |Opt(c.ta)| + |Opt(c.tb)| + |Opt(c.tc)| && n <= |b|
    && (c.ta.Some? ==> b[0] == c.ta.value)
    && (c.tb.Some? ==> b[|Opt(c.ta)|] == c.tb.value)
    && (c.tc.Some? ==> b[|Opt(c.ta)| + |Opt(c.tb)|] == c.tc.value)
  }

  lemma {:induction false} HeadPlaces(c: Chain, rest: seq<Byte>)
    ensures HeadAt(Head(c) + rest, c, |Head(c)|)
  {
  }

  lemma {:induction false} Between(a: seq<Byte>, x: Byte, b: seq<Byte>)
    ensures a + [x] + b == a + ([x] + b) && (a + [x] + b)[|a|] == x && (a + [x] + b)[|a| + 1..] == b
  {
  }

  /** A group: TA, TB and TC, then TD, which announces the next group, then that group. */
  lemma {:induction false} GroupLayout(c: Chain) returns (n: nat)
    ensures HeadAt(Bytes(c), c, n)
    ensures c.Last? ==> |Bytes(c)| == n
    ensures c.More? ==> n < |Bytes(c)| && Bytes(c)[n + 1..] == Bytes(c.rest)
    ensures c.More? ==>
              Announces(Bytes(c)[n], c.rest.ta.Some?, c.rest.tb.Some?, c.rest.tc.Some?, c.rest.More?, c.t)
  {
    n := |Head(c)|;
    if c.More? {
      var td := Pack(PresenceOf(c.rest), c.t);
      PackBits(c.rest, c.t);
      Between(Head(c), td, Bytes(c.rest));
      HeadPlaces(c, [td] + Bytes(c.rest));
    } else {
      HeadPlaces(c, []);
      assert Head(c) + [] == Head(c);
    }
  }

  lemma {:induction false} FourParts(a: seq<Byte>, b: seq<Byte>, c: seq<Byte>, d: seq<Byte>)
    ensures var s, n := a + b + c + d, |a| + |b|;
            && |s| == n + |c| + |d| && s[..|a|] == a && s[|a|..n] == b && s[n..n + |c|] == c && s[n + |c|..] == d
  {
  }

  /** TS, T0, the interface bytes, the historical bytes and TCK. */
  lemma {:induction false} EncodeLayout(convention: Convention, c: Chain, history: History, tck: Option<Byte>)
    ensures var atr, n := Encode(convention, c, history, tck), 2 + |Bytes(c)|;
            && |atr| == n + |history| + |Opt(tck)|
            && atr[0] == (if convention == Inverse then 0x3F else 0x3B)
            && Announces(atr[1], c.ta.Some?, c.tb.Some?, c.tc.Some?, c.More?, |history|)
            && atr[2..n] == Bytes(c) && atr[n..n + |history|] == history && atr[n + |history|..] == Opt(tck)
  {
    var ts: Byte := if convention == Inverse then 0x3F else 0x3B;
    var first := [ts, Pack(PresenceOf(c), |history|)];
    PackBits(c, |history|);
    FourParts(first, Bytes(c), history, Opt(tck));
    var atr := Encode(convention, c, history, tck);
    assert atr[0] == atr[..2][0] && atr[1] == atr[..2][1];
  }

  /** Some TD byte of the chain names protocol t. */
  predicate Names(c: Chain, t: nat) {
    c.More? && (c.t == t || Names(c.rest, t))
  }

  /** T=0, T=1 and T=15 are offered exactly when a TD byte names them, and nothing else is. */
  lemma {:induction false} OfferedExactly(c: Chain)
    ensures T0 in Offered(c) <==> Names(c, 0)
    ensures T1 in Offered(c) <==> Names(c, 1)
    ensures T15 in Offered(c) <==> Names(c, 15)
    ensures RAW !in Offered(c) && ANY_OLD !in Offered(c)
    decreases c
  {
    if c.More? {
      OfferedExactly(c.rest);
    }
  }
}
