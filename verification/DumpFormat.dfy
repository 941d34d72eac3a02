/**
 The file that list_dump_filedescriptor of PCSC/src/simclist.c writes, byte by byte,
 and which files list_restore_filedescriptor takes. Integers have their most significant
 byte first, except for the lengths in front of elements, which are in the order of the
 host.
 */
module DumpFormat {
  import opened Wrappers
  import opened ListDump

  // ----- byte order -----

  lemma {:induction false} Multiples(a: int, b: int, y: nat)
    ensures a <= b ==> a * y <= b * y
  {
  }

  lemma {:induction false} QuotientIs(x: nat, y: nat, q: nat)
    requires y > 0 && q * y <= x < q * y + y
    ensures x / y == q
  {
    var e := x / y;
    assert x == e * y + x % y;
    Multiples(e + 1, q, y);
    Multiples(q + 1, e, y);
  }

  lemma {:induction false} DivideTwice(n: nat, p: nat)
    requires p > 0
    ensures n / 256 / p == n / (256 * p)
  {
    var a := n / 256;
    var q := a / p;
    assert a == q * p + a % p;
    assert q * p <= a <= q * p + (p - 1);
    assert n == 256 * a + n % 256;
    assert 256 * (q * p) == q * (256 * p);
    QuotientIs(n, 256 * p, q);
  }

  /** The digit of weight 256 ^ w. */
  function Digit(n: nat, w: nat): Byte {
    n / Pow256(w) % 256
  }

  predicate BigEndian(s: seq<Byte>, n: nat) {
    forall j :: 0 <= j < |s| ==> s[j] == Digit(n, |s| - 1 - j)
  }

  predicate LittleEndian(s: seq<Byte>, n: nat) {
    forall j :: 0 <= j < |s| ==> s[j] == Digit(n, j)
  }

  lemma {:induction false} NextDigit(n: nat, w: nat)
    ensures Digit(n / 256, w) == Digit(n, w + 1) && Digit(n, 0) == n % 256
  {
    DivideTwice(n, Pow256(w));
  }

  lemma {:induction false} NetBytes(n: nat, k: nat)
    ensures BigEndian(ToNet(n, k), n)
  {
    if k > 0 {
      NetBytes(n / 256, k - 1);
      forall j | 0 <= j < k ensures ToNet(n, k)[j] == Digit(n, k - 1 - j) {
        NextDigit(n, if j < k - 1 then k - 2 - j else 0);
      }
    }
  }

  lemma {:induction false} HostBytes(n: nat, k: nat)
    ensures LittleEndian(ToHost(n, k), n)
  {
    if k > 0 {
      HostBytes(n / 256, k - 1);
      forall j | 0 <= j < k ensures ToHost(n, k)[j] == Digit(n, j) {
        NextDigit(n, if j > 0 then j - 1 else 0);
      }
    }
  }

  // ----- the header -----

  lemma {:induction false} HeaderSlices(timestamp: nat, term: nat, total: nat, count: nat, elemlen: nat, hash: nat, body: seq<Byte>)
    ensures var file := Header(timestamp, term, total, count, elemlen, hash) + body;
            && file[..2] == ToNet(VERSION, 2) && file[2..10] == ToNet(timestamp, 8) && file[10..14] == ToNet(term, 4)
            && file[14..18] == ToNet(total, 4) && file[18..22] == ToNet(count, 4) && file[22..26] == ToNet(elemlen, 4)
            && file[26..30] == ToNet(hash, 4)
  {
  }

  lemma {:induction false} Ends(header: seq<Byte>, data: seq<Byte>, tail: seq<Byte>)
    ensures var file := header + data + tail;
            && |file| == |header| + |data| + |tail| && file == header + (data + tail)
            && file[|header|..|file| - |tail|] == data && file[|file| - |tail|..] == tail
  {
  }

  /** Version 1 and the other header fields, in network order. */
  lemma {:induction false} HeaderLayout(timestamp: nat, term: nat, total: nat, count: nat, elemlen: nat, hash: nat, body: seq<Byte>)
    ensures var file := Header(timestamp, term, total, count, elemlen, hash) + body;
            && file[..2] == [0, 1]
            && BigEndian(file[2..10], timestamp)
            && BigEndian(file[10..14], term)
            && BigEndian(file[14..18], total)
            && BigEndian(file[18..22], count)
            && BigEndian(file[22..26], elemlen)
            && BigEndian(file[26..30], hash)
  {
    HeaderSlices(timestamp, term, total, count, elemlen, hash, body);
    VersionBytes();
    NetBytes(timestamp, 8);
    NetBytes(term, 4);
    NetBytes(total, 4);
    NetBytes(count, 4);
    NetBytes(elemlen, 4);
    NetBytes(hash, 4);
  }

  lemma {:induction false} VersionBytes()
    ensures ToNet(VERSION, 2) == [0, 1]
  {
    NetBytes(VERSION, 2);
    assert Pow256(1) == 256;
  }

  /** Where the fields of a dump stand: the header, the data behind it, and the terminator once more at the very end. */
  lemma {:induction false} DumpLayout(xs: seq<Element>, pad: Pads, timestamp: nat, term: nat, hash: nat)
    ensures var file := Dump(xs, pad, timestamp, term, hash);
            && |file| == 34 + |Data(xs, pad)|
            && file[..2] == [0, 1]
            && BigEndian(file[2..10], timestamp)
            && BigEndian(file[10..14], term)
            && BigEndian(file[14..18], Total(xs) % WORD)
            && BigEndian(file[18..22], |xs|)
            && BigEndian(file[22..26], ElemLen(xs))
            && BigEndian(file[26..30], hash)
            && file[30..|file| - 4] == Data(xs, pad)
            && BigEndian(file[|file| - 4..], term)
  {
    var header := Header(timestamp, term, Wrap(Total(xs)), |xs|, ElemLen(xs), hash);
    WrapIsMod(Total(xs));
    Ends(header, Data(xs, pad), ToNet(term, 4));
    HeaderLayout(timestamp, term, Wrap(Total(xs)), |xs|, ElemLen(xs), hash, Data(xs, pad) + ToNet(term, 4));
    NetBytes(term, 4);
  }

  // ----- the data -----

  lemma {:induction false} ConcatAt(xs: seq<Element>, len: nat, i: nat)
    requires i < |xs| && forall k :: 0 <= k < |xs| ==> |xs[k]| == len
    ensures 0 <= len * i && len * i + len <= |Concat(xs)| == len * |xs|
    ensures Concat(xs)[len * i..len * i + len] == xs[i]
  {
    ConcatLength(xs, len);
    assert Concat(xs) == xs[0] + Concat(xs[1..]);
    if i > 0 {
      ConcatAt(xs[1..], len, i - 1);
      assert len * i == len + len * (i - 1);
      Behind(xs[0], Concat(xs[1..]), len * (i - 1), len);
    }
  }

  lemma {:induction false} Behind(a: seq<Byte>, b: seq<Byte>, at: nat, len: nat)
    requires at + len <= |b|
    ensures (a + b)[|a| + at..|a| + at + len] == b[at..at + len]
  {
  }

  lemma {:induction false} ConcatLength(xs: seq<Element>, len: nat)
    requires forall k :: 0 <= k < |xs| ==> |xs[k]| == len
    ensures |Concat(xs)| == len * |xs|
  {
    if xs != [] {
      ConcatLength(xs[1..], len);
      assert len * |xs| == len + len * |xs[1..]|;
    }
  }

  /** A list of elements of one non-zero length is written without lengths: element i at 30 + len * i. */
  lemma {:induction false} UniformLayout(xs: seq<Element>, pad: Pads, timestamp: nat, term: nat, hash: nat, i: nat)
    requires Uniform(xs) && i < |xs|
    ensures var file, len := Dump(xs, pad, timestamp, term, hash), |xs[0]|;
            && len * i >= 0 && |file| == 34 + len * |xs| >= 34 + len * i + len
            && BigEndian(file[22..26], len)
            && file[30 + len * i..30 + len * i + len] == xs[i]
  {
    var len := |xs[0]|;
    var header := Header(timestamp, term, Wrap(Total(xs)), |xs|, ElemLen(xs), hash);
    DumpLayout(xs, pad, timestamp, term, hash);
    assert SameLength(xs, len) == |xs|;
    ConcatAt(xs, len, i);
    Within(header, Concat(xs), ToNet(term, 4), len * i, len);
  }

  lemma {:induction false} Within(a: seq<Byte>, d: seq<Byte>, b: seq<Byte>, at: nat, len: nat)
    requires at + len <= |d|
    ensures (a + d + b)[|a| + at..|a| + at + len] == d[at..at + len]
  {
  }

  /** Where element i begins among the prefixed elements: its length, what is dragged along, and the element itself. */
  function Offset(xs: seq<Element>, width: nat, i: nat): nat
    requires i <= |xs|
  {
    if i == 0 then 0 else 4 + width + |xs[0]| + Offset(xs[1..], width, i - 1)
  }

  /** An element with its length in front stands at position `at`. */
  predicate ElementAt(d: seq<Byte>, at: nat, x: Element, width: nat) {
    && at + 4 + width + |x| <= |d|
    && LittleEndian(d[at..at + 4], |x|)
    && d[at + 4 + width..at + 4 + width + |x|] == x
  }

  lemma {:induction false} FirstElement(x: Element, gap: seq<Byte>, rest: seq<Byte>)
    ensures ElementAt(ToHost(|x|, 4) + gap + x + rest, 0, x, |gap|)
  {
    var d := ToHost(|x|, 4) + gap + x + rest;
    HostBytes(|x|, 4);
    assert d[0..4] == ToHost(|x|, 4);
  }

  lemma {:induction false} ElementWithin(a: seq<Byte>, d: seq<Byte>, b: seq<Byte>, at: nat, x: Element, width: nat)
    requires ElementAt(d, at, x, width)
    ensures ElementAt(a + d + b, |a| + at, x, width)
  {
    Within(a, d, b, at + 4 + width, |x|);
    Within(a, d, b, at, 4);
  }

  lemma {:induction false} PrefixedAt(xs: seq<Element>, pad: Pads, k: nat, width: nat, i: nat)
    requires Wide(pad, width) && i < |xs|
    ensures ElementAt(Prefixed(xs, pad, k), Offset(xs, width, i), xs[i], width)
    decreases |xs|
  {
    var first, rest := ToHost(|xs[0]|, 4) + pad(k) + xs[0], Prefixed(xs[1..], pad, k + 1);
    assert |pad(k)| == width;
    if i == 0 {
      FirstElement(xs[0], pad(k), rest);
    } else {
      PrefixedAt(xs[1..], pad, k + 1, width, i - 1);
      ElementBehind(first, rest, Offset(xs[1..], width, i - 1), xs[i], width);
    }
  }

  lemma {:induction false} ElementBehind(a: seq<Byte>, d: seq<Byte>, at: nat, x: Element, width: nat)
    requires ElementAt(d, at, x, width)
    ensures ElementAt(a + d, |a| + at, x, width)
  {
    ElementWithin(a, d, [], at, x, width);
    assert a + d + [] == a + d;
  }

  lemma {:induction false} PrefixedEnd(xs: seq<Element>, pad: Pads, k: nat, width: nat)
    requires Wide(pad, width)
    ensures |Prefixed(xs, pad, k)| == Offset(xs, width, |xs|)
    decreases |xs|
  {
    if xs != [] {
      PrefixedEnd(xs[1..], pad, k + 1, width);
    }
  }

  /** What had been written when the lengths turned out to differ. */
  lemma {:induction false} StaleData(xs: seq<Element>, pad: Pads) returns (stale: seq<Byte>)
    requires !Uniform(xs) && xs != []
    ensures |stale| == |xs[0]| * SameLength(xs, |xs[0]|) && Data(xs, pad) == stale + Prefixed(xs, pad, 0)
  {
    var len := |xs[0]|;
    var k := SameLength(xs, len);
    stale := if len > 0 then Concat(xs[..k]) else [];
    ConcatLength(xs[..k], len);
  }

  /** Any other list: what had been written when the lengths turned out to differ stays, and all elements follow with their
      lengths in front. Such a file carries element length 0. */
  lemma {:induction false} PrefixedLayout(xs: seq<Element>, pad: Pads, width: nat, timestamp: nat, term: nat, hash: nat, i: nat)
    returns (stale: nat)
    requires Wide(pad, width) && !Uniform(xs) && i < |xs|
    ensures stale == |xs[0]| * SameLength(xs, |xs[0]|)
    ensures var file := Dump(xs, pad, timestamp, term, hash);
            && |file| == 34 + stale + Offset(xs, width, |xs|)
            && BigEndian(file[22..26], 0)
            && ElementAt(file, 30 + stale + Offset(xs, width, i), xs[i], width)
  {
    var before := StaleData(xs, pad);
    stale := |before|;
    DumpLayout(xs, pad, timestamp, term, hash);
    PrefixedEnd(xs, pad, 0, width);
    var header := Header(timestamp, term, Wrap(Total(xs)), |xs|, ElemLen(xs), hash);
    PrefixedIn(header, before, xs, pad, width, ToNet(term, 4), i);
  }

  lemma {:induction false} PrefixedIn(header: seq<Byte>, before: seq<Byte>, xs: seq<Element>, pad: Pads, width: nat, tail: seq<Byte>, i: nat)
    requires Wide(pad, width) && i < |xs|
    ensures ElementAt(header + (before + Prefixed(xs, pad, 0)) + tail, |header| + |before| + Offset(xs, width, i), xs[i], width)
  {
    PrefixedAt(xs, pad, 0, width, i);
    Regrouped(header, before, Prefixed(xs, pad, 0), tail);
    ElementWithin(header + before, Prefixed(xs, pad, 0), tail, Offset(xs, width, i), xs[i], width);
  }

  lemma {:induction false} Regrouped(a: seq<Byte>, b: seq<Byte>, c: seq<Byte>, d: seq<Byte>)
    ensures a + (b + c) + d == a + b + c + d
  {
  }

  // ----- which files are taken -----

  /** A file with a readable content is taken exactly when four bytes follow it, and the total length is right or those four
      bytes are not the terminator of the header. */
  lemma {:induction false} TakenExactly(xs: seq<Element>, pad: Pads, width: nat, timestamp: nat, term: nat, total: nat, hash: nat, tail: seq<Byte>)
    requires |xs| < WORD && term < WORD && total < WORD && Wide(pad, width) && Restorable(xs, width)
    ensures var r := Restore(Header(timestamp, term, total, |xs|, ElemLen(xs), hash) + (Data(xs, pad) + tail));
            && (r == Some(xs) <==> |tail| == 4 && (total == Total(xs) % WORD || tail != ToNet(term, 4)))
            && (r == Some(xs) || r == None)
  {
    var file := Header(timestamp, term, total, |xs|, ElemLen(xs), hash) + (Data(xs, pad) + tail);
    HeaderBack(timestamp, term, total, |xs|, ElemLen(xs), hash, Data(xs, pad) + tail);
    BodyBack(xs, pad, width, tail);
    WrapIsMod(Total(xs));
    TerminatorExactly(tail, term);
    Taken(file, xs, tail);
  }

  lemma {:induction false} TerminatorExactly(tail: seq<Byte>, term: nat)
    requires term < WORD
    ensures |tail| == 4 ==> (FromNet(tail) == term <==> tail == ToNet(term, 4))
  {
    WordIsPow4();
    NetRoundTrip(term, 4);
    if |tail| == 4 {
      NetBack(tail, 4);
    }
  }

  lemma {:induction false} Taken(file: seq<Byte>, xs: seq<Element>, tail: seq<Byte>)
    requires |file| >= HEADER_LEN && FromNet(file[..2]) == VERSION && FromNet(file[22..26]) < WORD
    requires ReadBody(file[30..], FromNet(file[18..22]), FromNet(file[22..26])) == Some((xs, tail))
    ensures Restore(file) == if |tail| == 4 && (FromNet(file[14..18]) == Wrap(Total(xs)) || FromNet(tail) != FromNet(file[10..14])) then Some(xs) else None
  {
    if |tail| >= 4 {
      assert |tail| == 4 ==> tail[..4] == tail;
    }
  }

  /** The other direction of the round trip: four bytes are the digits of the number they are read as. */
  lemma {:induction false} NetBack(s: seq<Byte>, k: nat)
    requires |s| == k
    ensures ToNet(FromNet(s), k) == s
  {
    if k > 0 {
      NetBack(s[..k - 1], k - 1);
    }
  }

  /** A file that is too short for a header, or that does not begin with version 1, is refused. */
  lemma {:induction false} RefusedByHeader(file: seq<Byte>)
    ensures |file| < 30 || file[..2] != [0, 1] ==> Restore(file) == None
  {
    if |file| >= 30 && FromNet(file[..2]) == VERSION {
      NetBack(file[..2], 2);
      VersionBytes();
    }
  }
}
