/**
 list_dump_filedescriptor and list_restore_filedescriptor of PCSC/src/simclist.c
 over byte sequences. An element is its serialized bytes. Header integers are in
 network byte order; the length prefix of variable-size elements is written raw, as
 sizeof(size_t) bytes, and read back as 4 bytes.
 */
module ListDump {
  import opened Wrappers

  type Element = e: seq<Byte> | |e| < WORD

  const WORD: nat := 0x1_0000_0000
  const VERSION: nat := 1
  const HEADER_LEN: nat := 30

  // ----- integers as bytes -----

  function Pow256(k: nat): (p: nat)
    ensures p > 0
  {
    if k == 0 then 1 else 256 * Pow256(k - 1)
  }

  /** k bytes, most significant first. */
  function ToNet(n: nat, k: nat): (s: seq<Byte>)
    ensures |s| == k
  {
    if k == 0 then [] else ToNet(n / 256, k - 1) + [n % 256]
  }

  function FromNet(s: seq<Byte>): (n: nat)
    ensures n < Pow256(|s|)
  {
    if s == [] then 0 else 256 * FromNet(s[..|s| - 1]) + s[|s| - 1]
  }

  /** k bytes, least significant first: the order of the host. */
  function ToHost(n: nat, k: nat): (s: seq<Byte>)
    ensures |s| == k
  {
    if k == 0 then [] else [n % 256] + ToHost(n / 256, k - 1)
  }

  function FromHost(s: seq<Byte>): (n: nat)
    ensures n < Pow256(|s|)
  {
    if s == [] then 0 else s[0] + 256 * FromHost(s[1..])
  }

  lemma {:induction false} NetRoundTrip(n: nat, k: nat)
    requires n < Pow256(k)
    ensures FromNet(ToNet(n, k)) == n
  {
    if k > 0 {
      NetRoundTrip(n / 256, k - 1);
      assert ToNet(n, k)[..k - 1] == ToNet(n / 256, k - 1);
    }
  }

  lemma {:induction false} HostRoundTrip(n: nat, k: nat)
    requires n < Pow256(k)
    ensures FromHost(ToHost(n, k)) == n
  {
    if k > 0 {
      HostRoundTrip(n / 256, k - 1);
      assert ToHost(n, k)[1..] == ToHost(n / 256, k - 1);
    }
  }

  lemma {:induction false} WordIsPow4()
    ensures Pow256(2) == 0x1_0000 && Pow256(4) == WORD
  {
    assert Pow256(1) == 256;
    assert Pow256(3) == 0x100_0000;
  }

  /** The 32-bit unsigned integer that holds n. */
  function Wrap(n: nat): (r: nat)
    ensures r < WORD
  {
    if n < WORD then n else Wrap(n - WORD)
  }

  lemma {:induction false} AddWraps(a: nat, b: nat)
    ensures Wrap(Wrap(a) + b) == Wrap(a + b)
    decreases a
  {
    if a >= WORD {
      AddWraps(a - WORD, b);
    }
  }

  lemma {:induction false} WrapIsMod(n: nat)
    ensures Wrap(n) == n % WORD
  {
    if n >= WORD {
      WrapIsMod(n - WORD);
    }
  }

  // ----- the dump -----

  function Concat(xs: seq<Element>): seq<Byte> {
    if xs == [] then [] else xs[0] + Concat(xs[1..])
  }

  function Total(xs: seq<Element>): nat {
    if xs == [] then 0 else |xs[0]| + Total(xs[1..])
  }

  /** Whatever lies behind the 32-bit length of element k and is dragged along where size_t is wider. */
  type Pads = nat -> seq<Byte>

  ghost predicate Wide(pad: Pads, width: nat) {
    forall k :: |pad(k)| == width
  }

  /** Elements, the first of them number k, with their lengths in front. */
  function Prefixed(xs: seq<Element>, pad: Pads, k: nat): seq<Byte> {
    if xs == [] then [] else ToHost(|xs[0]|, 4) + pad(k) + xs[0] + Prefixed(xs[1..], pad, k + 1)
  }

  /** Number of leading elements of length len. */
  function SameLength(xs: seq<Element>, len: nat): (k: nat)
    ensures k <= |xs|
    ensures forall i :: 0 <= i < k ==> |xs[i]| == len
    ensures k < |xs| ==> |xs[k]| != len
  {
    if xs == [] || |xs[0]| != len then 0 else 1 + SameLength(xs[1..], len)
  }

  /** All elements have one common non-zero length. */
  predicate Uniform(xs: seq<Element>) {
    xs != [] && |xs[0]| > 0 && forall i :: 0 <= i < |xs| ==> |xs[i]| == |xs[0]|
  }

  /** What the dump loop writes: on the first different length it starts over in prefixed form, without rewinding the file. */
  function Data(xs: seq<Element>, pad: Pads): seq<Byte> {
    if xs == [] then []
    else if |xs[0]| == 0 then Prefixed(xs, pad, 0)
    else
      var k := SameLength(xs, |xs[0]|);
      if k == |xs| then Concat(xs) else Concat(xs[..k]) + Prefixed(xs, pad, 0)
  }

  function ElemLen(xs: seq<Element>): nat {
    if Uniform(xs) then |xs[0]| else 0
  }

  function Header(timestamp: nat, term: nat, total: nat, count: nat, elemlen: nat, hash: nat): (h: seq<Byte>)
    ensures |h| == HEADER_LEN
  {
    ToNet(VERSION, 2) + ToNet(timestamp, 8) + ToNet(term, 4) + ToNet(total, 4) + ToNet(count, 4) + ToNet(elemlen, 4) + ToNet(hash, 4)
  }

  function Dump(xs: seq<Element>, pad: Pads, timestamp: nat, term: nat, hash: nat): seq<Byte> {
    Header(timestamp, term, Wrap(Total(xs)), |xs|, ElemLen(xs), hash) + Data(xs, pad) + ToNet(term, 4)
  }

  // ----- the restore -----

  /** n elements of len bytes each, and what follows them. */
  function ReadFixed(s: seq<Byte>, n: nat, len: nat): Option<(seq<Element>, seq<Byte>)>
    requires len < WORD
    decreases n
  {
    if n == 0 then Some(([], s))
    else if |s| < len then None
    else
      match ReadFixed(s[len..], n - 1, len)
      case None => None
      case Some((xs, rest)) => Some(([s[..len]] + xs, rest))
  }

  /** n elements with their 4-byte lengths in front. */
  function ReadPrefixed(s: seq<Byte>, n: nat): Option<(seq<Element>, seq<Byte>)>
    decreases n
  {
    if n == 0 then Some(([], s))
    else if |s| < 4 then None
    else
      var len := FromHost(s[..4]);
      WordIsPow4();
      if |s| < 4 + len then None
      else
        match ReadPrefixed(s[4 + len..], n - 1)
        case None => None
        case Some((xs, rest)) => Some(([s[4..4 + len]] + xs, rest))
  }

  /** The content, by element length, or with a length in front of each element when that is 0. */
  function ReadBody(s: seq<Byte>, count: nat, elemlen: nat): Option<(seq<Element>, seq<Byte>)>
    requires elemlen < WORD
  {
    if elemlen > 0 then ReadFixed(s, count, elemlen) else ReadPrefixed(s, count)
  }

  /** Restoring into an empty list: the elements, or an error. */
  function Restore(file: seq<Byte>): Option<seq<Element>> {
    if |file| < HEADER_LEN || FromNet(file[..2]) != VERSION then None
    else
      var term, total := FromNet(file[10..14]), FromNet(file[14..18]);
      var count, elemlen := FromNet(file[18..22]), FromNet(file[22..26]);
      WordIsPow4();
      match ReadBody(file[30..], count, elemlen)
      case None => None
      case Some((xs, rest)) =>
        if |rest| < 4 then None
        else if Wrap(Total(xs)) != total && FromNet(rest[..4]) == term then None
        else if |rest| != 4 then None
        else Some(xs)
  }

  // ----- the round trip -----

  /** The first element of plain data. */
  lemma {:induction false} FirstFixed(s: seq<Byte>, x: Element, t: seq<Byte>)
    requires s == x + t
    ensures |s| == |x| + |t| && s[..|x|] == x && s[|x|..] == t
  {
  }

  lemma {:induction false} ReadFixedBack(xs: seq<Element>, len: nat, rest: seq<Byte>)
    requires len < WORD && forall i :: 0 <= i < |xs| ==> |xs[i]| == len
    ensures ReadFixed(Concat(xs) + rest, |xs|, len) == Some((xs, rest))
  {
    var s := Concat(xs) + rest;
    if xs == [] {
      assert s == rest;
    } else {
      var t := Concat(xs[1..]) + rest;
      assert s == xs[0] + t;
      FirstFixed(s, xs[0], t);
      ReadFixedBack(xs[1..], len, rest);
      assert [xs[0]] + xs[1..] == xs;
    }
  }

  lemma {:induction false} SplitFront(s: seq<Byte>, size: seq<Byte>, x: Element, t: seq<Byte>)
    requires |size| == 4 && s == size + (x + t)
    ensures |s| == 4 + |x| + |t| && s[..4] == size && s[4..4 + |x|] == x && s[4 + |x|..] == t
  {
    assert s[4..] == x + t;
  }

  /** The first element of prefixed data. */
  lemma {:induction false} FirstPrefixed(s: seq<Byte>, x: Element, t: seq<Byte>)
    requires s == ToHost(|x|, 4) + (x + t)
    ensures |s| == 4 + |x| + |t| && FromHost(s[..4]) == |x| && s[4..4 + |x|] == x && s[4 + |x|..] == t
  {
    SplitFront(s, ToHost(|x|, 4), x, t);
    WordIsPow4();
    HostRoundTrip(|x|, 4);
  }

  lemma {:induction false} Regroup(a: seq<Byte>, p: seq<Byte>, x: seq<Byte>, q: seq<Byte>, rest: seq<Byte>)
    requires p == []
    ensures a + p + x + q + rest == a + (x + (q + rest))
  {
  }

  lemma {:induction false} ReadPrefixedBack(xs: seq<Element>, pad: Pads, k: nat, rest: seq<Byte>)
    requires Wide(pad, 0)
    ensures ReadPrefixed(Prefixed(xs, pad, k) + rest, |xs|) == Some((xs, rest))
    decreases |xs|
  {
    var s := Prefixed(xs, pad, k) + rest;
    if xs == [] {
      assert s == rest;
    } else {
      var q := Prefixed(xs[1..], pad, k + 1);
      assert |pad(k)| == 0;
      Regroup(ToHost(|xs[0]|, 4), pad(k), xs[0], q, rest);
      FirstPrefixed(s, xs[0], q + rest);
      ReadPrefixedBack(xs[1..], pad, k + 1, rest);
      FirstThenRest(s, xs, q + rest, rest);
    }
  }

  lemma {:induction false} FirstThenRest(s: seq<Byte>, xs: seq<Element>, t: seq<Byte>, rest: seq<Byte>)
    requires xs != [] && |s| == 4 + |xs[0]| + |t| && FromHost(s[..4]) == |xs[0]| && s[4..4 + |xs[0]|] == xs[0] && s[4 + |xs[0]|..] == t
    requires ReadPrefixed(t, |xs| - 1) == Some((xs[1..], rest))
    ensures ReadPrefixed(s, |xs|) == Some((xs, rest))
  {
    assert [xs[0]] + xs[1..] == xs;
  }

  /** Reading prefixed elements accounts for every byte. */
  lemma {:induction false} ReadPrefixedLength(s: seq<Byte>, n: nat)
    ensures var r := ReadPrefixed(s, n);
            r.Some? ==> |r.value.0| == n && |s| == 4 * n + Total(r.value.0) + |r.value.1|
    decreases n
  {
    if n > 0 && |s| >= 4 {
      var len := FromHost(s[..4]);
      WordIsPow4();
      if |s| >= 4 + len {
        ReadPrefixedLength(s[4 + len..], n - 1);
        var r := ReadPrefixed(s[4 + len..], n - 1);
        if r.Some? {
          assert ([s[4..4 + len]] + r.value.0)[1..] == r.value.0;
        }
      }
    }
  }

  lemma {:induction false} PrefixedLength(xs: seq<Element>, pad: Pads, k: nat, width: nat)
    requires Wide(pad, width)
    ensures |Prefixed(xs, pad, k)| >= 4 * |xs| + Total(xs)
    ensures width > 0 && xs != [] ==> |Prefixed(xs, pad, k)| > 4 * |xs| + Total(xs)
    decreases |xs|
  {
    if xs != [] {
      PrefixedLength(xs[1..], pad, k + 1, width);
    }
  }

  /** The header fields come back. */
  lemma {:induction false} HeaderBack(timestamp: nat, term: nat, total: nat, count: nat, elemlen: nat, hash: nat, body: seq<Byte>)
    requires term < WORD && total < WORD && count < WORD && elemlen < WORD
    ensures var file := Header(timestamp, term, total, count, elemlen, hash) + body;
            && |file| >= HEADER_LEN && file[30..] == body && FromNet(file[..2]) == VERSION
            && FromNet(file[10..14]) == term && FromNet(file[14..18]) == total
            && FromNet(file[18..22]) == count && FromNet(file[22..26]) == elemlen
            && (timestamp < Pow256(8) ==> FromNet(file[2..10]) == timestamp)
            && (hash < WORD ==> FromNet(file[26..30]) == hash)
  {
    var file := Header(timestamp, term, total, count, elemlen, hash) + body;
    WordIsPow4();
    assert file[..2] == ToNet(VERSION, 2);
    assert file[10..14] == ToNet(term, 4);
    assert file[14..18] == ToNet(total, 4);
    assert file[18..22] == ToNet(count, 4);
    assert file[22..26] == ToNet(elemlen, 4);
    NetRoundTrip(VERSION, 2);
    NetRoundTrip(term, 4);
    NetRoundTrip(total, 4);
    NetRoundTrip(count, 4);
    NetRoundTrip(elemlen, 4);
    assert file[2..10] == ToNet(timestamp, 8) && file[26..30] == ToNet(hash, 4);
    if timestamp < Pow256(8) {
      NetRoundTrip(timestamp, 8);
    }
    if hash < WORD {
      NetRoundTrip(hash, 4);
    }
  }

  /** Lists whose dump can be read back: empty, or of one common non-zero length, or, where size_t has 32 bits,
      starting with an empty element. */
  predicate Restorable(xs: seq<Element>, width: nat) {
    xs == [] || Uniform(xs) || (width == 0 && |xs[0]| == 0)
  }

  /** The content of a restorable dump reads back as the elements, up to the terminator. */
  lemma {:induction false} BodyBack(xs: seq<Element>, pad: Pads, width: nat, tail: seq<Byte>)
    requires |xs| < WORD && Wide(pad, width) && Restorable(xs, width)
    ensures ReadBody(Data(xs, pad) + tail, |xs|, ElemLen(xs)) == Some((xs, tail))
  {
    if xs == [] {
      assert Data(xs, pad) + tail == tail;
    } else if Uniform(xs) {
      assert SameLength(xs, |xs[0]|) == |xs|;
      ReadFixedBack(xs, |xs[0]|, tail);
    } else {
      assert Data(xs, pad) == Prefixed(xs, pad, 0);
      ReadPrefixedBack(xs, pad, 0, tail);
    }
  }

  lemma {:induction false} RestoreBy(file: seq<Byte>, xs: seq<Element>, tail: seq<Byte>)
    requires |file| >= HEADER_LEN && FromNet(file[..2]) == VERSION && |tail| == 4
    requires FromNet(file[22..26]) < WORD
    requires ReadBody(file[30..], FromNet(file[18..22]), FromNet(file[22..26])) == Some((xs, tail))
    requires FromNet(file[14..18]) == Wrap(Total(xs))
    ensures Restore(file) == Some(xs)
  {
  }

  /** The trailing terminator may be anything: it is only looked at when the total length is wrong as well. */
  lemma {:induction false} RestorableBack(xs: seq<Element>, pad: Pads, width: nat, timestamp: nat, term: nat, hash: nat, tail: seq<Byte>)
    requires |xs| < WORD && term < WORD && Wide(pad, width) && Restorable(xs, width) && |tail| == 4
    ensures Restore(Header(timestamp, term, Wrap(Total(xs)), |xs|, ElemLen(xs), hash) + (Data(xs, pad) + tail)) == Some(xs)
  {
    var file := Header(timestamp, term, Wrap(Total(xs)), |xs|, ElemLen(xs), hash) + (Data(xs, pad) + tail);
    HeaderBack(timestamp, term, Wrap(Total(xs)), |xs|, ElemLen(xs), hash, Data(xs, pad) + tail);
    BodyBack(xs, pad, width, tail);
    RestoreBy(file, xs, tail);
  }

  /** Before the first different length turns up, something has been written. */
  lemma {:induction false} FirstRunWritten(xs: seq<Element>)
    requires xs != [] && |xs[0]| > 0 && !Uniform(xs)
    ensures var k := SameLength(xs, |xs[0]|); 0 < k < |xs| && |Concat(xs[..k])| > 0
  {
    var k := SameLength(xs, |xs[0]|);
    assert k > 0;
    assert xs[..k][0] == xs[0];
  }

  /** The data of any other list is longer than its elements with 4-byte lengths. */
  lemma {:induction false} DataTooLong(xs: seq<Element>, pad: Pads, width: nat)
    requires Wide(pad, width) && !Restorable(xs, width)
    ensures |Data(xs, pad)| > 4 * |xs| + Total(xs)
  {
    PrefixedLength(xs, pad, 0, width);
    if |xs[0]| > 0 {
      FirstRunWritten(xs);
    }
  }

  /** Dump then restore gives the list back exactly for the restorable lists: otherwise the file is longer than a
      restore of these elements could read, and the end-of-file check refuses it or other elements come out. */
  lemma {:induction false} RoundTripExactly(xs: seq<Element>, pad: Pads, width: nat, timestamp: nat, term: nat, hash: nat)
    requires Wide(pad, width) && |xs| < WORD && term < WORD
    ensures Restore(Dump(xs, pad, timestamp, term, hash)) == Some(xs) <==> Restorable(xs, width)
  {
    var tail := ToNet(term, 4);
    var body := Data(xs, pad) + tail;
    var file := Dump(xs, pad, timestamp, term, hash);
    assert file == Header(timestamp, term, Wrap(Total(xs)), |xs|, ElemLen(xs), hash) + body;
    if Restorable(xs, width) {
      RestorableBack(xs, pad, width, timestamp, term, hash, tail);
    } else {
      HeaderBack(timestamp, term, Wrap(Total(xs)), |xs|, ElemLen(xs), hash, body);
      DataTooLong(xs, pad, width);
      ReadPrefixedLength(body, |xs|);
    }
  }

  /** Two elements of different lengths do not survive. */
  lemma {:induction false} VariableSizeFails(pad: Pads, width: nat, timestamp: nat, term: nat, hash: nat)
    requires Wide(pad, width) && term < WORD
    ensures Restore(Dump([[1], [2, 3]], pad, timestamp, term, hash)) != Some([[1], [2, 3]])
  {
    var xs: seq<Element> := [[1], [2, 3]];
    assert |xs[0]| == 1 && |xs[1]| == 2;
    RoundTripExactly(xs, pad, width, timestamp, term, hash);
  }

  // ----- the loops -----

  /** The running uint32 total of element sizes. */
  method AddSize(xs: seq<Element>, ghost pad: Pads, i: nat, total: nat) returns (t: nat)
    requires i < |xs| && total == Wrap(Total(xs[..i]))
    ensures t == Wrap(Total(xs[..i + 1]))
  {
    TotalSnoc(xs, i, pad, 0);
    AddWraps(Total(xs[..i]), |xs[i]|);
    t := Wrap(total + |xs[i]|);
  }

  /** The content loop of the dump. */
  method WriteContent(xs: seq<Element>, pad: Pads) returns (out: seq<Byte>, elemlen: nat, total: nat)
    ensures out == Data(xs, pad) && elemlen == ElemLen(xs) && total == Total(xs) % WORD
  {
    out, elemlen, total := [], 0, 0;
    if xs == [] {
      return;
    }
    elemlen := |xs[0]|;
    var i := 0;
    ghost var written: seq<Byte> := [];  // what stood in the file when the prefixed pass began
    while i < |xs|
      invariant 0 <= i <= |xs| && total == Wrap(Total(xs[..i]))
      invariant ContentSoFar(xs, pad, i, elemlen, written, out)
      decreases elemlen, |xs| - i
    {
      var before, restart := out, false;
      total := AddSize(xs, pad, i, total);
      out, restart := WriteOne(xs, pad, i, elemlen, written, out);
      if restart {
        written := before;
        elemlen, total, i := 0, 0, 0;
      } else {
        i := i + 1;
      }
    }
    assert xs[..i] == xs;
    WrapIsMod(Total(xs));
    if elemlen != 0 {
      assert SameLength(xs, |xs[0]|) == |xs|;
    }
  }

  /** Writes element i, or finds that the common length does not hold. */
  method WriteOne(xs: seq<Element>, pad: Pads, i: nat, elemlen: nat, ghost written: seq<Byte>, out0: seq<Byte>)
    returns (out: seq<Byte>, restart: bool)
    requires i < |xs| && ContentSoFar(xs, pad, i, elemlen, written, out0)
    ensures restart ==> elemlen != 0 && ContentSoFar(xs, pad, 0, 0, out0, out) && Total(xs[..0]) == 0
    ensures !restart ==> ContentSoFar(xs, pad, i + 1, elemlen, written, out)
  {
    out, restart := out0, false;
    if elemlen != 0 {
      if elemlen != |xs[i]| {
        Restarted(xs, pad, i, elemlen, written, out);
        return out, true;
      }
      OneMorePlain(xs, pad, i, elemlen, written, out);
      out := out + xs[i];
    } else {
      OneMorePrefixed(xs, pad, i, written, out);
      out := out + (ToHost(|xs[i]|, 4) + pad(i) + xs[i]);
    }
  }

  /** The loop invariant: plain elements while the lengths agree, and prefixed ones behind what was written before. */
  ghost predicate ContentSoFar(xs: seq<Element>, pad: Pads, i: nat, elemlen: nat, written: seq<Byte>, out: seq<Byte>)
    requires i <= |xs| && xs != []
  {
    if elemlen != 0 then elemlen == |xs[0]| && out == Concat(xs[..i]) && forall j :: 0 <= j < i ==> |xs[j]| == elemlen
    else out == written + Prefixed(xs[..i], pad, 0) && !Uniform(xs) && Data(xs, pad) == written + Prefixed(xs, pad, 0)
  }

  lemma {:induction false} OneMorePlain(xs: seq<Element>, pad: Pads, i: nat, elemlen: nat, written: seq<Byte>, out: seq<Byte>)
    requires i < |xs| && elemlen != 0 && ContentSoFar(xs, pad, i, elemlen, written, out) && |xs[i]| == elemlen
    ensures ContentSoFar(xs, pad, i + 1, elemlen, written, out + xs[i])
  {
    TotalSnoc(xs, i, pad, 0);
  }

  lemma {:induction false} OneMorePrefixed(xs: seq<Element>, pad: Pads, i: nat, written: seq<Byte>, out: seq<Byte>)
    requires i < |xs| && ContentSoFar(xs, pad, i, 0, written, out)
    ensures ContentSoFar(xs, pad, i + 1, 0, written, out + (ToHost(|xs[i]|, 4) + pad(i) + xs[i]))
  {
    TotalSnoc(xs, i, pad, 0);
    Reassociate(written, Prefixed(xs[..i], pad, 0), ToHost(|xs[i]|, 4) + pad(i) + xs[i]);
  }

  lemma {:induction false} Reassociate(a: seq<Byte>, b: seq<Byte>, c: seq<Byte>)
    ensures a + (b + c) == a + b + c
  {
  }

  lemma {:induction false} Restarted(xs: seq<Element>, pad: Pads, i: nat, elemlen: nat, written: seq<Byte>, out: seq<Byte>)
    requires i < |xs| && elemlen != 0 && ContentSoFar(xs, pad, i, elemlen, written, out) && |xs[i]| != elemlen
    ensures ContentSoFar(xs, pad, 0, 0, out, out) && xs[..0] == []
  {
    assert SameLength(xs, |xs[0]|) == i;
    assert out + Prefixed([], pad, 0) == out;
  }

  lemma {:induction false} TotalAppend(xs: seq<Element>, x: Element)
    ensures Total(xs + [x]) == Total(xs) + |x| && Concat(xs + [x]) == Concat(xs) + x
  {
    if xs == [] {
      assert (xs + [x])[1..] == [];
    } else {
      assert (xs + [x])[1..] == xs[1..] + [x];
      TotalAppend(xs[1..], x);
    }
  }

  lemma {:induction false} PrefixedAppend(xs: seq<Element>, x: Element, pad: Pads, k: nat)
    ensures Prefixed(xs + [x], pad, k) == Prefixed(xs, pad, k) + (ToHost(|x|, 4) + pad(k + |xs|) + x)
    decreases |xs|
  {
    if xs == [] {
      assert (xs + [x])[1..] == [];
    } else {
      assert (xs + [x])[1..] == xs[1..] + [x];
      PrefixedAppend(xs[1..], x, pad, k + 1);
    }
  }

  lemma {:induction false} TotalSnoc(xs: seq<Element>, i: nat, pad: Pads, k: nat)
    requires i < |xs|
    ensures Total(xs[..i + 1]) == Total(xs[..i]) + |xs[i]|
    ensures Concat(xs[..i + 1]) == Concat(xs[..i]) + xs[i]
    ensures Prefixed(xs[..i + 1], pad, k) == Prefixed(xs[..i], pad, k) + (ToHost(|xs[i]|, 4) + pad(k + i) + xs[i])
  {
    assert xs[..i + 1] == xs[..i] + [xs[i]];
    TotalAppend(xs[..i], xs[i]);
    PrefixedAppend(xs[..i], xs[i], pad, k);
  }

  /** The read loops of the restore. */
  method ReadContent(s: seq<Byte>, count: nat, elemlen: nat) returns (r: Option<(seq<Element>, seq<Byte>)>)
    requires elemlen < WORD
    ensures r == ReadBody(s, count, elemlen)
  {
    var xs: seq<Element>, rest, cnt := [], s, 0;
    WordIsPow4();
    PrependNil(ReadBody(s, count, elemlen));
    while cnt < count
      invariant 0 <= cnt <= count
      invariant elemlen > 0 ==> ReadFixed(s, count, elemlen) == Prepend(xs, ReadFixed(rest, count - cnt, elemlen))
      invariant elemlen == 0 ==> ReadPrefixed(s, count) == Prepend(xs, ReadPrefixed(rest, count - cnt))
    {
      var len, from := elemlen, 0;
      if elemlen == 0 {
        if |rest| < 4 {
          return None;
        }
        len, from := FromHost(rest[..4]), 4;
      }
      if |rest| < from + len {
        return None;
      }
      var e: Element := rest[from..from + len];
      PrependSnoc(xs, e, if elemlen > 0 then ReadFixed(rest[len..], count - cnt - 1, elemlen) else ReadPrefixed(rest[from + len..], count - cnt - 1));
      xs, rest := xs + [e], rest[from + len..];
      cnt := cnt + 1;
    }
    assert xs + [] == xs;
    return Some((xs, rest));
  }

  function Prepend(xs: seq<Element>, r: Option<(seq<Element>, seq<Byte>)>): Option<(seq<Element>, seq<Byte>)> {
    match r case None => None case Some((ys, rest)) => Some((xs + ys, rest))
  }

  lemma {:induction false} PrependSnoc(xs: seq<Element>, e: Element, r: Option<(seq<Element>, seq<Byte>)>)
    ensures Prepend(xs + [e], r) == Prepend(xs, Prepend([e], r))
  {
    if r.Some? {
      assert xs + [e] + r.value.0 == xs + ([e] + r.value.0);
    }
  }

  lemma {:induction false} PrependNil(r: Option<(seq<Element>, seq<Byte>)>)
    ensures Prepend([], r) == r
  {
    if r.Some? {
      assert [] + r.value.0 == r.value.0;
    }
  }
}
