/**
 The 32-bit readerState word that pcscd shares with its clients: card flags in the
 low half, an event counter in the high half (PCSC/src/eventhandler.c and the flag
 updates of PCSC/src/winscard.c). The word is kept field by field; Encode gives the
 number it stands for and Decode undoes it.
 */
module StatusWord {
  const HALF: nat := 0x1_0000

  type Half = n: nat | n < HALF

  datatype Word = Word(unknown: bool, absent: bool, present: bool, swallowed: bool, powered: bool,
                       negotiable: bool, specific: bool, spare: nat, counter: Half)

  function Bit(b: bool): nat {
    if b then 1 else 0
  }

  /** The spare bits are bits 7 to 15. */
  predicate Fits(w: Word) {
    w.spare < 512
  }

  /** Puts one more bit in front, as the least significant one. */
  function Push(b: bool, n: nat): nat {
    Bit(b) + 2 * n
  }

  /** The low half: the flags and the spare bits. */
  function Low(w: Word): nat {
    Push(w.unknown, Push(w.absent, Push(w.present, Push(w.swallowed,
      Push(w.powered, Push(w.negotiable, Push(w.specific, w.spare)))))))
  }

  function Encode(w: Word): nat {
    Low(w) + w.counter * HALF
  }

  function Decode(n: nat): Word
    requires n < HALF * HALF
  {
    var n1 := n / 2;
    var n2 := n1 / 2;
    var n3 := n2 / 2;
    var n4 := n3 / 2;
    var n5 := n4 / 2;
    var n6 := n5 / 2;
    var n7 := n6 / 2;
    Word(n % 2 == 1, n1 % 2 == 1, n2 % 2 == 1, n3 % 2 == 1, n4 % 2 == 1, n5 % 2 == 1, n6 % 2 == 1,
         n7 % 512, n7 / 512)
  }

  lemma {:induction false} LowHalf(w: Word)
    requires Fits(w)
    ensures Low(w) < HALF && Encode(w) < HALF * HALF
  {
  }

  lemma {:induction false} Nested(w: Word)
    ensures Encode(w) == Push(w.unknown, Push(w.absent, Push(w.present, Push(w.swallowed,
      Push(w.powered, Push(w.negotiable, Push(w.specific, w.spare + 512 * w.counter)))))))
  {
  }

  /** Halving a number seven times gives the flags. */
  ghost predicate Halves(w: Word, n: nat, n1: nat, n2: nat, n3: nat, n4: nat, n5: nat, n6: nat, n7: nat) {
    && Halved(n, w.unknown, n1) && Halved(n1, w.absent, n2) && Halved(n2, w.present, n3) && Halved(n3, w.swallowed, n4)
    && Halved(n4, w.powered, n5) && Halved(n5, w.negotiable, n6) && Halved(n6, w.specific, n7)
    && n7 % 512 == w.spare && n7 / 512 == w.counter
  }

  ghost predicate Halved(n: nat, b: bool, m: nat) {
    n / 2 == m && (n % 2 == 1 <==> b)
  }

  lemma {:induction false} HalvesDecode(w: Word, n: nat, n1: nat, n2: nat, n3: nat, n4: nat, n5: nat, n6: nat, n7: nat)
    requires n < HALF * HALF && Halves(w, n, n1, n2, n3, n4, n5, n6, n7)
    ensures Decode(n) == w
  {
  }

  lemma {:induction false} PushHalves(b: bool, n: nat)
    ensures Halved(Push(b, n), b, n)
  {
  }

  lemma {:induction false} EncodeHalves(w: Word) returns (n1: nat, n2: nat, n3: nat, n4: nat, n5: nat, n6: nat, n7: nat)
    requires Fits(w)
    ensures Halves(w, Encode(w), n1, n2, n3, n4, n5, n6, n7)
  {
    Nested(w);
    n7 := w.spare + 512 * w.counter;
    n6 := Push(w.specific, n7);
    n5 := Push(w.negotiable, n6);
    n4 := Push(w.powered, n5);
    n3 := Push(w.swallowed, n4);
    n2 := Push(w.present, n3);
    n1 := Push(w.absent, n2);
    PushHalves(w.specific, n7);
    PushHalves(w.negotiable, n6);
    PushHalves(w.powered, n5);
    PushHalves(w.swallowed, n4);
    PushHalves(w.present, n3);
    PushHalves(w.absent, n2);
    PushHalves(w.unknown, n1);
  }

  /** The fields and the 32-bit number determine each other. */
  lemma {:induction false} DecodeEncode(w: Word)
    requires Fits(w)
    ensures Encode(w) < HALF * HALF && Decode(Encode(w)) == w
  {
    LowHalf(w);
    var n1, n2, n3, n4, n5, n6, n7 := EncodeHalves(w);
    HalvesDecode(w, Encode(w), n1, n2, n3, n4, n5, n6, n7);
  }

  lemma {:induction false} SameHalves(b: bool, n: nat, m: nat)
    requires Halved(n, b, m)
    ensures n == Push(b, m)
  {
  }

  lemma {:induction false} HalvesEncode(w: Word, n: nat, n1: nat, n2: nat, n3: nat, n4: nat, n5: nat, n6: nat, n7: nat)
    requires Halves(w, n, n1, n2, n3, n4, n5, n6, n7)
    ensures Encode(w) == n
  {
    SpareAndCounter(w, n7);
    SameHalves(w.specific, n6, n7);
    SameHalves(w.negotiable, n5, n6);
    SameHalves(w.powered, n4, n5);
    SameHalves(w.swallowed, n3, n4);
    SameHalves(w.present, n2, n3);
    SameHalves(w.absent, n1, n2);
    SameHalves(w.unknown, n, n1);
    PushChain(w, n, n1, n2, n3, n4, n5, n6, n7);
  }

  lemma {:induction false} SpareAndCounter(w: Word, n7: nat)
    requires n7 % 512 == w.spare && n7 / 512 == w.counter
    ensures n7 == w.spare + 512 * w.counter
  {
  }

  lemma {:induction false} PushChain(w: Word, n: nat, n1: nat, n2: nat, n3: nat, n4: nat, n5: nat, n6: nat, n7: nat)
    requires n == Push(w.unknown, n1) && n1 == Push(w.absent, n2) && n2 == Push(w.present, n3) && n3 == Push(w.swallowed, n4)
    requires n4 == Push(w.powered, n5) && n5 == Push(w.negotiable, n6) && n6 == Push(w.specific, n7)
    requires n7 == w.spare + 512 * w.counter
    ensures Encode(w) == n
  {
    Nested(w);
  }

  lemma {:induction false} DecodeHalves(n: nat) returns (n1: nat, n2: nat, n3: nat, n4: nat, n5: nat, n6: nat, n7: nat)
    requires n < HALF * HALF
    ensures Fits(Decode(n)) && Halves(Decode(n), n, n1, n2, n3, n4, n5, n6, n7)
  {
    n1 := n / 2;
    n2 := n1 / 2;
    n3 := n2 / 2;
    n4 := n3 / 2;
    n5 := n4 / 2;
    n6 := n5 / 2;
    n7 := n6 / 2;
  }

  lemma {:induction false} EncodeDecode(n: nat)
    requires n < HALF * HALF
    ensures Fits(Decode(n)) && Encode(Decode(n)) == n
  {
    var n1, n2, n3, n4, n5, n6, n7 := DecodeHalves(n);
    HalvesEncode(Decode(n), n, n1, n2, n3, n4, n5, n6, n7);
  }

  /** The number has the bit of this weight set. */
  predicate HasBit(n: nat, weight: nat)
    requires weight > 0
  {
    n / weight % 2 == 1
  }

  /** The flags at the bits that clients look for, and the counter in the high half. */
  lemma {:induction false} FlagBits(w: Word)
    requires Fits(w)
    ensures HasBit(Encode(w), 0x0001) <==> w.unknown
    ensures HasBit(Encode(w), 0x0002) <==> w.absent
    ensures HasBit(Encode(w), 0x0004) <==> w.present
    ensures HasBit(Encode(w), 0x0008) <==> w.swallowed
    ensures HasBit(Encode(w), 0x0010) <==> w.powered
    ensures HasBit(Encode(w), 0x0020) <==> w.negotiable
    ensures HasBit(Encode(w), 0x0040) <==> w.specific
    ensures Encode(w) / HALF == w.counter
  {
    var n1, n2, n3, n4, n5, n6, n7 := EncodeHalves(w);
    LowHalf(w);
    Weights(Encode(w), n1, n2, n3, n4, n5, n6);
  }

  lemma {:induction false} Weights(n: nat, n1: nat, n2: nat, n3: nat, n4: nat, n5: nat, n6: nat)
    requires n1 == n / 2 && n2 == n1 / 2 && n3 == n2 / 2 && n4 == n3 / 2 && n5 == n4 / 2 && n6 == n5 / 2
    ensures n2 == n / 0x0004 && n3 == n / 0x0008 && n4 == n / 0x0010 && n5 == n / 0x0020 && n6 == n / 0x0040
  {
  }

  /** One card state at a time, and power only for a present, responsive card. */
  predicate Coherent(w: Word) {
    && (w.unknown || w.absent || w.present)
    && !(w.unknown && w.absent) && !(w.unknown && w.present) && !(w.absent && w.present)
    && (w.powered <==> w.negotiable)
    && (w.powered ==> w.present && !w.swallowed)
    && !w.specific
  }

  /** Card powered: a successful reset or power-up. */
  function PoweredUp(w: Word): Word {
    w.(present := true, absent := false, powered := true, negotiable := true, specific := false,
       swallowed := false, unknown := false)
  }

  /** Card present but mute: a power-up that failed in the polling thread. */
  function Mute(w: Word): Word {
    w.(present := true, absent := false, swallowed := true, powered := false, negotiable := false,
       specific := false, unknown := false)
  }

  /** A reset that failed in SCardDisconnect or SCardEndTransaction: an absent card stays absent. */
  function ResetFailed(w: Word): Word {
    w.(present := !w.absent, swallowed := true, powered := false, negotiable := false,
       specific := false, unknown := false)
  }

  function Gone(w: Word): Word {
    w.(absent := true, unknown := false, present := false, powered := false, negotiable := false,
       swallowed := false, specific := false)
  }

  function CommError(w: Word): Word {
    w.(absent := false, present := false, powered := false, negotiable := false, specific := false,
       swallowed := false, unknown := true)
  }

  /** incrementEventCounter: the high half counts modulo 2^16. */
  function Increment(w: Word): Word {
    w.(counter := (w.counter + 1) % HALF)
  }

  /** The expression of the source on the 32-bit number, with its wrap-around. */
  function IncrementNumber(n: nat): nat {
    (n % HALF + (n / HALF % HALF + 1) * HALF) % (HALF * HALF)
  }

  lemma {:induction false} IncrementOnNumber(w: Word)
    requires Fits(w)
    ensures Encode(Increment(w)) == IncrementNumber(Encode(w))
  {
    LowHalf(w);
    CarryOut(Encode(w), Low(w), w.counter, Encode(Increment(w)));
  }

  lemma {:induction false} CarryOut(n: nat, low: nat, c: nat, r: nat)
    requires low < HALF && c < HALF && n == low + c * HALF && r == low + (c + 1) % HALF * HALF
    ensures r == IncrementNumber(n)
  {
    assert n % HALF == low && n / HALF == c;
    if c + 1 == HALF {
      assert (low + HALF * HALF) % (HALF * HALF) == low;
    } else {
      assert low + (c + 1) * HALF < HALF * HALF;
    }
  }
}
