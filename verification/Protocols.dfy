/**
 Protocol choice of PCSC/src/prothandler.c, and the protocol number that
 SCardTransmit of PCSC/src/winscard.c derives from the negotiated protocol.
 */
module Protocols {
  import opened Atr

  /** Answer of the driver to a PTS request. */
  datatype Pts = Accepted | NotSupported | ProtocolNotSupported | Refused

  datatype Choice = WrongArgument | PpsFailed | Use(protocol: Mask)

  function DefaultProtocol(mem: Memory, length: nat): Mask {
    match DecodeSpec(mem, length) case None => {} case Some(x) => x.current
  }

  function AvailableProtocols(mem: Memory, length: nat): Mask {
    match DecodeSpec(mem, length) case None => {} case Some(x) => x.available
  }

  /** PHSetProtocol. */
  function SetProtocol(preferred: Mask, available: Mask, default: Mask, pts: Pts): Choice {
    if preferred == {} || preferred * available == {} then WrongArgument
    else
      var wanted := preferred * available;
      if T1 !in wanted && T0 !in wanted then WrongArgument
      else
        match pts
        case Accepted => Use(if T1 in wanted then {T1} else {T0})
        case NotSupported => Use(default)
        case ProtocolNotSupported => Use(default)
        case Refused => PpsFailed
  }

  /** From ATR bytes to protocol: an error, T=0 or T=1, and always one the card offers. */
  lemma {:induction false} ChoiceIsOffered(mem: Memory, length: nat, preferred: Mask, pts: Pts)
    ensures var c := SetProtocol(preferred, AvailableProtocols(mem, length), DefaultProtocol(mem, length), pts);
            c.Use? ==> (c.protocol == {T0} || c.protocol == {T1}) && c.protocol <= AvailableProtocols(mem, length)
  {
    CurrentIsOffered(mem, length);
  }

  /** The caller's preference is honoured exactly when the driver accepts PTS or the default already fits;
      an accepted PTS picks T=1 whenever both sides allow it. */
  lemma {:induction false} PreferenceHonoured(mem: Memory, length: nat, preferred: Mask, pts: Pts)
    ensures var av, def := AvailableProtocols(mem, length), DefaultProtocol(mem, length);
            var c := SetProtocol(preferred, av, def, pts);
            && (c.Use? ==> (c.protocol <= preferred <==> pts.Accepted? || def <= preferred))
            && (pts.Accepted? && T1 in preferred && T1 in av ==> c == Use({T1}))
            && (c.WrongArgument? <==> T0 !in preferred * av && T1 !in preferred * av)
  {
    CurrentIsOffered(mem, length);
    assert T0 in preferred * AvailableProtocols(mem, length) ==> preferred * AvailableProtocols(mem, length) != {};
  }

  /** T=0 or T=1 is both wanted and offered. */
  predicate InCommon(preferred: Mask, available: Mask) {
    (T0 in preferred && T0 in available) || (T1 in preferred && T1 in available)
  }

  /** The answer for every case: nothing in common is refused; an accepted PTS gives T=1 if that is common and T=0 otherwise;
      a driver that cannot do PTS leaves the default; any other failure is reported. */
  lemma {:induction false} SetProtocolExactly(preferred: Mask, available: Mask, default: Mask, pts: Pts)
    ensures var c := SetProtocol(preferred, available, default, pts);
            && (c.WrongArgument? <==> !InCommon(preferred, available))
            && (c.PpsFailed? <==> InCommon(preferred, available) && pts.Refused?)
            && (InCommon(preferred, available) && (pts.NotSupported? || pts.ProtocolNotSupported?) ==> c == Use(default))
            && (InCommon(preferred, available) && pts.Accepted? ==>
                c == Use(if T1 in preferred && T1 in available then {T1} else {T0}))
  {
    assert T0 in preferred * available || T1 in preferred * available ==> preferred * available != {};
  }

  /** A preference for T=1 alone can be answered with T=0. */
  lemma {:induction false} PreferenceNotHonoured()
    ensures SetProtocol({T1}, {T0, T1}, {T0}, NotSupported) == Use({T0})
  {
    assert T1 in {T1} * {T0, T1};
  }

  // ----- the protocol number for the driver -----

  function Bit(m: Mask, p: Protocol, value: nat): nat {
    if p in m then value else 0
  }

  /** The protocol word as a number. */
  function Value(m: Mask): nat {
    Bit(m, T0, 1) + Bit(m, T1, 2) + Bit(m, RAW, 4) + Bit(m, T15, 8) + Bit(m, ANY_OLD, 0x1000)
  }

  lemma {:induction false} ValueZero(m: Mask)
    ensures Value(m) == 0 <==> m == {}
  {
    if m != {} {
      var p :| p in m;
      assert p == T0 || p == T1 || p == RAW || p == T15 || p == ANY_OLD;
    }
  }

  /** The protocol number handed to the driver for a send header that names `send`, on a card that speaks `card`. */
  ghost predicate Addresses(send: Mask, card: Mask, number: nat) {
    if send == {T1} then number == 1
    else if send == {RAW} then number == 4
    else if send == {ANY_OLD} then Shifted(Value(card), number) == 1
    else number == 0
  }

  /** A protocol word with a single bit is addressed by the index of that bit. */
  lemma {:induction false} AnyOldNumber(card: Mask, n: nat)
    requires card == {T0} || card == {T1} || card == {RAW}
    ensures Addresses({ANY_OLD}, card, n) <==> n == if card == {T0} then 0 else if card == {T1} then 1 else 2
  {
    assert ANY_OLD in {ANY_OLD};
    assert T0 in {T0} && T1 in {T1} && RAW in {RAW};
    var v := Value(card);
    assert v == if card == {T0} then 1 else if card == {T1} then 2 else 4;
    OnlyOnce(v, n);
  }

  lemma {:induction false} OnlyOnce(v: nat, n: nat)
    requires v == 1 || v == 2 || v == 4
    ensures Shifted(v, n) == 1 <==> n == if v == 1 then 0 else if v == 2 then 1 else 2
  {
    if n > 0 {
      ShiftedLater(v, n - 1);
      if v == 1 {
        ZeroStays(n - 1);
      } else {
        OnlyOnce(v / 2, n - 1);
      }
    }
  }

  function Shifted(prot: nat, n: nat): nat {
    if n == 0 then prot else Shifted(prot, n - 1) / 2
  }

  /** The shift loop for SCARD_PROTOCOL_ANY_OLD. */
  method ShiftIndex(prot: nat) returns (i: nat)
    requires prot > 0
    ensures Shifted(prot, i) == 1 && forall j :: 0 <= j < i ==> Shifted(prot, j) != 1
    ensures prot == 1 ==> i == 0
    ensures prot == 2 ==> i == 1
    ensures prot == 4 ==> i == 2
  {
    var q := prot;
    i := 0;
    while q != 1
      invariant q > 0 && q == Shifted(prot, i)
      invariant forall j :: 0 <= j < i ==> Shifted(prot, j) != 1
      decreases q
    {
      q, i := q / 2, i + 1;
    }
    assert Shifted(prot, 0) == prot && Shifted(prot, 1) == prot / 2 && Shifted(prot, 2) == prot / 2 / 2;
  }

  /** The loop condition fails at some point exactly for a non-zero word. */
  lemma {:induction false} ShiftEnds(prot: nat)
    ensures (exists n: nat :: Shifted(prot, n) == 1) <==> prot > 0
  {
    if prot > 0 {
      var n := ShiftWitness(prot);
    } else {
      forall n: nat ensures Shifted(0, n) == 0 {
        ZeroStays(n);
      }
    }
  }

  lemma {:induction false} ZeroStays(n: nat)
    ensures Shifted(0, n) == 0
  {
    if n > 0 {
      ZeroStays(n - 1);
    }
  }

  lemma {:induction false} ShiftWitness(prot: nat) returns (n: nat)
    requires prot > 0
    ensures Shifted(prot, n) == 1
  {
    if prot == 1 {
      n := 0;
    } else {
      var m := ShiftWitness(prot / 2);
      ShiftedLater(prot, m);
      n := m + 1;
    }
  }

  lemma {:induction false} ShiftedLater(prot: nat, n: nat)
    ensures Shifted(prot, n + 1) == Shifted(prot / 2, n)
  {
    if n > 0 {
      ShiftedLater(prot, n - 1);
    }
  }
}
