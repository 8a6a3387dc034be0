/** Whole NAL units: a sequence parameter set written to a unit, found in a byte stream and
    read back. */
module NalUnit {
  import opened BitCodes
  import opened BitCursor
  import opened NalBytes
  import opened SequenceParameterSet
  import opened SpsCodec
  import opened SpsLocality
  import opened VuiSyntax
  import opened SpsSyntax

  const NAL_UNIT_TYPE_SPS := 7

  datatype Nal = Nal(refIdc: int, unitType: int)

  // ----- the written unit -----

  function NalHeaderBits(nal: Nal): Bits {
    U(1, 0) + U(2, nal.refIdc) + U(5, nal.unitType)
  }

  /** Header, parameter set and trailing bits. */
  function RbspBits(nal: Nal, sps: Sps): (code: Bits)
    requires sps.Sendable()
    ensures |code| % 8 == 0 && |code| > 0
  {
    Terminated(SpsBits(NalHeaderBits(nal), sps))
  }

  function Terminated(code: Bits): (r: Bits)
    ensures |r| % 8 == 0 && |code| < |r| <= |code| + 8 && r[|code|] && code <= r
  {
    code + TrailingBits(|code|)
  }

  function EncodedUnit(nal: Nal, sps: Sps): seq<byte>
    requires sps.Sendable()
  {
    Escaped(Pack(RbspBits(nal, sps)), 0)
  }

  // ----- the unit as read -----

  /** The outcomes of reading: the unit is malformed, of another type, cut short, or a
      parameter set, of which used bytes were used. */
  datatype Outcome =
    | Malformed
    | OtherType(nal: Nal)
    | Truncated(nal: Nal, sps: Sps)
    | SpsUnit(nal: Nal, sps: Sps, used: nat)

  function DecodedUnit(unit: seq<byte>): Outcome {
    var d := Unescaped(unit, 0);
    if d.Invalid? then Malformed else DecodedPayload(d.bytes, d.used)
  }

  function DecodedPayload(payload: seq<byte>, used: nat): Outcome {
    var s := ToBits(payload);
    var nal := Nal(UVal(s, 1, 2), UVal(s, 3, 5));
    if nal.unitType != NAL_UNIT_TYPE_SPS then OtherType(nal)
    else
      var r := ParseSps(s, 8);
      if r.1 + |TrailingBits(r.1)| > |s| then Truncated(nal, r.0) else SpsUnit(nal, r.0, used)
  }

  // ----- round trip -----

  lemma HeaderRead(nal: Nal, s: Bits)
    requires NalHeaderBits(nal) <= s && IsU(2, nal.refIdc) && IsU(5, nal.unitType)
    ensures UVal(s, 1, 2) == nal.refIdc && UVal(s, 3, 5) == nal.unitType
    ensures |NalHeaderBits(nal)| == 8
  {
    hide U, UVal;
    var a1 := [] + U(1, 0);
    var a2 := a1 + U(2, nal.refIdc);
    assert NalHeaderBits(nal) == a2 + U(5, nal.unitType);
    UFieldAt(a2, 5, nal.unitType, s);
    UFieldAt(a1, 2, nal.refIdc, s);
    assert IsU(1, 0);
    UFieldAt([], 1, 0, s);
  }

  // ----- the first bytes -----

  lemma {:induction false} UValSplit(s: Bits, pos: nat, m: nat, n: nat)
    ensures UVal(s, pos, m + n) == UVal(s, pos, m) * Pow2(n) + UVal(s, pos + m, n)
  {
    hide Pow2;
    if n == 0 {
      PowZero();
    } else {
      UValSplit(s, pos, m, n - 1);
      var u, v, last := UVal(s, pos, m), UVal(s, pos + m, n - 1), BitVal(s, pos + m + n - 1);
      assert UVal(s, pos, m + n) == 2 * UVal(s, pos, m + (n - 1)) + last;
      assert UVal(s, pos + m, n) == 2 * v + last;
      PowStep(n - 1);
      TwiceTimes(u, Pow2(n - 1));
    }
  }

  lemma PowZero()
    ensures Pow2(0) == 1
  {
  }

  lemma PowStep(n: nat)
    ensures Pow2(n + 1) == 2 * Pow2(n)
  {
  }

  /** The forbidden bit is 0, two bits are the reference number, five are the type. */
  lemma HeaderByte(nal: Nal, s: Bits)
    requires NalHeaderBits(nal) <= s && IsU(2, nal.refIdc) && IsU(5, nal.unitType)
    ensures UVal(s, 0, 8) == 32 * nal.refIdc + nal.unitType
    ensures |s| > 0 && !s[0]
  {
    hide U, UVal;
    Pow2Small();
    HeaderRead(nal, s);
    HeaderLength(nal);
    ForbiddenBit(nal);
    assert s[0] == NalHeaderBits(nal)[0];
    UValSplit(s, 0, 1, 2);
    UValSplit(s, 0, 3, 5);
    OneBitOf(s, 0);
  }

  lemma ForbiddenBit(nal: Nal)
    ensures |NalHeaderBits(nal)| == 8 && !NalHeaderBits(nal)[0]
  {
    assert U(1, 0) == [false] by { assert UBits(0, 0) == []; }
  }

  lemma OneBitOf(s: Bits, pos: nat)
    ensures UVal(s, pos, 1) == BitVal(s, pos)
  {
    assert UVal(s, pos, 1) == 2 * UVal(s, pos, 0) + BitVal(s, pos);
  }

  lemma ByteOfBits(s: Bits, pos: nat)
    ensures UVal(s, pos, 8) ==
      128 * BitVal(s, pos) + 64 * BitVal(s, pos + 1) + 32 * BitVal(s, pos + 2) + 16 * BitVal(s, pos + 3)
      + 8 * BitVal(s, pos + 4) + 4 * BitVal(s, pos + 5) + UVal(s, pos + 6, 2)
  {
    hide UVal, BitVal;
    Pow2Small();
    UValSplit(s, pos, 6, 2);
    UValSplit(s, pos, 5, 1);
    UValSplit(s, pos, 4, 1);
    UValSplit(s, pos, 3, 1);
    UValSplit(s, pos, 2, 1);
    UValSplit(s, pos, 1, 1);
    OneBitOf(s, pos);
    OneBitOf(s, pos + 1);
    OneBitOf(s, pos + 2);
    OneBitOf(s, pos + 3);
    OneBitOf(s, pos + 4);
    OneBitOf(s, pos + 5);
  }

  /** Two bits behind the constraint flags are reserved and zero. */
  lemma ReservedBits(acc: Bits, x: Head, s: Bits)
    requires x.Sendable() && HeadBits(acc, x) <= s
    ensures UVal(s, |acc| + 14, 2) == 0
  {
    hide U, U1, Ue, UVal;
    var a6 := acc + U(8, x.profileIdc) + U1(x.constraintSet0) + U1(x.constraintSet1) + U1(x.constraintSet2)
              + U1(x.constraintSet3) + U1(x.constraintSet4) + U1(x.constraintSet5);
    var a7 := a6 + U(2, 0);
    assert HeadBits(acc, x) == a7 + U(8, x.levelIdc) + Ue(x.seqParameterSetId);
    assert a7 <= s;
    assert IsU(2, 0);
    UFieldAt(a6, 2, 0, s);
  }

  lemma {:induction false} HeadBytes(acc: Bits, x: Head, s: Bits)
    requires |acc| == 8 && x.Canonical() && x.Sendable() && HeadBits(acc, x) <= s
    ensures UVal(s, 8, 8) == x.profileIdc && UVal(s, 24, 8) == x.levelIdc
    ensures UVal(s, 16, 8) ==
      128 * x.constraintSet0 + 64 * x.constraintSet1 + 32 * x.constraintSet2 + 16 * x.constraintSet3
      + 8 * x.constraintSet4 + 4 * x.constraintSet5
  {
    hide HeadBits, UVal;
    HeadRoundTrip(acc, x, s);
    ReservedBits(acc, x, s);
    ByteOfBits(s, 16);
  }

  /** The payload's first four bytes, by value. */
  lemma FirstBytes(nal: Nal, x: Sps)
    requires IsU(2, nal.refIdc) && nal.unitType == 7 && x.head.Canonical() && x.Sendable()
    ensures var payload := Pack(RbspBits(nal, x));
      && |payload| >= 4
      && payload[0] == 32 * nal.refIdc + 7
      && payload[1] == x.head.profileIdc
      && payload[2] == 128 * x.head.constraintSet0 + 64 * x.head.constraintSet1 + 32 * x.head.constraintSet2
                       + 16 * x.head.constraintSet3 + 8 * x.head.constraintSet4 + 4 * x.head.constraintSet5
      && payload[3] == x.head.levelIdc
  {
    hide UVal, HeadBits, NalHeaderBits, SpsBits;
    var s := RbspBits(nal, x);
    var header := NalHeaderBits(nal);
    HeaderLength(nal);
    SpsBeginsWithHead(header, x);
    HeadAndMore(header, x.head);
    assert IsU(5, 7) by { Pow2Small(); }
    HeaderByte(nal, s);
    HeadBytes(header, x.head, s);
  }

  lemma HeadAndMore(acc: Bits, x: Head)
    requires x.Sendable()
    ensures acc <= HeadBits(acc, x) && |HeadBits(acc, x)| >= |acc| + 24
  {
    hide Ue;
  }

  lemma SpsBeginsWithHead(acc: Bits, x: Sps)
    requires x.Sendable()
    ensures HeadBits(acc, x.head) <= SpsBits(acc, x)
  {
    hide HeadBits, ChromaBits, PocBits, FrameBits, VuiBits;
    var a0 := HeadBits(acc, x.head);
    var a1 := ChromaBits(a0, x.head.profileIdc, x.chroma);
    ChromaBitsExtends(a0, x.head.profileIdc, x.chroma);
    PocBitsExtends(a1, x.poc);
    FrameBitsExtends(PocBits(a1, x.poc), x.frame);
    if x.vuiPresent != 0 {
      VuiBitsExtends(FrameBits(PocBits(a1, x.poc), x.frame) + U1(x.vuiPresent), x.vui);
    }
  }

  /** The unit begins with the same bytes: the first is not 0, so nothing is inserted before the
      fourth. */
  lemma UnitBegins(nal: Nal, x: Sps)
    requires IsU(2, nal.refIdc) && nal.unitType == 7 && x.head.Canonical() && x.Sendable()
    ensures var unit, payload := EncodedUnit(nal, x), Pack(RbspBits(nal, x));
      |unit| >= 4 && |payload| >= 4 && unit[..3] == payload[..3]
  {
    hide RbspBits, Escaped;
    FirstBytes(nal, x);
    var p := Pack(RbspBits(nal, x));
    assert p == [p[0]] + p[1..];
    assert p[1..] == [p[1]] + p[2..];
    assert p[2..] == [p[2]] + p[3..];
    PlainByte(p[0], p[1..], 0);
    PlainByte(p[1], p[2..], 0);
    PlainByte(p[2], p[3..], NextCount(0, p[1]));
    var count := NextCount(NextCount(0, p[1]), p[2]);
    ExpansionBound(p[3..], count);
    assert EncodedUnit(nal, x) == [p[0]] + ([p[1]] + ([p[2]] + Escaped(p[3..], count)));
  }

  // ----- round trip of units -----

  /** Reading a written unit gives back the header and the set and uses every byte. */
  lemma UnitRoundTrip(nal: Nal, sps: Sps)
    requires IsU(2, nal.refIdc) && nal.unitType == NAL_UNIT_TYPE_SPS
    requires sps.Canonical() && sps.Writable()
    ensures DecodedUnit(EncodedUnit(nal, sps)) == SpsUnit(nal, sps, |EncodedUnit(nal, sps)|)
  {
    hide NalHeaderBits, SpsBits, ParseSps, UVal;
    var s := RbspBits(nal, sps);
    UnescapeEscape(Pack(s), 0);
    ToBitsPack(s);
    SpsRoundTrip(NalHeaderBits(nal), sps, s);
    assert IsU(5, nal.unitType) by { Pow2Values(); }
    HeaderRead(nal, s);
  }

  /** For every set the writer is defined for, reading the written unit gives everything back
      exactly when the set is well-formed and the reference number has two bits. */
  lemma UnitRoundTripExact(nal: Nal, sps: Sps)
    requires nal.unitType == NAL_UNIT_TYPE_SPS && sps.Sendable()
    ensures DecodedUnit(EncodedUnit(nal, sps)) == SpsUnit(nal, sps, |EncodedUnit(nal, sps)|)
      <==> IsU(2, nal.refIdc) && sps.Canonical() && sps.Writable()
  {
    hide NalHeaderBits, SpsBits, ParseSps, UVal;
    if DecodedUnit(EncodedUnit(nal, sps)) == SpsUnit(nal, sps, |EncodedUnit(nal, sps)|) {
      var s := RbspBits(nal, sps);
      UnescapeEscape(Pack(s), 0);
      ToBitsPack(s);
      ParsedSps(s, 8);
      HeaderLength(nal);
      SpsOnlyIf(NalHeaderBits(nal), sps, s);
    } else if IsU(2, nal.refIdc) && sps.Canonical() && sps.Writable() {
      UnitRoundTrip(nal, sps);
    }
  }

  lemma HeaderLength(nal: Nal)
    ensures |NalHeaderBits(nal)| == 8
  {
  }

  /** The stop bit keeps the last payload byte, and with it the last byte of the unit, nonzero. */
  lemma UnitEndsNonzero(nal: Nal, sps: Sps)
    requires sps.Sendable()
    ensures var unit := EncodedUnit(nal, sps);
            unit != [] && unit[|unit| - 1] != 0
  {
    hide SpsBits, Escaped;
    var code := SpsBits(NalHeaderBits(nal), sps);
    var s := Terminated(code);
    var last := |s| / 8 - 1;
    assert s[|code|] && 8 * last <= |code| < 8 * last + 8;
    UValBit(s, 8 * last, 8, |code| - 8 * last);
    if ByteAt(s, last) == 0 {
      ZeroHasNoBits(7 - (|code| - 8 * last));
    }
    EscapedLast(Pack(s), 0);
  }

  lemma {:induction false} ZeroHasNoBits(k: nat)
    ensures !Bit(0, k)
  {
    if k > 0 {
      ZeroHasNoBits(k - 1);
    }
  }

  lemma UnitIsClean(nal: Nal, sps: Sps)
    requires sps.Sendable()
    ensures forall i: nat :: !ForbiddenAt(EncodedUnit(nal, sps), i)
  {
    hide RbspBits, ForbiddenAt;
    var payload := Pack(RbspBits(nal, sps));
    assert ZeroSeq(0) + Escaped(payload, 0) == Escaped(payload, 0);
    forall i: nat ensures !ForbiddenAt(EncodedUnit(nal, sps), i) {
      EscapedIsClean(payload, 0, i);
    }
  }

  /** A written set, put behind a start code with any number of leading zeros and in front of any
      boundary, is the unit that a search finds, and reading that unit gives the set back. */
  lemma WholeUnitRoundTrip(nal: Nal, sps: Sps, lead: nat, tail: seq<byte>, start: nat, end: nat)
    requires IsU(2, nal.refIdc) && nal.unitType == NAL_UNIT_TYPE_SPS
    requires sps.Canonical() && sps.Writable() && IsBoundary(tail)
    ensures var unit := EncodedUnit(nal, sps);
            var buf := Framed(lead, unit, tail);
            && (UnitAt(buf, start, end) <==> start == lead + 3 && end == lead + 3 + |unit|)
            && DecodedUnit(buf[lead + 3..lead + 3 + |unit|]) == SpsUnit(nal, sps, |unit|)
  {
    hide EncodedUnit, DecodedUnit, UnitAt, ForbiddenAt, Framed;
    var unit := EncodedUnit(nal, sps);
    UnitEndsNonzero(nal, sps);
    UnitIsClean(nal, sps);
    FramedUnitFound(lead, unit, tail);
    UnitRoundTrip(nal, sps);
    if UnitAt(Framed(lead, unit, tail), start, end) {
      UnitUnique(Framed(lead, unit, tail), start, end, lead + 3, lead + 3 + |unit|);
    }
  }

  /** A payload is cut short exactly when the stop bit behind the set lies outside. */
  lemma StopBitDecides(payload: seq<byte>, used: nat)
    requires UVal(ToBits(payload), 3, 5) == NAL_UNIT_TYPE_SPS
    ensures var end := ParseSps(ToBits(payload), 8).1;
            && (DecodedPayload(payload, used).Truncated? <==> end >= 8 * |payload|)
            && (DecodedPayload(payload, used).SpsUnit? <==> end < 8 * |payload|)
  {
    hide ParseSps, UVal, ToBits;
    PaddingFits(ParseSps(ToBits(payload), 8).1, |payload|);
  }

  lemma PaddingFits(end: nat, n: nat)
    ensures end + |TrailingBits(end)| <= 8 * n <==> end < 8 * n
  {
  }

  /** A set that is reported as read owes nothing to what is beyond the payload: with any bytes
      behind it, and with any bytes in place of those behind the set, the payload reads the same. */
  lemma NothingMadeUp(payload: seq<byte>, used: nat, other: seq<byte>)
    requires DecodedPayload(payload, used).SpsUnit?
    requires var end := ParseSps(ToBits(payload), 8).1;
             |other| >= |payload| && ToBits(other)[..end] == ToBits(payload)[..end]
    ensures DecodedPayload(other, used) == DecodedPayload(payload, used)
  {
    hide ParseSps, ToBits, UVal, TrailingBits;
    var s, u := ToBits(payload), ToBits(other);
    var end := ParseSps(s, 8).1;
    StopBitDecides(payload, used);
    assert forall i :: 0 <= i < end ==> s[i] == s[..end][i] == u[..end][i] == u[i];
    SetLooksNoFurther(s, u, 8);
    SpsLocal(s, u, 8, end);
    UValLocal(s, u, 1, 2, end);
    UValLocal(s, u, 3, 5, end);
    StopBitDecides(other, used);
  }

  /** What is reported as a parameter set is genuine: more payload would not change it, it is
      canonical, and writing it again gives a unit that decodes to it. */
  lemma ReadSetIsGenuine(unit: seq<byte>)
    requires DecodedUnit(unit).SpsUnit?
    ensures var d := Unescaped(unit, 0);
            forall more: seq<byte> :: DecodedPayload(d.bytes + more, d.used) == DecodedUnit(unit)
    ensures var o := DecodedUnit(unit);
            && o.sps.Canonical() && IsU(2, o.nal.refIdc)
            && (o.sps.Writable() ==>
                  DecodedUnit(EncodedUnit(o.nal, o.sps)) == o.(used := |EncodedUnit(o.nal, o.sps)|))
  {
    hide ParseSps, EncodedUnit, UVal, TrailingBits, ToBits, DecodedPayload;
    var d, o := Unescaped(unit, 0), DecodedUnit(unit);
    forall more: seq<byte> ensures DecodedPayload(d.bytes + more, d.used) == o {
      MorePayload(d.bytes, more, d.used);
    }
    OutcomeIsTyped(unit);
    if o.sps.Writable() {
      UnitRoundTrip(o.nal, o.sps);
    }
  }

  lemma MorePayload(payload: seq<byte>, more: seq<byte>, used: nat)
    requires DecodedPayload(payload, used).SpsUnit?
    ensures DecodedPayload(payload + more, used) == DecodedPayload(payload, used)
  {
    hide ParseSps, UVal, TrailingBits, ToBits;
    var all := payload + more;
    var end := ParseSps(ToBits(payload), 8).1;
    StopBitDecides(payload, used);
    ToBitsPrefix(all, |payload|);
    assert all[..|payload|] == payload;
    assert ToBits(all)[..8 * |payload|][..end] == ToBits(all)[..end];
    NothingMadeUp(payload, used, all);
  }

  lemma OutcomeIsTyped(unit: seq<byte>)
    ensures match DecodedUnit(unit)
      case Malformed => true
      case OtherType(nal) => nal.unitType != NAL_UNIT_TYPE_SPS
      case Truncated(nal, x) => nal.unitType == NAL_UNIT_TYPE_SPS
      case SpsUnit(nal, x, _) => nal.unitType == NAL_UNIT_TYPE_SPS && IsU(2, nal.refIdc) && x.Canonical()
  {
    hide ParseSps, UVal, Unescaped, TrailingBits;
    ParsedSps(ToBits(if Unescaped(unit, 0).Decoded? then Unescaped(unit, 0).bytes else []), 8);
  }

  // ----- the decoder object -----

  class H264Stream {
    var nal: Nal
    var sps: Sps

    constructor ()
      ensures nal == Nal(0, 0) && sps.vuiPresent == 0 && sps.frame.numRefFrames == 0
    {
      nal := Nal(0, 0);
      sps := Sps(Head(0, 0, 0, 0, 0, 0, 0, 0, 0, 0), DefaultChroma().(chromaFormatIdc := 0),
                 Poc(0, 0, 0, 0, 0, 0, 0, ZeroSeq(256)), Frame(0, 0, 0, 0, 0, 0, 0, 0, 0, 0, 0, 0), 0,
                 VuiSyntax.ZeroVui());
    }

    static method ReadHeader(b: Bs) returns (n: Nal)
      requires b.Valid()
      modifies b`p, b`bitsLeft
      ensures b.Valid() && b.Stream() == old(b.Stream()) && b.Pos() == old(b.Pos()) + 8
      ensures n == Nal(UVal(b.Stream(), old(b.Pos()) + 1, 2), UVal(b.Stream(), old(b.Pos()) + 3, 5))
    {
      hide UVal, Bs.Stream, Bs.Valid, Bs.Pos;
      b.SkipU(1);
      var refIdc := b.ReadU(2);
      var unitType := b.ReadU(5);
      n := Nal(refIdc, unitType);
    }

    /** Returns the number of bytes used, or -1. The header survives a unit of another type and
        the set survives everything but a unit of its own type. */
    method ReadNalUnit(buf: seq<byte>) returns (rc: int)
      modifies this
      ensures match DecodedUnit(buf)
        case Malformed => rc == -1 && nal == old(nal) && sps == old(sps)
        case OtherType(n) => rc == -1 && nal == n && sps == old(sps)
        case Truncated(n, x) => rc == -1 && nal == n && sps == x
        case SpsUnit(n, x, used) => rc == used && nal == n && sps == x
    {
      hide UVal, ParseSps, Unescaped, TrailingBits, ToBits, Bs.Stream, Bs.Valid, Bs.Pos;
      var rbsp := new byte[|buf|](_ => 0);
      var decoded, nalSize, rbspSize := NalToRbsp(buf, rbsp);
      if Unescaped(buf, 0).Decoded? {
        UnescapedNotLonger(buf, 0);
      }
      if decoded < 0 {
        return -1;
      }
      var b := new Bs(rbsp, rbspSize);
      b.StreamIsBuffer();
      nal := ReadHeader(b);
      if nal.unitType != NAL_UNIT_TYPE_SPS {
        return -1;
      }
      sps := ReadSeqParameterSetRbsp(b);
      ReadRbspTrailingBits(b);
      b.OverrunExactness();
      if b.Overrun() {
        return -1;
      }
      rc := nalSize;
    }

    static method WriteHeader(b: Bs, n: Nal)
      requires b.Writing() && b.sent == []
      modifies b, b.buf
      ensures b.Writing() && b.sent == NalHeaderBits(n)
    {
      hide U, Bs.Writing;
      WriteField(b, 1, 0);
      WriteField(b, 2, n.refIdc);
      WriteField(b, 5, n.unitType);
    }

    /** Returns the number of bytes in buf, with the unit behind an extra zero, or -1. It fails
        exactly when the unit is of another type or does not fit. */
    method WriteNalUnit(buf: array<byte>) returns (rc: int)
      requires nal.unitType == NAL_UNIT_TYPE_SPS ==> sps.Sendable()
      modifies buf
      ensures nal == old(nal) && sps == old(sps)
      ensures nal.unitType != NAL_UNIT_TYPE_SPS ==> rc == -1 && buf[..] == old(buf[..])
      ensures nal.unitType == NAL_UNIT_TYPE_SPS ==>
        var unit := EncodedUnit(nal, sps);
        if 1 + |unit| <= buf.Length then rc == 1 + |unit| && buf[0] == 0 && buf[1..rc] == unit else rc == -1
      ensures rc >= 0 && IsU(2, nal.refIdc) && sps.head.Canonical() ==>
        && rc >= 5 && buf[1] == 32 * nal.refIdc + 7 && buf[2] == sps.head.profileIdc
        && buf[3] == 128 * sps.head.constraintSet0 + 64 * sps.head.constraintSet1 + 32 * sps.head.constraintSet2
                     + 16 * sps.head.constraintSet3 + 8 * sps.head.constraintSet4 + 4 * sps.head.constraintSet5
    {
      hide SpsBits, TrailingBits, NalHeaderBits, Escaped, Bs.Stream;
      var rbsp := new byte[buf.Length](_ => 0);
      var b := new Bs(rbsp, buf.Length);
      WriteHeader(b, nal);
      if nal.unitType != NAL_UNIT_TYPE_SPS {
        return -1;
      }
      WriteSeqParameterSetRbsp(b, sps);
      WriteRbspTrailingBits(b);
      ghost var payload := Pack(RbspBits(nal, sps));
      assert b.sent == RbspBits(nal, sps);
      ExpansionBound(payload, 0);
      b.OverrunExactness();
      if b.Overrun() {
        return -1;
      }
      var rbspSize := b.BytePos();
      SentIsPacked(b);
      rc := RbspToNal(rbsp[..rbspSize], buf);
      if rc >= 0 && IsU(2, nal.refIdc) && sps.head.Canonical() {
        FirstBytes(nal, sps);
        UnitBegins(nal, sps);
        FirstOfUnit(buf[..], rc, EncodedUnit(nal, sps), payload);
      }
    }

    static lemma FirstOfUnit(buf: seq<byte>, rc: nat, unit: seq<byte>, payload: seq<byte>)
      requires rc == 1 + |unit| <= |buf| && buf[1..rc] == unit
      requires |unit| >= 4 && |payload| >= 4 && unit[..3] == payload[..3]
      ensures rc >= 5 && buf[1] == payload[0] && buf[2] == payload[1] && buf[3] == payload[2]
    {
      assert buf[1] == unit[0] == unit[..3][0];
      assert buf[2] == unit[1] == unit[..3][1];
      assert buf[3] == unit[2] == unit[..3][2];
    }

    /** On a byte boundary inside the buffer, the bytes before the cursor are the bits sent. */
    static lemma SentIsPacked(b: Bs)
      requires b.Writing() && b.ByteAligned() && !b.Overrun()
      ensures b.buf[..b.p] == Pack(b.sent)
    {
      hide UVal;
      var prefix := b.buf[..b.p];
      ToBitsPrefix(b.buf[..b.end], b.p);
      assert b.buf[..b.end][..b.p] == prefix;
      assert ToBits(prefix) == b.sent;
      PackToBits(prefix);
    }
  }

  lemma {:induction false} ToBitsPrefix(buf: seq<byte>, n: nat)
    requires n <= |buf|
    ensures ToBits(buf[..n]) == ToBits(buf)[..8 * n]
    decreases |buf|
  {
    if n < |buf| {
      ToBitsPrefix(buf[..|buf| - 1], n);
      assert buf[..|buf| - 1][..n] == buf[..n];
    } else {
      assert buf[..n] == buf;
    }
  }

  /** Capacity for n payload bytes that is always enough. */
  lemma EnoughCapacity(nal: Nal, sps: Sps, capacity: nat)
    requires sps.Sendable()
    requires capacity >= 1 + |RbspBits(nal, sps)| / 8 + (|RbspBits(nal, sps)| / 8 - 1) / 2
    ensures 1 + |EncodedUnit(nal, sps)| <= capacity
  {
    hide RbspBits, Escaped;
    ExpansionBound(Pack(RbspBits(nal, sps)), 0);
  }

  // ----- the whole path, run -----

  lemma HasStartCode(buf: seq<byte>, start: nat, end: nat)
    requires UnitAt(buf, start, end)
    ensures exists i: nat :: StartCodeAt(buf, i)
  {
  }

  /** Writes the set of one decoder object into a byte stream and reads it with another. */
  method SendAndReceive(h: H264Stream, g: H264Stream, out: array<byte>, lead: nat, tail: seq<byte>) returns (ok: bool)
    requires h != g && IsU(2, h.nal.refIdc) && h.nal.unitType == NAL_UNIT_TYPE_SPS
    requires h.sps.Canonical() && h.sps.Writable() && IsBoundary(tail)
    modifies g, out
    ensures ok <==> 1 + |EncodedUnit(h.nal, h.sps)| <= out.Length
    ensures ok ==> g.nal == h.nal && g.sps == h.sps
  {
    hide EncodedUnit, DecodedUnit, UnitAt, StartCodeAt, Framed;
    var size := h.WriteNalUnit(out);
    if size < 0 {
      return false;
    }
    var buf := Framed(lead, out[1..size], tail);
    var found, start, end := FindNalUnit(buf);
    WholeUnitRoundTrip(h.nal, h.sps, lead, tail, lead + 3, lead + 3 + (size - 1));
    HasStartCode(buf, lead + 3, lead + 3 + (size - 1));
    WholeUnitRoundTrip(h.nal, h.sps, lead, tail, start, end);
    var used := g.ReadNalUnit(buf[start..end]);
    ok := used == size - 1;
  }
}
