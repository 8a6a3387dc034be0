/** The video decoder's fix-up of the parameter sets that a host sends: one reference frame and one
    frame of buffering, so that decoders do not wait for more. */
module SpsFixUp {
  import opened BitCodes
  import opened NalBytes
  import opened NalUnit
  import opened SequenceParameterSet
  import opened SpsSyntax
  import opened VuiSyntax

  const MAX_SPS_EXTRA_SIZE := 16

  /** The set that is written in place of x: a bitstream restriction is added when there is none. */
  function FixedUp(x: Sps): Sps {
    var r := x.vui.restriction;
    var r' := if r.flag != 0 then r.(maxDecFrameBuffering := 1) else Restriction(1, 1, 2, 1, 16, 16, 0, 1);
    x.(frame := x.frame.(numRefFrames := 1), vui := x.vui.(restriction := r'))
  }

  /** The set that the next reader gets. Without VUI parameters the restriction is not sent, and
      only the reference frame count gets through. */
  function Delivered(x: Sps): Sps {
    if x.vuiPresent == 1 then FixedUp(x) else x.(frame := x.frame.(numRefFrames := 1))
  }

  predicate NeedsFixUp(x: Sps) {
    x.frame.numRefFrames != 1 || x.vui.restriction.maxDecFrameBuffering != 1
  }

  /** The fix-up by value: one reference frame and one frame of buffering, an existing restriction
      otherwise as it was, a new one with the decoder's defaults, and nothing else touched. */
  lemma FixedUpValues(x: Sps)
    ensures var y := FixedUp(x);
      && y.head == x.head && y.chroma == x.chroma && y.poc == x.poc && y.vuiPresent == x.vuiPresent
      && y.frame.numRefFrames == 1 && y.frame == x.frame.(numRefFrames := 1)
      && y.vui == x.vui.(restriction := y.vui.restriction)
      && (x.vui.restriction.flag != 0 ==>
            y.vui.restriction == x.vui.restriction.(maxDecFrameBuffering := 1))
      && (x.vui.restriction.flag == 0 ==>
            var r := y.vui.restriction;
            && r.flag == 1 && r.motionVectorsOverPicBoundaries == 1
            && r.maxBytesPerPicDenom == 2 && r.maxBitsPerMbDenom == 1
            && r.log2MaxMvLengthHorizontal == 16 && r.log2MaxMvLengthVertical == 16
            && r.numReorderFrames == 0 && r.maxDecFrameBuffering == 1)
    ensures !NeedsFixUp(FixedUp(x))
    ensures NeedsFixUp(x) <==> x.frame.numRefFrames != 1 || x.vui.restriction.maxDecFrameBuffering != 1
  {
  }

  /** A set that needs no fix-up is what the fix-up would make of it. */
  lemma NoFixUpNeeded(x: Sps)
    requires x.Canonical() && !NeedsFixUp(x)
    ensures x.vuiPresent == 1 && FixedUp(x) == x
  {
  }

  lemma FixedUpSendable(x: Sps)
    ensures x.Sendable() ==> FixedUp(x).Sendable()
    ensures x.Canonical() && x.Writable() ==> Delivered(x).Canonical() && Delivered(x).Writable()
  {
  }

  /** The fix-up reaches the next reader exactly when the set had VUI parameters. */
  lemma FixUpSurvives(x: Sps, rest: Bits)
    requires x.Canonical() && x.Writable()
    ensures FixedUp(x).Sendable()
    ensures ParseSps(SpsBits([], FixedUp(x)) + rest, 0).0 == Delivered(x)
    ensures Delivered(x) == FixedUp(x) <==> x.vuiPresent == 1
  {
    hide SpsBits, ParseSps;
    FixedUpSendable(x);
    SameBits([], x);
    SpsRoundTripExact(Delivered(x), rest);
  }

  lemma SameBits(acc: Bits, x: Sps)
    requires x.Canonical() && x.Writable() && FixedUp(x).Sendable() && Delivered(x).Sendable()
    ensures SpsBits(acc, FixedUp(x)) == SpsBits(acc, Delivered(x))
  {
  }

  lemma FixedUpUnitDecodes(nal: Nal, x: Sps)
    requires IsU(2, nal.refIdc) && nal.unitType == NAL_UNIT_TYPE_SPS && x.Canonical() && x.Writable()
    ensures FixedUp(x).Sendable()
    ensures var unit := EncodedUnit(nal, FixedUp(x));
            DecodedUnit(unit) == SpsUnit(nal, Delivered(x), |unit|)
  {
    hide SpsBits, DecodedUnit;
    FixedUpSendable(x);
    SameBits(NalHeaderBits(nal), x);
    UnitRoundTrip(nal, Delivered(x));
  }

  /** A unit with the fixed-up set, behind the start code of the old one, is found there. */
  lemma FixedUpUnitFound(nal: Nal, x: Sps, data: seq<byte>, start: nat, end: nat, packet: seq<byte>)
    requires x.Sendable() && UnitAt(data, start, end) && packet == data[..start] + EncodedUnit(nal, x)
    ensures UnitAt(packet, start, |packet|)
  {
    hide EncodedUnit, ForbiddenAt;
    var prefix, unit := data[..start], EncodedUnit(nal, x);
    UnitEndsNonzero(nal, x);
    UnitIsClean(nal, x);
    assert StartCodeAt(prefix, start - 3);
    forall i | 0 <= i < start - 3 ensures !StartCodeAt(prefix, i) {
      assert !StartCodeAt(data, i);
    }
    UnitFoundBehind(prefix, unit, []);
    assert prefix + unit + [] == packet;
  }

  // ----- how much a set grows -----

  lemma UeLengths(v: int)
    requires IsUe(v)
    ensures |Ue(v)| >= 1 && |Ue(0)| == 1 && |Ue(1)| == 3 && |Ue(2)| == 3 && |Ue(16)| == 9
  {
    Pow2Small();
    Log2Unique(1, 0);
    Log2Unique(2, 1);
    Log2Unique(3, 1);
    Log2Unique(17, 4);
  }

  lemma FrameGrowth(a: Bits, x: Frame)
    requires x.Sendable()
    ensures |FrameBits(a, x.(numRefFrames := 1))| <= |FrameBits(a, x)| + 2
  {
    hide Ue, U1;
    UeLengths(x.numRefFrames);
  }

  lemma RestrictionGrowth(a: Bits, b: Bits, x: Restriction)
    requires x.Sendable() && |b| <= |a| + 2
    ensures var r := if x.flag != 0 then x.(maxDecFrameBuffering := 1) else Restriction(1, 1, 2, 1, 16, 16, 0, 1);
            |RestrictionBits(b, r)| <= |RestrictionBits(a, x)| + 31
  {
    hide Ue;
    UeLengths(if x.flag != 0 then x.maxDecFrameBuffering else 0);
  }

  /** What is written before does not matter for how much is written. */
  lemma {:induction false} CpbLength(a: Bits, b: Bits, x: Cpb, i: nat, count: int)
    requires count <= 32 && |b| <= |a| + 2
    ensures |CpbBits(b, x, i, count)| <= |CpbBits(a, x, i, count)| + 2
    decreases count - i
  {
    hide Ue, U1;
    if i < count {
      CpbLength(a + Ue(x.bitRateValueMinus1[i]) + Ue(x.cpbSizeValueMinus1[i]) + U1(x.cbrFlag[i]),
                b + Ue(x.bitRateValueMinus1[i]) + Ue(x.cpbSizeValueMinus1[i]) + U1(x.cbrFlag[i]), x, i + 1, count);
    }
  }

  lemma HrdLength(a: Bits, b: Bits, x: Hrd)
    requires x.Sendable() && |b| <= |a| + 2
    ensures |HrdBits(b, x)| <= |HrdBits(a, x)| + 2
  {
    hide Ue, U, CpbBits;
    CpbLength(a + Ue(x.cpbCntMinus1) + U(4, x.bitRateScale) + U(4, x.cpbSizeScale),
              b + Ue(x.cpbCntMinus1) + U(4, x.bitRateScale) + U(4, x.cpbSizeScale), x.cpb, 0, x.cpbCntMinus1 + 1);
  }

  lemma HrdInfoLength(a: Bits, b: Bits, x: HrdInfo)
    requires x.Sendable() && |b| <= |a| + 2
    ensures |HrdInfoBits(b, x)| <= |HrdInfoBits(a, x)| + 2
  {
    hide U1, HrdBits;
    var a0, b0 := a + U1(x.nalPresent), b + U1(x.nalPresent);
    if x.nalPresent != 0 {
      HrdLength(a0, b0, x.nal);
    }
    var a1 := if x.nalPresent != 0 then HrdBits(a0, x.nal) else a0;
    var b1 := if x.nalPresent != 0 then HrdBits(b0, x.nal) else b0;
    if x.vclPresent != 0 {
      HrdLength(a1 + U1(x.vclPresent), b1 + U1(x.vclPresent), x.vcl);
    }
  }

  lemma SignalLength(a: Bits, b: Bits, x: Vui)
    requires |b| <= |a| + 2
    ensures |SignalBits(b, x)| <= |SignalBits(a, x)| + 2
  {
    hide U, U1, Ue, SignalInfoBits;
    SignalInfoLength(a, b, x);
  }

  /** The VUI up to its HRD records. */
  function SignalBits(acc: Bits, x: Vui): Bits {
    TimingBits(ChromaLocBits(SignalInfoBits(acc, x), x.chromaLoc), x.timing)
  }

  function SignalInfoBits(acc: Bits, x: Vui): Bits {
    VideoBits(OverscanBits(AspectBits(acc, x.aspect), x.overscan), x.video)
  }

  lemma SignalInfoLength(a: Bits, b: Bits, x: Vui)
    requires |b| <= |a| + 2
    ensures |SignalInfoBits(b, x)| <= |SignalInfoBits(a, x)| + 2
  {
    hide U, U1;
  }

  lemma VuiGrowth(a: Bits, b: Bits, x: Vui)
    requires x.Sendable() && |b| <= |a| + 2
    ensures var r := if x.restriction.flag != 0 then x.restriction.(maxDecFrameBuffering := 1)
                     else Restriction(1, 1, 2, 1, 16, 16, 0, 1);
            x.(restriction := r).Sendable() && |VuiBits(b, x.(restriction := r))| <= |VuiBits(a, x)| + 31
  {
    hide AspectBits, OverscanBits, VideoBits, ChromaLocBits, TimingBits, HrdInfoBits, RestrictionBits, U1;
    SignalLength(a, b, x);
    var a1, b1 := SignalBits(a, x), SignalBits(b, x);
    HrdInfoLength(a1, b1, x.hrd);
    RestrictionGrowth(HrdInfoBits(a1, x.hrd) + U1(x.picStructPresent), HrdInfoBits(b1, x.hrd) + U1(x.picStructPresent), x.restriction);
  }

  lemma SetGrowth(acc: Bits, x: Sps)
    requires x.Sendable()
    ensures FixedUp(x).Sendable() && |SpsBits(acc, FixedUp(x))| <= |SpsBits(acc, x)| + 31
  {
    hide HeadBits, ChromaBits, PocBits, FrameBits, VuiBits, U1;
    FixedUpSendable(x);
    var a2 := PocBits(ChromaBits(HeadBits(acc, x.head), x.head.profileIdc, x.chroma), x.poc);
    FrameGrowth(a2, x.frame);
    if x.vuiPresent != 0 {
      VuiGrowth(FrameBits(a2, x.frame) + U1(x.vuiPresent), FrameBits(a2, FixedUp(x).frame) + U1(x.vuiPresent), x.vui);
    }
  }

  /** The fixed-up set needs at most four bytes more than the set itself, before escapes: */
  lemma UnitGrowth(nal: Nal, x: Sps)
    requires x.Sendable()
    ensures FixedUp(x).Sendable()
    ensures var n := |RbspBits(nal, x)| / 8;
            |EncodedUnit(nal, FixedUp(x))| <= n + 4 + (n + 3) / 2
  {
    hide SpsBits, Escaped, NalHeaderBits, FixedUp;
    SetGrowth(NalHeaderBits(nal), x);
    PaddedLength(SpsBits(NalHeaderBits(nal), x));
    PaddedLength(SpsBits(NalHeaderBits(nal), FixedUp(x)));
    ExpansionBound(Pack(RbspBits(nal, FixedUp(x))), 0);
  }

  lemma PaddedLength(code: Bits)
    ensures |Terminated(code)| == 8 * (|code| / 8 + 1)
  {
  }

  /** the sixteen spare bytes are always enough for a unit that was written from a payload of at
      most twenty bytes. */
  lemma ShortSetsFit(nal: Nal, x: Sps)
    requires x.Sendable() && |RbspBits(nal, x)| / 8 <= 20
    ensures FixedUp(x).Sendable()
    ensures 1 + |EncodedUnit(nal, FixedUp(x))| <= 16 + |EncodedUnit(nal, x)|
  {
    hide SpsBits, Escaped, RbspBits, FixedUp;
    UnitGrowth(nal, x);
    ExpansionBound(Pack(RbspBits(nal, x)), 0);
  }

  // ----- packets -----

  /** The writer is defined for what the reader leaves in the object. */
  predicate Passable(o: Outcome) {
    match o
    case Truncated(_, x) => x.Sendable()
    case SpsUnit(_, x, _) => x.Sendable()
    case _ => true
  }

  /** A set that needs no fix-up is passed on with all of its packet; otherwise the new unit takes
      the place of the old one and what was behind it, if sixteen bytes more are enough. */
  predicate PassedOn(data: seq<byte>, start: nat, nal: Nal, x: Sps, ok: bool, packet: seq<byte>)
    requires start <= |data| && FixedUp(x).Sendable()
  {
    var unit := EncodedUnit(nal, FixedUp(x));
    if NeedsFixUp(x) then
      && (ok <==> 1 + |unit| <= MAX_SPS_EXTRA_SIZE + |data| - start)
      && (ok ==> packet == data[..start] + unit)
    else ok && packet == data
  }

  /** Passes on a packet with a parameter set, fixed up. It fails when the first unit of the packet
      is no set, or the new unit is too long; otherwise the next reader finds the set where it was.
      The result of reading is not looked at, so a set that was cut short is passed on too, with
      the fields that the reader made up. The result says how far the source moves in its buffer:
      by the packet, or after a failure by two bytes less than the prefix. */
  method WriteBuffer(data: seq<byte>) returns (ok: bool, packet: seq<byte>, advance: int, nalStart: nat, nalEnd: nat)
    requires forall start: nat, end: nat :: UnitAt(data, start, end) ==> Passable(DecodedUnit(data[start..end]))
    ensures if exists i: nat :: StartCodeAt(data, i) then UnitAt(data, nalStart, nalEnd) else nalStart == nalEnd == 0
    ensures nalStart <= nalEnd <= |data|
    ensures advance == if ok then |packet| else nalStart - 2
    ensures match DecodedUnit(data[nalStart..nalEnd])
      case Malformed => !ok
      case OtherType(_) => !ok
      case Truncated(n, x) => FixedUp(x).Sendable() && PassedOn(data, nalStart, n, x, ok, packet)
      case SpsUnit(n, x, _) =>
        && FixedUp(x).Sendable() && PassedOn(data, nalStart, n, x, ok, packet)
        && (ok && x.Writable() ==>
              && Delivers(data, nalStart, nalEnd, packet)
              && var end := if x.frame.numRefFrames == 1 && x.vui.restriction.maxDecFrameBuffering == 1 then nalEnd else |packet|;
              && nalStart <= end <= |packet| && DecodedUnit(packet[nalStart..end]).SpsUnit?
              && var y := DecodedUnit(packet[nalStart..end]).sps;
              && y.head == x.head && y.chroma == x.chroma && y.poc == x.poc && y.vuiPresent == x.vuiPresent
              && y.frame == x.frame.(numRefFrames := 1)
              && (x.vuiPresent == 0 ==> y.vui == x.vui)
              && (x.vuiPresent != 0 ==>
                    && y.vui == x.vui.(restriction := y.vui.restriction)
                    && y.vui.restriction ==
                       if x.vui.restriction.flag != 0 then x.vui.restriction.(maxDecFrameBuffering := 1)
                       else Restriction(1, 1, 2, 1, 16, 16, 0, 1)))
  {
    hide DecodedUnit, EncodedUnit, UnitAt, StartCodeAt, FixedUp, Delivered, Delivers;
    var stream := new H264Stream();
    var size;
    size, nalStart, nalEnd := FindNalUnit(data);
    UnitInside(data, nalStart, nalEnd);
    ghost var outcome := DecodedUnit(data[nalStart..nalEnd]);
    NothingFound(data);
    var used := stream.ReadNalUnit(data[nalStart..nalEnd]);
    OutcomeIsTyped(data[nalStart..nalEnd]);
    ghost var x := stream.sps;
    FixedUpSendable(x);
    if !NeedsFixUp(stream.sps) {
      if outcome.SpsUnit? && x.Writable() {
        PacketDelivers(data, nalStart, nalEnd, data);
        DeliveredValues(data, nalStart, nalEnd, data);
      }
      return true, data, |data|, nalStart, nalEnd;
    }
    stream.sps := FixedUp(stream.sps);
    var room := new byte[MAX_SPS_EXTRA_SIZE + |data| - nalStart](_ => 0);
    size := stream.WriteNalUnit(room);
    advance := size - 1 + nalStart;
    if size < 0 {
      return false, [], advance, nalStart, nalEnd;
    }
    packet := data[..nalStart] + room[1..size];
    if outcome.SpsUnit? && x.Writable() {
      PacketDelivers(data, nalStart, nalEnd, packet);
      DeliveredValues(data, nalStart, nalEnd, packet);
    }
    ok := true;
  }

  /** What is passed on, by value: sixteen bytes more than the packet has behind its start code. */
  lemma PassedOnValues(data: seq<byte>, start: nat, nal: Nal, x: Sps, ok: bool, packet: seq<byte>)
    requires start <= |data| && FixedUp(x).Sendable() && PassedOn(data, start, nal, x, ok, packet)
    ensures x.frame.numRefFrames == 1 && x.vui.restriction.maxDecFrameBuffering == 1 ==> ok && packet == data
    ensures x.frame.numRefFrames != 1 || x.vui.restriction.maxDecFrameBuffering != 1 ==>
      var unit := EncodedUnit(nal, FixedUp(x));
      (ok <==> 1 + |unit| <= 16 + |data| - start) && (ok ==> packet == data[..start] + unit)
  {
  }

  /** What the next reader gets, by value. */
  lemma DeliveredValues(data: seq<byte>, start: nat, end: nat, packet: seq<byte>)
    requires start <= end <= |data| && Delivers(data, start, end, packet)
    ensures DecodedUnit(data[start..end]).SpsUnit?
    ensures var x := DecodedUnit(data[start..end]).sps;
      var end' := if x.frame.numRefFrames == 1 && x.vui.restriction.maxDecFrameBuffering == 1 then end else |packet|;
      && start <= end' <= |packet| && DecodedUnit(packet[start..end']).SpsUnit?
      && var y := DecodedUnit(packet[start..end']).sps;
      && y.head == x.head && y.chroma == x.chroma && y.poc == x.poc && y.vuiPresent == x.vuiPresent
      && y.frame == x.frame.(numRefFrames := 1)
      && (x.vuiPresent == 0 ==> y.vui == x.vui)
      && (x.vuiPresent != 0 ==>
            && y.vui == x.vui.(restriction := y.vui.restriction)
            && y.vui.restriction ==
               if x.vui.restriction.flag != 0 then x.vui.restriction.(maxDecFrameBuffering := 1)
               else Restriction(1, 1, 2, 1, 16, 16, 0, 1))
  {
    hide DecodedUnit, EncodedUnit, FixedUp;
    var x := DecodedUnit(data[start..end]).sps;
    FixedUpValues(x);
    OutcomeIsTyped(data[start..end]);
    VuiFlag(x);
  }

  lemma VuiFlag(x: Sps)
    ensures x.Canonical() ==> x.vuiPresent == 0 || x.vuiPresent == 1
  {
  }

  lemma UnitInside(data: seq<byte>, start: nat, end: nat)
    ensures UnitAt(data, start, end) ==> 3 <= start <= end <= |data|
  {
  }

  /** Without a start code the reader gets no bytes and finds no set in them. */
  lemma NothingFound(data: seq<byte>)
    ensures DecodedUnit(data[0..0]).OtherType?
  {
    assert data[0..0] == [];
    UValPastEnd([], 3, 5);
  }

  lemma {:induction false} UValPastEnd(s: Bits, pos: nat, n: nat)
    requires |s| <= pos
    ensures UVal(s, pos, n) == 0
  {
    if n > 0 {
      UValPastEnd(s, pos, n - 1);
    }
  }

  /** The next reader finds the set where it was, and gets it fixed up. */
  predicate Delivers(data: seq<byte>, start: nat, end: nat, packet: seq<byte>)
    requires start <= end <= |data|
  {
    var o := DecodedUnit(data[start..end]);
    && o.SpsUnit?
    && var end' := if NeedsFixUp(o.sps) then |packet| else end;
    && UnitAt(packet, start, end') && packet[..start] == data[..start]
    && DecodedUnit(packet[start..end']).SpsUnit?
    && DecodedUnit(packet[start..end']).nal == o.nal
    && DecodedUnit(packet[start..end']).sps == Delivered(o.sps)
  }

  lemma PacketDelivers(data: seq<byte>, start: nat, end: nat, packet: seq<byte>)
    requires UnitAt(data, start, end) && DecodedUnit(data[start..end]).SpsUnit?
    requires var o := DecodedUnit(data[start..end]);
      && o.sps.Writable() && FixedUp(o.sps).Sendable()
      && packet == if NeedsFixUp(o.sps) then data[..start] + EncodedUnit(o.nal, FixedUp(o.sps)) else data
    ensures Delivers(data, start, end, packet)
  {
    hide DecodedUnit, EncodedUnit, UnitAt, FixedUp;
    UnitInside(data, start, end);
    var o := DecodedUnit(data[start..end]);
    OutcomeIsTyped(data[start..end]);
    if NeedsFixUp(o.sps) {
      FixedUpUnitFound(o.nal, FixedUp(o.sps), data, start, end, packet);
      FixedUpUnitDecodes(o.nal, o.sps);
      assert packet[start..] == packet[start..|packet|] == EncodedUnit(o.nal, FixedUp(o.sps));
    } else {
      NoFixUpNeeded(o.sps);
    }
  }
}
