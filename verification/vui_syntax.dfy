/** The VUI and HRD parameters (sections E.1.1 and E.1.2 of H.264), in the same form as the
    rest of the sequence parameter set. */
module VuiSyntax {
  import opened BitCodes
  import opened SpsSyntax

  // ----- hypothetical reference decoder parameters -----

  datatype Cpb = Cpb(bitRateValueMinus1: Ints32, cpbSizeValueMinus1: Ints32, cbrFlag: Ints32)

  datatype Hrd = Hrd(
    cpbCntMinus1: int,
    bitRateScale: int,
    cpbSizeScale: int,
    cpb: Cpb,
    initialCpbRemovalDelayLengthMinus1: int,
    cpbRemovalDelayLengthMinus1: int,
    dpbOutputDelayLengthMinus1: int,
    timeOffsetLength: int)
  {
    predicate Canonical() {
      && cpbCntMinus1 <= MAX_CPB_CNT_MINUS1
      && IsU(4, bitRateScale) && IsU(4, cpbSizeScale)
      && CanonicalCpb(cpb, cpbCntMinus1 + 1)
      && IsU(5, initialCpbRemovalDelayLengthMinus1) && IsU(5, cpbRemovalDelayLengthMinus1)
      && IsU(5, dpbOutputDelayLengthMinus1) && IsU(5, timeOffsetLength)
    }

    /** The entry count also bounds the writer's walk through the arrays. */
    predicate Sendable() {
      && 0 <= cpbCntMinus1 <= MAX_CPB_CNT_MINUS1
      && forall i :: 0 <= i <= cpbCntMinus1 ==>
           IsUe(cpb.bitRateValueMinus1[i]) && IsUe(cpb.cpbSizeValueMinus1[i])
    }
  }

  /** The first count entries were read, the others are still zero. */
  predicate CanonicalCpb(x: Cpb, count: int) {
    forall i :: 0 <= i < 32 ==>
      if i < count then IsFlag(x.cbrFlag[i])
      else x.bitRateValueMinus1[i] == 0 && x.cpbSizeValueMinus1[i] == 0 && x.cbrFlag[i] == 0
  }

  function ZeroCpb(): Cpb {
    Cpb(ZeroSeq(32), ZeroSeq(32), ZeroSeq(32))
  }

  function ZeroHrd(): Hrd {
    Hrd(0, 0, 0, ZeroCpb(), 0, 0, 0, 0)
  }

  function CpbBits(acc: Bits, x: Cpb, i: nat, count: int): Bits
    requires count <= 32
    decreases count - i
  {
    if i >= count then acc
    else CpbBits(acc + Ue(x.bitRateValueMinus1[i]) + Ue(x.cpbSizeValueMinus1[i]) + U1(x.cbrFlag[i]), x, i + 1, count)
  }

  /** x with entry i read from pos on, and the position behind it. */
  function ParseCpbEntry(s: Bits, pos: nat, x: Cpb, i: nat): (r: (Cpb, nat))
    requires i < 32
    ensures pos <= r.1
  {
    var p1 := UeEnd(s, pos);
    var p2 := UeEnd(s, p1);
    (Cpb(x.bitRateValueMinus1[i := UeVal(s, pos)], x.cpbSizeValueMinus1[i := UeVal(s, p1)], x.cbrFlag[i := Flag(s, p2)]),
     p2 + 1)
  }

  function ParseCpb(s: Bits, pos: nat, x: Cpb, i: nat, count: int): (r: (Cpb, nat))
    requires count <= 32
    ensures pos <= r.1
    decreases count - i
  {
    if i >= count then (x, pos)
    else
      var r := ParseCpbEntry(s, pos, x, i);
      ParseCpb(s, r.1, r.0, i + 1, count)
  }

  lemma {:induction false} CpbRoundTrip(acc: Bits, x: Cpb, t: Cpb, i: nat, count: nat, s: Bits)
    requires i <= count <= 32 && CanonicalCpb(x, count)
    requires forall k :: 0 <= k < count ==> IsUe(x.bitRateValueMinus1[k]) && IsUe(x.cpbSizeValueMinus1[k])
    requires forall k :: 0 <= k < 32 ==>
      && t.bitRateValueMinus1[k] == (if k < i then x.bitRateValueMinus1[k] else 0)
      && t.cpbSizeValueMinus1[k] == (if k < i then x.cpbSizeValueMinus1[k] else 0)
      && t.cbrFlag[k] == (if k < i then x.cbrFlag[k] else 0)
    requires CpbBits(acc, x, i, count) <= s
    ensures acc <= s
    ensures ParseCpb(s, |acc|, t, i, count).0 == x
    ensures ParseCpb(s, |acc|, t, i, count).1 == |CpbBits(acc, x, i, count)|
    decreases count - i
  {
    hide U1, Ue, Flag, UeVal, UeEnd;
    if i < count {
      var a1 := acc + Ue(x.bitRateValueMinus1[i]);
      var a2 := a1 + Ue(x.cpbSizeValueMinus1[i]);
      var a3 := a2 + U1(x.cbrFlag[i]);
      var t' := Cpb(t.bitRateValueMinus1[i := x.bitRateValueMinus1[i]],
                    t.cpbSizeValueMinus1[i := x.cpbSizeValueMinus1[i]],
                    t.cbrFlag[i := x.cbrFlag[i]]);
      CpbRoundTrip(a3, x, t', i + 1, count, s);
      FlagAt(a2, x.cbrFlag[i], s);
      UeFieldAt(a1, x.cpbSizeValueMinus1[i], s);
      UeFieldAt(acc, x.bitRateValueMinus1[i], s);
      assert ParseCpbEntry(s, |acc|, t, i) == (t', |a3|);
    } else {
      assert t.bitRateValueMinus1 == x.bitRateValueMinus1;
      assert t.cpbSizeValueMinus1 == x.cpbSizeValueMinus1;
      assert t.cbrFlag == x.cbrFlag;
    }
  }

  lemma {:induction false} ParsedCpb(s: Bits, pos: nat, x: Cpb, i: nat, count: int)
    requires count <= 32 && CanonicalCpb(x, i)
    ensures CanonicalCpb(ParseCpb(s, pos, x, i, count).0, if i <= count then count else i)
    decreases count - i
  {
    hide Flag, UeVal, UeEnd;
    if i < count {
      var r := ParseCpbEntry(s, pos, x, i);
      ParsedCpb(s, r.1, r.0, i + 1, count);
    }
  }

  function HrdBits(acc: Bits, x: Hrd): Bits
    requires x.Sendable()
  {
    var a0 := acc + Ue(x.cpbCntMinus1) + U(4, x.bitRateScale) + U(4, x.cpbSizeScale);
    CpbBits(a0, x.cpb, 0, x.cpbCntMinus1 + 1)
    + U(5, x.initialCpbRemovalDelayLengthMinus1) + U(5, x.cpbRemovalDelayLengthMinus1)
    + U(5, x.dpbOutputDelayLengthMinus1) + U(5, x.timeOffsetLength)
  }

  function ParseHrd(s: Bits, pos: nat): (Hrd, nat) {
    var count, p1 := AtMost(MAX_CPB_CNT_MINUS1, UeVal(s, pos)), UeEnd(s, pos);
    var cpb := ParseCpb(s, p1 + 8, ZeroCpb(), 0, count + 1);
    HrdOf(s, count, UVal(s, p1, 4), UVal(s, p1 + 4, 4), cpb.0, cpb.1)
  }

  /** The record with its last four fields read from pos on. */
  function HrdOf(s: Bits, count: int, rateScale: int, sizeScale: int, cpb: Cpb, pos: nat): (Hrd, nat) {
    (Hrd(count, rateScale, sizeScale, cpb,
         UVal(s, pos, 5), UVal(s, pos + 5, 5), UVal(s, pos + 10, 5), UVal(s, pos + 15, 5)),
     pos + 20)
  }

  lemma HrdRoundTrip(acc: Bits, x: Hrd, s: Bits)
    requires x.Canonical() && x.Sendable() && HrdBits(acc, x) <= s
    ensures acc <= s
    ensures ParseHrd(s, |acc|).0 == x && ParseHrd(s, |acc|).1 == |HrdBits(acc, x)|
  {
    hide U, Ue, UVal, UeVal, UeEnd, CpbBits, ParseCpb;
    var a0 := acc + Ue(x.cpbCntMinus1);
    var a1 := a0 + U(4, x.bitRateScale);
    var a2 := a1 + U(4, x.cpbSizeScale);
    var a3 := CpbBits(a2, x.cpb, 0, x.cpbCntMinus1 + 1);
    var a4 := a3 + U(5, x.initialCpbRemovalDelayLengthMinus1);
    var a5 := a4 + U(5, x.cpbRemovalDelayLengthMinus1);
    var a6 := a5 + U(5, x.dpbOutputDelayLengthMinus1);
    UFieldAt(a6, 5, x.timeOffsetLength, s);
    UFieldAt(a5, 5, x.dpbOutputDelayLengthMinus1, s);
    UFieldAt(a4, 5, x.cpbRemovalDelayLengthMinus1, s);
    UFieldAt(a3, 5, x.initialCpbRemovalDelayLengthMinus1, s);
    CpbRoundTrip(a2, x.cpb, ZeroCpb(), 0, x.cpbCntMinus1 + 1, s);
    UFieldAt(a1, 4, x.cpbSizeScale, s);
    UFieldAt(a0, 4, x.bitRateScale, s);
    UeFieldAt(acc, x.cpbCntMinus1, s);
  }

  lemma ParsedHrd(s: Bits, pos: nat)
    ensures ParseHrd(s, pos).0.Canonical()
  {
    hide UVal, UeVal, UeEnd, ParseCpb;
    var count, p1 := AtMost(MAX_CPB_CNT_MINUS1, UeVal(s, pos)), UeEnd(s, pos);
    ParsedCpb(s, p1 + 8, ZeroCpb(), 0, count + 1);
  }

  // ----- the optional parts of the VUI -----

  datatype Aspect = Aspect(infoPresent: int, aspectRatioIdc: int, sarWidth: int, sarHeight: int)
  {
    predicate Canonical() {
      && IsFlag(infoPresent)
      && (if infoPresent == 1 then IsU(8, aspectRatioIdc) else aspectRatioIdc == 0)
      && (if infoPresent == 1 && aspectRatioIdc == SAR_EXTENDED then IsU(16, sarWidth) && IsU(16, sarHeight)
          else sarWidth == 0 && sarHeight == 0)
    }
  }

  function AspectBits(acc: Bits, x: Aspect): Bits {
    var a0 := acc + U1(x.infoPresent);
    if x.infoPresent == 0 then a0
    else
      var a1 := a0 + U(8, x.aspectRatioIdc);
      if x.aspectRatioIdc != SAR_EXTENDED then a1 else a1 + U(16, x.sarWidth) + U(16, x.sarHeight)
  }

  function ParseAspect(s: Bits, pos: nat): (r: (Aspect, nat))
    ensures r.0.Canonical()
  {
    if Flag(s, pos) == 0 then (Aspect(0, 0, 0, 0), pos + 1)
    else
      var idc := UVal(s, pos + 1, 8);
      if idc != SAR_EXTENDED then (Aspect(1, idc, 0, 0), pos + 9)
      else (Aspect(1, idc, UVal(s, pos + 9, 16), UVal(s, pos + 25, 16)), pos + 41)
  }

  lemma AspectRoundTrip(acc: Bits, x: Aspect, s: Bits)
    requires x.Canonical() && AspectBits(acc, x) <= s
    ensures acc <= s
    ensures ParseAspect(s, |acc|).0 == x && ParseAspect(s, |acc|).1 == |AspectBits(acc, x)|
  {
    hide U, U1, UVal, Flag;
    var a0 := acc + U1(x.infoPresent);
    if x.infoPresent == 1 {
      var a1 := a0 + U(8, x.aspectRatioIdc);
      if x.aspectRatioIdc == SAR_EXTENDED {
        var a2 := a1 + U(16, x.sarWidth);
        UFieldAt(a2, 16, x.sarHeight, s);
        UFieldAt(a1, 16, x.sarWidth, s);
      }
      UFieldAt(a0, 8, x.aspectRatioIdc, s);
    }
    FlagAt(acc, x.infoPresent, s);
  }

  datatype Overscan = Overscan(infoPresent: int, appropriate: int)
  {
    predicate Canonical() {
      IsFlag(infoPresent) && if infoPresent == 1 then IsFlag(appropriate) else appropriate == 0
    }
  }

  function OverscanBits(acc: Bits, x: Overscan): Bits {
    var a0 := acc + U1(x.infoPresent);
    if x.infoPresent == 0 then a0 else a0 + U1(x.appropriate)
  }

  function ParseOverscan(s: Bits, pos: nat): (r: (Overscan, nat))
    ensures r.0.Canonical()
  {
    if Flag(s, pos) == 0 then (Overscan(0, 0), pos + 1) else (Overscan(1, Flag(s, pos + 1)), pos + 2)
  }

  lemma OverscanRoundTrip(acc: Bits, x: Overscan, s: Bits)
    requires x.Canonical() && OverscanBits(acc, x) <= s
    ensures acc <= s
    ensures ParseOverscan(s, |acc|).0 == x && ParseOverscan(s, |acc|).1 == |OverscanBits(acc, x)|
  {
    hide U1, Flag;
    if x.infoPresent == 1 {
      FlagAt(acc + U1(x.infoPresent), x.appropriate, s);
    }
    FlagAt(acc, x.infoPresent, s);
  }

  datatype Video = Video(
    signalTypePresent: int, format: int, fullRange: int, colourDescriptionPresent: int,
    colourPrimaries: int, transferCharacteristics: int, matrixCoefficients: int)
  {
    predicate Canonical() {
      && IsFlag(signalTypePresent)
      && (if signalTypePresent == 1 then
            IsU(3, format) && IsFlag(fullRange) && IsFlag(colourDescriptionPresent)
          else format == 0 && fullRange == 0 && colourDescriptionPresent == 0)
      && (if colourDescriptionPresent == 1 then
            IsU(8, colourPrimaries) && IsU(8, transferCharacteristics) && IsU(8, matrixCoefficients)
          else colourPrimaries == 0 && transferCharacteristics == 0 && matrixCoefficients == 0)
    }
  }

  function VideoBits(acc: Bits, x: Video): Bits {
    var a0 := acc + U1(x.signalTypePresent);
    if x.signalTypePresent == 0 then a0
    else
      var a1 := a0 + U(3, x.format) + U1(x.fullRange) + U1(x.colourDescriptionPresent);
      if x.colourDescriptionPresent == 0 then a1
      else a1 + U(8, x.colourPrimaries) + U(8, x.transferCharacteristics) + U(8, x.matrixCoefficients)
  }

  function ParseVideo(s: Bits, pos: nat): (r: (Video, nat))
    ensures r.0.Canonical()
  {
    if Flag(s, pos) == 0 then (Video(0, 0, 0, 0, 0, 0, 0), pos + 1)
    else
      var x := Video(1, UVal(s, pos + 1, 3), Flag(s, pos + 4), Flag(s, pos + 5), 0, 0, 0);
      if x.colourDescriptionPresent == 0 then (x, pos + 6)
      else
        (x.(colourPrimaries := UVal(s, pos + 6, 8), transferCharacteristics := UVal(s, pos + 14, 8),
            matrixCoefficients := UVal(s, pos + 22, 8)),
         pos + 30)
  }

  lemma VideoRoundTrip(acc: Bits, x: Video, s: Bits)
    requires x.Canonical() && VideoBits(acc, x) <= s
    ensures acc <= s
    ensures ParseVideo(s, |acc|).0 == x && ParseVideo(s, |acc|).1 == |VideoBits(acc, x)|
  {
    hide U, U1, UVal, Flag;
    var a0 := acc + U1(x.signalTypePresent);
    if x.signalTypePresent == 1 {
      var a1 := a0 + U(3, x.format);
      var a2 := a1 + U1(x.fullRange);
      var a3 := a2 + U1(x.colourDescriptionPresent);
      if x.colourDescriptionPresent == 1 {
        var a4 := a3 + U(8, x.colourPrimaries);
        var a5 := a4 + U(8, x.transferCharacteristics);
        UFieldAt(a5, 8, x.matrixCoefficients, s);
        UFieldAt(a4, 8, x.transferCharacteristics, s);
        UFieldAt(a3, 8, x.colourPrimaries, s);
      }
      FlagAt(a2, x.colourDescriptionPresent, s);
      FlagAt(a1, x.fullRange, s);
      UFieldAt(a0, 3, x.format, s);
    }
    FlagAt(acc, x.signalTypePresent, s);
  }

  datatype ChromaLoc = ChromaLoc(infoPresent: int, sampleLocTopField: int, sampleLocBottomField: int)
  {
    predicate Canonical() {
      IsFlag(infoPresent) && (infoPresent == 0 ==> sampleLocTopField == 0 && sampleLocBottomField == 0)
    }

    predicate Sendable() {
      infoPresent != 0 ==> IsUe(sampleLocTopField) && IsUe(sampleLocBottomField)
    }
  }

  function ChromaLocBits(acc: Bits, x: ChromaLoc): Bits {
    var a0 := acc + U1(x.infoPresent);
    if x.infoPresent == 0 then a0 else a0 + Ue(x.sampleLocTopField) + Ue(x.sampleLocBottomField)
  }

  function ParseChromaLoc(s: Bits, pos: nat): (r: (ChromaLoc, nat))
    ensures r.0.Canonical()
  {
    if Flag(s, pos) == 0 then (ChromaLoc(0, 0, 0), pos + 1)
    else
      var p1 := UeEnd(s, pos + 1);
      (ChromaLoc(1, UeVal(s, pos + 1), UeVal(s, p1)), UeEnd(s, p1))
  }

  lemma ChromaLocRoundTrip(acc: Bits, x: ChromaLoc, s: Bits)
    requires x.Canonical() && x.Sendable() && ChromaLocBits(acc, x) <= s
    ensures acc <= s
    ensures ParseChromaLoc(s, |acc|).0 == x && ParseChromaLoc(s, |acc|).1 == |ChromaLocBits(acc, x)|
  {
    hide U1, Ue, Flag, UeVal, UeEnd;
    var a0 := acc + U1(x.infoPresent);
    if x.infoPresent == 1 {
      UeFieldAt(a0 + Ue(x.sampleLocTopField), x.sampleLocBottomField, s);
      UeFieldAt(a0, x.sampleLocTopField, s);
    }
    FlagAt(acc, x.infoPresent, s);
  }

  datatype Timing = Timing(infoPresent: int, numUnitsInTick: int, timeScale: int, fixedFrameRate: int)
  {
    /** The two 32-bit fields are kept in ints, so a value of 2^31 or more has become negative. */
    predicate Canonical() {
      && IsFlag(infoPresent)
      && if infoPresent == 1 then IsInt32(numUnitsInTick) && IsInt32(timeScale) && IsFlag(fixedFrameRate)
         else numUnitsInTick == 0 && timeScale == 0 && fixedFrameRate == 0
    }
  }

  function TimingBits(acc: Bits, x: Timing): Bits {
    var a0 := acc + U1(x.infoPresent);
    if x.infoPresent == 0 then a0
    else a0 + U(32, x.numUnitsInTick) + U(32, x.timeScale) + U1(x.fixedFrameRate)
  }

  function ParseTiming(s: Bits, pos: nat): (r: (Timing, nat))
    ensures r.0.Canonical()
  {
    if Flag(s, pos) == 0 then (Timing(0, 0, 0, 0), pos + 1)
    else
      (Timing(1, ToInt32(UVal32(s, pos + 1)), ToInt32(UVal32(s, pos + 33)), Flag(s, pos + 65)), pos + 66)
  }

  lemma TimingRoundTrip(acc: Bits, x: Timing, s: Bits)
    requires x.Canonical() && TimingBits(acc, x) <= s
    ensures acc <= s
    ensures ParseTiming(s, |acc|).0 == x && ParseTiming(s, |acc|).1 == |TimingBits(acc, x)|
  {
    hide U, U1, UVal32, Flag, ToInt32;
    var a0 := acc + U1(x.infoPresent);
    if x.infoPresent == 1 {
      var a1 := a0 + U(32, x.numUnitsInTick);
      var a2 := a1 + U(32, x.timeScale);
      FlagAt(a2, x.fixedFrameRate, s);
      WordAt(a1, x.timeScale, s);
      WordAt(a0, x.numUnitsInTick, s);
    }
    FlagAt(acc, x.infoPresent, s);
  }

  /** Both HRD records with their flags; the source keeps the records beside the VUI. */
  datatype HrdInfo = HrdInfo(nalPresent: int, nal: Hrd, vclPresent: int, vcl: Hrd, lowDelay: int)
  {
    predicate Canonical() {
      && IsFlag(nalPresent) && IsFlag(vclPresent)
      && (if nalPresent == 1 then nal.Canonical() else nal == ZeroHrd())
      && (if vclPresent == 1 then vcl.Canonical() else vcl == ZeroHrd())
      && (if nalPresent == 1 || vclPresent == 1 then IsFlag(lowDelay) else lowDelay == 0)
    }

    predicate Sendable() {
      && (nalPresent != 0 ==> nal.Sendable())
      && (vclPresent != 0 ==> vcl.Sendable())
    }
  }

  function HrdInfoBits(acc: Bits, x: HrdInfo): Bits
    requires x.Sendable()
  {
    var a0 := acc + U1(x.nalPresent);
    var a1 := if x.nalPresent != 0 then HrdBits(a0, x.nal) else a0;
    var a2 := a1 + U1(x.vclPresent);
    var a3 := if x.vclPresent != 0 then HrdBits(a2, x.vcl) else a2;
    if x.nalPresent != 0 || x.vclPresent != 0 then a3 + U1(x.lowDelay) else a3
  }

  function ParseOptionalHrd(s: Bits, pos: nat): (Hrd, nat) {
    if Flag(s, pos) == 0 then (ZeroHrd(), pos + 1) else ParseHrd(s, pos + 1)
  }

  function ParseHrdInfo(s: Bits, pos: nat): (HrdInfo, nat) {
    var nal := ParseOptionalHrd(s, pos);
    var vcl := ParseOptionalHrd(s, nal.1);
    var x := HrdInfo(Flag(s, pos), nal.0, Flag(s, nal.1), vcl.0, 0);
    if x.nalPresent == 0 && x.vclPresent == 0 then (x, vcl.1)
    else (x.(lowDelay := Flag(s, vcl.1)), vcl.1 + 1)
  }

  lemma HrdInfoRoundTrip(acc: Bits, x: HrdInfo, s: Bits)
    requires x.Canonical() && x.Sendable() && HrdInfoBits(acc, x) <= s
    ensures acc <= s
    ensures ParseHrdInfo(s, |acc|).0 == x && ParseHrdInfo(s, |acc|).1 == |HrdInfoBits(acc, x)|
  {
    hide U1, Flag, HrdBits, ParseHrd;
    var a0 := acc + U1(x.nalPresent);
    var a1 := if x.nalPresent != 0 then HrdBits(a0, x.nal) else a0;
    var a2 := a1 + U1(x.vclPresent);
    var a3 := if x.vclPresent != 0 then HrdBits(a2, x.vcl) else a2;
    if x.nalPresent != 0 || x.vclPresent != 0 {
      FlagAt(a3, x.lowDelay, s);
    }
    if x.vclPresent != 0 {
      HrdRoundTrip(a2, x.vcl, s);
    }
    FlagAt(a1, x.vclPresent, s);
    if x.nalPresent != 0 {
      HrdRoundTrip(a0, x.nal, s);
    }
    FlagAt(acc, x.nalPresent, s);
  }

  lemma ParsedHrdInfo(s: Bits, pos: nat)
    ensures ParseHrdInfo(s, pos).0.Canonical()
  {
    hide Flag, ParseHrd;
    ParsedHrd(s, pos + 1);
    ParsedHrd(s, ParseOptionalHrd(s, pos).1 + 1);
  }

  datatype Restriction = Restriction(
    flag: int, motionVectorsOverPicBoundaries: int, maxBytesPerPicDenom: int, maxBitsPerMbDenom: int,
    log2MaxMvLengthHorizontal: int, log2MaxMvLengthVertical: int, numReorderFrames: int,
    maxDecFrameBuffering: int)
  {
    predicate Canonical() {
      && IsFlag(flag)
      && if flag == 1 then IsFlag(motionVectorsOverPicBoundaries)
         else this == Restriction(0, 0, 0, 0, 0, 0, 0, 0)
    }

    predicate Sendable() {
      flag != 0 ==>
        && IsUe(maxBytesPerPicDenom) && IsUe(maxBitsPerMbDenom) && IsUe(log2MaxMvLengthHorizontal)
        && IsUe(log2MaxMvLengthVertical) && IsUe(numReorderFrames) && IsUe(maxDecFrameBuffering)
    }
  }

  function RestrictionBits(acc: Bits, x: Restriction): Bits {
    var a0 := acc + U1(x.flag);
    if x.flag == 0 then a0
    else a0 + U1(x.motionVectorsOverPicBoundaries) + Ue(x.maxBytesPerPicDenom) + Ue(x.maxBitsPerMbDenom)
         + Ue(x.log2MaxMvLengthHorizontal) + Ue(x.log2MaxMvLengthVertical) + Ue(x.numReorderFrames)
         + Ue(x.maxDecFrameBuffering)
  }

  function ParseRestriction(s: Bits, pos: nat): (r: (Restriction, nat))
    ensures r.0.Canonical()
  {
    if Flag(s, pos) == 0 then (Restriction(0, 0, 0, 0, 0, 0, 0, 0), pos + 1)
    else
      var p1 := UeEnd(s, pos + 2);
      var p2 := UeEnd(s, p1);
      var p3 := UeEnd(s, p2);
      var p4 := UeEnd(s, p3);
      var p5 := UeEnd(s, p4);
      (Restriction(1, Flag(s, pos + 1), UeVal(s, pos + 2), UeVal(s, p1), UeVal(s, p2), UeVal(s, p3),
                   UeVal(s, p4), UeVal(s, p5)),
       UeEnd(s, p5))
  }

  lemma RestrictionRoundTrip(acc: Bits, x: Restriction, s: Bits)
    requires x.Canonical() && x.Sendable() && RestrictionBits(acc, x) <= s
    ensures acc <= s
    ensures ParseRestriction(s, |acc|).0 == x && ParseRestriction(s, |acc|).1 == |RestrictionBits(acc, x)|
  {
    hide U1, Ue, Flag, UeVal, UeEnd;
    var a0 := acc + U1(x.flag);
    if x.flag == 1 {
      var a1 := a0 + U1(x.motionVectorsOverPicBoundaries);
      var a2 := a1 + Ue(x.maxBytesPerPicDenom);
      var a3 := a2 + Ue(x.maxBitsPerMbDenom);
      var a4 := a3 + Ue(x.log2MaxMvLengthHorizontal);
      var a5 := a4 + Ue(x.log2MaxMvLengthVertical);
      var a6 := a5 + Ue(x.numReorderFrames);
      UeFieldAt(a6, x.maxDecFrameBuffering, s);
      UeFieldAt(a5, x.numReorderFrames, s);
      UeFieldAt(a4, x.log2MaxMvLengthVertical, s);
      UeFieldAt(a3, x.log2MaxMvLengthHorizontal, s);
      UeFieldAt(a2, x.maxBitsPerMbDenom, s);
      UeFieldAt(a1, x.maxBytesPerPicDenom, s);
      FlagAt(a0, x.motionVectorsOverPicBoundaries, s);
    }
    FlagAt(acc, x.flag, s);
  }

  // ----- the VUI -----

  datatype Vui = Vui(
    aspect: Aspect,
    overscan: Overscan,
    video: Video,
    chromaLoc: ChromaLoc,
    timing: Timing,
    hrd: HrdInfo,
    picStructPresent: int,
    restriction: Restriction)
  {
    predicate Canonical() {
      && aspect.Canonical() && overscan.Canonical() && video.Canonical() && chromaLoc.Canonical()
      && timing.Canonical() && hrd.Canonical() && IsFlag(picStructPresent) && restriction.Canonical()
    }

    predicate Sendable() {
      chromaLoc.Sendable() && hrd.Sendable() && restriction.Sendable()
    }
  }

  function ZeroVui(): Vui {
    Vui(Aspect(0, 0, 0, 0), Overscan(0, 0), Video(0, 0, 0, 0, 0, 0, 0), ChromaLoc(0, 0, 0), Timing(0, 0, 0, 0),
        HrdInfo(0, ZeroHrd(), 0, ZeroHrd(), 0), 0, Restriction(0, 0, 0, 0, 0, 0, 0, 0))
  }

  function VuiBits(acc: Bits, x: Vui): Bits
    requires x.Sendable()
  {
    var a0 := AspectBits(acc, x.aspect);
    var a1 := OverscanBits(a0, x.overscan);
    var a2 := VideoBits(a1, x.video);
    var a3 := ChromaLocBits(a2, x.chromaLoc);
    var a4 := TimingBits(a3, x.timing);
    var a5 := HrdInfoBits(a4, x.hrd);
    RestrictionBits(a5 + U1(x.picStructPresent), x.restriction)
  }

  lemma {:induction false} CpbBitsExtends(acc: Bits, x: Cpb, i: nat, count: int)
    requires count <= 32
    ensures acc <= CpbBits(acc, x, i, count)
    decreases count - i
  {
    hide U1, Ue;
    if i < count {
      CpbBitsExtends(acc + Ue(x.bitRateValueMinus1[i]) + Ue(x.cpbSizeValueMinus1[i]) + U1(x.cbrFlag[i]), x, i + 1, count);
    }
  }

  lemma HrdBitsExtends(acc: Bits, x: Hrd)
    requires x.Sendable()
    ensures acc <= HrdBits(acc, x)
  {
    hide U, Ue, CpbBits;
    CpbBitsExtends(acc + Ue(x.cpbCntMinus1) + U(4, x.bitRateScale) + U(4, x.cpbSizeScale), x.cpb, 0, x.cpbCntMinus1 + 1);
  }

  lemma HrdInfoBitsExtends(acc: Bits, x: HrdInfo)
    requires x.Sendable()
    ensures acc <= HrdInfoBits(acc, x)
  {
    hide U1, HrdBits;
    var a0 := acc + U1(x.nalPresent);
    if x.nalPresent != 0 {
      HrdBitsExtends(a0, x.nal);
    }
    if x.vclPresent != 0 {
      HrdBitsExtends((if x.nalPresent != 0 then HrdBits(a0, x.nal) else a0) + U1(x.vclPresent), x.vcl);
    }
  }

  lemma VuiBitsExtends(acc: Bits, x: Vui)
    requires x.Sendable()
    ensures acc <= VuiBits(acc, x)
  {
    hide AspectBits, OverscanBits, VideoBits, ChromaLocBits, TimingBits, HrdInfoBits, RestrictionBits, U1;
    var a4 := TimingBits(ChromaLocBits(VideoBits(OverscanBits(AspectBits(acc, x.aspect), x.overscan), x.video), x.chromaLoc), x.timing);
    HrdInfoBitsExtends(a4, x.hrd);
    PartsExtend(acc, x);
    RestrictionExtends(HrdInfoBits(a4, x.hrd) + U1(x.picStructPresent), x.restriction);
  }

  lemma PartsExtend(acc: Bits, x: Vui)
    ensures acc <= TimingBits(ChromaLocBits(VideoBits(OverscanBits(AspectBits(acc, x.aspect), x.overscan), x.video), x.chromaLoc), x.timing)
  {
    hide U, U1, Ue;
  }

  lemma RestrictionExtends(acc: Bits, x: Restriction)
    ensures acc <= RestrictionBits(acc, x)
  {
    hide U1, Ue;
  }

  function ParseVui(s: Bits, pos: nat): (Vui, nat) {
    var aspect := ParseAspect(s, pos);
    var overscan := ParseOverscan(s, aspect.1);
    var video := ParseVideo(s, overscan.1);
    var chromaLoc := ParseChromaLoc(s, video.1);
    var timing := ParseTiming(s, chromaLoc.1);
    var hrd := ParseHrdInfo(s, timing.1);
    var restriction := ParseRestriction(s, hrd.1 + 1);
    (Vui(aspect.0, overscan.0, video.0, chromaLoc.0, timing.0, hrd.0, Flag(s, hrd.1), restriction.0), restriction.1)
  }

  lemma VuiRoundTrip(acc: Bits, x: Vui, s: Bits)
    requires x.Canonical() && x.Sendable() && VuiBits(acc, x) <= s
    ensures acc <= s
    ensures ParseVui(s, |acc|).0 == x && ParseVui(s, |acc|).1 == |VuiBits(acc, x)|
  {
    hide AspectBits, OverscanBits, VideoBits, ChromaLocBits, TimingBits, HrdInfoBits, RestrictionBits, U1;
    hide ParseAspect, ParseOverscan, ParseVideo, ParseChromaLoc, ParseTiming, ParseHrdInfo, ParseRestriction, Flag;
    var a0 := AspectBits(acc, x.aspect);
    var a1 := OverscanBits(a0, x.overscan);
    var a2 := VideoBits(a1, x.video);
    var a3 := ChromaLocBits(a2, x.chromaLoc);
    var a4 := TimingBits(a3, x.timing);
    var a5 := HrdInfoBits(a4, x.hrd);
    RestrictionRoundTrip(a5 + U1(x.picStructPresent), x.restriction, s);
    FlagAt(a5, x.picStructPresent, s);
    HrdInfoRoundTrip(a4, x.hrd, s);
    TimingRoundTrip(a3, x.timing, s);
    ChromaLocRoundTrip(a2, x.chromaLoc, s);
    VideoRoundTrip(a1, x.video, s);
    OverscanRoundTrip(a0, x.overscan, s);
    AspectRoundTrip(acc, x.aspect, s);
  }

  lemma ParsedVui(s: Bits, pos: nat)
    ensures ParseVui(s, pos).0.Canonical()
  {
    hide ParseAspect, ParseOverscan, ParseVideo, ParseChromaLoc, ParseTiming, ParseHrdInfo, ParseRestriction, Flag;
    var timing := ParseTiming(s, ParseChromaLoc(s, ParseVideo(s, ParseOverscan(s, ParseAspect(s, pos).1).1).1).1);
    ParsedHrdInfo(s, timing.1);
  }
}
