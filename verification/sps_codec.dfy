/** Reading and writing a sequence parameter set field by field at a bit cursor. The source's
    three long functions (the set, the VUI, the HRD) are split at the records of the syntax. */
module SpsCodec {
  import opened BitCodes
  import opened BitCursor
  import opened ScalingLists
  import opened SpsSyntax
  import opened VuiSyntax
  import opened SequenceParameterSet

  // ----- fields of type int -----

  method ReadFlag(b: Bs) returns (v: int)
    requires b.Valid()
    modifies b`p, b`bitsLeft
    ensures b.Valid() && b.Stream() == old(b.Stream())
    ensures v == Flag(b.Stream(), old(b.Pos())) && b.Pos() == old(b.Pos()) + 1
  {
    v := b.ReadU1();
  }

  method ReadUeField(b: Bs) returns (v: int)
    requires b.Valid()
    modifies b`p, b`bitsLeft
    ensures b.Valid() && b.Stream() == old(b.Stream())
    ensures v == UeVal(b.Stream(), old(b.Pos())) && b.Pos() == UeEnd(b.Stream(), old(b.Pos()))
  {
    var k := b.ReadUe();
    v := ToInt32(k);
  }

  method ReadSeField(b: Bs) returns (v: int)
    requires b.Valid()
    modifies b`p, b`bitsLeft
    ensures b.Valid() && b.Stream() == old(b.Stream())
    ensures v == SeVal(b.Stream(), old(b.Pos())) && b.Pos() == SeEnd(b.Stream(), old(b.Pos()))
  {
    v := b.ReadSe();
  }

  method ReadWordField(b: Bs) returns (v: int)
    requires b.Valid()
    modifies b`p, b`bitsLeft
    ensures b.Valid() && b.Stream() == old(b.Stream())
    ensures v == ToInt32(UVal32(b.Stream(), old(b.Pos()))) && b.Pos() == old(b.Pos()) + 32
  {
    var k := b.ReadU(32);
    Pow2Values();
    v := ToInt32(k);
  }

  method WriteField(b: Bs, n: nat, v: int)
    requires b.Writing() && n <= 32
    modifies b, b.buf
    ensures b.Writing()
    ensures b.sent == old(b.sent) + U(n, v)
  {
    b.WriteU(n, U32(v));
  }

  method WriteFlag(b: Bs, v: int)
    requires b.Writing()
    modifies b, b.buf
    ensures b.Writing()
    ensures b.sent == old(b.sent) + U1(v)
  {
    assert UBits(1, U32(v)) == [U32(v) % 2 == 1] by {
      assert UBits(0, U32(v) / 2) == [];
    }
    b.WriteU1(U32(v));
  }

  method WriteByteField(b: Bs, v: int)
    requires b.Writing()
    modifies b, b.buf
    ensures b.Writing()
    ensures b.sent == old(b.sent) + U(8, v)
  {
    b.WriteU8(U32(v));
  }

  method WriteUeField(b: Bs, v: int)
    requires b.Writing() && IsUe(v)
    modifies b, b.buf
    ensures b.Writing()
    ensures b.sent == old(b.sent) + Ue(v)
  {
    b.WriteUe(U32(v));
  }

  // ----- reading -----

  method ReadHead(b: Bs) returns (x: Head)
    requires b.Valid()
    modifies b`p, b`bitsLeft
    ensures b.Valid() && b.Stream() == old(b.Stream())
    ensures x == ParseHead(b.Stream(), old(b.Pos())).0 && b.Pos() == ParseHead(b.Stream(), old(b.Pos())).1
  {
    hide UVal, Flag, UeVal, UeEnd, IsU, IsFlag, Bs.Stream, Bs.Valid, Bs.Pos;
    var profileIdc := b.ReadU8();
    var f0 := ReadFlag(b);
    var f1 := ReadFlag(b);
    var f2 := ReadFlag(b);
    var f3 := ReadFlag(b);
    var f4 := ReadFlag(b);
    var f5 := ReadFlag(b);
    b.SkipU(2);
    var levelIdc := b.ReadU8();
    var id := ReadUeField(b);
    x := Head(profileIdc, f0, f1, f2, f3, f4, f5, 0, levelIdc, id);
  }

  method ReadMatrix(b: Bs, m0: Matrix, count: nat) returns (m: Matrix)
    requires b.Valid() && count <= 12
    modifies b`p, b`bitsLeft
    ensures b.Valid() && b.Stream() == old(b.Stream())
    ensures m == ParseMatrix(b.Stream(), old(b.Pos()), m0, 0, count).0
    ensures b.Pos() == ParseMatrix(b.Stream(), old(b.Pos()), m0, 0, count).1
  {
    hide Flag, ParseScalingList;
    m := m0;
    ghost var s, goal := b.Stream(), ParseMatrix(b.Stream(), b.Pos(), m0, 0, count);
    for i := 0 to count
      invariant b.Valid() && b.Stream() == s
      invariant ParseMatrix(s, b.Pos(), m, i, count) == goal
    {
      var present := ReadFlag(b);
      var l := m.lists[i];
      m := m.(present := m.present[i := present]);
      if present != 0 {
        l := ReadScalingList(b, l);
        m := m.(lists := m.lists[i := l]);
      }
    }
  }

  method ReadFormat(b: Bs) returns (x: Chroma)
    requires b.Valid()
    modifies b`p, b`bitsLeft
    ensures b.Valid() && b.Stream() == old(b.Stream())
    ensures x == ParseFormat(b.Stream(), old(b.Pos())).0 && b.Pos() == ParseFormat(b.Stream(), old(b.Pos())).1
  {
    hide Flag, UeVal, UeEnd, Bs.Stream, Bs.Valid, Bs.Pos;
    x := DefaultChroma();
    var format := ReadUeField(b);
    x := x.(chromaFormatIdc := format);
    if format == 3 {
      var residual := ReadFlag(b);
      x := x.(residualColourTransform := residual);
    }
    var luma := ReadUeField(b);
    var chroma := ReadUeField(b);
    var bypass := ReadFlag(b);
    var matrixPresent := ReadFlag(b);
    x := x.(bitDepthLumaMinus8 := luma, bitDepthChromaMinus8 := chroma,
            qpprimeYZeroTransformBypass := bypass, matrixPresent := matrixPresent);
  }

  method ReadChroma(b: Bs, profileIdc: int) returns (x: Chroma)
    requires b.Valid()
    modifies b`p, b`bitsLeft
    ensures b.Valid() && b.Stream() == old(b.Stream())
    ensures x == ParseChroma(b.Stream(), old(b.Pos()), profileIdc).0
    ensures b.Pos() == ParseChroma(b.Stream(), old(b.Pos()), profileIdc).1
  {
    hide ParseFormat, ParseMatrix, ParseScalingList, Bs.Stream, Bs.Valid, Bs.Pos;
    x := DefaultChroma();
    if IsHighProfile(profileIdc) {
      x := ReadFormat(b);
      if x.matrixPresent != 0 {
        var m := ReadMatrix(b, ZeroMatrix(), x.ListCount());
        x := x.(matrix := m);
      }
    }
  }

  method ReadOffsets(b: Bs, count: int) returns (offsets: Ints256)
    requires b.Valid() && count <= 256
    modifies b`p, b`bitsLeft
    ensures b.Valid() && b.Stream() == old(b.Stream())
    ensures offsets == ParseOffsets(b.Stream(), old(b.Pos()), ZeroSeq(256), 0, count).0
    ensures b.Pos() == ParseOffsets(b.Stream(), old(b.Pos()), ZeroSeq(256), 0, count).1
  {
    hide SeVal, SeEnd;
    offsets := ZeroSeq(256);
    ghost var s, goal := b.Stream(), ParseOffsets(b.Stream(), b.Pos(), offsets, 0, count);
    var i := 0;
    while i < count
      invariant b.Valid() && b.Stream() == s && 0 <= i
      invariant ParseOffsets(s, b.Pos(), offsets, i, count) == goal
    {
      var v := ReadSeField(b);
      offsets := offsets[i := v];
      i := i + 1;
    }
  }

  method ReadPoc(b: Bs) returns (x: Poc)
    requires b.Valid()
    modifies b`p, b`bitsLeft
    ensures b.Valid() && b.Stream() == old(b.Stream())
    ensures x == ParsePoc(b.Stream(), old(b.Pos())).0 && b.Pos() == ParsePoc(b.Stream(), old(b.Pos())).1
  {
    hide Flag, UeVal, UeEnd, SeVal, SeEnd, ParseOffsets;
    var frameNum := ReadUeField(b);
    var pocType := ReadUeField(b);
    x := Poc(frameNum, pocType, 0, 0, 0, 0, 0, ZeroSeq(256));
    if pocType == 0 {
      var lsb := ReadUeField(b);
      x := x.(log2MaxPicOrderCntLsbMinus4 := lsb);
    } else if pocType == 1 {
      var alwaysZero := ReadFlag(b);
      var nonRef := ReadSeField(b);
      var topToBottom := ReadSeField(b);
      var count := ReadUeField(b);
      if count > MAX_REF_FRAMES_IN_CYCLE {
        count := MAX_REF_FRAMES_IN_CYCLE;
      }
      var offsets := ReadOffsets(b, count);
      x := Poc(frameNum, pocType, 0, alwaysZero, nonRef, topToBottom, count, offsets);
    }
  }

  method ReadFrame(b: Bs) returns (x: Frame)
    requires b.Valid()
    modifies b`p, b`bitsLeft
    ensures b.Valid() && b.Stream() == old(b.Stream())
    ensures x == ParseFrame(b.Stream(), old(b.Pos())).0 && b.Pos() == ParseFrame(b.Stream(), old(b.Pos())).1
  {
    hide Flag, UeVal, UeEnd, IsFlag, ParseCrop, Bs.Stream, Bs.Valid, Bs.Pos;
    ghost var s, pos := b.Stream(), b.Pos();
    var refFrames := ReadUeField(b);
    var gaps := ReadFlag(b);
    var width := ReadUeField(b);
    var height := ReadUeField(b);
    var mbsOnly := ReadFlag(b);
    assert b.Pos() == UeEnd(s, UeEnd(s, UeEnd(s, pos) + 1)) + 1;
    var adaptive := 0;
    if mbsOnly == 0 {
      adaptive := ReadFlag(b);
    }
    var inference := ReadFlag(b);
    var cropping := ReadFlag(b);
    x := Frame(refFrames, gaps, width, height, mbsOnly, adaptive, inference, cropping, 0, 0, 0, 0);
    if cropping != 0 {
      x := ReadCrop(b, x);
    }
  }

  method ReadCrop(b: Bs, x0: Frame) returns (x: Frame)
    requires b.Valid()
    modifies b`p, b`bitsLeft
    ensures b.Valid() && b.Stream() == old(b.Stream())
    ensures x == ParseCrop(b.Stream(), old(b.Pos()), x0).0 && b.Pos() == ParseCrop(b.Stream(), old(b.Pos()), x0).1
  {
    hide UeVal, UeEnd, Bs.Stream;
    var left := ReadUeField(b);
    var right := ReadUeField(b);
    var top := ReadUeField(b);
    var bottom := ReadUeField(b);
    x := x0.(cropLeft := left, cropRight := right, cropTop := top, cropBottom := bottom);
  }

  method ReadHrdParameters(b: Bs) returns (x: Hrd)
    requires b.Valid()
    modifies b`p, b`bitsLeft
    ensures b.Valid() && b.Stream() == old(b.Stream())
    ensures x == ParseHrd(b.Stream(), old(b.Pos())).0 && b.Pos() == ParseHrd(b.Stream(), old(b.Pos())).1
  {
    hide UVal, UeVal, UeEnd, ParseCpb, Pow2, IsU, IsFlag, Bs.Stream, Bs.Valid, Bs.Pos;
    var count := ReadUeField(b);
    if count > MAX_CPB_CNT_MINUS1 {
      count := MAX_CPB_CNT_MINUS1;
    }
    var rateScale := b.ReadU(4);
    var sizeScale := b.ReadU(4);
    var cpb := ReadCpb(b, count + 1);
    var initial := b.ReadU(5);
    var removal := b.ReadU(5);
    var output := b.ReadU(5);
    var timeOffset := b.ReadU(5);
    x := Hrd(count, rateScale, sizeScale, cpb, initial, removal, output, timeOffset);
  }

  method ReadCpb(b: Bs, count: int) returns (x: Cpb)
    requires b.Valid() && count <= 32
    modifies b`p, b`bitsLeft
    ensures b.Valid() && b.Stream() == old(b.Stream())
    ensures x == ParseCpb(b.Stream(), old(b.Pos()), ZeroCpb(), 0, count).0
    ensures b.Pos() == ParseCpb(b.Stream(), old(b.Pos()), ZeroCpb(), 0, count).1
  {
    hide Flag, UeVal, UeEnd;
    x := ZeroCpb();
    ghost var s, goal := b.Stream(), ParseCpb(b.Stream(), b.Pos(), x, 0, count);
    var i := 0;
    while i < count
      invariant b.Valid() && b.Stream() == s && 0 <= i
      invariant ParseCpb(s, b.Pos(), x, i, count) == goal
    {
      ghost var pos, x0 := b.Pos(), x;
      var rate := ReadUeField(b);
      x := x.(bitRateValueMinus1 := x.bitRateValueMinus1[i := rate]);
      var size := ReadUeField(b);
      x := x.(cpbSizeValueMinus1 := x.cpbSizeValueMinus1[i := size]);
      var cbr := ReadFlag(b);
      x := x.(cbrFlag := x.cbrFlag[i := cbr]);
      assert ParseCpbEntry(s, pos, x0, i).0 == x && ParseCpbEntry(s, pos, x0, i).1 == b.Pos();
      i := i + 1;
    }
  }

  method ReadAspect(b: Bs) returns (x: Aspect)
    requires b.Valid()
    modifies b`p, b`bitsLeft
    ensures b.Valid() && b.Stream() == old(b.Stream())
    ensures x == ParseAspect(b.Stream(), old(b.Pos())).0 && b.Pos() == ParseAspect(b.Stream(), old(b.Pos())).1
  {
    hide UVal, Flag, Bs.Stream;
    var present := ReadFlag(b);
    x := Aspect(present, 0, 0, 0);
    if present != 0 {
      var idc := b.ReadU8();
      x := x.(aspectRatioIdc := idc);
      if idc == SAR_EXTENDED {
        var width := b.ReadU(16);
        var height := b.ReadU(16);
        x := x.(sarWidth := width, sarHeight := height);
      }
    }
  }

  method ReadOverscan(b: Bs) returns (x: Overscan)
    requires b.Valid()
    modifies b`p, b`bitsLeft
    ensures b.Valid() && b.Stream() == old(b.Stream())
    ensures x == ParseOverscan(b.Stream(), old(b.Pos())).0 && b.Pos() == ParseOverscan(b.Stream(), old(b.Pos())).1
  {
    hide Flag, Bs.Stream;
    var present := ReadFlag(b);
    x := Overscan(present, 0);
    if present != 0 {
      var appropriate := ReadFlag(b);
      x := x.(appropriate := appropriate);
    }
  }

  method ReadVideo(b: Bs) returns (x: Video)
    requires b.Valid()
    modifies b`p, b`bitsLeft
    ensures b.Valid() && b.Stream() == old(b.Stream())
    ensures x == ParseVideo(b.Stream(), old(b.Pos())).0 && b.Pos() == ParseVideo(b.Stream(), old(b.Pos())).1
  {
    hide UVal, Flag;
    var present := ReadFlag(b);
    x := Video(present, 0, 0, 0, 0, 0, 0);
    if present != 0 {
      var format := b.ReadU(3);
      var fullRange := ReadFlag(b);
      var colour := ReadFlag(b);
      x := x.(format := format, fullRange := fullRange, colourDescriptionPresent := colour);
      if colour != 0 {
        var primaries := b.ReadU8();
        var transfer := b.ReadU8();
        var coefficients := b.ReadU8();
        x := x.(colourPrimaries := primaries, transferCharacteristics := transfer, matrixCoefficients := coefficients);
      }
    }
  }

  method ReadLocationAndTiming(b: Bs) returns (chromaLoc: ChromaLoc, timing: Timing)
    requires b.Valid()
    modifies b`p, b`bitsLeft
    ensures b.Valid() && b.Stream() == old(b.Stream())
    ensures chromaLoc == ParseChromaLoc(b.Stream(), old(b.Pos())).0
    ensures var p1 := ParseChromaLoc(b.Stream(), old(b.Pos())).1;
            timing == ParseTiming(b.Stream(), p1).0 && b.Pos() == ParseTiming(b.Stream(), p1).1
  {
    hide UVal32, Flag, UeVal, UeEnd, ToInt32;
    var present := ReadFlag(b);
    chromaLoc := ChromaLoc(present, 0, 0);
    if present != 0 {
      var top := ReadUeField(b);
      var bottom := ReadUeField(b);
      chromaLoc := chromaLoc.(sampleLocTopField := top, sampleLocBottomField := bottom);
    }
    present := ReadFlag(b);
    timing := Timing(present, 0, 0, 0);
    if present != 0 {
      var units := ReadWordField(b);
      var scale := ReadWordField(b);
      var fixedRate := ReadFlag(b);
      timing := Timing(present, units, scale, fixedRate);
    }
  }

  method ReadHrdInfo(b: Bs) returns (x: HrdInfo)
    requires b.Valid()
    modifies b`p, b`bitsLeft
    ensures b.Valid() && b.Stream() == old(b.Stream())
    ensures x == ParseHrdInfo(b.Stream(), old(b.Pos())).0 && b.Pos() == ParseHrdInfo(b.Stream(), old(b.Pos())).1
  {
    hide Flag, ParseHrd;
    x := HrdInfo(0, ZeroHrd(), 0, ZeroHrd(), 0);
    var nalPresent := ReadFlag(b);
    x := x.(nalPresent := nalPresent);
    if nalPresent != 0 {
      var nal := ReadHrdParameters(b);
      x := x.(nal := nal);
    }
    var vclPresent := ReadFlag(b);
    x := x.(vclPresent := vclPresent);
    if vclPresent != 0 {
      var vcl := ReadHrdParameters(b);
      x := x.(vcl := vcl);
    }
    if nalPresent != 0 || vclPresent != 0 {
      var lowDelay := ReadFlag(b);
      x := x.(lowDelay := lowDelay);
    }
  }

  method ReadRestriction(b: Bs) returns (x: Restriction)
    requires b.Valid()
    modifies b`p, b`bitsLeft
    ensures b.Valid() && b.Stream() == old(b.Stream())
    ensures x == ParseRestriction(b.Stream(), old(b.Pos())).0
    ensures b.Pos() == ParseRestriction(b.Stream(), old(b.Pos())).1
  {
    hide Flag, UeVal, UeEnd;
    var flag := ReadFlag(b);
    x := Restriction(flag, 0, 0, 0, 0, 0, 0, 0);
    if flag != 0 {
      var vectors := ReadFlag(b);
      var bytesDenom := ReadUeField(b);
      var bitsDenom := ReadUeField(b);
      var horizontal := ReadUeField(b);
      var vertical := ReadUeField(b);
      var reorder := ReadUeField(b);
      var buffering := ReadUeField(b);
      x := Restriction(flag, vectors, bytesDenom, bitsDenom, horizontal, vertical, reorder, buffering);
    }
  }

  method ReadVuiParameters(b: Bs) returns (x: Vui)
    requires b.Valid()
    modifies b`p, b`bitsLeft
    ensures b.Valid() && b.Stream() == old(b.Stream())
    ensures x == ParseVui(b.Stream(), old(b.Pos())).0 && b.Pos() == ParseVui(b.Stream(), old(b.Pos())).1
  {
    hide ParseAspect, ParseOverscan, ParseVideo, ParseChromaLoc, ParseTiming, ParseHrdInfo, ParseRestriction, Flag;
    var aspect := ReadAspect(b);
    var overscan := ReadOverscan(b);
    var video := ReadVideo(b);
    var chromaLoc, timing := ReadLocationAndTiming(b);
    var hrd := ReadHrdInfo(b);
    var picStruct := ReadFlag(b);
    var restriction := ReadRestriction(b);
    x := Vui(aspect, overscan, video, chromaLoc, timing, hrd, picStruct, restriction);
  }

  method ReadSeqParameterSetRbsp(b: Bs) returns (x: Sps)
    requires b.Valid()
    modifies b`p, b`bitsLeft
    ensures b.Valid() && b.Stream() == old(b.Stream())
    ensures x == ParseSps(b.Stream(), old(b.Pos())).0 && b.Pos() == ParseSps(b.Stream(), old(b.Pos())).1
  {
    hide ParseHead, ParseChroma, ParsePoc, ParseFrame, ParseVui, Flag;
    var head := ReadHead(b);
    var chroma := ReadChroma(b, head.profileIdc);
    var poc := ReadPoc(b);
    var frame := ReadFrame(b);
    var vuiPresent := ReadFlag(b);
    x := Sps(head, chroma, poc, frame, vuiPresent, ZeroVui());
    if vuiPresent != 0 {
      var vui := ReadVuiParameters(b);
      x := x.(vui := vui);
    }
  }

  // ----- writing -----

  method WriteHead(b: Bs, x: Head)
    requires b.Writing() && x.Sendable()
    modifies b, b.buf
    ensures b.Writing() && b.sent == HeadBits(old(b.sent), x)
  {
    hide U, U1, Ue;
    WriteByteField(b, x.profileIdc);
    WriteFlag(b, x.constraintSet0);
    WriteFlag(b, x.constraintSet1);
    WriteFlag(b, x.constraintSet2);
    WriteFlag(b, x.constraintSet3);
    WriteFlag(b, x.constraintSet4);
    WriteFlag(b, x.constraintSet5);
    WriteField(b, 2, 0);
    WriteByteField(b, x.levelIdc);
    WriteUeField(b, x.seqParameterSetId);
  }

  method WriteMatrix(b: Bs, m: Matrix, count: nat)
    requires b.Writing() && count <= 12 && SendableLists(m, count)
    modifies b, b.buf
    ensures b.Writing() && b.sent == MatrixBits(old(b.sent), m, 0, count)
  {
    hide U1, ScalingListBits, SendableList;
    for i := 0 to count
      invariant b.Writing()
      invariant MatrixBits(b.sent, m, i, count) == MatrixBits(old(b.sent), m, 0, count)
    {
      WriteFlag(b, m.present[i]);
      if m.present[i] != 0 {
        WriteScalingList(b, m.lists[i]);
      }
    }
  }

  method WriteChroma(b: Bs, profileIdc: int, x: Chroma)
    requires b.Writing() && x.Sendable(profileIdc)
    modifies b, b.buf
    ensures b.Writing() && b.sent == ChromaBits(old(b.sent), profileIdc, x)
  {
    hide U1, Ue, MatrixBits;
    if IsHighProfile(profileIdc) {
      WriteUeField(b, x.chromaFormatIdc);
      if x.chromaFormatIdc == 3 {
        WriteFlag(b, x.residualColourTransform);
      }
      WriteUeField(b, x.bitDepthLumaMinus8);
      WriteUeField(b, x.bitDepthChromaMinus8);
      WriteFlag(b, x.qpprimeYZeroTransformBypass);
      WriteFlag(b, x.matrixPresent);
      if x.matrixPresent != 0 {
        WriteMatrix(b, x.matrix, x.ListCount());
      }
    }
  }

  method WritePoc(b: Bs, x: Poc)
    requires b.Writing() && x.Sendable()
    modifies b, b.buf
    ensures b.Writing() && b.sent == PocBits(old(b.sent), x)
  {
    hide U1, Ue, SeBits;
    WriteUeField(b, x.log2MaxFrameNumMinus4);
    WriteUeField(b, x.picOrderCntType);
    if x.picOrderCntType == 0 {
      WriteUeField(b, x.log2MaxPicOrderCntLsbMinus4);
    } else if x.picOrderCntType == 1 {
      WriteFlag(b, x.deltaPicOrderAlwaysZero);
      b.WriteSe(x.offsetForNonRefPic);
      b.WriteSe(x.offsetForTopToBottomField);
      WriteUeField(b, x.numRefFramesInCycle);
      ghost var sent := b.sent;
      for i := 0 to x.numRefFramesInCycle
        invariant b.Writing()
        invariant OffsetsBits(b.sent, x.offsetForRefFrame, i, x.numRefFramesInCycle) ==
                  OffsetsBits(sent, x.offsetForRefFrame, 0, x.numRefFramesInCycle)
      {
        b.WriteSe(x.offsetForRefFrame[i]);
      }
    }
  }

  method WriteFrame(b: Bs, x: Frame)
    requires b.Writing() && x.Sendable()
    modifies b, b.buf
    ensures b.Writing() && b.sent == FrameBits(old(b.sent), x)
  {
    hide U1, Ue;
    WriteUeField(b, x.numRefFrames);
    WriteFlag(b, x.gapsInFrameNumAllowed);
    WriteUeField(b, x.picWidthInMbsMinus1);
    WriteUeField(b, x.picHeightInMapUnitsMinus1);
    WriteFlag(b, x.frameMbsOnly);
    if x.frameMbsOnly == 0 {
      WriteFlag(b, x.mbAdaptiveFrameField);
    }
    WriteFlag(b, x.direct8x8Inference);
    WriteFlag(b, x.frameCropping);
    if x.frameCropping != 0 {
      WriteUeField(b, x.cropLeft);
      WriteUeField(b, x.cropRight);
      WriteUeField(b, x.cropTop);
      WriteUeField(b, x.cropBottom);
    }
  }

  method WriteHrdParameters(b: Bs, x: Hrd)
    requires b.Writing() && x.Sendable()
    modifies b, b.buf
    ensures b.Writing() && b.sent == HrdBits(old(b.sent), x)
  {
    hide U, U1, Ue;
    WriteUeField(b, x.cpbCntMinus1);
    WriteField(b, 4, x.bitRateScale);
    WriteField(b, 4, x.cpbSizeScale);
    ghost var sent := b.sent;
    for i := 0 to x.cpbCntMinus1 + 1
      invariant b.Writing()
      invariant CpbBits(b.sent, x.cpb, i, x.cpbCntMinus1 + 1) == CpbBits(sent, x.cpb, 0, x.cpbCntMinus1 + 1)
    {
      WriteUeField(b, x.cpb.bitRateValueMinus1[i]);
      WriteUeField(b, x.cpb.cpbSizeValueMinus1[i]);
      WriteFlag(b, x.cpb.cbrFlag[i]);
    }
    WriteField(b, 5, x.initialCpbRemovalDelayLengthMinus1);
    WriteField(b, 5, x.cpbRemovalDelayLengthMinus1);
    WriteField(b, 5, x.dpbOutputDelayLengthMinus1);
    WriteField(b, 5, x.timeOffsetLength);
  }

  method WriteSignalInfo(b: Bs, aspect: Aspect, overscan: Overscan, video: Video)
    requires b.Writing()
    modifies b, b.buf
    ensures b.Writing()
    ensures b.sent == VideoBits(OverscanBits(AspectBits(old(b.sent), aspect), overscan), video)
  {
    hide U, U1;
    WriteFlag(b, aspect.infoPresent);
    if aspect.infoPresent != 0 {
      WriteByteField(b, aspect.aspectRatioIdc);
      if aspect.aspectRatioIdc == SAR_EXTENDED {
        WriteField(b, 16, aspect.sarWidth);
        WriteField(b, 16, aspect.sarHeight);
      }
    }
    WriteFlag(b, overscan.infoPresent);
    if overscan.infoPresent != 0 {
      WriteFlag(b, overscan.appropriate);
    }
    WriteFlag(b, video.signalTypePresent);
    if video.signalTypePresent != 0 {
      WriteField(b, 3, video.format);
      WriteFlag(b, video.fullRange);
      WriteFlag(b, video.colourDescriptionPresent);
      if video.colourDescriptionPresent != 0 {
        WriteByteField(b, video.colourPrimaries);
        WriteByteField(b, video.transferCharacteristics);
        WriteByteField(b, video.matrixCoefficients);
      }
    }
  }

  method WriteLocationAndTiming(b: Bs, chromaLoc: ChromaLoc, timing: Timing)
    requires b.Writing() && chromaLoc.Sendable()
    modifies b, b.buf
    ensures b.Writing()
    ensures b.sent == TimingBits(ChromaLocBits(old(b.sent), chromaLoc), timing)
  {
    hide U, U1, Ue;
    WriteFlag(b, chromaLoc.infoPresent);
    if chromaLoc.infoPresent != 0 {
      WriteUeField(b, chromaLoc.sampleLocTopField);
      WriteUeField(b, chromaLoc.sampleLocBottomField);
    }
    WriteFlag(b, timing.infoPresent);
    if timing.infoPresent != 0 {
      WriteField(b, 32, timing.numUnitsInTick);
      WriteField(b, 32, timing.timeScale);
      WriteFlag(b, timing.fixedFrameRate);
    }
  }

  method WriteHrdInfo(b: Bs, x: HrdInfo)
    requires b.Writing() && x.Sendable()
    modifies b, b.buf
    ensures b.Writing() && b.sent == HrdInfoBits(old(b.sent), x)
  {
    hide U1, HrdBits;
    WriteFlag(b, x.nalPresent);
    if x.nalPresent != 0 {
      WriteHrdParameters(b, x.nal);
    }
    WriteFlag(b, x.vclPresent);
    if x.vclPresent != 0 {
      WriteHrdParameters(b, x.vcl);
    }
    if x.nalPresent != 0 || x.vclPresent != 0 {
      WriteFlag(b, x.lowDelay);
    }
  }

  method WriteRestriction(b: Bs, x: Restriction)
    requires b.Writing() && x.Sendable()
    modifies b, b.buf
    ensures b.Writing() && b.sent == RestrictionBits(old(b.sent), x)
  {
    hide U1, Ue;
    WriteFlag(b, x.flag);
    if x.flag != 0 {
      WriteFlag(b, x.motionVectorsOverPicBoundaries);
      WriteUeField(b, x.maxBytesPerPicDenom);
      WriteUeField(b, x.maxBitsPerMbDenom);
      WriteUeField(b, x.log2MaxMvLengthHorizontal);
      WriteUeField(b, x.log2MaxMvLengthVertical);
      WriteUeField(b, x.numReorderFrames);
      WriteUeField(b, x.maxDecFrameBuffering);
    }
  }

  method WriteVuiParameters(b: Bs, x: Vui)
    requires b.Writing() && x.Sendable()
    modifies b, b.buf
    ensures b.Writing() && b.sent == VuiBits(old(b.sent), x)
  {
    hide AspectBits, OverscanBits, VideoBits, ChromaLocBits, TimingBits, HrdInfoBits, RestrictionBits, U1;
    WriteSignalInfo(b, x.aspect, x.overscan, x.video);
    WriteLocationAndTiming(b, x.chromaLoc, x.timing);
    WriteHrdInfo(b, x.hrd);
    WriteFlag(b, x.picStructPresent);
    WriteRestriction(b, x.restriction);
  }

  method WriteSeqParameterSetRbsp(b: Bs, x: Sps)
    requires b.Writing() && x.Sendable()
    modifies b, b.buf
    ensures b.Writing() && b.sent == SpsBits(old(b.sent), x)
  {
    hide HeadBits, ChromaBits, PocBits, FrameBits, VuiBits, U1;
    WriteHead(b, x.head);
    WriteChroma(b, x.head.profileIdc, x.chroma);
    WritePoc(b, x.poc);
    WriteFrame(b, x.frame);
    WriteFlag(b, x.vuiPresent);
    if x.vuiPresent != 0 {
      WriteVuiParameters(b, x.vui);
    }
  }

  // ----- trailing bits (section 7.3.2.11) -----

  /** The padding that brings n bits to a byte boundary after the stop bit. */
  function TrailingBits(n: nat): (code: Bits)
    ensures |code| >= 1 && code[0] && (n + |code|) % 8 == 0
  {
    [true] + Zeros(7 - n % 8)
  }

  method ReadRbspTrailingBits(b: Bs)
    requires b.Valid()
    modifies b`p, b`bitsLeft
    ensures b.Valid() && b.Stream() == old(b.Stream())
    ensures b.ByteAligned() && b.Pos() == old(b.Pos()) + |TrailingBits(old(b.Pos()))|
  {
    hide TrailingBits, Bs.Stream, Bs.Valid, Bs.Pos, Bs.ByteAligned;
    ghost var n, k := b.Pos(), 0;
    b.SkipU(1);
    AlignedAtPos(b);
    while !b.ByteAligned()
      invariant b.Valid() && b.Pos() == n + 1 + k && k <= 7 - n % 8
      invariant b.ByteAligned() <==> (n + 1 + k) % 8 == 0
      decreases 7 - n % 8 - k
    {
      TrailingPending(n, k);
      b.SkipU(1);
      k := k + 1;
      AlignedAtPos(b);
    }
    TrailingComplete(n, k);
  }

  lemma AlignedAtPos(b: Bs)
    requires b.Valid()
    ensures b.ByteAligned() <==> b.Pos() % 8 == 0
  {
  }

  lemma OneBit()
    ensures UBits(1, 1) == [true] && UBits(1, 0) == [false]
  {
    assert UBits(0, 0) == [];
  }

  lemma OneMoreZero(acc: Bits, k: nat)
    ensures acc + ([true] + Zeros(k)) + [false] == acc + ([true] + Zeros(k + 1))
    ensures [true] + Zeros(0) == [true]
  {
    assert Zeros(k + 1) == Zeros(k) + [false];
  }

  lemma AlignedAt(b: Bs)
    requires b.Writing()
    ensures b.ByteAligned() <==> |b.sent| % 8 == 0
  {
  }

  lemma TrailingComplete(n: nat, k: nat)
    requires k <= 7 - n % 8 && (n + 1 + k) % 8 == 0
    ensures TrailingBits(n) == [true] + Zeros(k)
  {
    assert k == 7 - n % 8;
  }

  lemma TrailingPending(n: nat, k: nat)
    requires k <= 7 - n % 8 && (n + 1 + k) % 8 != 0
    ensures k + 1 <= 7 - n % 8
  {
  }

  method WriteRbspTrailingBits(b: Bs)
    requires b.Writing()
    modifies b, b.buf
    ensures b.Writing() && b.ByteAligned()
    ensures b.sent == old(b.sent) + TrailingBits(|old(b.sent)|)
  {
    hide UBits, Zeros, TrailingBits, Bs.Writing, Bs.ByteAligned, Bs.Valid, Bs.Stream;
    OneBit();
    OneMoreZero(b.sent, 0);
    b.WriteU(1, 1);
    ghost var n, k := |old(b.sent)|, 0;
    AlignedAt(b);
    while !b.ByteAligned()
      invariant b.Writing() && k <= 7 - n % 8 && |Zeros(k)| == k
      invariant b.sent == old(b.sent) + ([true] + Zeros(k))
      invariant b.ByteAligned() <==> (n + 1 + k) % 8 == 0
      decreases 7 - n % 8 - k
    {
      TrailingPending(n, k);
      OneMoreZero(old(b.sent), k);
      b.WriteU(1, 0);
      k := k + 1;
      AlignedAt(b);
    }
    TrailingComplete(n, k);
  }
}
