/** A reader does not look beyond the bits it consumes. At the end of its buffer a cursor makes
    values up, an Exp-Golomb code even without moving; but what is read by a reader that stops
    inside the buffer depends on the bits before its stop, and on nothing else. */
module SpsLocality {
  import opened BitCodes
  import opened ScalingLists
  import opened SpsSyntax
  import opened VuiSyntax
  import opened SequenceParameterSet

  /** e is inside s, and u has the same bits up to e. */
  predicate Agree(s: Bits, u: Bits, e: nat) {
    e < |s| && e <= |u| && forall i :: 0 <= i < e ==> s[i] == u[i]
  }

  // ----- codes -----

  lemma {:induction false} UValLocal(s: Bits, u: Bits, pos: nat, n: nat, e: nat)
    requires Agree(s, u, e)
    ensures pos + n <= e ==> UVal(u, pos, n) == UVal(s, pos, n)
  {
    if n > 0 {
      UValLocal(s, u, pos, n - 1, e);
    }
  }

  lemma FlagLocal(s: Bits, u: Bits, pos: nat, e: nat)
    requires Agree(s, u, e)
    ensures pos < e ==> Flag(u, pos) == Flag(s, pos)
  {
  }

  lemma {:induction false} ZeroRunLocal(s: Bits, u: Bits, pos: nat, i: nat, e: nat)
    requires Agree(s, u, e) && i <= 32 && ZeroRun(s, pos, i).1 <= e
    ensures ZeroRun(u, pos, i) == ZeroRun(s, pos, i)
    decreases 32 - i
  {
    if i < 32 && pos < |s| && !s[pos] {
      ZeroRunLocal(s, u, pos + 1, i + 1, e);
    }
  }

  lemma ParseUeLocal(s: Bits, u: Bits, pos: nat, e: nat)
    requires Agree(s, u, e) && ParseUe(s, pos).1 <= e
    ensures ParseUe(u, pos) == ParseUe(s, pos)
  {
    hide UVal, ZeroRun, Pow2, Agree;
    var (i, p) := ZeroRun(s, pos, 0);
    ZeroRunLocal(s, u, pos, 0, e);
    if i < 32 {
      UValLocal(s, u, p, i, e);
    }
  }

  lemma UeLocal(s: Bits, u: Bits, pos: nat, e: nat)
    requires Agree(s, u, e)
    ensures UeEnd(s, pos) <= e ==> UeVal(u, pos) == UeVal(s, pos) && UeEnd(u, pos) == UeEnd(s, pos)
  {
    hide ParseUe, Agree;
    if UeEnd(s, pos) <= e {
      ParseUeLocal(s, u, pos, e);
    }
  }

  lemma ParseSeLocal(s: Bits, u: Bits, pos: nat, e: nat)
    requires Agree(s, u, e) && ParseSe(s, pos).1 <= e
    ensures ParseSe(u, pos) == ParseSe(s, pos)
  {
    hide ParseUe, SeValue, Agree;
    ParseUeLocal(s, u, pos, e);
  }

  lemma SeLocal(s: Bits, u: Bits, pos: nat, e: nat)
    requires Agree(s, u, e)
    ensures SeEnd(s, pos) <= e ==> SeVal(u, pos) == SeVal(s, pos) && SeEnd(u, pos) == SeEnd(s, pos)
  {
    hide ParseSe, Agree;
    if SeEnd(s, pos) <= e {
      ParseSeLocal(s, u, pos, e);
    }
  }

  // ----- head, scaling lists, picture order count, frame -----

  lemma HeadLocal(s: Bits, u: Bits, pos: nat, e: nat)
    requires Agree(s, u, e)
    ensures pos <= ParseHead(s, pos).1 && (ParseHead(s, pos).1 <= e ==> ParseHead(u, pos) == ParseHead(s, pos))
  {
    hide UVal, Flag, UeVal, UeEnd, Agree;
    UeLocal(s, u, pos + 24, e);
    UValLocal(s, u, pos, 8, e);
    UValLocal(s, u, pos + 16, 8, e);
    forall i | pos + 8 <= i < pos + 14 ensures i < e ==> Flag(u, i) == Flag(s, i) {
      FlagLocal(s, u, i, e);
    }
  }

  lemma {:induction false} EntriesLocal(s: Bits, u: Bits, pos: nat, l: ScalingList, j: nat, last: int, next: int, e: nat)
    requires Agree(s, u, e) && j <= |l.entries|
    ensures ParseEntries(s, pos, l, j, last, next).1 <= e ==>
      ParseEntries(u, pos, l, j, last, next) == ParseEntries(s, pos, l, j, last, next)
    decreases |l.entries| - j
  {
    hide ParseSe, Agree, CMod;
    if j < |l.entries| {
      if next == 0 {
        EntriesLocal(s, u, pos, l.(entries := l.entries[j := last]), j + 1, last, 0, e);
      } else {
        var d := ParseSe(s, pos);
        var n := CMod(last + d.0 + 256, 256);
        var v := if n == 0 then last else n;
        var l' := ScalingList(l.entries[j := v], if j == 0 && n == 0 then 1 else 0);
        EntriesLocal(s, u, d.1, l', j + 1, v, n, e);
        if d.1 <= e {
          ParseSeLocal(s, u, pos, e);
        }
      }
    }
  }

  lemma {:induction false} MatrixLocal(s: Bits, u: Bits, pos: nat, m: Matrix, i: nat, count: nat, e: nat)
    requires Agree(s, u, e) && i <= count <= 12
    ensures ParseMatrix(s, pos, m, i, count).1 <= e ==>
      ParseMatrix(u, pos, m, i, count) == ParseMatrix(s, pos, m, i, count)
    decreases count - i
  {
    hide Flag, ParseEntries, Agree;
    if i < count {
      var present := Flag(s, pos);
      var m' := m.(present := m.present[i := present]);
      if present == 0 {
        MatrixLocal(s, u, pos + 1, m', i + 1, count, e);
      } else {
        var r := ParseScalingList(s, pos + 1, m.lists[i]);
        MatrixLocal(s, u, r.1, m'.(lists := m.lists[i := r.0]), i + 1, count, e);
        EntriesLocal(s, u, pos + 1, m.lists[i], 0, 8, 8, e);
      }
      FlagLocal(s, u, pos, e);
    }
  }

  lemma FormatLocal(s: Bits, u: Bits, pos: nat, e: nat)
    requires Agree(s, u, e)
    ensures pos <= ParseFormat(s, pos).1 && (ParseFormat(s, pos).1 <= e ==> ParseFormat(u, pos) == ParseFormat(s, pos))
  {
    hide Flag, UeVal, UeEnd, Agree;
    var p1 := UeEnd(s, pos);
    var p2 := if UeVal(s, pos) == 3 then p1 + 1 else p1;
    var p3 := UeEnd(s, p2);
    var p4 := UeEnd(s, p3);
    UeLocal(s, u, pos, e);
    if UeVal(s, pos) == 3 {
      FlagLocal(s, u, p1, e);
    }
    UeLocal(s, u, p2, e);
    UeLocal(s, u, p3, e);
    FlagLocal(s, u, p4, e);
    FlagLocal(s, u, p4 + 1, e);
  }

  lemma ChromaLocal(s: Bits, u: Bits, pos: nat, profileIdc: int, e: nat)
    requires Agree(s, u, e)
    ensures pos <= ParseChroma(s, pos, profileIdc).1
    ensures ParseChroma(s, pos, profileIdc).1 <= e ==> ParseChroma(u, pos, profileIdc) == ParseChroma(s, pos, profileIdc)
  {
    hide ParseFormat, ParseMatrix, Agree;
    if IsHighProfile(profileIdc) {
      var (x, p) := ParseFormat(s, pos);
      FormatLocal(s, u, pos, e);
      if x.matrixPresent != 0 {
        MatrixLocal(s, u, p, ZeroMatrix(), 0, x.ListCount(), e);
      }
    }
  }

  lemma {:induction false} OffsetsLocal(s: Bits, u: Bits, pos: nat, offsets: Ints256, i: nat, count: int, e: nat)
    requires Agree(s, u, e) && count <= 256
    ensures ParseOffsets(s, pos, offsets, i, count).1 <= e ==>
      ParseOffsets(u, pos, offsets, i, count) == ParseOffsets(s, pos, offsets, i, count)
    decreases count - i
  {
    hide SeVal, SeEnd, Agree;
    if i < count {
      OffsetsLocal(s, u, SeEnd(s, pos), offsets[i := SeVal(s, pos)], i + 1, count, e);
      SeLocal(s, u, pos, e);
    }
  }

  lemma PocLocal(s: Bits, u: Bits, pos: nat, e: nat)
    requires Agree(s, u, e)
    ensures pos <= ParsePoc(s, pos).1 && (ParsePoc(s, pos).1 <= e ==> ParsePoc(u, pos) == ParsePoc(s, pos))
  {
    hide Flag, UeVal, UeEnd, SeVal, SeEnd, ParseOffsets, Agree;
    var p1 := UeEnd(s, pos);
    var pocType, p2 := UeVal(s, p1), UeEnd(s, p1);
    if pocType == 0 {
      UeLocal(s, u, p2, e);
    } else if pocType == 1 {
      var p3 := SeEnd(s, p2 + 1);
      var p4 := SeEnd(s, p3);
      var n := AtMost(MAX_REF_FRAMES_IN_CYCLE, UeVal(s, p4));
      OffsetsLocal(s, u, UeEnd(s, p4), ZeroSeq(256), 0, n, e);
      UeLocal(s, u, p4, e);
      SeLocal(s, u, p3, e);
      SeLocal(s, u, p2 + 1, e);
      FlagLocal(s, u, p2, e);
    }
    UeLocal(s, u, p1, e);
    UeLocal(s, u, pos, e);
  }

  lemma CropLocal(s: Bits, u: Bits, pos: nat, x: Frame, e: nat)
    requires Agree(s, u, e)
    ensures pos <= ParseCrop(s, pos, x).1 && (ParseCrop(s, pos, x).1 <= e ==> ParseCrop(u, pos, x) == ParseCrop(s, pos, x))
  {
    hide UeVal, UeEnd, Agree;
    var p1 := UeEnd(s, pos);
    var p2 := UeEnd(s, p1);
    UeLocal(s, u, UeEnd(s, p2), e);
    UeLocal(s, u, p2, e);
    UeLocal(s, u, p1, e);
    UeLocal(s, u, pos, e);
  }

  lemma FrameLocal(s: Bits, u: Bits, pos: nat, e: nat)
    requires Agree(s, u, e)
    ensures pos <= ParseFrame(s, pos).1 && (ParseFrame(s, pos).1 <= e ==> ParseFrame(u, pos) == ParseFrame(s, pos))
  {
    hide Flag, UeVal, UeEnd, ParseCrop, Agree;
    var p1 := UeEnd(s, pos);
    var p2 := UeEnd(s, p1 + 1);
    var p3 := UeEnd(s, p2);
    var mbsOnly := Flag(s, p3);
    var adaptive, p4 := if mbsOnly == 0 then Flag(s, p3 + 1) else 0, if mbsOnly == 0 then p3 + 2 else p3 + 1;
    var x := Frame(UeVal(s, pos), Flag(s, p1), UeVal(s, p1 + 1), UeVal(s, p2), mbsOnly, adaptive,
                   Flag(s, p4), Flag(s, p4 + 1), 0, 0, 0, 0);
    CropLocal(s, u, p4 + 2, x, e);
    FlagLocal(s, u, p4 + 1, e);
    FlagLocal(s, u, p4, e);
    if mbsOnly == 0 {
      FlagLocal(s, u, p3 + 1, e);
    }
    FlagLocal(s, u, p3, e);
    UeLocal(s, u, p2, e);
    UeLocal(s, u, p1 + 1, e);
    FlagLocal(s, u, p1, e);
    UeLocal(s, u, pos, e);
  }

  // ----- VUI -----

  lemma {:induction false} CpbLocal(s: Bits, u: Bits, pos: nat, x: Cpb, i: nat, count: int, e: nat)
    requires Agree(s, u, e) && count <= 32
    ensures ParseCpb(s, pos, x, i, count).1 <= e ==> ParseCpb(u, pos, x, i, count) == ParseCpb(s, pos, x, i, count)
    decreases count - i
  {
    hide Flag, UeVal, UeEnd, Agree;
    if i < count {
      var r := ParseCpbEntry(s, pos, x, i);
      var p1 := UeEnd(s, pos);
      var p2 := UeEnd(s, p1);
      CpbLocal(s, u, r.1, r.0, i + 1, count, e);
      FlagLocal(s, u, p2, e);
      UeLocal(s, u, p1, e);
      UeLocal(s, u, pos, e);
    }
  }

  lemma HrdLocal(s: Bits, u: Bits, pos: nat, e: nat)
    requires Agree(s, u, e)
    ensures pos <= ParseHrd(s, pos).1 && (ParseHrd(s, pos).1 <= e ==> ParseHrd(u, pos) == ParseHrd(s, pos))
  {
    hide UVal, UeVal, UeEnd, ParseCpb, Agree;
    var count, p1 := AtMost(MAX_CPB_CNT_MINUS1, UeVal(s, pos)), UeEnd(s, pos);
    var p2 := ParseCpb(s, p1 + 8, ZeroCpb(), 0, count + 1).1;
    UValLocal(s, u, p2, 5, e);
    UValLocal(s, u, p2 + 5, 5, e);
    UValLocal(s, u, p2 + 10, 5, e);
    UValLocal(s, u, p2 + 15, 5, e);
    CpbLocal(s, u, p1 + 8, ZeroCpb(), 0, count + 1, e);
    UValLocal(s, u, p1 + 4, 4, e);
    UValLocal(s, u, p1, 4, e);
    UeLocal(s, u, pos, e);
  }

  lemma AspectLocal(s: Bits, u: Bits, pos: nat, e: nat)
    requires Agree(s, u, e)
    ensures pos <= ParseAspect(s, pos).1 && (ParseAspect(s, pos).1 <= e ==> ParseAspect(u, pos) == ParseAspect(s, pos))
  {
    hide UVal, Flag, Agree;
    FlagLocal(s, u, pos, e);
    UValLocal(s, u, pos + 1, 8, e);
    UValLocal(s, u, pos + 9, 16, e);
    UValLocal(s, u, pos + 25, 16, e);
  }

  lemma OverscanLocal(s: Bits, u: Bits, pos: nat, e: nat)
    requires Agree(s, u, e)
    ensures pos <= ParseOverscan(s, pos).1
    ensures ParseOverscan(s, pos).1 <= e ==> ParseOverscan(u, pos) == ParseOverscan(s, pos)
  {
    hide Flag, Agree;
    FlagLocal(s, u, pos, e);
    FlagLocal(s, u, pos + 1, e);
  }

  lemma VideoLocal(s: Bits, u: Bits, pos: nat, e: nat)
    requires Agree(s, u, e)
    ensures pos <= ParseVideo(s, pos).1 && (ParseVideo(s, pos).1 <= e ==> ParseVideo(u, pos) == ParseVideo(s, pos))
  {
    hide UVal, Flag, Agree;
    FlagLocal(s, u, pos, e);
    UValLocal(s, u, pos + 1, 3, e);
    FlagLocal(s, u, pos + 4, e);
    FlagLocal(s, u, pos + 5, e);
    UValLocal(s, u, pos + 6, 8, e);
    UValLocal(s, u, pos + 14, 8, e);
    UValLocal(s, u, pos + 22, 8, e);
  }

  lemma ChromaLocLocal(s: Bits, u: Bits, pos: nat, e: nat)
    requires Agree(s, u, e)
    ensures pos <= ParseChromaLoc(s, pos).1
    ensures ParseChromaLoc(s, pos).1 <= e ==> ParseChromaLoc(u, pos) == ParseChromaLoc(s, pos)
  {
    hide Flag, UeVal, UeEnd, Agree;
    FlagLocal(s, u, pos, e);
    UeLocal(s, u, pos + 1, e);
    UeLocal(s, u, UeEnd(s, pos + 1), e);
  }

  lemma TimingLocal(s: Bits, u: Bits, pos: nat, e: nat)
    requires Agree(s, u, e)
    ensures pos <= ParseTiming(s, pos).1 && (ParseTiming(s, pos).1 <= e ==> ParseTiming(u, pos) == ParseTiming(s, pos))
  {
    hide UVal, Flag, Agree, ToInt32;
    FlagLocal(s, u, pos, e);
    UValLocal(s, u, pos + 1, 32, e);
    UValLocal(s, u, pos + 33, 32, e);
    FlagLocal(s, u, pos + 65, e);
  }

  lemma OptionalHrdLocal(s: Bits, u: Bits, pos: nat, e: nat)
    requires Agree(s, u, e)
    ensures pos < ParseOptionalHrd(s, pos).1
    ensures ParseOptionalHrd(s, pos).1 <= e ==>
      ParseOptionalHrd(u, pos) == ParseOptionalHrd(s, pos) && Flag(u, pos) == Flag(s, pos)
  {
    hide Flag, ParseHrd, Agree;
    FlagLocal(s, u, pos, e);
    HrdLocal(s, u, pos + 1, e);
  }

  lemma HrdInfoLocal(s: Bits, u: Bits, pos: nat, e: nat)
    requires Agree(s, u, e)
    ensures pos <= ParseHrdInfo(s, pos).1
    ensures ParseHrdInfo(s, pos).1 <= e ==> ParseHrdInfo(u, pos) == ParseHrdInfo(s, pos)
  {
    hide Flag, ParseOptionalHrd, Agree;
    var p1 := ParseOptionalHrd(s, pos).1;
    var p2 := ParseOptionalHrd(s, p1).1;
    OptionalHrdLocal(s, u, pos, e);
    OptionalHrdLocal(s, u, p1, e);
    FlagLocal(s, u, p2, e);
  }

  lemma RestrictionLocal(s: Bits, u: Bits, pos: nat, e: nat)
    requires Agree(s, u, e)
    ensures pos <= ParseRestriction(s, pos).1
    ensures ParseRestriction(s, pos).1 <= e ==> ParseRestriction(u, pos) == ParseRestriction(s, pos)
  {
    hide Flag, UeVal, UeEnd, Agree;
    var p1 := UeEnd(s, pos + 2);
    var p2 := UeEnd(s, p1);
    var p3 := UeEnd(s, p2);
    var p4 := UeEnd(s, p3);
    FlagLocal(s, u, pos, e);
    FlagLocal(s, u, pos + 1, e);
    UeLocal(s, u, pos + 2, e);
    UeLocal(s, u, p1, e);
    UeLocal(s, u, p2, e);
    UeLocal(s, u, p3, e);
    UeLocal(s, u, p4, e);
    UeLocal(s, u, UeEnd(s, p4), e);
  }

  lemma VuiLocal(s: Bits, u: Bits, pos: nat, e: nat)
    requires Agree(s, u, e)
    ensures pos <= ParseVui(s, pos).1 && (ParseVui(s, pos).1 <= e ==> ParseVui(u, pos) == ParseVui(s, pos))
  {
    hide ParseAspect, ParseOverscan, ParseVideo, ParseChromaLoc, ParseTiming, ParseHrdInfo, ParseRestriction, Flag, Agree;
    var p1 := ParseAspect(s, pos).1;
    var p2 := ParseOverscan(s, p1).1;
    var p3 := ParseVideo(s, p2).1;
    var p4 := ParseChromaLoc(s, p3).1;
    var p5 := ParseTiming(s, p4).1;
    var p6 := ParseHrdInfo(s, p5).1;
    AspectLocal(s, u, pos, e);
    OverscanLocal(s, u, p1, e);
    VideoLocal(s, u, p2, e);
    ChromaLocLocal(s, u, p3, e);
    TimingLocal(s, u, p4, e);
    HrdInfoLocal(s, u, p5, e);
    FlagLocal(s, u, p6, e);
    RestrictionLocal(s, u, p6 + 1, e);
  }

  // ----- the set -----

  lemma SpsLocal(s: Bits, u: Bits, pos: nat, e: nat)
    requires Agree(s, u, e)
    ensures pos <= ParseSps(s, pos).1 && (ParseSps(s, pos).1 <= e ==> ParseSps(u, pos) == ParseSps(s, pos))
  {
    hide ParseHead, ParseChroma, ParsePoc, ParseFrame, ParseVui, Flag, Agree;
    var head := ParseHead(s, pos);
    var p2 := ParseChroma(s, head.1, head.0.profileIdc).1;
    var p3 := ParsePoc(s, p2).1;
    var p4 := ParseFrame(s, p3).1;
    HeadLocal(s, u, pos, e);
    ChromaLocal(s, u, head.1, head.0.profileIdc, e);
    PocLocal(s, u, p2, e);
    FrameLocal(s, u, p3, e);
    FlagLocal(s, u, p4, e);
    VuiLocal(s, u, p4 + 1, e);
  }

  /** A set that ends inside the string depends on the bits before its end, and on no other: any
      string that agrees on them gives the same set and the same end. */
  lemma SetLooksNoFurther(s: Bits, u: Bits, pos: nat)
    requires Agree(s, u, ParseSps(s, pos).1)
    ensures ParseSps(u, pos) == ParseSps(s, pos)
  {
    hide ParseSps, Agree;
    SpsLocal(s, u, pos, ParseSps(s, pos).1);
  }

  /** At the end of the string this fails: a code is made up there without the cursor moving, and
      more bits give another one. */
  lemma MadeUpAtTheEnd(s: Bits)
    ensures ParseUe(s, |s|) == (0, |s|)
    ensures ParseUe(s + [false, true, true], |s|) == (2, |s| + 3)
  {
    var u := s + [false, true, true];
    assert UVal(u, |s| + 2, 1) == 2 * UVal(u, |s| + 2, 0) + BitVal(u, |s| + 2);
    assert ZeroRun(u, |s|, 0) == ZeroRun(u, |s| + 1, 1) == (1, |s| + 2);
    assert Pow2(1) == 2;
    assert ZeroRun(s, |s|, 0) == (0, |s|);
    assert UVal(s, |s|, 0) == 0;
  }
}
