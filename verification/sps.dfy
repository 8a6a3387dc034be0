/** The whole sequence parameter set: what its written form is, and that the reader and the
    writer undo each other. */
module SequenceParameterSet {
  import opened BitCodes
  import opened SpsSyntax
  import opened VuiSyntax

  datatype Sps = Sps(head: Head, chroma: Chroma, poc: Poc, frame: Frame, vuiPresent: int, vui: Vui)
  {
    predicate Canonical() {
      && head.Canonical() && chroma.Canonical(head.profileIdc) && poc.Canonical() && frame.Canonical()
      && IsFlag(vuiPresent)
      && if vuiPresent == 1 then vui.Canonical() else vui == ZeroVui()
    }

    /** The writer is defined: Exp-Golomb fields are in its domain and counts in its arrays. */
    predicate Sendable() {
      && head.Sendable() && chroma.Sendable(head.profileIdc) && poc.Sendable() && frame.Sendable()
      && (vuiPresent != 0 ==> vui.Sendable())
    }

    /** and scaling list entries are bytes. */
    predicate Writable() {
      Sendable() && chroma.Writable(head.profileIdc)
    }
  }

  function SpsBits(acc: Bits, x: Sps): Bits
    requires x.Sendable()
  {
    var a0 := HeadBits(acc, x.head);
    var a1 := ChromaBits(a0, x.head.profileIdc, x.chroma);
    var a2 := PocBits(a1, x.poc);
    var a3 := FrameBits(a2, x.frame) + U1(x.vuiPresent);
    if x.vuiPresent == 0 then a3 else VuiBits(a3, x.vui)
  }

  function ParseSps(s: Bits, pos: nat): (Sps, nat) {
    var head := ParseHead(s, pos);
    var chroma := ParseChroma(s, head.1, head.0.profileIdc);
    var poc := ParsePoc(s, chroma.1);
    var frame := ParseFrame(s, poc.1);
    if Flag(s, frame.1) == 0 then (Sps(head.0, chroma.0, poc.0, frame.0, 0, ZeroVui()), frame.1 + 1)
    else
      var vui := ParseVui(s, frame.1 + 1);
      (Sps(head.0, chroma.0, poc.0, frame.0, 1, vui.0), vui.1)
  }

  /** Every well-formed set is read back, exactly its own bits are consumed, and neither the
      offset nor what follows matters. */
  lemma SpsRoundTrip(acc: Bits, x: Sps, s: Bits)
    requires x.Canonical() && x.Writable() && SpsBits(acc, x) <= s
    ensures acc <= s
    ensures ParseSps(s, |acc|).0 == x && ParseSps(s, |acc|).1 == |SpsBits(acc, x)|
  {
    hide HeadBits, ChromaBits, PocBits, FrameBits, VuiBits, U1;
    hide ParseHead, ParseChroma, ParsePoc, ParseFrame, ParseVui, Flag;
    var a0 := HeadBits(acc, x.head);
    var a1 := ChromaBits(a0, x.head.profileIdc, x.chroma);
    var a2 := PocBits(a1, x.poc);
    var a3 := FrameBits(a2, x.frame);
    if x.vuiPresent == 1 {
      VuiRoundTrip(a3 + U1(x.vuiPresent), x.vui, s);
    }
    FlagAt(a3, x.vuiPresent, s);
    FrameRoundTrip(a2, x.frame, s);
    PocRoundTrip(a1, x.poc, s);
    ChromaRoundTrip(a0, x.head.profileIdc, x.chroma, s);
    HeadRoundTrip(acc, x.head, s);
  }

  /** Whatever the bits, the reader's result is canonical: flags are 0 or 1, fixed-width fields
      are in their width, the counts are clamped and everything absent has its default. */
  lemma ParsedSps(s: Bits, pos: nat)
    ensures ParseSps(s, pos).0.Canonical()
  {
    hide ParseHead, ParseChroma, ParsePoc, ParseFrame, ParseVui, Flag;
    var head := ParseHead(s, pos);
    ParsedChroma(s, head.1, head.0.profileIdc);
    var frame := ParseFrame(s, ParsePoc(s, ParseChroma(s, head.1, head.0.profileIdc).1).1);
    ParsedVui(s, frame.1 + 1);
  }

  // ----- what the reader takes from which bits -----

  /** On any bits: twelve profiles have a chroma part, which begins with the code behind the one of
      the identifier; for all others it has its defaults and the next part begins there. */
  lemma ChromaByProfile(s: Bits, pos: nat)
    ensures var profileIdc, x, p := UVal(s, pos, 8), ParseSps(s, pos).0, UeEnd(s, pos + 24);
      x.head.profileIdc == profileIdc &&
      if profileIdc == 100 || profileIdc == 110 || profileIdc == 122 || profileIdc == 244 || profileIdc == 44
         || profileIdc == 83 || profileIdc == 86 || profileIdc == 118 || profileIdc == 128 || profileIdc == 138
         || profileIdc == 139 || profileIdc == 134
      then
        var format, q := UeVal(s, p), UeEnd(s, p);
        var luma := if format == 3 then q + 1 else q;
        var chroma := UeEnd(s, luma);
        && x.chroma.chromaFormatIdc == format
        && x.chroma.residualColourTransform == (if format == 3 then Flag(s, q) else 0)
        && x.chroma.bitDepthLumaMinus8 == UeVal(s, luma) && x.chroma.bitDepthChromaMinus8 == UeVal(s, chroma)
        && x.chroma.qpprimeYZeroTransformBypass == Flag(s, UeEnd(s, chroma))
        && x.chroma.matrixPresent == Flag(s, UeEnd(s, chroma) + 1)
        && (x.chroma.matrixPresent == 0 ==> x.poc.log2MaxFrameNumMinus4 == UeVal(s, UeEnd(s, chroma) + 2))
      else
        && x.chroma.chromaFormatIdc == 1 && x.chroma.residualColourTransform == 0
        && x.chroma.bitDepthLumaMinus8 == 0 && x.chroma.bitDepthChromaMinus8 == 0
        && x.chroma.qpprimeYZeroTransformBypass == 0 && x.chroma.matrixPresent == 0
        && x.poc.log2MaxFrameNumMinus4 == UeVal(s, p)
  {
    hide UVal, Flag, UeVal, UeEnd, ParseMatrix, ParsePoc, ParseFrame, ParseVui;
    PocBegins(s, ParseChroma(s, UeEnd(s, pos + 24), UVal(s, pos, 8)).1);
  }

  lemma PocBegins(s: Bits, pos: nat)
    ensures ParsePoc(s, pos).0.log2MaxFrameNumMinus4 == UeVal(s, pos)
  {
    hide UeVal, UeEnd, Flag, SeVal, SeEnd, ParseOffsets;
  }

  /** On any bits: the counts are clamped to the arrays, and the sample aspect ratio has its two
      numbers exactly behind 255. */
  lemma CountsByValue(s: Bits, pos: nat)
    ensures var x := ParsePoc(s, pos).0;
      x.picOrderCntType == 1 ==>
        var n := UeVal(s, SeEnd(s, SeEnd(s, UeEnd(s, UeEnd(s, pos)) + 1)));
        x.numRefFramesInCycle == if n > 256 then 256 else n
    ensures ParseHrd(s, pos).0.cpbCntMinus1 == if UeVal(s, pos) > 31 then 31 else UeVal(s, pos)
    ensures var x := ParseAspect(s, pos);
      x.1 == pos + if Flag(s, pos) == 0 then 1 else if UVal(s, pos + 1, 8) == 255 then 41 else 9
  {
    hide UVal, Flag, UeVal, UeEnd, SeVal, SeEnd, ParseOffsets, ParseCpb;
  }

  /** A set that is read back unchanged has only scaling lists of bytes. */
  lemma SpsOnlyIf(acc: Bits, x: Sps, s: Bits)
    requires x.Canonical() && x.Sendable() && SpsBits(acc, x) <= s
    requires ParseSps(s, |acc|).0 == x
    ensures x.Writable()
  {
    hide HeadBits, ChromaBits, PocBits, FrameBits, VuiBits, U1;
    hide ParseHead, ParseChroma, ParsePoc, ParseFrame, ParseVui, Flag;
    var a0 := HeadBits(acc, x.head);
    var a1 := ChromaBits(a0, x.head.profileIdc, x.chroma);
    var a2 := PocBits(a1, x.poc);
    var a3 := FrameBits(a2, x.frame);
    if x.vuiPresent == 1 {
      VuiRoundTrip(a3 + U1(x.vuiPresent), x.vui, s);
    }
    FlagAt(a3, x.vuiPresent, s);
    FrameRoundTrip(a2, x.frame, s);
    PocRoundTrip(a1, x.poc, s);
    ChromaBitsExtends(a0, x.head.profileIdc, x.chroma);
    assert a0 <= s;
    HeadRoundTrip(acc, x.head, s);
    ChromaOnlyIf(a0, x.head.profileIdc, x.chroma, s);
  }

  /** Among the sets the writer is defined for, exactly the canonical ones whose scaling lists are
      lists of bytes survive the round trip. */
  lemma SpsRoundTripExact(x: Sps, rest: Bits)
    requires x.Sendable()
    ensures ParseSps(SpsBits([], x) + rest, 0).0 == x <==> x.Canonical() && x.Writable()
  {
    hide SpsBits, ParseSps;
    var s := SpsBits([], x) + rest;
    ParsedSps(s, 0);
    if x.Canonical() && x.Writable() {
      SpsRoundTrip([], x, s);
    } else if ParseSps(s, 0).0 == x {
      SpsOnlyIf([], x, s);
    }
  }

  /** The scaling list differences of the set that is read from pos on, list by list. */
  function SpsDeltas(s: Bits, pos: nat): seq<seq<int>> {
    var head := ParseHead(s, pos);
    ChromaDeltas(s, head.1, head.0.profileIdc)
  }

  /** Whatever was read first, reading what is then written gives the same set again exactly when
      every difference of a scaling list fits the entry before it. */
  lemma ParseNormalises(s: Bits, pos: nat, rest: Bits)
    requires ParseSps(s, pos).0.Sendable()
    ensures var x := ParseSps(s, pos).0;
            ParseSps(SpsBits([], x) + rest, 0) == (x, |SpsBits([], x)|) <==> AllFit(SpsDeltas(s, pos))
    ensures ParseSps(s, pos).0.Writable() <==> AllFit(SpsDeltas(s, pos))
  {
    hide SpsBits, AllFit, ChromaDeltas, ParseHead, ParseChroma, ParsePoc, ParseFrame, ParseVui;
    var x := ParseSps(s, pos).0;
    ParsedSps(s, pos);
    SpsRoundTripExact(x, rest);
    var head := ParseHead(s, pos);
    ChromaWritable(s, head.1, head.0.profileIdc);
    if x.Writable() {
      SpsRoundTrip([], x, SpsBits([], x) + rest);
    }
  }

  /** In particular when the differences are in the range that section 7.4.2.1.1.1 allows. */
  lemma ConformingNormalises(s: Bits, pos: nat, rest: Bits)
    requires ParseSps(s, pos).0.Sendable() && AllSmall(SpsDeltas(s, pos))
    ensures var x := ParseSps(s, pos).0;
            ParseSps(SpsBits([], x) + rest, 0) == (x, |SpsBits([], x)|)
  {
    hide SpsBits, SpsDeltas, ParseSps, AllFit, AllSmall;
    AllSmallFit(SpsDeltas(s, pos));
    ParseNormalises(s, pos, rest);
  }

  /** A set of a high profile with one scaling list, of equal entries. */
  function OneListSet(v: int): Sps {
    TypicalSet(100, 0, 0, 0, 0).(chroma := OneListChroma(v))
  }

  /** Not every bit string normalises: the writer's own output for entries of -548 reads as
      entries of -36, and that set does not survive being written. */
  lemma NotAlwaysNormal(rest: Bits)
    ensures OneListSet(-548).Sendable()
    ensures var s := SpsBits([], OneListSet(-548)) + rest;
            var x := ParseSps(s, 0).0;
            && x == OneListSet(-36) && x.Sendable() && !x.Writable()
            && ParseSps(SpsBits([], x), 0).0 != x
  {
    hide HeadBits, ChromaBits, PocBits, FrameBits, U1, OneListChroma;
    hide ParseHead, ParseChroma, ParsePoc, ParseFrame, Flag;
    TypicalSets(0, 0, 0);
    OneListSendable(100);
    var x, y := OneListSet(-548), OneListSet(-36);
    var s := SpsBits([], x) + rest;
    var a0 := HeadBits([], x.head);
    var a1 := ChromaBits(a0, 100, x.chroma);
    var a2 := PocBits(a1, x.poc);
    var a3 := FrameBits(a2, x.frame);
    FlagAt(a3, 0, s);
    FrameRoundTrip(a2, x.frame, s);
    PocRoundTrip(a1, x.poc, s);
    OversizedChromaRead(a0, 100, s);
    HeadRoundTrip([], x.head, s);
    SpsRoundTripExact(y, []);
    assert SpsBits([], y) + [] == SpsBits([], y);
  }

  /** Two sets with the same bits are the same set. */
  lemma SpsBitsInjective(x: Sps, y: Sps, restX: Bits, restY: Bits)
    requires x.Canonical() && x.Writable() && y.Canonical() && y.Writable()
    requires SpsBits([], x) + restX == SpsBits([], y) + restY
    ensures x == y && restX == restY
  {
    hide SpsBits, ParseSps;
    var s := SpsBits([], x) + restX;
    SpsRoundTrip([], x, s);
    SpsRoundTrip([], y, s);
    assert restX == s[|SpsBits([], x)|..] && restY == s[|SpsBits([], y)|..];
  }

  /** The round trips are about sets that exist: a high-profile one with a VUI, and a baseline one. */
  lemma TypicalSets(width: int, height: int, level: int)
    requires IsUe(width) && IsUe(height) && 0 <= level < 256
    ensures var x := TypicalSet(100, width, height, level, 1); x.Canonical() && x.Writable()
    ensures var x := TypicalSet(66, width, height, level, 0); x.Canonical() && x.Writable()
  {
    hide Pow2, VuiBits, HeadBits, ChromaBits, PocBits, FrameBits;
    Pow2Values();
  }

  function TypicalSet(profileIdc: int, width: int, height: int, level: int, vuiPresent: int): Sps {
    var restriction := Restriction(vuiPresent, vuiPresent, 2 * vuiPresent, vuiPresent, 16 * vuiPresent, 16 * vuiPresent, 0, vuiPresent);
    Sps(Head(profileIdc, 0, 0, 0, 0, 0, 0, 0, level, 0),
        DefaultChroma(),
        Poc(0, 2, 0, 0, 0, 0, 0, ZeroSeq(256)),
        Frame(1, 0, width, height, 1, 0, 1, 0, 0, 0, 0, 0),
        vuiPresent,
        ZeroVui().(restriction := restriction))
  }
}
