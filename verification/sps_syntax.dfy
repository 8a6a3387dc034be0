/** The sequence parameter set (sections 7.3.2.1.1, E.1.1 and E.1.2 of H.264) as a value, its
    written form and the value a reader makes of any bit string.

    The records follow the syntax: each one is a run of the source's sps_t, vui or hrd_t
    fields. For each there are
    - XBits(acc, x): acc followed by the codes of x,
    - ParseX(s, pos): what a reader makes of the bits of s from pos on, and where it stops,
    - Canonical: x can be the result of a reader (one-bit flags, fields in their width, absent
      fields at the reader's defaults),
    - Sendable: every Exp-Golomb code the writer would send is in the writer's domain,
    - Writable, where there are scaling lists: Sendable, and their entries are bytes. */
module SpsSyntax {
  import opened BitCodes
  import opened ScalingLists

  const SAR_EXTENDED := 255
  const MAX_REF_FRAMES_IN_CYCLE := 256
  const MAX_CPB_CNT_MINUS1 := 31

  type Ints12 = s: seq<int> | |s| == 12 witness seq(12, _ => 0)
  type Ints32 = s: seq<int> | |s| == 32 witness seq(32, _ => 0)
  type Ints256 = s: seq<int> | |s| == 256 witness seq(256, _ => 0)

  // ----- fields -----

  predicate IsFlag(v: int) {
    v == 0 || v == 1
  }

  predicate IsU(n: nat, v: int) {
    0 <= v < Pow2(n)
  }

  predicate IsInt32(v: int) {
    -TWO_TO_THE_31 <= v < TWO_TO_THE_31
  }

  function U(n: nat, v: int): (code: Bits)
    ensures |code| == n
  {
    UBits(n, U32(v))
  }

  function U1(v: int): (code: Bits)
    ensures |code| == 1
  {
    U(1, v)
  }

  function Ue(v: int): Bits {
    UeBits(U32(v))
  }

  /** An Exp-Golomb code stored in an int, and the position behind it. */
  function UeVal(s: Bits, pos: nat): (v: int)
    ensures IsInt32(v)
  {
    ToInt32(ParseUe(s, pos).0)
  }

  function UeEnd(s: Bits, pos: nat): (p: nat)
    ensures pos <= p
  {
    ParseUe(s, pos).1
  }

  function SeVal(s: Bits, pos: nat): int {
    ParseSe(s, pos).0
  }

  function SeEnd(s: Bits, pos: nat): (p: nat)
    ensures pos <= p
  {
    ParseSe(s, pos).1
  }

  function Flag(s: Bits, pos: nat): (v: int)
    ensures IsFlag(v)
  {
    BitVal(s, pos)
  }

  lemma UFieldAt(acc: Bits, n: nat, v: int, s: Bits)
    requires acc + U(n, v) <= s && IsU(n, v) && n <= 32
    ensures acc <= s && UVal(s, |acc|, n) == v && |acc + U(n, v)| == |acc| + n
  {
    Pow2Values();
    Pow2Monotone(n, 32);
    UAt(acc, n, v, s);
  }

  lemma WordAt(acc: Bits, v: int, s: Bits)
    requires acc + U(32, v) <= s && IsInt32(v)
    ensures acc <= s && ToInt32(UVal32(s, |acc|)) == v && |acc + U(32, v)| == |acc| + 32
  {
    Pow2Values();
    UAt(acc, 32, U32(v), s);
  }

  function UVal32(s: Bits, pos: nat): (r: nat)
    ensures r < TWO_TO_THE_32
  {
    Pow2Values();
    UVal(s, pos, 32)
  }

  lemma FlagAt(acc: Bits, v: int, s: Bits)
    requires acc + U1(v) <= s && IsFlag(v)
    ensures acc <= s && Flag(s, |acc|) == v && |acc + U1(v)| == |acc| + 1
  {
    Pow2Values();
    UAt(acc, 1, v, s);
    assert UVal(s, |acc|, 1) == 2 * UVal(s, |acc|, 0) + BitVal(s, |acc|);
  }

  lemma UeFieldAt(acc: Bits, v: int, s: Bits)
    requires acc + Ue(v) <= s && IsUe(v)
    ensures acc <= s && UeVal(s, |acc|) == v && UeEnd(s, |acc|) == |acc + Ue(v)|
  {
    UeAt(acc, v, s);
  }

  lemma SeFieldAt(acc: Bits, v: int, s: Bits)
    requires acc + SeBits(v) <= s && IsSe(v)
    ensures acc <= s && SeVal(s, |acc|) == v && SeEnd(s, |acc|) == |acc + SeBits(v)|
  {
    SeAt(acc, v, s);
  }

  // ----- the head: profile, constraint flags, level, id -----

  datatype Head = Head(
    profileIdc: int,
    constraintSet0: int, constraintSet1: int, constraintSet2: int,
    constraintSet3: int, constraintSet4: int, constraintSet5: int,
    reservedZero2Bits: int,
    levelIdc: int,
    seqParameterSetId: int)
  {
    predicate Canonical() {
      && IsU(8, profileIdc)
      && IsFlag(constraintSet0) && IsFlag(constraintSet1) && IsFlag(constraintSet2)
      && IsFlag(constraintSet3) && IsFlag(constraintSet4) && IsFlag(constraintSet5)
      && reservedZero2Bits == 0
      && IsU(8, levelIdc)
    }

    predicate Sendable() {
      IsUe(seqParameterSetId)
    }
  }

  function HeadBits(acc: Bits, x: Head): Bits {
    acc + U(8, x.profileIdc)
    + U1(x.constraintSet0) + U1(x.constraintSet1) + U1(x.constraintSet2)
    + U1(x.constraintSet3) + U1(x.constraintSet4) + U1(x.constraintSet5)
    + U(2, 0) + U(8, x.levelIdc) + Ue(x.seqParameterSetId)
  }

  function ParseHead(s: Bits, pos: nat): (r: (Head, nat))
    ensures r.0.Canonical()
  {
    (Head(UVal(s, pos, 8),
          Flag(s, pos + 8), Flag(s, pos + 9), Flag(s, pos + 10),
          Flag(s, pos + 11), Flag(s, pos + 12), Flag(s, pos + 13),
          0,
          UVal(s, pos + 16, 8),
          UeVal(s, pos + 24)),
     UeEnd(s, pos + 24))
  }

  lemma HeadRoundTrip(acc: Bits, x: Head, s: Bits)
    requires x.Canonical() && x.Sendable() && HeadBits(acc, x) <= s
    ensures acc <= s
    ensures ParseHead(s, |acc|) == (x, |HeadBits(acc, x)|)
  {
    hide U, U1, Ue, UVal, Flag, UeVal, UeEnd;
    var a0 := acc + U(8, x.profileIdc);
    var a1 := a0 + U1(x.constraintSet0);
    var a2 := a1 + U1(x.constraintSet1);
    var a3 := a2 + U1(x.constraintSet2);
    var a4 := a3 + U1(x.constraintSet3);
    var a5 := a4 + U1(x.constraintSet4);
    var a6 := a5 + U1(x.constraintSet5);
    var a7 := a6 + U(2, 0);
    var a8 := a7 + U(8, x.levelIdc);
    UeFieldAt(a8, x.seqParameterSetId, s);
    UFieldAt(a7, 8, x.levelIdc, s);
    UFieldAt(a6, 2, 0, s);
    FlagAt(a5, x.constraintSet5, s);
    FlagAt(a4, x.constraintSet4, s);
    FlagAt(a3, x.constraintSet3, s);
    FlagAt(a2, x.constraintSet2, s);
    FlagAt(a1, x.constraintSet1, s);
    FlagAt(a0, x.constraintSet0, s);
    UFieldAt(acc, 8, x.profileIdc, s);
  }

  // ----- chroma format, bit depths and scaling matrix of the high profiles -----

  predicate IsHighProfile(profileIdc: int) {
    profileIdc in {100, 110, 122, 244, 44, 83, 86, 118, 128, 138, 139, 134}
  }

  /** List i is the i-th 4x4 list for i < 6 and the (i - 6)-th 8x8 list above. */
  function ListSize(i: nat): nat {
    if i < 6 then 16 else 64
  }

  function ZeroList(i: nat): ScalingList {
    ScalingList(ZeroSeq(ListSize(i)), 0)
  }

  type Lists12 = s: seq<ScalingList> |
    |s| == 12 && forall i :: 0 <= i < 12 ==> |s[i].entries| == ListSize(i)
    witness seq(12, i requires 0 <= i < 12 => ZeroList(i))

  datatype Matrix = Matrix(present: Ints12, lists: Lists12)

  function ZeroLists(): (lists: Lists12)
    ensures forall i :: 0 <= i < 12 ==> lists[i] == ZeroList(i)
  {
    seq(12, i requires 0 <= i < 12 => ZeroList(i))
  }

  function ZeroMatrix(): Matrix {
    Matrix(ZeroSeq(12), ZeroLists())
  }

  /** Among the first count lists some were present; the others were never touched. */
  predicate CanonicalLists(m: Matrix, count: nat) {
    forall i :: 0 <= i < 12 ==>
      if i < count && m.present[i] != 0
      then m.present[i] == 1 && CanonicalList(m.lists[i])
      else m.present[i] == 0 && m.lists[i] == ZeroList(i)
  }

  predicate SendableLists(m: Matrix, count: nat) {
    forall i :: 0 <= i < 12 && i < count && m.present[i] != 0 ==> SendableList(m.lists[i])
  }

  predicate WritableFrom(m: Matrix, first: nat, count: nat) {
    forall i :: 0 <= i < 12 && first <= i < count && m.present[i] != 0 ==> WritableList(m.lists[i])
  }

  predicate WritableLists(m: Matrix, count: nat) {
    WritableFrom(m, 0, count)
  }

  datatype Chroma = Chroma(
    chromaFormatIdc: int,
    residualColourTransform: int,
    bitDepthLumaMinus8: int,
    bitDepthChromaMinus8: int,
    qpprimeYZeroTransformBypass: int,
    matrixPresent: int,
    matrix: Matrix)
  {
    function ListCount(): nat {
      if chromaFormatIdc != 3 then 8 else 12
    }

    predicate Canonical(profileIdc: int) {
      if IsHighProfile(profileIdc) then
        && (if chromaFormatIdc == 3 then IsFlag(residualColourTransform) else residualColourTransform == 0)
        && IsFlag(qpprimeYZeroTransformBypass) && IsFlag(matrixPresent)
        && CanonicalLists(matrix, SentLists())
      else this == DefaultChroma()
    }

    function SentLists(): nat {
      if matrixPresent == 0 then 0 else ListCount()
    }

    predicate Sendable(profileIdc: int) {
      IsHighProfile(profileIdc) ==>
        && IsUe(chromaFormatIdc) && IsUe(bitDepthLumaMinus8) && IsUe(bitDepthChromaMinus8)
        && SendableLists(matrix, SentLists())
    }

    predicate Writable(profileIdc: int) {
      Sendable(profileIdc) && (IsHighProfile(profileIdc) ==> WritableLists(matrix, SentLists()))
    }
  }

  /** The reader's starting point: everything 0 but the chroma format. */
  function DefaultChroma(): Chroma {
    Chroma(1, 0, 0, 0, 0, 0, ZeroMatrix())
  }

  function MatrixBits(acc: Bits, m: Matrix, i: nat, count: nat): Bits
    requires i <= count <= 12
    decreases count - i
  {
    if i == count then acc
    else
      var acc' := acc + U1(m.present[i]);
      if m.present[i] == 0 then MatrixBits(acc', m, i + 1, count)
      else MatrixBits(ScalingListBits(acc', m.lists[i]), m, i + 1, count)
  }

  /** Fills lists i, i + 1, ... of m. */
  function ParseMatrix(s: Bits, pos: nat, m: Matrix, i: nat, count: nat): (r: (Matrix, nat))
    requires i <= count <= 12
    ensures pos <= r.1
    decreases count - i
  {
    if i == count then (m, pos)
    else
      var present := Flag(s, pos);
      var m' := m.(present := m.present[i := present]);
      if present == 0 then ParseMatrix(s, pos + 1, m', i + 1, count)
      else
        var r := ParseScalingList(s, pos + 1, m.lists[i]);
        ParseMatrix(s, r.1, m'.(lists := m.lists[i := r.0]), i + 1, count)
  }

  /** m with lists i, i + 1, ... still unread. */
  ghost predicate ReadUpTo(t: Matrix, m: Matrix, i: nat) {
    forall k :: 0 <= k < 12 ==>
      && t.present[k] == (if k < i then m.present[k] else 0)
      && t.lists[k] == (if k < i then m.lists[k] else ZeroList(k))
  }

  lemma {:induction false} MatrixRoundTrip(acc: Bits, m: Matrix, t: Matrix, i: nat, count: nat, s: Bits)
    requires i <= count <= 12 && ReadUpTo(t, m, i)
    requires CanonicalLists(m, count) && WritableFrom(m, i, count)
    requires MatrixBits(acc, m, i, count) <= s
    ensures acc <= s
    ensures ParseMatrix(s, |acc|, t, i, count).0 == m
    ensures ParseMatrix(s, |acc|, t, i, count).1 == |MatrixBits(acc, m, i, count)|
    decreases count - i
  {
    hide U1, Flag, ScalingListBits, ParseScalingList, CanonicalList, WritableList;
    if i == count {
      assert t.present == m.present && t.lists == m.lists;
    } else {
      var acc' := acc + U1(m.present[i]);
      var t' := Matrix(t.present[i := m.present[i]], t.lists[i := m.lists[i]]);
      if m.present[i] == 0 {
        assert t'.lists == t.lists;
        MatrixRoundTrip(acc', m, t', i + 1, count, s);
      } else {
        var acc'' := ScalingListBits(acc', m.lists[i]);
        MatrixRoundTrip(acc'', m, t', i + 1, count, s);
        ScalingListRoundTrip(acc', m.lists[i], t.lists[i], s);
      }
      FlagAt(acc, m.present[i], s);
    }
  }

  lemma {:induction false} ParseMatrixKeeps(s: Bits, pos: nat, m: Matrix, i: nat, count: nat, k: nat)
    requires k < i <= count <= 12
    ensures ParseMatrix(s, pos, m, i, count).0.present[k] == m.present[k]
    ensures ParseMatrix(s, pos, m, i, count).0.lists[k] == m.lists[k]
    decreases count - i
  {
    hide Flag, ParseScalingList;
    if i < count {
      var present := Flag(s, pos);
      var m' := m.(present := m.present[i := present]);
      if present == 0 {
        ParseMatrixKeeps(s, pos + 1, m', i + 1, count, k);
      } else {
        var r := ParseScalingList(s, pos + 1, m.lists[i]);
        ParseMatrixKeeps(s, r.1, m'.(lists := m.lists[i := r.0]), i + 1, count, k);
      }
    }
  }

  lemma {:induction false} MatrixBitsExtends(acc: Bits, m: Matrix, i: nat, count: nat)
    requires i <= count <= 12
    ensures acc <= MatrixBits(acc, m, i, count)
    decreases count - i
  {
    hide U1, ScalingListBits;
    if i < count {
      var acc' := acc + U1(m.present[i]);
      if m.present[i] == 0 {
        MatrixBitsExtends(acc', m, i + 1, count);
      } else {
        ScalingListExtends(acc', m.lists[i]);
        MatrixBitsExtends(ScalingListBits(acc', m.lists[i]), m, i + 1, count);
      }
    }
  }

  lemma ScalingListExtends(acc: Bits, l: ScalingList)
    ensures acc <= ScalingListBits(acc, l)
  {
    ListBitsExtends(acc, l, 0, 8, 8);
  }

  lemma PresentListOnlyIf(acc: Bits, m: Matrix, t: Matrix, i: nat, count: nat, s: Bits)
    requires i < count <= 12 && m.present[i] == 1 && CanonicalList(m.lists[i])
    requires ScalingListBits(acc, m.lists[i]) <= s
    requires var r := ParseScalingList(s, |acc|, t.lists[i]);
             ParseMatrix(s, r.1, Matrix(t.present[i := 1], t.lists[i := r.0]), i + 1, count).0 == m
    ensures acc <= s && WritableList(m.lists[i])
    ensures ParseScalingList(s, |acc|, t.lists[i]) == (m.lists[i], |ScalingListBits(acc, m.lists[i])|)
  {
    hide ScalingListBits, ParseScalingList, CanonicalList, WritableList;
    var r := ParseScalingList(s, |acc|, t.lists[i]);
    ParseMatrixKeeps(s, r.1, Matrix(t.present[i := 1], t.lists[i := r.0]), i + 1, count, i);
    ScalingListExtends(acc, m.lists[i]);
    ScalingListOnlyIf(acc, m.lists[i], t.lists[i], s);
    ScalingListRoundTrip(acc, m.lists[i], t.lists[i], s);
  }

  /** A matrix that is read back unchanged has only lists of bytes. */
  lemma {:induction false} MatrixOnlyIf(acc: Bits, m: Matrix, t: Matrix, i: nat, count: nat, s: Bits)
    requires i <= count <= 12 && ReadUpTo(t, m, i)
    requires CanonicalLists(m, count) && WritableLists(m, i)
    requires MatrixBits(acc, m, i, count) <= s && ParseMatrix(s, |acc|, t, i, count).0 == m
    ensures WritableLists(m, count)
    decreases count - i
  {
    hide U1, Flag, ScalingListBits, ParseScalingList, CanonicalList, WritableList, SendableList;
    if i < count {
      var acc' := acc + U1(m.present[i]);
      var acc'' := if m.present[i] == 0 then acc' else ScalingListBits(acc', m.lists[i]);
      MatrixBitsExtends(acc'', m, i + 1, count);
      assert acc'' <= s;
      if m.present[i] != 0 {
        ScalingListExtends(acc', m.lists[i]);
        assert acc' <= s;
      }
      FlagAt(acc, m.present[i], s);
      var t' := Matrix(t.present[i := m.present[i]], t.lists[i := m.lists[i]]);
      if m.present[i] != 0 {
        PresentListOnlyIf(acc', m, t, i, count, s);
      } else {
        assert t'.lists == t.lists;
      }
      MatrixOnlyIf(acc'', m, t', i + 1, count, s);
    }
  }

  lemma {:induction false} ParsedMatrix(s: Bits, pos: nat, m: Matrix, i: nat, count: nat)
    requires i <= count <= 12
    requires CanonicalLists(m, i) && SendableLists(m, i)
    ensures CanonicalLists(ParseMatrix(s, pos, m, i, count).0, count)
    ensures SendableLists(ParseMatrix(s, pos, m, i, count).0, count)
    decreases count - i
  {
    hide Flag, ParseScalingList, CanonicalList, SendableList;
    if i < count {
      var present := Flag(s, pos);
      var m' := m.(present := m.present[i := present]);
      if present == 0 {
        ParsedMatrix(s, pos + 1, m', i + 1, count);
      } else {
        var r := ParseScalingList(s, pos + 1, m.lists[i]);
        ParsedList(s, pos + 1, m.lists[i]);
        ParsedMatrix(s, r.1, m'.(lists := m.lists[i := r.0]), i + 1, count);
      }
    }
  }

  lemma ParsedList(s: Bits, pos: nat, l: ScalingList)
    requires |l.entries| > 0
    ensures CanonicalList(ParseScalingList(s, pos, l).0) && SendableList(ParseScalingList(s, pos, l).0)
  {
    ParsedEntries(s, pos, l, 0, 8, 8);
    ParsedSendable(s, pos, l);
  }

  function ChromaBits(acc: Bits, profileIdc: int, x: Chroma): Bits {
    if !IsHighProfile(profileIdc) then acc
    else
      var a0 := acc + Ue(x.chromaFormatIdc);
      var a1 := if x.chromaFormatIdc == 3 then a0 + U1(x.residualColourTransform) else a0;
      var a2 := a1 + Ue(x.bitDepthLumaMinus8) + Ue(x.bitDepthChromaMinus8)
                + U1(x.qpprimeYZeroTransformBypass) + U1(x.matrixPresent);
      if x.matrixPresent == 0 then a2 else MatrixBits(a2, x.matrix, 0, x.ListCount())
  }

  /** The fields in front of the matrix. */
  function ParseFormat(s: Bits, pos: nat): (Chroma, nat) {
    var format, p1 := UeVal(s, pos), UeEnd(s, pos);
    var residual, p2 := if format == 3 then Flag(s, p1) else 0, if format == 3 then p1 + 1 else p1;
    var luma, p3 := UeVal(s, p2), UeEnd(s, p2);
    var chroma, p4 := UeVal(s, p3), UeEnd(s, p3);
    (Chroma(format, residual, luma, chroma, Flag(s, p4), Flag(s, p4 + 1), ZeroMatrix()), p4 + 2)
  }

  function ParseChroma(s: Bits, pos: nat, profileIdc: int): (Chroma, nat) {
    if !IsHighProfile(profileIdc) then (DefaultChroma(), pos)
    else
      var (x, p) := ParseFormat(s, pos);
      if x.matrixPresent == 0 then (x, p)
      else
        var r := ParseMatrix(s, p, ZeroMatrix(), 0, x.ListCount());
        (x.(matrix := r.0), r.1)
  }

  lemma ChromaRoundTrip(acc: Bits, profileIdc: int, x: Chroma, s: Bits)
    requires x.Canonical(profileIdc) && x.Writable(profileIdc) && ChromaBits(acc, profileIdc, x) <= s
    ensures acc <= s
    ensures ParseChroma(s, |acc|, profileIdc).0 == x
    ensures ParseChroma(s, |acc|, profileIdc).1 == |ChromaBits(acc, profileIdc, x)|
  {
    hide U1, Ue, UVal, Flag, UeVal, UeEnd, MatrixBits, ParseMatrix, CanonicalList, WritableList;
    if IsHighProfile(profileIdc) {
      var a0 := acc + Ue(x.chromaFormatIdc);
      var a1 := if x.chromaFormatIdc == 3 then a0 + U1(x.residualColourTransform) else a0;
      var a2 := a1 + Ue(x.bitDepthLumaMinus8);
      var a3 := a2 + Ue(x.bitDepthChromaMinus8);
      var a4 := a3 + U1(x.qpprimeYZeroTransformBypass);
      var a5 := a4 + U1(x.matrixPresent);
      if x.matrixPresent != 0 {
        MatrixRoundTrip(a5, x.matrix, ZeroMatrix(), 0, x.ListCount(), s);
      } else {
        assert x.matrix.present == ZeroMatrix().present && x.matrix.lists == ZeroMatrix().lists;
      }
      FlagAt(a4, x.matrixPresent, s);
      FlagAt(a3, x.qpprimeYZeroTransformBypass, s);
      UeFieldAt(a2, x.bitDepthChromaMinus8, s);
      UeFieldAt(a1, x.bitDepthLumaMinus8, s);
      if x.chromaFormatIdc == 3 {
        FlagAt(a0, x.residualColourTransform, s);
      }
      UeFieldAt(acc, x.chromaFormatIdc, s);
    }
  }

  lemma ParsedChroma(s: Bits, pos: nat, profileIdc: int)
    ensures ParseChroma(s, pos, profileIdc).0.Canonical(profileIdc)
    ensures var x := ParseChroma(s, pos, profileIdc).0;
            IsHighProfile(profileIdc) ==> SendableLists(x.matrix, x.SentLists())
  {
    hide Flag, UeVal, UeEnd, ParseMatrix, CanonicalList, SendableList;
    if IsHighProfile(profileIdc) {
      var (x, p) := ParseFormat(s, pos);
      ParsedMatrix(s, p, ZeroMatrix(), 0, x.ListCount());
    }
  }

  lemma ChromaBitsExtends(acc: Bits, profileIdc: int, x: Chroma)
    ensures acc <= ChromaBits(acc, profileIdc, x)
  {
    hide U1, Ue, MatrixBits;
    if IsHighProfile(profileIdc) && x.matrixPresent != 0 {
      var a0 := acc + Ue(x.chromaFormatIdc);
      var a1 := if x.chromaFormatIdc == 3 then a0 + U1(x.residualColourTransform) else a0;
      var a2 := a1 + Ue(x.bitDepthLumaMinus8) + Ue(x.bitDepthChromaMinus8)
                + U1(x.qpprimeYZeroTransformBypass) + U1(x.matrixPresent);
      MatrixBitsExtends(a2, x.matrix, 0, x.ListCount());
    }
  }

  lemma ChromaOnlyIf(acc: Bits, profileIdc: int, x: Chroma, s: Bits)
    requires x.Canonical(profileIdc) && x.Sendable(profileIdc) && ChromaBits(acc, profileIdc, x) <= s
    requires ParseChroma(s, |acc|, profileIdc).0 == x
    ensures x.Writable(profileIdc)
  {
    hide U1, Ue, UVal, Flag, UeVal, UeEnd, MatrixBits, ParseMatrix, CanonicalList, WritableList, SendableList;
    if IsHighProfile(profileIdc) && x.matrixPresent != 0 {
      var a0 := acc + Ue(x.chromaFormatIdc);
      var a1 := if x.chromaFormatIdc == 3 then a0 + U1(x.residualColourTransform) else a0;
      var a2 := a1 + Ue(x.bitDepthLumaMinus8);
      var a3 := a2 + Ue(x.bitDepthChromaMinus8);
      var a4 := a3 + U1(x.qpprimeYZeroTransformBypass);
      var a5 := a4 + U1(x.matrixPresent);
      MatrixBitsExtends(a5, x.matrix, 0, x.ListCount());
      assert a5 <= s;
      FlagAt(a4, x.matrixPresent, s);
      FlagAt(a3, x.qpprimeYZeroTransformBypass, s);
      UeFieldAt(a2, x.bitDepthChromaMinus8, s);
      UeFieldAt(a1, x.bitDepthLumaMinus8, s);
      if x.chromaFormatIdc == 3 {
        FlagAt(a0, x.residualColourTransform, s);
      }
      UeFieldAt(acc, x.chromaFormatIdc, s);
      MatrixOnlyIf(a5, x.matrix, ZeroMatrix(), 0, x.ListCount(), s);
    }
  }

  // ----- the differences in a parameter set -----

  /** The differences of lists i, i + 1, ... that are present, list by list. */
  function MatrixDeltas(s: Bits, pos: nat, i: nat, count: nat): seq<seq<int>>
    requires i <= count <= 12
    decreases count - i
  {
    if i == count then []
    else if Flag(s, pos) == 0 then MatrixDeltas(s, pos + 1, i + 1, count)
    else
      [ListDeltas(s, pos + 1, ListSize(i))]
      + MatrixDeltas(s, ParseScalingList(s, pos + 1, ZeroList(i)).1, i + 1, count)
  }

  function ChromaDeltas(s: Bits, pos: nat, profileIdc: int): seq<seq<int>> {
    if !IsHighProfile(profileIdc) then []
    else
      var (x, p) := ParseFormat(s, pos);
      if x.matrixPresent == 0 then [] else MatrixDeltas(s, p, 0, x.ListCount())
  }

  predicate AllFit(lists: seq<seq<int>>) {
    forall i :: 0 <= i < |lists| ==> DeltasFit(lists[i], 8)
  }

  predicate AllSmall(lists: seq<seq<int>>) {
    forall i :: 0 <= i < |lists| ==> DeltasSmall(lists[i])
  }

  lemma AllSmallFit(lists: seq<seq<int>>)
    requires AllSmall(lists)
    ensures AllFit(lists)
  {
    forall i | 0 <= i < |lists| ensures DeltasFit(lists[i], 8) {
      SmallDeltasFit(lists[i], 8);
    }
  }

  lemma AllFitStep(first: seq<int>, rest: seq<seq<int>>)
    ensures AllFit([first] + rest) <==> DeltasFit(first, 8) && AllFit(rest)
  {
    hide DeltasFit;
    var all := [first] + rest;
    assert forall i :: 0 <= i < |rest| ==> rest[i] == all[i + 1];
    assert all[0] == first;
  }

  lemma WritableStep(m: Matrix, t: Matrix, i: nat)
    requires i < 12 && t.present[..i] == m.present[..i] && t.lists[..i] == m.lists[..i]
    ensures WritableLists(t, i + 1) <==> WritableLists(m, i) && (t.present[i] == 0 || WritableList(t.lists[i]))
  {
    hide WritableList;
    assert forall k :: 0 <= k < i ==> t.present[..i][k] == m.present[..i][k] && t.lists[..i][k] == m.lists[..i][k];
  }

  /** The matrix read has lists of bytes exactly when its differences fit. */
  lemma {:induction false} MatrixWritable(s: Bits, pos: nat, m: Matrix, i: nat, count: nat)
    requires i <= count <= 12 && forall k :: i <= k < 12 ==> m.lists[k] == ZeroList(k)
    ensures WritableLists(ParseMatrix(s, pos, m, i, count).0, count) <==>
            WritableLists(m, i) && AllFit(MatrixDeltas(s, pos, i, count))
    decreases count - i
  {
    hide Flag, ParseScalingList, WritableList, DeltasFit, ListDeltas;
    if i < count {
      var present := Flag(s, pos);
      var m' := m.(present := m.present[i := present]);
      if present == 0 {
        MatrixWritable(s, pos + 1, m', i + 1, count);
        WritableStep(m, m', i);
      } else {
        var r := ParseScalingList(s, pos + 1, m.lists[i]);
        var m'' := m'.(lists := m.lists[i := r.0]);
        MatrixWritable(s, r.1, m'', i + 1, count);
        WritableStep(m, m'', i);
        WritableExactly(s, pos + 1, m.lists[i]);
        AllFitStep(ListDeltas(s, pos + 1, ListSize(i)), MatrixDeltas(s, r.1, i + 1, count));
      }
    }
  }

  lemma ChromaWritable(s: Bits, pos: nat, profileIdc: int)
    ensures var x := ParseChroma(s, pos, profileIdc).0;
            (IsHighProfile(profileIdc) ==> WritableLists(x.matrix, x.SentLists())) <==>
            AllFit(ChromaDeltas(s, pos, profileIdc))
  {
    hide ParseFormat, ParseMatrix, MatrixDeltas, DeltasFit, WritableList;
    if IsHighProfile(profileIdc) {
      var (x, p) := ParseFormat(s, pos);
      MatrixWritable(s, p, ZeroMatrix(), 0, x.ListCount());
    }
  }

  // ----- a matrix that cannot be sent back -----

  /** One 4x4 list, of sixteen equal entries. */
  function OneListMatrix(v: int): Matrix {
    Matrix(ZeroSeq(12)[0 := 1], ZeroLists()[0 := ConstantList(v)])
  }

  function ConstantList(v: int): ScalingList {
    ScalingList(seq(16, _ => v), 0)
  }

  function OneListChroma(v: int): Chroma {
    DefaultChroma().(matrixPresent := 1, matrix := OneListMatrix(v))
  }

  /** Entries of -548 are sent as the differences -300 and 292, which the reader takes for entries
      of -36. */
  lemma OversizedListRead(acc: Bits, t: ScalingList, s: Bits)
    requires |t.entries| == 16 && ScalingListBits(acc, ConstantList(-548)) <= s
    ensures acc <= s
    ensures ParseScalingList(s, |acc|, t) == (ConstantList(-36), |ScalingListBits(acc, ConstantList(-548))|)
  {
    hide SeBits, ParseSe;
    var l := ConstantList(-548);
    var a1 := acc + SeBits(-300);
    var a2 := a1 + SeBits(292);
    assert NextScale(l, 0, 8) == -548;
    assert TailIs(l.entries, 2, -548);
    assert NextScale(l, 1, -548) == 0;
    ListBitsExtends(a2, l, 2, -548, 0);
    assert ScalingListBits(acc, l) == ListBits(a1, l, 1, -548, -548) == a2;
    SeAt(a1, 292, s);
    SeAt(acc, -300, s);
    var t1 := ScalingList(t.entries[0 := -36], 0);
    var t2 := ScalingList(t1.entries[1 := -36], 0);
    assert ParseScalingList(s, |acc|, t) == ParseEntries(s, |a1|, t1, 1, -36, -36);
    assert ParseEntries(s, |a1|, t1, 1, -36, -36) == ParseEntries(s, |a2|, t2, 2, -36, 0);
    ParseTail(s, |a2|, ConstantList(-36), t2, 2, -36);
  }

  lemma {:induction false} SameMatrixBits(acc: Bits, m: Matrix, t: Matrix, i: nat, count: nat)
    requires i <= count <= 12
    requires forall k :: i <= k < count ==> m.present[k] == t.present[k] && m.lists[k] == t.lists[k]
    ensures MatrixBits(acc, m, i, count) == MatrixBits(acc, t, i, count)
    decreases count - i
  {
    hide U1, ScalingListBits;
    if i < count {
      var acc' := acc + U1(m.present[i]);
      SameMatrixBits(if m.present[i] == 0 then acc' else ScalingListBits(acc', m.lists[i]), m, t, i + 1, count);
    }
  }

  lemma OversizedMatrixRead(acc: Bits, s: Bits)
    requires MatrixBits(acc, OneListMatrix(-548), 0, 8) <= s
    ensures acc <= s
    ensures ParseMatrix(s, |acc|, ZeroMatrix(), 0, 8).0 == OneListMatrix(-36)
    ensures ParseMatrix(s, |acc|, ZeroMatrix(), 0, 8).1 == |MatrixBits(acc, OneListMatrix(-548), 0, 8)|
  {
    hide U1, Flag, ScalingListBits, ParseScalingList;
    var m, r, z := OneListMatrix(-548), OneListMatrix(-36), ZeroMatrix();
    var a1 := acc + U1(1);
    var a2 := ScalingListBits(a1, m.lists[0]);
    var t := Matrix(z.present[0 := 1], z.lists[0 := r.lists[0]]);
    SameMatrixBits(a2, m, r, 1, 8);
    MatrixRoundTrip(a2, r, t, 1, 8, s);
    OversizedListRead(a1, z.lists[0], s);
    FlagAt(acc, 1, s);
  }

  lemma OversizedChromaRead(acc: Bits, profileIdc: int, s: Bits)
    requires IsHighProfile(profileIdc) && ChromaBits(acc, profileIdc, OneListChroma(-548)) <= s
    ensures acc <= s
    ensures ParseChroma(s, |acc|, profileIdc).0 == OneListChroma(-36)
    ensures ParseChroma(s, |acc|, profileIdc).1 == |ChromaBits(acc, profileIdc, OneListChroma(-548))|
  {
    hide U1, Ue, Flag, UeVal, UeEnd, MatrixBits, ParseMatrix;
    var a1 := acc + Ue(1);
    var a2 := a1 + Ue(0);
    var a3 := a2 + Ue(0);
    var a4 := a3 + U1(0);
    var a5 := a4 + U1(1);
    OversizedMatrixRead(a5, s);
    FlagAt(a4, 1, s);
    FlagAt(a3, 0, s);
    UeFieldAt(a2, 0, s);
    UeFieldAt(a1, 0, s);
    UeFieldAt(acc, 1, s);
  }

  /** The writer is defined for these lists, which are not lists of bytes. */
  lemma OneListSendable(profileIdc: int)
    requires IsHighProfile(profileIdc)
    ensures OneListChroma(-548).Sendable(profileIdc)
    ensures OneListChroma(-36).Sendable(profileIdc) && !OneListChroma(-36).Writable(profileIdc)
  {
    var l := ConstantList(-548);
    assert TailIs(l.entries, 2, -548);
    assert SendableFrom(l, 2, -548, 0);
    assert SendableFrom(l, 1, -548, -548);
    ModestSendable(ConstantList(-36), 0, 8, 8);
    assert OneListMatrix(-36).present[0] != 0 && OneListMatrix(-36).lists[0].entries[0] == -36;
  }

  // ----- frame number and picture order count -----

  datatype Poc = Poc(
    log2MaxFrameNumMinus4: int,
    picOrderCntType: int,
    log2MaxPicOrderCntLsbMinus4: int,
    deltaPicOrderAlwaysZero: int,
    offsetForNonRefPic: int,
    offsetForTopToBottomField: int,
    numRefFramesInCycle: int,
    offsetForRefFrame: Ints256)
  {
    predicate Canonical() {
      && (picOrderCntType != 0 ==> log2MaxPicOrderCntLsbMinus4 == 0)
      && (if picOrderCntType == 1 then
            && IsFlag(deltaPicOrderAlwaysZero)
            && numRefFramesInCycle <= MAX_REF_FRAMES_IN_CYCLE
          else
            && deltaPicOrderAlwaysZero == 0 && offsetForNonRefPic == 0
            && offsetForTopToBottomField == 0 && numRefFramesInCycle == 0)
      && forall i :: 0 <= i < 256 && numRefFramesInCycle <= i ==> offsetForRefFrame[i] == 0
    }

    /** The cycle count also bounds the writer's walk through the offsets. */
    predicate Sendable() {
      && IsUe(log2MaxFrameNumMinus4) && IsUe(picOrderCntType)
      && (picOrderCntType == 0 ==> IsUe(log2MaxPicOrderCntLsbMinus4))
      && (picOrderCntType == 1 ==>
            && IsSe(offsetForNonRefPic) && IsSe(offsetForTopToBottomField)
            && 0 <= numRefFramesInCycle <= MAX_REF_FRAMES_IN_CYCLE
            && forall i :: 0 <= i < numRefFramesInCycle ==> IsSe(offsetForRefFrame[i]))
    }
  }

  function OffsetsBits(acc: Bits, offsets: Ints256, i: nat, count: int): Bits
    requires count <= 256
    decreases count - i
  {
    if i >= count then acc else OffsetsBits(acc + SeBits(offsets[i]), offsets, i + 1, count)
  }

  function ParseOffsets(s: Bits, pos: nat, offsets: Ints256, i: nat, count: int): (r: (Ints256, nat))
    requires count <= 256
    ensures pos <= r.1
    ensures forall k :: 0 <= k < 256 && count <= k ==> r.0[k] == offsets[k]
    decreases count - i
  {
    if i >= count then (offsets, pos)
    else ParseOffsets(s, SeEnd(s, pos), offsets[i := SeVal(s, pos)], i + 1, count)
  }

  lemma {:induction false} OffsetsRoundTrip(acc: Bits, x: Ints256, t: Ints256, i: nat, count: nat, s: Bits)
    requires i <= count <= 256
    requires forall k :: 0 <= k < count ==> IsSe(x[k])
    requires forall k :: 0 <= k < 256 ==> t[k] == (if k < i then x[k] else 0)
    requires forall k :: count <= k < 256 ==> x[k] == 0
    requires OffsetsBits(acc, x, i, count) <= s
    ensures acc <= s
    ensures ParseOffsets(s, |acc|, t, i, count).0 == x
    ensures ParseOffsets(s, |acc|, t, i, count).1 == |OffsetsBits(acc, x, i, count)|
    decreases count - i
  {
    hide SeBits, SeVal, SeEnd;
    if i < count {
      OffsetsRoundTrip(acc + SeBits(x[i]), x, t[i := x[i]], i + 1, count, s);
      SeFieldAt(acc, x[i], s);
    } else {
      assert t == x;
    }
  }

  function PocBits(acc: Bits, x: Poc): Bits
    requires x.Sendable()
  {
    var a0 := acc + Ue(x.log2MaxFrameNumMinus4) + Ue(x.picOrderCntType);
    if x.picOrderCntType == 0 then a0 + Ue(x.log2MaxPicOrderCntLsbMinus4)
    else if x.picOrderCntType == 1 then
      var a1 := a0 + U1(x.deltaPicOrderAlwaysZero) + SeBits(x.offsetForNonRefPic)
                + SeBits(x.offsetForTopToBottomField) + Ue(x.numRefFramesInCycle);
      OffsetsBits(a1, x.offsetForRefFrame, 0, x.numRefFramesInCycle)
    else a0
  }

  lemma {:induction false} OffsetsBitsExtends(acc: Bits, offsets: Ints256, i: nat, count: int)
    requires count <= 256
    ensures acc <= OffsetsBits(acc, offsets, i, count)
    decreases count - i
  {
    hide SeBits;
    if i < count {
      OffsetsBitsExtends(acc + SeBits(offsets[i]), offsets, i + 1, count);
    }
  }

  lemma PocBitsExtends(acc: Bits, x: Poc)
    requires x.Sendable()
    ensures acc <= PocBits(acc, x)
  {
    hide U1, Ue, SeBits, OffsetsBits;
    if x.picOrderCntType == 1 {
      var a0 := acc + Ue(x.log2MaxFrameNumMinus4) + Ue(x.picOrderCntType);
      var a1 := a0 + U1(x.deltaPicOrderAlwaysZero) + SeBits(x.offsetForNonRefPic)
                + SeBits(x.offsetForTopToBottomField) + Ue(x.numRefFramesInCycle);
      OffsetsBitsExtends(a1, x.offsetForRefFrame, 0, x.numRefFramesInCycle);
    }
  }

  /** The clamps of the reader; a count above 2^31 - 1 has become negative and ends no loop. */
  function AtMost(bound: int, v: int): (r: int)
    ensures r <= bound && r <= v && (v <= bound ==> r == v)
  {
    if v > bound then bound else v
  }

  function ParsePoc(s: Bits, pos: nat): (r: (Poc, nat))
    ensures r.0.Canonical()
  {
    var p1 := UeEnd(s, pos);
    var pocType, p2 := UeVal(s, p1), UeEnd(s, p1);
    var x := Poc(UeVal(s, pos), pocType, 0, 0, 0, 0, 0, ZeroSeq(256));
    if pocType == 0 then (x.(log2MaxPicOrderCntLsbMinus4 := UeVal(s, p2)), UeEnd(s, p2))
    else if pocType == 1 then
      var p3 := SeEnd(s, p2 + 1);
      var p4 := SeEnd(s, p3);
      var n := AtMost(MAX_REF_FRAMES_IN_CYCLE, UeVal(s, p4));
      var r := ParseOffsets(s, UeEnd(s, p4), ZeroSeq(256), 0, n);
      (Poc(UeVal(s, pos), pocType, 0, Flag(s, p2), SeVal(s, p2 + 1), SeVal(s, p3), n, r.0), r.1)
    else (x, p2)
  }

  lemma PocRoundTrip(acc: Bits, x: Poc, s: Bits)
    requires x.Canonical() && x.Sendable() && PocBits(acc, x) <= s
    ensures acc <= s
    ensures ParsePoc(s, |acc|).0 == x && ParsePoc(s, |acc|).1 == |PocBits(acc, x)|
  {
    hide U1, Ue, SeBits, Flag, UeVal, UeEnd, SeVal, SeEnd, OffsetsBits, ParseOffsets;
    var a0 := acc + Ue(x.log2MaxFrameNumMinus4);
    var a1 := a0 + Ue(x.picOrderCntType);
    if x.picOrderCntType == 0 {
      UeFieldAt(a1, x.log2MaxPicOrderCntLsbMinus4, s);
      assert x.offsetForRefFrame == ZeroSeq(256);
    } else if x.picOrderCntType == 1 {
      var a2 := a1 + U1(x.deltaPicOrderAlwaysZero);
      var a3 := a2 + SeBits(x.offsetForNonRefPic);
      var a4 := a3 + SeBits(x.offsetForTopToBottomField);
      var a5 := a4 + Ue(x.numRefFramesInCycle);
      OffsetsRoundTrip(a5, x.offsetForRefFrame, ZeroSeq(256), 0, x.numRefFramesInCycle, s);
      UeFieldAt(a4, x.numRefFramesInCycle, s);
      SeFieldAt(a3, x.offsetForTopToBottomField, s);
      SeFieldAt(a2, x.offsetForNonRefPic, s);
      FlagAt(a1, x.deltaPicOrderAlwaysZero, s);
    } else {
      assert x.offsetForRefFrame == ZeroSeq(256);
    }
    UeFieldAt(a0, x.picOrderCntType, s);
    UeFieldAt(acc, x.log2MaxFrameNumMinus4, s);
  }

  // ----- reference frames, picture size and cropping -----

  datatype Frame = Frame(
    numRefFrames: int,
    gapsInFrameNumAllowed: int,
    picWidthInMbsMinus1: int,
    picHeightInMapUnitsMinus1: int,
    frameMbsOnly: int,
    mbAdaptiveFrameField: int,
    direct8x8Inference: int,
    frameCropping: int,
    cropLeft: int, cropRight: int, cropTop: int, cropBottom: int)
  {
    predicate Canonical() {
      && IsFlag(gapsInFrameNumAllowed) && IsFlag(frameMbsOnly)
      && (if frameMbsOnly == 0 then IsFlag(mbAdaptiveFrameField) else mbAdaptiveFrameField == 0)
      && IsFlag(direct8x8Inference) && IsFlag(frameCropping)
      && (frameCropping == 0 ==> cropLeft == 0 && cropRight == 0 && cropTop == 0 && cropBottom == 0)
    }

    predicate Sendable() {
      && IsUe(numRefFrames) && IsUe(picWidthInMbsMinus1) && IsUe(picHeightInMapUnitsMinus1)
      && (frameCropping != 0 ==> IsUe(cropLeft) && IsUe(cropRight) && IsUe(cropTop) && IsUe(cropBottom))
    }
  }

  function FrameBits(acc: Bits, x: Frame): Bits {
    var a0 := acc + Ue(x.numRefFrames) + U1(x.gapsInFrameNumAllowed) + Ue(x.picWidthInMbsMinus1)
              + Ue(x.picHeightInMapUnitsMinus1) + U1(x.frameMbsOnly);
    var a1 := if x.frameMbsOnly == 0 then a0 + U1(x.mbAdaptiveFrameField) else a0;
    var a2 := a1 + U1(x.direct8x8Inference) + U1(x.frameCropping);
    if x.frameCropping == 0 then a2
    else a2 + Ue(x.cropLeft) + Ue(x.cropRight) + Ue(x.cropTop) + Ue(x.cropBottom)
  }

  lemma FrameBitsExtends(acc: Bits, x: Frame)
    ensures acc <= FrameBits(acc, x)
  {
    hide U1, Ue;
  }

  function ParseFrame(s: Bits, pos: nat): (r: (Frame, nat))
    ensures r.0.Canonical()
  {
    var p1 := UeEnd(s, pos);
    var p2 := UeEnd(s, p1 + 1);
    var p3 := UeEnd(s, p2);
    var mbsOnly := Flag(s, p3);
    var adaptive, p4 := if mbsOnly == 0 then Flag(s, p3 + 1) else 0, if mbsOnly == 0 then p3 + 2 else p3 + 1;
    var x := Frame(UeVal(s, pos), Flag(s, p1), UeVal(s, p1 + 1), UeVal(s, p2), mbsOnly, adaptive,
                   Flag(s, p4), Flag(s, p4 + 1), 0, 0, 0, 0);
    if x.frameCropping == 0 then (x, p4 + 2) else ParseCrop(s, p4 + 2, x)
  }

  function ParseCrop(s: Bits, pos: nat, x: Frame): (Frame, nat) {
    var p1 := UeEnd(s, pos);
    var p2 := UeEnd(s, p1);
    var p3 := UeEnd(s, p2);
    (x.(cropLeft := UeVal(s, pos), cropRight := UeVal(s, p1), cropTop := UeVal(s, p2), cropBottom := UeVal(s, p3)),
     UeEnd(s, p3))
  }

  lemma FrameRoundTrip(acc: Bits, x: Frame, s: Bits)
    requires x.Canonical() && x.Sendable() && FrameBits(acc, x) <= s
    ensures acc <= s
    ensures ParseFrame(s, |acc|).0 == x && ParseFrame(s, |acc|).1 == |FrameBits(acc, x)|
  {
    hide U1, Ue, Flag, UeVal, UeEnd;
    var a0 := acc + Ue(x.numRefFrames);
    var a1 := a0 + U1(x.gapsInFrameNumAllowed);
    var a2 := a1 + Ue(x.picWidthInMbsMinus1);
    var a3 := a2 + Ue(x.picHeightInMapUnitsMinus1);
    var a4 := a3 + U1(x.frameMbsOnly);
    var a5 := if x.frameMbsOnly == 0 then a4 + U1(x.mbAdaptiveFrameField) else a4;
    var a6 := a5 + U1(x.direct8x8Inference);
    var a7 := a6 + U1(x.frameCropping);
    if x.frameCropping != 0 {
      var a8 := a7 + Ue(x.cropLeft);
      var a9 := a8 + Ue(x.cropRight);
      var a10 := a9 + Ue(x.cropTop);
      UeFieldAt(a10, x.cropBottom, s);
      UeFieldAt(a9, x.cropTop, s);
      UeFieldAt(a8, x.cropRight, s);
      UeFieldAt(a7, x.cropLeft, s);
    }
    FlagAt(a6, x.frameCropping, s);
    FlagAt(a5, x.direct8x8Inference, s);
    if x.frameMbsOnly == 0 {
      FlagAt(a4, x.mbAdaptiveFrameField, s);
    }
    FlagAt(a3, x.frameMbsOnly, s);
    UeFieldAt(a2, x.picHeightInMapUnitsMinus1, s);
    UeFieldAt(a1, x.picWidthInMbsMinus1, s);
    FlagAt(a0, x.gapsInFrameNumAllowed, s);
    UeFieldAt(acc, x.numRefFrames, s);
  }
}
