/** Parameter sets byte by byte: literal units, with every field of the set that they hold. They
    fix the order of the syntax, the width of each field, the conditions and the codes. */
module KnownSets {
  import opened BitCodes
  import opened KnownCodes
  import opened NalBytes
  import opened NalUnit
  import opened ScalingLists
  import opened SequenceParameterSet
  import opened SpsCodec
  import opened SpsSyntax
  import opened VuiSyntax

  // ----- a High 4:4:4 set -----

  function Payload444(): seq<byte> {
    [0x67, 0xf4, 0xb4, 0x33, 0x31, 0x2c, 0xbc, 0x22, 0x90, 0x07, 0xf0, 0x04, 0x04, 0x04, 0x18, 0x1c]
    + [0x04, 0x40, 0x64, 0x21, 0x84, 0x0a, 0xce, 0xa7, 0x14, 0xc7, 0x04, 0xcb, 0x03, 0xc0, 0x11, 0x1d]
    + [0x32, 0x17, 0xff, 0x01, 0x2c, 0x00, 0xc8, 0xf7, 0x09, 0x10, 0x0a, 0xb2, 0x44, 0x8d, 0x15, 0x9e]
    + [0x08, 0xd1, 0x59, 0xe2, 0x74, 0x46, 0x06, 0x50, 0x09, 0x6c, 0x06, 0x48, 0x06, 0x45, 0x7b, 0x56]
    + [0x98, 0xa0, 0x33, 0x07, 0xb5, 0xb1, 0xae, 0xf2, 0x14, 0x58, 0xc6, 0x68]
  }

  lemma BytesOf444()
    ensures |Payload444()| == 76
    ensures Payload444()[0] == 0x67 && Payload444()[1] == 0xf4 && Payload444()[2] == 0xb4 && Payload444()[3] == 0x33
    ensures Payload444()[4] == 0x31 && Payload444()[5] == 0x2c && Payload444()[6] == 0xbc && Payload444()[7] == 0x22
    ensures Payload444()[8] == 0x90 && Payload444()[9] == 0x07 && Payload444()[10] == 0xf0 && Payload444()[11] == 0x04
    ensures Payload444()[12] == 0x04 && Payload444()[13] == 0x04 && Payload444()[14] == 0x18 && Payload444()[15] == 0x1c
    ensures Payload444()[16] == 0x04 && Payload444()[17] == 0x40 && Payload444()[18] == 0x64 && Payload444()[19] == 0x21
    ensures Payload444()[20] == 0x84 && Payload444()[21] == 0x0a && Payload444()[22] == 0xce && Payload444()[23] == 0xa7
    ensures Payload444()[24] == 0x14 && Payload444()[25] == 0xc7 && Payload444()[26] == 0x04 && Payload444()[27] == 0xcb
    ensures Payload444()[28] == 0x03 && Payload444()[29] == 0xc0 && Payload444()[30] == 0x11 && Payload444()[31] == 0x1d
    ensures Payload444()[32] == 0x32 && Payload444()[33] == 0x17 && Payload444()[34] == 0xff && Payload444()[35] == 0x01
    ensures Payload444()[36] == 0x2c && Payload444()[37] == 0x00 && Payload444()[38] == 0xc8 && Payload444()[39] == 0xf7
    ensures Payload444()[40] == 0x09 && Payload444()[41] == 0x10 && Payload444()[42] == 0x0a && Payload444()[43] == 0xb2
    ensures Payload444()[44] == 0x44 && Payload444()[45] == 0x8d && Payload444()[46] == 0x15 && Payload444()[47] == 0x9e
    ensures Payload444()[48] == 0x08 && Payload444()[49] == 0xd1 && Payload444()[50] == 0x59 && Payload444()[51] == 0xe2
    ensures Payload444()[52] == 0x74 && Payload444()[53] == 0x46 && Payload444()[54] == 0x06 && Payload444()[55] == 0x50
    ensures Payload444()[56] == 0x09 && Payload444()[57] == 0x6c && Payload444()[58] == 0x06 && Payload444()[59] == 0x48
    ensures Payload444()[60] == 0x06 && Payload444()[61] == 0x45 && Payload444()[62] == 0x7b && Payload444()[63] == 0x56
    ensures Payload444()[64] == 0x98 && Payload444()[65] == 0xa0 && Payload444()[66] == 0x33 && Payload444()[67] == 0x07
    ensures Payload444()[68] == 0xb5 && Payload444()[69] == 0xb1 && Payload444()[70] == 0xae && Payload444()[71] == 0xf2
    ensures Payload444()[72] == 0x14 && Payload444()[73] == 0x58 && Payload444()[74] == 0xc6 && Payload444()[75] == 0x68
  {
  }

  lemma HeaderOf444(a: Bits)
    requires a <= ToBits(Payload444()) && |a| == 0
    requires a == []
    ensures NalHeaderBits(Nal(3, 7)) <= ToBits(Payload444()) && |NalHeaderBits(Nal(3, 7))| == 8
  {
    hide ToBits, Pow2, U, U1, Ue, SeBits, Payload444;
    Powers();
    BytesOf444();
    var p := Payload444();
    var a1 := UNext(p, a, 0, 1, 0);
    var a2 := UNext(p, a1, 1, 2, 3);
    var a3 := UNext(p, a2, 3, 5, 7);
    HeaderFromNothing(Nal(3, 7));
  }

  lemma HeadOf444Part1(a: Bits) returns (b: Bits)
    requires a <= ToBits(Payload444()) && |a| == 8
    ensures b == a + U(8, 244) + U1(1) + U1(0) + U1(1) + U1(1) + U1(0)
    ensures b <= ToBits(Payload444()) && |b| == 21
  {
    hide ToBits, Pow2, U, U1, Ue, SeBits, Payload444;
    Powers();
    BytesOf444();
    var p := Payload444();
    var a1 := UNext(p, a, 8, 8, 244);
    var a2 := FlagNext(p, a1, 16, 1);
    var a3 := FlagNext(p, a2, 17, 0);
    var a4 := FlagNext(p, a3, 18, 1);
    var a5 := FlagNext(p, a4, 19, 1);
    b := FlagNext(p, a5, 20, 0);
  }

  lemma HeadOf444Part2(a: Bits) returns (b: Bits)
    requires a <= ToBits(Payload444()) && |a| == 21
    ensures b == a + U1(1) + U(2, 0) + U(8, 51) + Ue(5)
    ensures b <= ToBits(Payload444()) && |b| == 37
  {
    hide ToBits, Pow2, U, U1, Ue, SeBits, Payload444;
    Powers();
    BytesOf444();
    var p := Payload444();
    var a1 := FlagNext(p, a, 21, 1);
    var a2 := UNext(p, a1, 22, 2, 0);
    var a3 := UNext(p, a2, 24, 8, 51);
    b := UeNext(p, a3, 32, 3, 5);
  }

  lemma HeadOf444(a: Bits, x: Head)
    requires a <= ToBits(Payload444()) && |a| == 8
    requires x == Head(244, 1, 0, 1, 1, 0, 1, 0, 51, 5)
    ensures HeadBits(a, x) <= ToBits(Payload444()) && |HeadBits(a, x)| == 37
  {
    hide ToBits, Pow2, U, U1, Ue, SeBits, Payload444;
    var a6 := HeadOf444Part1(a);
    var a10 := HeadOf444Part2(a6);
  }

  lemma List0Of444(a: Bits, l: ScalingList)
    requires a <= ToBits(Payload444()) && |a| == 54
    requires l == ScalingList(seq(16, _ => 8), 1)
    ensures ScalingListBits(a, l) <= ToBits(Payload444()) && |ScalingListBits(a, l)| == 63
  {
    hide ToBits, Pow2, U, U1, Ue, SeBits, Payload444;
    Powers();
    BytesOf444();
    var p := Payload444();
    var a1 := SeNext(p, a, 54, 5, -8, 16);
    LastEntry(a, l, 0, 8, 8, -8);
  }

  lemma List2Of444(a: Bits, l: ScalingList)
    requires a <= ToBits(Payload444()) && |a| == 65
    requires l == ScalingList([10, 137, 9] + seq(13, _ => 200), 0)
    ensures ScalingListBits(a, l) <= ToBits(Payload444()) && |ScalingListBits(a, l)| == 130
  {
    hide ToBits, Pow2, U, U1, Ue, SeBits, Payload444;
    Powers();
    BytesOf444();
    var p := Payload444();
    var a1 := SeNext(p, a, 65, 3, 2, 3);
    NextEntry(a, l, 0, 8, 8, 2);
    var a2 := SeNext(p, a1, 70, 8, 127, 253);
    NextEntry(a1, l, 1, 10, 10, 127);
    var a3 := SeNext(p, a2, 85, 9, -128, 256);
    NextEntry(a2, l, 2, 137, 137, -128);
    var a4 := SeNext(p, a3, 102, 8, -65, 130);
    NextEntry(a3, l, 3, 9, 9, -65);
    var a5 := SeNext(p, a4, 117, 7, 56, 111);
    LastEntry(a4, l, 4, 200, 200, 56);
  }

  lemma FirstListsOf444(a: Bits, m: Matrix) returns (b: Bits)
    requires a <= ToBits(Payload444()) && |a| == 53
    requires m == Matrix(ZeroSeq(12)[0 := 1][2 := 1][6 := 1][11 := 1], WithList(WithList(WithList(WithList(ZeroLists(), 0, ScalingList(seq(16, _ => 8), 1)), 2, ScalingList([10, 137, 9] + seq(13, _ => 200), 0)), 6, ScalingList(seq(64, _ => 12), 0)), 11, ScalingList([20] + seq(63, _ => 21), 0)))
    ensures MatrixBits(a, m, 0, 12) == MatrixBits(b, m, 6, 12)
    ensures b <= ToBits(Payload444()) && |b| == 133
  {
    hide ToBits, Pow2, U, U1, Ue, SeBits, ScalingListBits, MatrixBits, Payload444;
    Powers();
    BytesOf444();
    var p := Payload444();
    NextList(a, m, 0, 12);
    var a1 := FlagNext(p, a, 53, 1);
    List0Of444(a1, m.lists[0]);
    var a2 := ScalingListBits(a1, m.lists[0]);
    NextList(a2, m, 1, 12);
    var a3 := FlagNext(p, a2, 63, 0);
    NextList(a3, m, 2, 12);
    var a4 := FlagNext(p, a3, 64, 1);
    List2Of444(a4, m.lists[2]);
    var a5 := ScalingListBits(a4, m.lists[2]);
    NextList(a5, m, 3, 12);
    var a6 := FlagNext(p, a5, 130, 0);
    NextList(a6, m, 4, 12);
    var a7 := FlagNext(p, a6, 131, 0);
    NextList(a7, m, 5, 12);
    var a8 := FlagNext(p, a7, 132, 0);
    b := a8;
  }

  lemma List6Of444(a: Bits, l: ScalingList)
    requires a <= ToBits(Payload444()) && |a| == 134
    requires l == ScalingList(seq(64, _ => 12), 0)
    ensures ScalingListBits(a, l) <= ToBits(Payload444()) && |ScalingListBits(a, l)| == 150
  {
    hide ToBits, Pow2, U, U1, Ue, SeBits, Payload444;
    Powers();
    BytesOf444();
    var p := Payload444();
    var a1 := SeNext(p, a, 134, 4, 4, 7);
    NextEntry(a, l, 0, 8, 8, 4);
    var a2 := SeNext(p, a1, 141, 5, -12, 24);
    LastEntry(a1, l, 1, 12, 12, -12);
  }

  lemma List11Of444(a: Bits, l: ScalingList)
    requires a <= ToBits(Payload444()) && |a| == 155
    requires l == ScalingList([20] + seq(63, _ => 21), 0)
    ensures ScalingListBits(a, l) <= ToBits(Payload444()) && |ScalingListBits(a, l)| == 178
  {
    hide ToBits, Pow2, U, U1, Ue, SeBits, Payload444;
    Powers();
    BytesOf444();
    var p := Payload444();
    var a1 := SeNext(p, a, 155, 5, 12, 23);
    NextEntry(a, l, 0, 8, 8, 12);
    var a2 := SeNext(p, a1, 164, 2, 1, 1);
    NextEntry(a1, l, 1, 20, 20, 1);
    var a3 := SeNext(p, a2, 167, 6, -21, 42);
    LastEntry(a2, l, 2, 21, 21, -21);
  }

  lemma MatrixOf444(a: Bits, m: Matrix)
    requires a <= ToBits(Payload444()) && |a| == 53
    requires m == Matrix(ZeroSeq(12)[0 := 1][2 := 1][6 := 1][11 := 1], WithList(WithList(WithList(WithList(ZeroLists(), 0, ScalingList(seq(16, _ => 8), 1)), 2, ScalingList([10, 137, 9] + seq(13, _ => 200), 0)), 6, ScalingList(seq(64, _ => 12), 0)), 11, ScalingList([20] + seq(63, _ => 21), 0)))
    ensures MatrixBits(a, m, 0, 12) <= ToBits(Payload444()) && |MatrixBits(a, m, 0, 12)| == 178
  {
    hide ToBits, Pow2, U, U1, Ue, SeBits, ScalingListBits, MatrixBits, Payload444;
    Powers();
    BytesOf444();
    var p := Payload444();
    var a0 := FirstListsOf444(a, m);
    NextList(a0, m, 6, 12);
    var a1 := FlagNext(p, a0, 133, 1);
    List6Of444(a1, m.lists[6]);
    var a2 := ScalingListBits(a1, m.lists[6]);
    NextList(a2, m, 7, 12);
    var a3 := FlagNext(p, a2, 150, 0);
    NextList(a3, m, 8, 12);
    var a4 := FlagNext(p, a3, 151, 0);
    NextList(a4, m, 9, 12);
    var a5 := FlagNext(p, a4, 152, 0);
    NextList(a5, m, 10, 12);
    var a6 := FlagNext(p, a5, 153, 0);
    NextList(a6, m, 11, 12);
    var a7 := FlagNext(p, a6, 154, 1);
    List11Of444(a7, m.lists[11]);
    var a8 := ScalingListBits(a7, m.lists[11]);
    NoMoreLists(a8, m, 12);
  }

  lemma ChromaOf444(a: Bits, x: Chroma)
    requires a <= ToBits(Payload444()) && |a| == 37
    requires x == Chroma(3, 1, 2, 4, 1, 1, Matrix(ZeroSeq(12)[0 := 1][2 := 1][6 := 1][11 := 1], WithList(WithList(WithList(WithList(ZeroLists(), 0, ScalingList(seq(16, _ => 8), 1)), 2, ScalingList([10, 137, 9] + seq(13, _ => 200), 0)), 6, ScalingList(seq(64, _ => 12), 0)), 11, ScalingList([20] + seq(63, _ => 21), 0))))
    ensures ChromaBits(a, 244, x) <= ToBits(Payload444()) && |ChromaBits(a, 244, x)| == 178
  {
    hide ToBits, Pow2, U, U1, Ue, SeBits, MatrixBits, ScalingListBits, Payload444;
    Powers();
    BytesOf444();
    var p := Payload444();
    var a1 := UeNext(p, a, 37, 3, 3);
    var a2 := FlagNext(p, a1, 42, 1);
    var a3 := UeNext(p, a2, 43, 2, 2);
    var a4 := UeNext(p, a3, 46, 3, 4);
    var a5 := FlagNext(p, a4, 51, 1);
    var a6 := FlagNext(p, a5, 52, 1);
    MatrixOf444(a6, x.matrix);
  }

  lemma PocOf444Part1(a: Bits) returns (b: Bits)
    requires a <= ToBits(Payload444()) && |a| == 178
    ensures b == a + Ue(6) + Ue(1) + U1(1) + SeBits(-3) + SeBits(5) + Ue(2)
    ensures b <= ToBits(Payload444()) && |b| == 202
  {
    hide ToBits, Pow2, U, U1, Ue, SeBits, Payload444;
    Powers();
    BytesOf444();
    var p := Payload444();
    var a1 := UeNext(p, a, 178, 3, 6);
    var a2 := UeNext(p, a1, 183, 2, 1);
    var a3 := FlagNext(p, a2, 186, 1);
    var a4 := SeNext(p, a3, 187, 3, -3, 6);
    var a5 := SeNext(p, a4, 192, 4, 5, 9);
    b := UeNext(p, a5, 199, 2, 2);
  }

  lemma PocOf444(a: Bits, x: Poc)
    requires a <= ToBits(Payload444()) && |a| == 178
    requires x == Poc(6, 1, 0, 1, -3, 5, 2, Padded([7, -9], 256))
    ensures PocBits(a, x) <= ToBits(Payload444()) && |PocBits(a, x)| == 218
  {
    hide ToBits, Pow2, U, U1, Ue, SeBits, OffsetsBits, Payload444;
    Powers();
    BytesOf444();
    var p := Payload444();
    var a6 := PocOf444Part1(a);
    NextOffset(a6, x.offsetForRefFrame, 0, 2);
    var a7 := SeNext(p, a6, 202, 4, 7, 13);
    NextOffset(a7, x.offsetForRefFrame, 1, 2);
    var a8 := SeNext(p, a7, 209, 5, -9, 18);
    NextOffset(a8, x.offsetForRefFrame, 2, 2);
  }

  lemma FrameOf444Part1(a: Bits) returns (b: Bits)
    requires a <= ToBits(Payload444()) && |a| == 218
    ensures b == a + Ue(4) + U1(1) + Ue(119) + Ue(67) + U1(0) + U1(1)
    ensures b <= ToBits(Payload444()) && |b| == 252
  {
    hide ToBits, Pow2, U, U1, Ue, SeBits, Payload444;
    Powers();
    BytesOf444();
    var p := Payload444();
    var a1 := UeNext(p, a, 218, 3, 4);
    var a2 := FlagNext(p, a1, 223, 1);
    var a3 := UeNext(p, a2, 224, 7, 119);
    var a4 := UeNext(p, a3, 237, 7, 67);
    var a5 := FlagNext(p, a4, 250, 0);
    b := FlagNext(p, a5, 251, 1);
  }

  lemma FrameOf444Part2(a: Bits) returns (b: Bits)
    requires a <= ToBits(Payload444()) && |a| == 252
    ensures b == a + U1(1) + U1(1) + Ue(1) + Ue(2) + Ue(3) + Ue(4)
    ensures b <= ToBits(Payload444()) && |b| == 270
  {
    hide ToBits, Pow2, U, U1, Ue, SeBits, Payload444;
    Powers();
    BytesOf444();
    var p := Payload444();
    var a1 := FlagNext(p, a, 252, 1);
    var a2 := FlagNext(p, a1, 253, 1);
    var a3 := UeNext(p, a2, 254, 2, 1);
    var a4 := UeNext(p, a3, 257, 2, 2);
    var a5 := UeNext(p, a4, 260, 3, 3);
    b := UeNext(p, a5, 265, 3, 4);
  }

  lemma FrameOf444(a: Bits, x: Frame)
    requires a <= ToBits(Payload444()) && |a| == 218
    requires x == Frame(4, 1, 119, 67, 0, 1, 1, 1, 1, 2, 3, 4)
    ensures FrameBits(a, x) <= ToBits(Payload444()) && |FrameBits(a, x)| == 270
  {
    hide ToBits, Pow2, U, U1, Ue, SeBits, Payload444;
    var a6 := FrameOf444Part1(a);
    var a12 := FrameOf444Part2(a6);
  }

  lemma VuiFlagOf444(a: Bits)
    requires a <= ToBits(Payload444()) && |a| == 270
    ensures (a + U1(1)) <= ToBits(Payload444()) && |(a + U1(1))| == 271
  {
    hide ToBits, Pow2, U, U1, Ue, SeBits, Payload444;
    Powers();
    BytesOf444();
    var p := Payload444();
    var a1 := FlagNext(p, a, 270, 1);
  }

  lemma AspectOf444(a: Bits, x: Aspect)
    requires a <= ToBits(Payload444()) && |a| == 271
    requires x == Aspect(1, 255, 300, 200)
    ensures AspectBits(a, x) <= ToBits(Payload444()) && |AspectBits(a, x)| == 312
  {
    hide ToBits, Pow2, U, U1, Ue, SeBits, Payload444;
    Powers();
    BytesOf444();
    var p := Payload444();
    var a1 := FlagNext(p, a, 271, 1);
    var a2 := UNext(p, a1, 272, 8, 255);
    var a3 := UNext(p, a2, 280, 16, 300);
    var a4 := UNext(p, a3, 296, 16, 200);
  }

  lemma OverscanOf444(a: Bits, x: Overscan)
    requires a <= ToBits(Payload444()) && |a| == 312
    requires x == Overscan(1, 1)
    ensures OverscanBits(a, x) <= ToBits(Payload444()) && |OverscanBits(a, x)| == 314
  {
    hide ToBits, Pow2, U, U1, Ue, SeBits, Payload444;
    Powers();
    BytesOf444();
    var p := Payload444();
    var a1 := FlagNext(p, a, 312, 1);
    var a2 := FlagNext(p, a1, 313, 1);
  }

  lemma VideoOf444Part1(a: Bits) returns (b: Bits)
    requires a <= ToBits(Payload444()) && |a| == 314
    ensures b == a + U1(1) + U(3, 5) + U1(1) + U1(1) + U(8, 9) + U(8, 16)
    ensures b <= ToBits(Payload444()) && |b| == 336
  {
    hide ToBits, Pow2, U, U1, Ue, SeBits, Payload444;
    Powers();
    BytesOf444();
    var p := Payload444();
    var a1 := FlagNext(p, a, 314, 1);
    var a2 := UNext(p, a1, 315, 3, 5);
    var a3 := FlagNext(p, a2, 318, 1);
    var a4 := FlagNext(p, a3, 319, 1);
    var a5 := UNext(p, a4, 320, 8, 9);
    b := UNext(p, a5, 328, 8, 16);
  }

  lemma VideoOf444(a: Bits, x: Video)
    requires a <= ToBits(Payload444()) && |a| == 314
    requires x == Video(1, 5, 1, 1, 9, 16, 10)
    ensures VideoBits(a, x) <= ToBits(Payload444()) && |VideoBits(a, x)| == 344
  {
    hide ToBits, Pow2, U, U1, Ue, SeBits, Payload444;
    Powers();
    BytesOf444();
    var p := Payload444();
    var a6 := VideoOf444Part1(a);
    var a7 := UNext(p, a6, 336, 8, 10);
  }

  lemma LocationOf444(a: Bits, x: ChromaLoc)
    requires a <= ToBits(Payload444()) && |a| == 344
    requires x == ChromaLoc(1, 2, 3)
    ensures ChromaLocBits(a, x) <= ToBits(Payload444()) && |ChromaLocBits(a, x)| == 353
  {
    hide ToBits, Pow2, U, U1, Ue, SeBits, Payload444;
    Powers();
    BytesOf444();
    var p := Payload444();
    var a1 := FlagNext(p, a, 344, 1);
    var a2 := UeNext(p, a1, 345, 2, 2);
    var a3 := UeNext(p, a2, 348, 3, 3);
  }

  lemma TimingOf444(a: Bits, x: Timing)
    requires a <= ToBits(Payload444()) && |a| == 353
    requires x == Timing(1, 305419896, 591751049, 1)
    ensures TimingBits(a, x) <= ToBits(Payload444()) && |TimingBits(a, x)| == 419
  {
    hide ToBits, Pow2, U, U1, Ue, SeBits, Payload444;
    Powers();
    BytesOf444();
    var p := Payload444();
    var a1 := FlagNext(p, a, 353, 1);
    var a2 := UNext(p, a1, 354, 32, 305419896);
    var a3 := UNext(p, a2, 386, 32, 591751049);
    var a4 := FlagNext(p, a3, 418, 1);
  }

  lemma NalEntriesOf444Part1(a: Bits) returns (b: Bits)
    requires a <= ToBits(Payload444()) && |a| == 420
    ensures b == a + Ue(1) + U(4, 2) + U(4, 3)
    ensures b <= ToBits(Payload444()) && |b| == 431
  {
    hide ToBits, Pow2, U, U1, Ue, SeBits, Payload444;
    Powers();
    BytesOf444();
    var p := Payload444();
    var a1 := UeNext(p, a, 420, 2, 1);
    var a2 := UNext(p, a1, 423, 4, 2);
    b := UNext(p, a2, 427, 4, 3);
  }

  lemma NalEntriesOf444Part2(a: Bits) returns (b: Bits)
    requires a <= ToBits(Payload444()) && |a| == 431
    ensures b == a + Ue(100) + Ue(300) + U1(1)
    ensures b <= ToBits(Payload444()) && |b| == 462
  {
    hide ToBits, Pow2, U, U1, Ue, SeBits, Payload444;
    Powers();
    BytesOf444();
    var p := Payload444();
    var a1 := UeNext(p, a, 431, 7, 100);
    var a2 := UeNext(p, a1, 444, 9, 300);
    b := FlagNext(p, a2, 461, 1);
  }

  lemma NalEntriesOf444Part3(a: Bits) returns (b: Bits)
    requires a <= ToBits(Payload444()) && |a| == 462
    ensures b == a + Ue(200) + Ue(400) + U1(0)
    ensures b <= ToBits(Payload444()) && |b| == 495
  {
    hide ToBits, Pow2, U, U1, Ue, SeBits, Payload444;
    Powers();
    BytesOf444();
    var p := Payload444();
    var a1 := UeNext(p, a, 462, 8, 200);
    var a2 := UeNext(p, a1, 477, 9, 400);
    b := FlagNext(p, a2, 494, 0);
  }

  lemma NalEntriesOf444(a: Bits, x: Hrd)
    requires a <= ToBits(Payload444()) && |a| == 420
    requires x == Hrd(1, 2, 3, Cpb(Padded([100, 200], 32), Padded([300, 400], 32), Padded([1, 0], 32)), 23, 22, 21, 20)
    ensures CpbBits(a + Ue(1) + U(4, 2) + U(4, 3), x.cpb, 0, 2) <= ToBits(Payload444()) && |CpbBits(a + Ue(1) + U(4, 2) + U(4, 3), x.cpb, 0, 2)| == 495
  {
    hide ToBits, Pow2, U, U1, Ue, SeBits, CpbBits, Payload444;
    var a3 := NalEntriesOf444Part1(a);
    NextCpb(a3, x.cpb, 0, 2);
    var a6 := NalEntriesOf444Part2(a3);
    NextCpb(a6, x.cpb, 1, 2);
    var a9 := NalEntriesOf444Part3(a6);
    NextCpb(a9, x.cpb, 2, 2);
  }

  lemma NalHrdOf444(a: Bits, x: Hrd)
    requires a <= ToBits(Payload444()) && |a| == 420
    requires x == Hrd(1, 2, 3, Cpb(Padded([100, 200], 32), Padded([300, 400], 32), Padded([1, 0], 32)), 23, 22, 21, 20)
    requires x.Sendable()
    ensures HrdBits(a, x) <= ToBits(Payload444()) && |HrdBits(a, x)| == 515
  {
    hide ToBits, Pow2, U, U1, Ue, SeBits, CpbBits, Payload444;
    Powers();
    BytesOf444();
    var p := Payload444();
    NalEntriesOf444(a, x);
    var a0 := CpbBits(a + Ue(1) + U(4, 2) + U(4, 3), x.cpb, 0, 2);
    var a1 := UNext(p, a0, 495, 5, 23);
    var a2 := UNext(p, a1, 500, 5, 22);
    var a3 := UNext(p, a2, 505, 5, 21);
    var a4 := UNext(p, a3, 510, 5, 20);
  }

  lemma VclEntriesOf444(a: Bits, x: Hrd)
    requires a <= ToBits(Payload444()) && |a| == 516
    requires x == Hrd(0, 1, 4, Cpb(Padded([50], 32), Padded([60], 32), Padded([1], 32)), 11, 12, 13, 14)
    ensures CpbBits(a + Ue(0) + U(4, 1) + U(4, 4), x.cpb, 0, 1) <= ToBits(Payload444()) && |CpbBits(a + Ue(0) + U(4, 1) + U(4, 4), x.cpb, 0, 1)| == 548
  {
    hide ToBits, Pow2, U, U1, Ue, SeBits, CpbBits, Payload444;
    Powers();
    BytesOf444();
    var p := Payload444();
    var a1 := UeNext(p, a, 516, 1, 0);
    var a2 := UNext(p, a1, 517, 4, 1);
    var a3 := UNext(p, a2, 521, 4, 4);
    NextCpb(a3, x.cpb, 0, 1);
    var a4 := UeNext(p, a3, 525, 6, 50);
    var a5 := UeNext(p, a4, 536, 6, 60);
    var a6 := FlagNext(p, a5, 547, 1);
    NextCpb(a6, x.cpb, 1, 1);
  }

  lemma VclHrdOf444(a: Bits, x: Hrd)
    requires a <= ToBits(Payload444()) && |a| == 516
    requires x == Hrd(0, 1, 4, Cpb(Padded([50], 32), Padded([60], 32), Padded([1], 32)), 11, 12, 13, 14)
    requires x.Sendable()
    ensures HrdBits(a, x) <= ToBits(Payload444()) && |HrdBits(a, x)| == 568
  {
    hide ToBits, Pow2, U, U1, Ue, SeBits, CpbBits, Payload444;
    Powers();
    BytesOf444();
    var p := Payload444();
    VclEntriesOf444(a, x);
    var a0 := CpbBits(a + Ue(0) + U(4, 1) + U(4, 4), x.cpb, 0, 1);
    var a1 := UNext(p, a0, 548, 5, 11);
    var a2 := UNext(p, a1, 553, 5, 12);
    var a3 := UNext(p, a2, 558, 5, 13);
    var a4 := UNext(p, a3, 563, 5, 14);
  }

  lemma HrdInfoOf444(a: Bits, x: HrdInfo)
    requires a <= ToBits(Payload444()) && |a| == 419
    requires x == HrdInfo(1, Hrd(1, 2, 3, Cpb(Padded([100, 200], 32), Padded([300, 400], 32), Padded([1, 0], 32)), 23, 22, 21, 20), 1, Hrd(0, 1, 4, Cpb(Padded([50], 32), Padded([60], 32), Padded([1], 32)), 11, 12, 13, 14), 1)
    requires x.Sendable()
    ensures HrdInfoBits(a, x) <= ToBits(Payload444()) && |HrdInfoBits(a, x)| == 569
  {
    hide ToBits, Pow2, U, U1, Ue, SeBits, HrdBits, Payload444;
    Powers();
    BytesOf444();
    var p := Payload444();
    var a1 := FlagNext(p, a, 419, 1);
    NalHrdOf444(a1, x.nal);
    var a2 := HrdBits(a1, x.nal);
    var a3 := FlagNext(p, a2, 515, 1);
    VclHrdOf444(a3, x.vcl);
    var a4 := HrdBits(a3, x.vcl);
    var a5 := FlagNext(p, a4, 568, 1);
  }

  lemma PicStructOf444(a: Bits)
    requires a <= ToBits(Payload444()) && |a| == 569
    ensures (a + U1(1)) <= ToBits(Payload444()) && |(a + U1(1))| == 570
  {
    hide ToBits, Pow2, U, U1, Ue, SeBits, Payload444;
    Powers();
    BytesOf444();
    var p := Payload444();
    var a1 := FlagNext(p, a, 569, 1);
  }

  lemma RestrictionOf444Part1(a: Bits) returns (b: Bits)
    requires a <= ToBits(Payload444()) && |a| == 570
    ensures b == a + U1(1) + U1(1) + Ue(3) + Ue(4) + Ue(10) + Ue(11)
    ensures b <= ToBits(Payload444()) && |b| == 596
  {
    hide ToBits, Pow2, U, U1, Ue, SeBits, Payload444;
    Powers();
    BytesOf444();
    var p := Payload444();
    var a1 := FlagNext(p, a, 570, 1);
    var a2 := FlagNext(p, a1, 571, 1);
    var a3 := UeNext(p, a2, 572, 3, 3);
    var a4 := UeNext(p, a3, 577, 3, 4);
    var a5 := UeNext(p, a4, 582, 4, 10);
    b := UeNext(p, a5, 589, 4, 11);
  }

  lemma RestrictionOf444Part2(a: Bits) returns (b: Bits)
    requires a <= ToBits(Payload444()) && |a| == 596
    ensures b == a + Ue(2) + Ue(5)
    ensures b <= ToBits(Payload444()) && |b| == 604
  {
    hide ToBits, Pow2, U, U1, Ue, SeBits, Payload444;
    Powers();
    BytesOf444();
    var p := Payload444();
    var a1 := UeNext(p, a, 596, 2, 2);
    b := UeNext(p, a1, 599, 3, 5);
  }

  lemma RestrictionOf444(a: Bits, x: Restriction)
    requires a <= ToBits(Payload444()) && |a| == 570
    requires x == Restriction(1, 1, 3, 4, 10, 11, 2, 5)
    ensures RestrictionBits(a, x) <= ToBits(Payload444()) && |RestrictionBits(a, x)| == 604
  {
    hide ToBits, Pow2, U, U1, Ue, SeBits, Payload444;
    var a6 := RestrictionOf444Part1(a);
    var a8 := RestrictionOf444Part2(a6);
  }

  lemma TrailingOf444(a: Bits)
    requires a <= ToBits(Payload444()) && |a| == 604
    ensures (a + U(4, 8)) <= ToBits(Payload444()) && |(a + U(4, 8))| == 608
  {
    hide ToBits, Pow2, U, U1, Ue, SeBits, Payload444;
    Powers();
    BytesOf444();
    var p := Payload444();
    var a1 := UNext(p, a, 604, 4, 8);
  }

  lemma MatrixAllowed444(m: Matrix)
    requires m == Matrix(ZeroSeq(12)[0 := 1][2 := 1][6 := 1][11 := 1], WithList(WithList(WithList(WithList(ZeroLists(), 0, ScalingList(seq(16, _ => 8), 1)), 2, ScalingList([10, 137, 9] + seq(13, _ => 200), 0)), 6, ScalingList(seq(64, _ => 12), 0)), 11, ScalingList([20] + seq(63, _ => 21), 0)))
    ensures CanonicalLists(m, 12) && SendableLists(m, 12) && WritableLists(m, 12)
  {
    hide SendableFrom;
    ModestSendable(m.lists[0], 0, 8, 8);
    ModestSendable(m.lists[2], 0, 8, 8);
    ModestSendable(m.lists[6], 0, 8, 8);
    ModestSendable(m.lists[11], 0, 8, 8);
  }

  lemma VuiAllowed444(x: Vui)
    requires x == Vui(Aspect(1, 255, 300, 200),
      Overscan(1, 1),
      Video(1, 5, 1, 1, 9, 16, 10),
      ChromaLoc(1, 2, 3),
      Timing(1, 305419896, 591751049, 1),
      HrdInfo(1, Hrd(1, 2, 3, Cpb(Padded([100, 200], 32), Padded([300, 400], 32), Padded([1, 0], 32)), 23, 22, 21, 20), 1, Hrd(0, 1, 4, Cpb(Padded([50], 32), Padded([60], 32), Padded([1], 32)), 11, 12, 13, 14), 1),
      1,
      Restriction(1, 1, 3, 4, 10, 11, 2, 5))
    ensures x.Canonical() && x.Sendable()
  {
    hide Pow2;
    Powers();
  }

  lemma Allowed444(x: Sps)
    requires x == Sps(Head(244, 1, 0, 1, 1, 0, 1, 0, 51, 5),
        Chroma(3, 1, 2, 4, 1, 1, Matrix(ZeroSeq(12)[0 := 1][2 := 1][6 := 1][11 := 1], WithList(WithList(WithList(WithList(ZeroLists(), 0, ScalingList(seq(16, _ => 8), 1)), 2, ScalingList([10, 137, 9] + seq(13, _ => 200), 0)), 6, ScalingList(seq(64, _ => 12), 0)), 11, ScalingList([20] + seq(63, _ => 21), 0)))),
        Poc(6, 1, 0, 1, -3, 5, 2, Padded([7, -9], 256)),
        Frame(4, 1, 119, 67, 0, 1, 1, 1, 1, 2, 3, 4),
        1,
        Vui(Aspect(1, 255, 300, 200),
          Overscan(1, 1),
          Video(1, 5, 1, 1, 9, 16, 10),
          ChromaLoc(1, 2, 3),
          Timing(1, 305419896, 591751049, 1),
          HrdInfo(1, Hrd(1, 2, 3, Cpb(Padded([100, 200], 32), Padded([300, 400], 32), Padded([1, 0], 32)), 23, 22, 21, 20), 1, Hrd(0, 1, 4, Cpb(Padded([50], 32), Padded([60], 32), Padded([1], 32)), 11, 12, 13, 14), 1),
          1,
          Restriction(1, 1, 3, 4, 10, 11, 2, 5)))
    ensures x.Canonical() && x.Writable()
  {
    hide Pow2, CanonicalList, WritableList, SendableList, SendableFrom, Vui.Canonical, Vui.Sendable;
    Powers();
    MatrixAllowed444(x.chroma.matrix);
    VuiAllowed444(x.vui);
  }

  lemma VuiOf444(a: Bits, x: Vui)
    requires a <= ToBits(Payload444()) && |a| == 271
    requires x.Sendable() && x == Vui(Aspect(1, 255, 300, 200),
      Overscan(1, 1),
      Video(1, 5, 1, 1, 9, 16, 10),
      ChromaLoc(1, 2, 3),
      Timing(1, 305419896, 591751049, 1),
      HrdInfo(1, Hrd(1, 2, 3, Cpb(Padded([100, 200], 32), Padded([300, 400], 32), Padded([1, 0], 32)), 23, 22, 21, 20), 1, Hrd(0, 1, 4, Cpb(Padded([50], 32), Padded([60], 32), Padded([1], 32)), 11, 12, 13, 14), 1),
      1,
      Restriction(1, 1, 3, 4, 10, 11, 2, 5))
    ensures VuiBits(a, x) <= ToBits(Payload444()) && |VuiBits(a, x)| == 604
  {
    hide ToBits, U1, AspectBits, OverscanBits, VideoBits, ChromaLocBits, TimingBits, HrdInfoBits, RestrictionBits;
    AspectOf444(a, x.aspect);
    var aaspect := AspectBits(a, x.aspect);
    OverscanOf444(aaspect, x.overscan);
    var aoverscan := OverscanBits(aaspect, x.overscan);
    VideoOf444(aoverscan, x.video);
    var avideo := VideoBits(aoverscan, x.video);
    LocationOf444(avideo, x.chromaLoc);
    var achromaLoc := ChromaLocBits(avideo, x.chromaLoc);
    TimingOf444(achromaLoc, x.timing);
    var atiming := TimingBits(achromaLoc, x.timing);
    HrdInfoOf444(atiming, x.hrd);
    var ahrd := HrdInfoBits(atiming, x.hrd);
    PicStructOf444(ahrd);
    RestrictionOf444(ahrd + U1(1), x.restriction);
  }

  lemma SetOf444(a: Bits, x: Sps)
    requires a <= ToBits(Payload444()) && |a| == 8
    requires x.Sendable() && x == Sps(Head(244, 1, 0, 1, 1, 0, 1, 0, 51, 5),
        Chroma(3, 1, 2, 4, 1, 1, Matrix(ZeroSeq(12)[0 := 1][2 := 1][6 := 1][11 := 1], WithList(WithList(WithList(WithList(ZeroLists(), 0, ScalingList(seq(16, _ => 8), 1)), 2, ScalingList([10, 137, 9] + seq(13, _ => 200), 0)), 6, ScalingList(seq(64, _ => 12), 0)), 11, ScalingList([20] + seq(63, _ => 21), 0)))),
        Poc(6, 1, 0, 1, -3, 5, 2, Padded([7, -9], 256)),
        Frame(4, 1, 119, 67, 0, 1, 1, 1, 1, 2, 3, 4),
        1,
        Vui(Aspect(1, 255, 300, 200),
          Overscan(1, 1),
          Video(1, 5, 1, 1, 9, 16, 10),
          ChromaLoc(1, 2, 3),
          Timing(1, 305419896, 591751049, 1),
          HrdInfo(1, Hrd(1, 2, 3, Cpb(Padded([100, 200], 32), Padded([300, 400], 32), Padded([1, 0], 32)), 23, 22, 21, 20), 1, Hrd(0, 1, 4, Cpb(Padded([50], 32), Padded([60], 32), Padded([1], 32)), 11, 12, 13, 14), 1),
          1,
          Restriction(1, 1, 3, 4, 10, 11, 2, 5)))
    ensures SpsBits(a, x) <= ToBits(Payload444()) && |SpsBits(a, x)| == 604
  {
    hide ToBits, U1, HeadBits, ChromaBits, PocBits, FrameBits, VuiBits;
    HeadOf444(a, x.head);
    var a0 := HeadBits(a, x.head);
    ChromaOf444(a0, x.chroma);
    var a1 := ChromaBits(a0, 244, x.chroma);
    PocOf444(a1, x.poc);
    var a2 := PocBits(a1, x.poc);
    FrameOf444(a2, x.frame);
    var a3 := FrameBits(a2, x.frame);
    VuiFlagOf444(a3);
    VuiOf444(a3 + U1(1), x.vui);
  }

  lemma AsIs444()
    ensures Escaped(Payload444(), 0) == Payload444()
  {
    hide Payload444, Escaped;
    BytesOf444();
    SentAsIs(Payload444(), 0);
  }

  lemma PayloadOf444(x: Sps)
    requires x.Sendable() && x == Sps(Head(244, 1, 0, 1, 1, 0, 1, 0, 51, 5),
        Chroma(3, 1, 2, 4, 1, 1, Matrix(ZeroSeq(12)[0 := 1][2 := 1][6 := 1][11 := 1], WithList(WithList(WithList(WithList(ZeroLists(), 0, ScalingList(seq(16, _ => 8), 1)), 2, ScalingList([10, 137, 9] + seq(13, _ => 200), 0)), 6, ScalingList(seq(64, _ => 12), 0)), 11, ScalingList([20] + seq(63, _ => 21), 0)))),
        Poc(6, 1, 0, 1, -3, 5, 2, Padded([7, -9], 256)),
        Frame(4, 1, 119, 67, 0, 1, 1, 1, 1, 2, 3, 4),
        1,
        Vui(Aspect(1, 255, 300, 200),
          Overscan(1, 1),
          Video(1, 5, 1, 1, 9, 16, 10),
          ChromaLoc(1, 2, 3),
          Timing(1, 305419896, 591751049, 1),
          HrdInfo(1, Hrd(1, 2, 3, Cpb(Padded([100, 200], 32), Padded([300, 400], 32), Padded([1, 0], 32)), 23, 22, 21, 20), 1, Hrd(0, 1, 4, Cpb(Padded([50], 32), Padded([60], 32), Padded([1], 32)), 11, 12, 13, 14), 1),
          1,
          Restriction(1, 1, 3, 4, 10, 11, 2, 5)))
    ensures RbspBits(Nal(3, 7), x) == ToBits(Payload444())
  {
    hide ToBits, NalHeaderBits, SpsBits, UBits, U, Payload444, TrailingBits, Sps.Sendable;
    BytesOf444();
    HeaderOf444([]);
    var a := NalHeaderBits(Nal(3, 7));
    SetOf444(a, x);
    TrailingOf444(SpsBits(a, x));
    Stop4(604);
    AllSent(ToBits(Payload444()), SpsBits(a, x) + U(4, 8));
  }

  /** A set of the High 4:4:4 profile with every optional part: scaling lists, offsets, cropping, VUI and
      both HRD records. */
  lemma Known444(unit: seq<byte>, x: Sps)
    requires unit == [0x67, 0xf4, 0xb4, 0x33, 0x31, 0x2c, 0xbc, 0x22, 0x90, 0x07, 0xf0, 0x04, 0x04, 0x04, 0x18, 0x1c]
      + [0x04, 0x40, 0x64, 0x21, 0x84, 0x0a, 0xce, 0xa7, 0x14, 0xc7, 0x04, 0xcb, 0x03, 0xc0, 0x11, 0x1d]
      + [0x32, 0x17, 0xff, 0x01, 0x2c, 0x00, 0xc8, 0xf7, 0x09, 0x10, 0x0a, 0xb2, 0x44, 0x8d, 0x15, 0x9e]
      + [0x08, 0xd1, 0x59, 0xe2, 0x74, 0x46, 0x06, 0x50, 0x09, 0x6c, 0x06, 0x48, 0x06, 0x45, 0x7b, 0x56]
      + [0x98, 0xa0, 0x33, 0x07, 0xb5, 0xb1, 0xae, 0xf2, 0x14, 0x58, 0xc6, 0x68]
    requires x == Sps(Head(244, 1, 0, 1, 1, 0, 1, 0, 51, 5),
        Chroma(3, 1, 2, 4, 1, 1, Matrix(ZeroSeq(12)[0 := 1][2 := 1][6 := 1][11 := 1], WithList(WithList(WithList(WithList(ZeroLists(), 0, ScalingList(seq(16, _ => 8), 1)), 2, ScalingList([10, 137, 9] + seq(13, _ => 200), 0)), 6, ScalingList(seq(64, _ => 12), 0)), 11, ScalingList([20] + seq(63, _ => 21), 0)))),
        Poc(6, 1, 0, 1, -3, 5, 2, Padded([7, -9], 256)),
        Frame(4, 1, 119, 67, 0, 1, 1, 1, 1, 2, 3, 4),
        1,
        Vui(Aspect(1, 255, 300, 200),
          Overscan(1, 1),
          Video(1, 5, 1, 1, 9, 16, 10),
          ChromaLoc(1, 2, 3),
          Timing(1, 305419896, 591751049, 1),
          HrdInfo(1, Hrd(1, 2, 3, Cpb(Padded([100, 200], 32), Padded([300, 400], 32), Padded([1, 0], 32)), 23, 22, 21, 20), 1, Hrd(0, 1, 4, Cpb(Padded([50], 32), Padded([60], 32), Padded([1], 32)), 11, 12, 13, 14), 1),
          1,
          Restriction(1, 1, 3, 4, 10, 11, 2, 5)))
    ensures x.Canonical() && x.Writable()
    ensures EncodedUnit(Nal(3, 7), x) == unit
    ensures DecodedUnit(unit) == SpsUnit(Nal(3, 7), x, 76)
  {
    hide ToBits, RbspBits, Escaped, DecodedUnit, Sps.Canonical, Sps.Writable, Sps.Sendable;
    Allowed444(x);
    SendableToo(x);
    PayloadOf444(x);
    BytesOf444();
    PackToBits(Payload444());
    AsIs444();
    assert IsU(2, 3) by { Pow2Values(); }
    UnitRoundTrip(Nal(3, 7), x);
  }

  // ----- a High set -----

  function PayloadHigh(): seq<byte> {
    [0x27, 0x64, 0x48, 0x2a, 0x49, 0x30, 0x93, 0x30, 0x28, 0x0f, 0x6c, 0x39, 0x60, 0xd5, 0x84, 0x09]
    + [0x04, 0x43, 0x20, 0x80]
  }

  lemma BytesOfHigh()
    ensures |PayloadHigh()| == 20
    ensures PayloadHigh()[0] == 0x27 && PayloadHigh()[1] == 0x64 && PayloadHigh()[2] == 0x48 && PayloadHigh()[3] == 0x2a
    ensures PayloadHigh()[4] == 0x49 && PayloadHigh()[5] == 0x30 && PayloadHigh()[6] == 0x93 && PayloadHigh()[7] == 0x30
    ensures PayloadHigh()[8] == 0x28 && PayloadHigh()[9] == 0x0f && PayloadHigh()[10] == 0x6c && PayloadHigh()[11] == 0x39
    ensures PayloadHigh()[12] == 0x60 && PayloadHigh()[13] == 0xd5 && PayloadHigh()[14] == 0x84 && PayloadHigh()[15] == 0x09
    ensures PayloadHigh()[16] == 0x04 && PayloadHigh()[17] == 0x43 && PayloadHigh()[18] == 0x20 && PayloadHigh()[19] == 0x80
  {
  }

  lemma HeaderOfHigh(a: Bits)
    requires a <= ToBits(PayloadHigh()) && |a| == 0
    requires a == []
    ensures NalHeaderBits(Nal(1, 7)) <= ToBits(PayloadHigh()) && |NalHeaderBits(Nal(1, 7))| == 8
  {
    hide ToBits, Pow2, U, U1, Ue, SeBits, PayloadHigh;
    Powers();
    BytesOfHigh();
    var p := PayloadHigh();
    var a1 := UNext(p, a, 0, 1, 0);
    var a2 := UNext(p, a1, 1, 2, 1);
    var a3 := UNext(p, a2, 3, 5, 7);
    HeaderFromNothing(Nal(1, 7));
  }

  lemma HeadOfHighPart1(a: Bits) returns (b: Bits)
    requires a <= ToBits(PayloadHigh()) && |a| == 8
    ensures b == a + U(8, 100) + U1(0) + U1(1) + U1(0) + U1(0) + U1(1)
    ensures b <= ToBits(PayloadHigh()) && |b| == 21
  {
    hide ToBits, Pow2, U, U1, Ue, SeBits, PayloadHigh;
    Powers();
    BytesOfHigh();
    var p := PayloadHigh();
    var a1 := UNext(p, a, 8, 8, 100);
    var a2 := FlagNext(p, a1, 16, 0);
    var a3 := FlagNext(p, a2, 17, 1);
    var a4 := FlagNext(p, a3, 18, 0);
    var a5 := FlagNext(p, a4, 19, 0);
    b := FlagNext(p, a5, 20, 1);
  }

  lemma HeadOfHighPart2(a: Bits) returns (b: Bits)
    requires a <= ToBits(PayloadHigh()) && |a| == 21
    ensures b == a + U1(0) + U(2, 0) + U(8, 42) + Ue(1)
    ensures b <= ToBits(PayloadHigh()) && |b| == 35
  {
    hide ToBits, Pow2, U, U1, Ue, SeBits, PayloadHigh;
    Powers();
    BytesOfHigh();
    var p := PayloadHigh();
    var a1 := FlagNext(p, a, 21, 0);
    var a2 := UNext(p, a1, 22, 2, 0);
    var a3 := UNext(p, a2, 24, 8, 42);
    b := UeNext(p, a3, 32, 2, 1);
  }

  lemma HeadOfHigh(a: Bits, x: Head)
    requires a <= ToBits(PayloadHigh()) && |a| == 8
    requires x == Head(100, 0, 1, 0, 0, 1, 0, 0, 42, 1)
    ensures HeadBits(a, x) <= ToBits(PayloadHigh()) && |HeadBits(a, x)| == 35
  {
    hide ToBits, Pow2, U, U1, Ue, SeBits, PayloadHigh;
    var a6 := HeadOfHighPart1(a);
    var a10 := HeadOfHighPart2(a6);
  }

  lemma ChromaOfHigh(a: Bits, x: Chroma)
    requires a <= ToBits(PayloadHigh()) && |a| == 35
    requires x == Chroma(1, 0, 1, 2, 0, 0, ZeroMatrix())
    ensures ChromaBits(a, 100, x) <= ToBits(PayloadHigh()) && |ChromaBits(a, 100, x)| == 46
  {
    hide ToBits, Pow2, U, U1, Ue, SeBits, MatrixBits, ScalingListBits, PayloadHigh;
    Powers();
    BytesOfHigh();
    var p := PayloadHigh();
    var a1 := UeNext(p, a, 35, 2, 1);
    var a2 := UeNext(p, a1, 38, 2, 1);
    var a3 := UeNext(p, a2, 41, 2, 2);
    var a4 := FlagNext(p, a3, 44, 0);
    var a5 := FlagNext(p, a4, 45, 0);
  }

  lemma PocOfHigh(a: Bits, x: Poc)
    requires a <= ToBits(PayloadHigh()) && |a| == 46
    requires x == Poc(3, 0, 5, 0, 0, 0, 0, ZeroSeq(256))
    ensures PocBits(a, x) <= ToBits(PayloadHigh()) && |PocBits(a, x)| == 57
  {
    hide ToBits, Pow2, U, U1, Ue, SeBits, OffsetsBits, PayloadHigh;
    Powers();
    BytesOfHigh();
    var p := PayloadHigh();
    var a1 := UeNext(p, a, 46, 3, 3);
    var a2 := UeNext(p, a1, 51, 1, 0);
    var a3 := UeNext(p, a2, 52, 3, 5);
  }

  lemma FrameOfHighPart1(a: Bits) returns (b: Bits)
    requires a <= ToBits(PayloadHigh()) && |a| == 57
    ensures b == a + Ue(2) + U1(0) + Ue(39) + Ue(29) + U1(1) + U1(1)
    ensures b <= ToBits(PayloadHigh()) && |b| == 83
  {
    hide ToBits, Pow2, U, U1, Ue, SeBits, PayloadHigh;
    Powers();
    BytesOfHigh();
    var p := PayloadHigh();
    var a1 := UeNext(p, a, 57, 2, 2);
    var a2 := FlagNext(p, a1, 60, 0);
    var a3 := UeNext(p, a2, 61, 6, 39);
    var a4 := UeNext(p, a3, 72, 5, 29);
    var a5 := FlagNext(p, a4, 81, 1);
    b := FlagNext(p, a5, 82, 1);
  }

  lemma FrameOfHigh(a: Bits, x: Frame)
    requires a <= ToBits(PayloadHigh()) && |a| == 57
    requires x == Frame(2, 0, 39, 29, 1, 0, 1, 0, 0, 0, 0, 0)
    ensures FrameBits(a, x) <= ToBits(PayloadHigh()) && |FrameBits(a, x)| == 84
  {
    hide ToBits, Pow2, U, U1, Ue, SeBits, PayloadHigh;
    Powers();
    BytesOfHigh();
    var p := PayloadHigh();
    var a6 := FrameOfHighPart1(a);
    var a7 := FlagNext(p, a6, 83, 0);
  }

  lemma VuiFlagOfHigh(a: Bits)
    requires a <= ToBits(PayloadHigh()) && |a| == 84
    ensures (a + U1(1)) <= ToBits(PayloadHigh()) && |(a + U1(1))| == 85
  {
    hide ToBits, Pow2, U, U1, Ue, SeBits, PayloadHigh;
    Powers();
    BytesOfHigh();
    var p := PayloadHigh();
    var a1 := FlagNext(p, a, 84, 1);
  }

  lemma AspectOfHigh(a: Bits, x: Aspect)
    requires a <= ToBits(PayloadHigh()) && |a| == 85
    requires x == Aspect(1, 14, 0, 0)
    ensures AspectBits(a, x) <= ToBits(PayloadHigh()) && |AspectBits(a, x)| == 94
  {
    hide ToBits, Pow2, U, U1, Ue, SeBits, PayloadHigh;
    Powers();
    BytesOfHigh();
    var p := PayloadHigh();
    var a1 := FlagNext(p, a, 85, 1);
    var a2 := UNext(p, a1, 86, 8, 14);
  }

  lemma OverscanOfHigh(a: Bits, x: Overscan)
    requires a <= ToBits(PayloadHigh()) && |a| == 94
    requires x == Overscan(0, 0)
    ensures OverscanBits(a, x) <= ToBits(PayloadHigh()) && |OverscanBits(a, x)| == 95
  {
    hide ToBits, Pow2, U, U1, Ue, SeBits, PayloadHigh;
    Powers();
    BytesOfHigh();
    var p := PayloadHigh();
    var a1 := FlagNext(p, a, 94, 0);
  }

  lemma VideoOfHigh(a: Bits, x: Video)
    requires a <= ToBits(PayloadHigh()) && |a| == 95
    requires x == Video(1, 3, 0, 0, 0, 0, 0)
    ensures VideoBits(a, x) <= ToBits(PayloadHigh()) && |VideoBits(a, x)| == 101
  {
    hide ToBits, Pow2, U, U1, Ue, SeBits, PayloadHigh;
    Powers();
    BytesOfHigh();
    var p := PayloadHigh();
    var a1 := FlagNext(p, a, 95, 1);
    var a2 := UNext(p, a1, 96, 3, 3);
    var a3 := FlagNext(p, a2, 99, 0);
    var a4 := FlagNext(p, a3, 100, 0);
  }

  lemma LocationOfHigh(a: Bits, x: ChromaLoc)
    requires a <= ToBits(PayloadHigh()) && |a| == 101
    requires x == ChromaLoc(0, 0, 0)
    ensures ChromaLocBits(a, x) <= ToBits(PayloadHigh()) && |ChromaLocBits(a, x)| == 102
  {
    hide ToBits, Pow2, U, U1, Ue, SeBits, PayloadHigh;
    Powers();
    BytesOfHigh();
    var p := PayloadHigh();
    var a1 := FlagNext(p, a, 101, 0);
  }

  lemma TimingOfHigh(a: Bits, x: Timing)
    requires a <= ToBits(PayloadHigh()) && |a| == 102
    requires x == Timing(0, 0, 0, 0)
    ensures TimingBits(a, x) <= ToBits(PayloadHigh()) && |TimingBits(a, x)| == 103
  {
    hide ToBits, Pow2, U, U1, Ue, SeBits, PayloadHigh;
    Powers();
    BytesOfHigh();
    var p := PayloadHigh();
    var a1 := FlagNext(p, a, 102, 0);
  }

  lemma VclEntriesOfHigh(a: Bits, x: Hrd)
    requires a <= ToBits(PayloadHigh()) && |a| == 105
    requires x == Hrd(0, 5, 6, Cpb(Padded([7], 32), Padded([8], 32), Padded([0], 32)), 1, 2, 3, 4)
    ensures CpbBits(a + Ue(0) + U(4, 5) + U(4, 6), x.cpb, 0, 1) <= ToBits(PayloadHigh()) && |CpbBits(a + Ue(0) + U(4, 5) + U(4, 6), x.cpb, 0, 1)| == 129
  {
    hide ToBits, Pow2, U, U1, Ue, SeBits, CpbBits, PayloadHigh;
    Powers();
    BytesOfHigh();
    var p := PayloadHigh();
    var a1 := UeNext(p, a, 105, 1, 0);
    var a2 := UNext(p, a1, 106, 4, 5);
    var a3 := UNext(p, a2, 110, 4, 6);
    NextCpb(a3, x.cpb, 0, 1);
    var a4 := UeNext(p, a3, 114, 4, 7);
    var a5 := UeNext(p, a4, 121, 4, 8);
    var a6 := FlagNext(p, a5, 128, 0);
    NextCpb(a6, x.cpb, 1, 1);
  }

  lemma VclHrdOfHigh(a: Bits, x: Hrd)
    requires a <= ToBits(PayloadHigh()) && |a| == 105
    requires x == Hrd(0, 5, 6, Cpb(Padded([7], 32), Padded([8], 32), Padded([0], 32)), 1, 2, 3, 4)
    requires x.Sendable()
    ensures HrdBits(a, x) <= ToBits(PayloadHigh()) && |HrdBits(a, x)| == 149
  {
    hide ToBits, Pow2, U, U1, Ue, SeBits, CpbBits, PayloadHigh;
    Powers();
    BytesOfHigh();
    var p := PayloadHigh();
    VclEntriesOfHigh(a, x);
    var a0 := CpbBits(a + Ue(0) + U(4, 5) + U(4, 6), x.cpb, 0, 1);
    var a1 := UNext(p, a0, 129, 5, 1);
    var a2 := UNext(p, a1, 134, 5, 2);
    var a3 := UNext(p, a2, 139, 5, 3);
    var a4 := UNext(p, a3, 144, 5, 4);
  }

  lemma HrdInfoOfHigh(a: Bits, x: HrdInfo)
    requires a <= ToBits(PayloadHigh()) && |a| == 103
    requires x == HrdInfo(0, ZeroHrd(), 1, Hrd(0, 5, 6, Cpb(Padded([7], 32), Padded([8], 32), Padded([0], 32)), 1, 2, 3, 4), 0)
    requires x.Sendable()
    ensures HrdInfoBits(a, x) <= ToBits(PayloadHigh()) && |HrdInfoBits(a, x)| == 150
  {
    hide ToBits, Pow2, U, U1, Ue, SeBits, HrdBits, PayloadHigh;
    Powers();
    BytesOfHigh();
    var p := PayloadHigh();
    var a1 := FlagNext(p, a, 103, 0);
    var a2 := FlagNext(p, a1, 104, 1);
    VclHrdOfHigh(a2, x.vcl);
    var a3 := HrdBits(a2, x.vcl);
    var a4 := FlagNext(p, a3, 149, 0);
  }

  lemma PicStructOfHigh(a: Bits)
    requires a <= ToBits(PayloadHigh()) && |a| == 150
    ensures (a + U1(0)) <= ToBits(PayloadHigh()) && |(a + U1(0))| == 151
  {
    hide ToBits, Pow2, U, U1, Ue, SeBits, PayloadHigh;
    Powers();
    BytesOfHigh();
    var p := PayloadHigh();
    var a1 := FlagNext(p, a, 150, 0);
  }

  lemma RestrictionOfHigh(a: Bits, x: Restriction)
    requires a <= ToBits(PayloadHigh()) && |a| == 151
    requires x == Restriction(0, 0, 0, 0, 0, 0, 0, 0)
    ensures RestrictionBits(a, x) <= ToBits(PayloadHigh()) && |RestrictionBits(a, x)| == 152
  {
    hide ToBits, Pow2, U, U1, Ue, SeBits, PayloadHigh;
    Powers();
    BytesOfHigh();
    var p := PayloadHigh();
    var a1 := FlagNext(p, a, 151, 0);
  }

  lemma TrailingOfHigh(a: Bits)
    requires a <= ToBits(PayloadHigh()) && |a| == 152
    ensures (a + U(8, 128)) <= ToBits(PayloadHigh()) && |(a + U(8, 128))| == 160
  {
    hide ToBits, Pow2, U, U1, Ue, SeBits, PayloadHigh;
    Powers();
    BytesOfHigh();
    var p := PayloadHigh();
    var a1 := UNext(p, a, 152, 8, 128);
  }

  lemma VuiAllowedHigh(x: Vui)
    requires x == Vui(Aspect(1, 14, 0, 0),
      Overscan(0, 0),
      Video(1, 3, 0, 0, 0, 0, 0),
      ChromaLoc(0, 0, 0),
      Timing(0, 0, 0, 0),
      HrdInfo(0, ZeroHrd(), 1, Hrd(0, 5, 6, Cpb(Padded([7], 32), Padded([8], 32), Padded([0], 32)), 1, 2, 3, 4), 0),
      0,
      Restriction(0, 0, 0, 0, 0, 0, 0, 0))
    ensures x.Canonical() && x.Sendable()
  {
    hide Pow2;
    Powers();
  }

  lemma AllowedHigh(x: Sps)
    requires x == Sps(Head(100, 0, 1, 0, 0, 1, 0, 0, 42, 1),
        Chroma(1, 0, 1, 2, 0, 0, ZeroMatrix()),
        Poc(3, 0, 5, 0, 0, 0, 0, ZeroSeq(256)),
        Frame(2, 0, 39, 29, 1, 0, 1, 0, 0, 0, 0, 0),
        1,
        Vui(Aspect(1, 14, 0, 0),
          Overscan(0, 0),
          Video(1, 3, 0, 0, 0, 0, 0),
          ChromaLoc(0, 0, 0),
          Timing(0, 0, 0, 0),
          HrdInfo(0, ZeroHrd(), 1, Hrd(0, 5, 6, Cpb(Padded([7], 32), Padded([8], 32), Padded([0], 32)), 1, 2, 3, 4), 0),
          0,
          Restriction(0, 0, 0, 0, 0, 0, 0, 0)))
    ensures x.Canonical() && x.Writable()
  {
    hide Pow2, CanonicalList, WritableList, SendableList, SendableFrom, Vui.Canonical, Vui.Sendable;
    Powers();
    VuiAllowedHigh(x.vui);
  }

  lemma VuiOfHigh(a: Bits, x: Vui)
    requires a <= ToBits(PayloadHigh()) && |a| == 85
    requires x.Sendable() && x == Vui(Aspect(1, 14, 0, 0),
      Overscan(0, 0),
      Video(1, 3, 0, 0, 0, 0, 0),
      ChromaLoc(0, 0, 0),
      Timing(0, 0, 0, 0),
      HrdInfo(0, ZeroHrd(), 1, Hrd(0, 5, 6, Cpb(Padded([7], 32), Padded([8], 32), Padded([0], 32)), 1, 2, 3, 4), 0),
      0,
      Restriction(0, 0, 0, 0, 0, 0, 0, 0))
    ensures VuiBits(a, x) <= ToBits(PayloadHigh()) && |VuiBits(a, x)| == 152
  {
    hide ToBits, U1, AspectBits, OverscanBits, VideoBits, ChromaLocBits, TimingBits, HrdInfoBits, RestrictionBits;
    AspectOfHigh(a, x.aspect);
    var aaspect := AspectBits(a, x.aspect);
    OverscanOfHigh(aaspect, x.overscan);
    var aoverscan := OverscanBits(aaspect, x.overscan);
    VideoOfHigh(aoverscan, x.video);
    var avideo := VideoBits(aoverscan, x.video);
    LocationOfHigh(avideo, x.chromaLoc);
    var achromaLoc := ChromaLocBits(avideo, x.chromaLoc);
    TimingOfHigh(achromaLoc, x.timing);
    var atiming := TimingBits(achromaLoc, x.timing);
    HrdInfoOfHigh(atiming, x.hrd);
    var ahrd := HrdInfoBits(atiming, x.hrd);
    PicStructOfHigh(ahrd);
    RestrictionOfHigh(ahrd + U1(0), x.restriction);
  }

  lemma SetOfHigh(a: Bits, x: Sps)
    requires a <= ToBits(PayloadHigh()) && |a| == 8
    requires x.Sendable() && x == Sps(Head(100, 0, 1, 0, 0, 1, 0, 0, 42, 1),
        Chroma(1, 0, 1, 2, 0, 0, ZeroMatrix()),
        Poc(3, 0, 5, 0, 0, 0, 0, ZeroSeq(256)),
        Frame(2, 0, 39, 29, 1, 0, 1, 0, 0, 0, 0, 0),
        1,
        Vui(Aspect(1, 14, 0, 0),
          Overscan(0, 0),
          Video(1, 3, 0, 0, 0, 0, 0),
          ChromaLoc(0, 0, 0),
          Timing(0, 0, 0, 0),
          HrdInfo(0, ZeroHrd(), 1, Hrd(0, 5, 6, Cpb(Padded([7], 32), Padded([8], 32), Padded([0], 32)), 1, 2, 3, 4), 0),
          0,
          Restriction(0, 0, 0, 0, 0, 0, 0, 0)))
    ensures SpsBits(a, x) <= ToBits(PayloadHigh()) && |SpsBits(a, x)| == 152
  {
    hide ToBits, U1, HeadBits, ChromaBits, PocBits, FrameBits, VuiBits;
    HeadOfHigh(a, x.head);
    var a0 := HeadBits(a, x.head);
    ChromaOfHigh(a0, x.chroma);
    var a1 := ChromaBits(a0, 100, x.chroma);
    PocOfHigh(a1, x.poc);
    var a2 := PocBits(a1, x.poc);
    FrameOfHigh(a2, x.frame);
    var a3 := FrameBits(a2, x.frame);
    VuiFlagOfHigh(a3);
    VuiOfHigh(a3 + U1(1), x.vui);
  }

  lemma AsIsHigh()
    ensures Escaped(PayloadHigh(), 0) == PayloadHigh()
  {
    hide PayloadHigh, Escaped;
    BytesOfHigh();
    SentAsIs(PayloadHigh(), 0);
  }

  lemma PayloadOfHigh(x: Sps)
    requires x.Sendable() && x == Sps(Head(100, 0, 1, 0, 0, 1, 0, 0, 42, 1),
        Chroma(1, 0, 1, 2, 0, 0, ZeroMatrix()),
        Poc(3, 0, 5, 0, 0, 0, 0, ZeroSeq(256)),
        Frame(2, 0, 39, 29, 1, 0, 1, 0, 0, 0, 0, 0),
        1,
        Vui(Aspect(1, 14, 0, 0),
          Overscan(0, 0),
          Video(1, 3, 0, 0, 0, 0, 0),
          ChromaLoc(0, 0, 0),
          Timing(0, 0, 0, 0),
          HrdInfo(0, ZeroHrd(), 1, Hrd(0, 5, 6, Cpb(Padded([7], 32), Padded([8], 32), Padded([0], 32)), 1, 2, 3, 4), 0),
          0,
          Restriction(0, 0, 0, 0, 0, 0, 0, 0)))
    ensures RbspBits(Nal(1, 7), x) == ToBits(PayloadHigh())
  {
    hide ToBits, NalHeaderBits, SpsBits, UBits, U, PayloadHigh, TrailingBits, Sps.Sendable;
    BytesOfHigh();
    HeaderOfHigh([]);
    var a := NalHeaderBits(Nal(1, 7));
    SetOfHigh(a, x);
    TrailingOfHigh(SpsBits(a, x));
    Stop8(152);
    AllSent(ToBits(PayloadHigh()), SpsBits(a, x) + U(8, 128));
  }

  /** A set of the High profile with the other branch of most conditions: picture order count of type 0,
      frames only, no cropping, a listed aspect ratio, no colour description, one HRD record. */
  lemma KnownHigh(unit: seq<byte>, x: Sps)
    requires unit == [0x27, 0x64, 0x48, 0x2a, 0x49, 0x30, 0x93, 0x30, 0x28, 0x0f, 0x6c, 0x39, 0x60, 0xd5, 0x84, 0x09]
      + [0x04, 0x43, 0x20, 0x80]
    requires x == Sps(Head(100, 0, 1, 0, 0, 1, 0, 0, 42, 1),
        Chroma(1, 0, 1, 2, 0, 0, ZeroMatrix()),
        Poc(3, 0, 5, 0, 0, 0, 0, ZeroSeq(256)),
        Frame(2, 0, 39, 29, 1, 0, 1, 0, 0, 0, 0, 0),
        1,
        Vui(Aspect(1, 14, 0, 0),
          Overscan(0, 0),
          Video(1, 3, 0, 0, 0, 0, 0),
          ChromaLoc(0, 0, 0),
          Timing(0, 0, 0, 0),
          HrdInfo(0, ZeroHrd(), 1, Hrd(0, 5, 6, Cpb(Padded([7], 32), Padded([8], 32), Padded([0], 32)), 1, 2, 3, 4), 0),
          0,
          Restriction(0, 0, 0, 0, 0, 0, 0, 0)))
    ensures x.Canonical() && x.Writable()
    ensures EncodedUnit(Nal(1, 7), x) == unit
    ensures DecodedUnit(unit) == SpsUnit(Nal(1, 7), x, 20)
  {
    hide ToBits, RbspBits, Escaped, DecodedUnit, Sps.Canonical, Sps.Writable, Sps.Sendable;
    AllowedHigh(x);
    SendableToo(x);
    PayloadOfHigh(x);
    BytesOfHigh();
    PackToBits(PayloadHigh());
    AsIsHigh();
    assert IsU(2, 1) by { Pow2Values(); }
    UnitRoundTrip(Nal(1, 7), x);
  }

  // ----- a Baseline set -----

  function PayloadBaseline(): seq<byte> {
    [0x47, 0x42, 0xc0, 0x1e, 0x76, 0x80, 0x50, 0x05, 0xb9]
  }

  lemma BytesOfBaseline()
    ensures |PayloadBaseline()| == 9
    ensures PayloadBaseline()[0] == 0x47 && PayloadBaseline()[1] == 0x42 && PayloadBaseline()[2] == 0xc0 && PayloadBaseline()[3] == 0x1e
    ensures PayloadBaseline()[4] == 0x76 && PayloadBaseline()[5] == 0x80 && PayloadBaseline()[6] == 0x50 && PayloadBaseline()[7] == 0x05
    ensures PayloadBaseline()[8] == 0xb9
  {
  }

  lemma HeaderOfBaseline(a: Bits)
    requires a <= ToBits(PayloadBaseline()) && |a| == 0
    requires a == []
    ensures NalHeaderBits(Nal(2, 7)) <= ToBits(PayloadBaseline()) && |NalHeaderBits(Nal(2, 7))| == 8
  {
    hide ToBits, Pow2, U, U1, Ue, SeBits, PayloadBaseline;
    Powers();
    BytesOfBaseline();
    var p := PayloadBaseline();
    var a1 := UNext(p, a, 0, 1, 0);
    var a2 := UNext(p, a1, 1, 2, 2);
    var a3 := UNext(p, a2, 3, 5, 7);
    HeaderFromNothing(Nal(2, 7));
  }

  lemma HeadOfBaselinePart1(a: Bits) returns (b: Bits)
    requires a <= ToBits(PayloadBaseline()) && |a| == 8
    ensures b == a + U(8, 66) + U1(1) + U1(1) + U1(0) + U1(0) + U1(0)
    ensures b <= ToBits(PayloadBaseline()) && |b| == 21
  {
    hide ToBits, Pow2, U, U1, Ue, SeBits, PayloadBaseline;
    Powers();
    BytesOfBaseline();
    var p := PayloadBaseline();
    var a1 := UNext(p, a, 8, 8, 66);
    var a2 := FlagNext(p, a1, 16, 1);
    var a3 := FlagNext(p, a2, 17, 1);
    var a4 := FlagNext(p, a3, 18, 0);
    var a5 := FlagNext(p, a4, 19, 0);
    b := FlagNext(p, a5, 20, 0);
  }

  lemma HeadOfBaselinePart2(a: Bits) returns (b: Bits)
    requires a <= ToBits(PayloadBaseline()) && |a| == 21
    ensures b == a + U1(0) + U(2, 0) + U(8, 30) + Ue(2)
    ensures b <= ToBits(PayloadBaseline()) && |b| == 35
  {
    hide ToBits, Pow2, U, U1, Ue, SeBits, PayloadBaseline;
    Powers();
    BytesOfBaseline();
    var p := PayloadBaseline();
    var a1 := FlagNext(p, a, 21, 0);
    var a2 := UNext(p, a1, 22, 2, 0);
    var a3 := UNext(p, a2, 24, 8, 30);
    b := UeNext(p, a3, 32, 2, 2);
  }

  lemma HeadOfBaseline(a: Bits, x: Head)
    requires a <= ToBits(PayloadBaseline()) && |a| == 8
    requires x == Head(66, 1, 1, 0, 0, 0, 0, 0, 30, 2)
    ensures HeadBits(a, x) <= ToBits(PayloadBaseline()) && |HeadBits(a, x)| == 35
  {
    hide ToBits, Pow2, U, U1, Ue, SeBits, PayloadBaseline;
    var a6 := HeadOfBaselinePart1(a);
    var a10 := HeadOfBaselinePart2(a6);
  }

  lemma PocOfBaseline(a: Bits, x: Poc)
    requires a <= ToBits(PayloadBaseline()) && |a| == 35
    requires x == Poc(0, 2, 0, 0, 0, 0, 0, ZeroSeq(256))
    ensures PocBits(a, x) <= ToBits(PayloadBaseline()) && |PocBits(a, x)| == 39
  {
    hide ToBits, Pow2, U, U1, Ue, SeBits, OffsetsBits, PayloadBaseline;
    Powers();
    BytesOfBaseline();
    var p := PayloadBaseline();
    var a1 := UeNext(p, a, 35, 1, 0);
    var a2 := UeNext(p, a1, 36, 2, 2);
  }

  lemma FrameOfBaselinePart1(a: Bits) returns (b: Bits)
    requires a <= ToBits(PayloadBaseline()) && |a| == 39
    ensures b == a + Ue(1) + U1(0) + Ue(79) + Ue(44) + U1(1) + U1(1)
    ensures b <= ToBits(PayloadBaseline()) && |b| == 69
  {
    hide ToBits, Pow2, U, U1, Ue, SeBits, PayloadBaseline;
    Powers();
    BytesOfBaseline();
    var p := PayloadBaseline();
    var a1 := UeNext(p, a, 39, 2, 1);
    var a2 := FlagNext(p, a1, 42, 0);
    var a3 := UeNext(p, a2, 43, 7, 79);
    var a4 := UeNext(p, a3, 56, 6, 44);
    var a5 := FlagNext(p, a4, 67, 1);
    b := FlagNext(p, a5, 68, 1);
  }

  lemma FrameOfBaseline(a: Bits, x: Frame)
    requires a <= ToBits(PayloadBaseline()) && |a| == 39
    requires x == Frame(1, 0, 79, 44, 1, 0, 1, 0, 0, 0, 0, 0)
    ensures FrameBits(a, x) <= ToBits(PayloadBaseline()) && |FrameBits(a, x)| == 70
  {
    hide ToBits, Pow2, U, U1, Ue, SeBits, PayloadBaseline;
    Powers();
    BytesOfBaseline();
    var p := PayloadBaseline();
    var a6 := FrameOfBaselinePart1(a);
    var a7 := FlagNext(p, a6, 69, 0);
  }

  lemma VuiFlagOfBaseline(a: Bits)
    requires a <= ToBits(PayloadBaseline()) && |a| == 70
    ensures (a + U1(0)) <= ToBits(PayloadBaseline()) && |(a + U1(0))| == 71
  {
    hide ToBits, Pow2, U, U1, Ue, SeBits, PayloadBaseline;
    Powers();
    BytesOfBaseline();
    var p := PayloadBaseline();
    var a1 := FlagNext(p, a, 70, 0);
  }

  lemma TrailingOfBaseline(a: Bits)
    requires a <= ToBits(PayloadBaseline()) && |a| == 71
    ensures (a + U(1, 1)) <= ToBits(PayloadBaseline()) && |(a + U(1, 1))| == 72
  {
    hide ToBits, Pow2, U, U1, Ue, SeBits, PayloadBaseline;
    Powers();
    BytesOfBaseline();
    var p := PayloadBaseline();
    var a1 := UNext(p, a, 71, 1, 1);
  }

  lemma AllowedBaseline(x: Sps)
    requires x == Sps(Head(66, 1, 1, 0, 0, 0, 0, 0, 30, 2),
        DefaultChroma(),
        Poc(0, 2, 0, 0, 0, 0, 0, ZeroSeq(256)),
        Frame(1, 0, 79, 44, 1, 0, 1, 0, 0, 0, 0, 0),
        0,
        ZeroVui())
    ensures x.Canonical() && x.Writable()
  {
    hide Pow2, CanonicalList, WritableList, SendableList, SendableFrom;
    Powers();
  }

  lemma SetOfBaseline(a: Bits, x: Sps)
    requires a <= ToBits(PayloadBaseline()) && |a| == 8
    requires x.Sendable() && x == Sps(Head(66, 1, 1, 0, 0, 0, 0, 0, 30, 2),
        DefaultChroma(),
        Poc(0, 2, 0, 0, 0, 0, 0, ZeroSeq(256)),
        Frame(1, 0, 79, 44, 1, 0, 1, 0, 0, 0, 0, 0),
        0,
        ZeroVui())
    ensures SpsBits(a, x) <= ToBits(PayloadBaseline()) && |SpsBits(a, x)| == 71
  {
    hide ToBits, U1, HeadBits, ChromaBits, PocBits, FrameBits, VuiBits;
    HeadOfBaseline(a, x.head);
    var a0 := HeadBits(a, x.head);
    assert ChromaBits(a0, 66, x.chroma) == a0 by { NoChroma(a0, 66, x.chroma); }
    var a1 := ChromaBits(a0, 66, x.chroma);
    PocOfBaseline(a1, x.poc);
    var a2 := PocBits(a1, x.poc);
    FrameOfBaseline(a2, x.frame);
    var a3 := FrameBits(a2, x.frame);
    VuiFlagOfBaseline(a3);
  }

  lemma AsIsBaseline()
    ensures Escaped(PayloadBaseline(), 0) == PayloadBaseline()
  {
    hide PayloadBaseline, Escaped;
    BytesOfBaseline();
    SentAsIs(PayloadBaseline(), 0);
  }

  lemma PayloadOfBaseline(x: Sps)
    requires x.Sendable() && x == Sps(Head(66, 1, 1, 0, 0, 0, 0, 0, 30, 2),
        DefaultChroma(),
        Poc(0, 2, 0, 0, 0, 0, 0, ZeroSeq(256)),
        Frame(1, 0, 79, 44, 1, 0, 1, 0, 0, 0, 0, 0),
        0,
        ZeroVui())
    ensures RbspBits(Nal(2, 7), x) == ToBits(PayloadBaseline())
  {
    hide ToBits, NalHeaderBits, SpsBits, UBits, U, PayloadBaseline, TrailingBits, Sps.Sendable;
    BytesOfBaseline();
    HeaderOfBaseline([]);
    var a := NalHeaderBits(Nal(2, 7));
    SetOfBaseline(a, x);
    TrailingOfBaseline(SpsBits(a, x));
    Stop1(71);
    AllSent(ToBits(PayloadBaseline()), SpsBits(a, x) + U(1, 1));
  }

  /** A set of the Baseline profile: no chroma part, picture order count of type 2, no VUI. */
  lemma KnownBaseline(unit: seq<byte>, x: Sps)
    requires unit == [0x47, 0x42, 0xc0, 0x1e, 0x76, 0x80, 0x50, 0x05, 0xb9]
    requires x == Sps(Head(66, 1, 1, 0, 0, 0, 0, 0, 30, 2),
        DefaultChroma(),
        Poc(0, 2, 0, 0, 0, 0, 0, ZeroSeq(256)),
        Frame(1, 0, 79, 44, 1, 0, 1, 0, 0, 0, 0, 0),
        0,
        ZeroVui())
    ensures x.Canonical() && x.Writable()
    ensures EncodedUnit(Nal(2, 7), x) == unit
    ensures DecodedUnit(unit) == SpsUnit(Nal(2, 7), x, 9)
  {
    hide ToBits, RbspBits, Escaped, DecodedUnit, Sps.Canonical, Sps.Writable, Sps.Sendable;
    AllowedBaseline(x);
    SendableToo(x);
    PayloadOfBaseline(x);
    BytesOfBaseline();
    PackToBits(PayloadBaseline());
    AsIsBaseline();
    assert IsU(2, 2) by { Pow2Values(); }
    UnitRoundTrip(Nal(2, 7), x);
  }
}
