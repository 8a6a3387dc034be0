/** Steps for showing that literal bytes are a written set: fields cut out of bytes by division, and
    the loops of the syntax one round at a time. */
module KnownCodes {
  import opened BitCodes
  import opened NalBytes
  import opened NalUnit
  import opened ScalingLists
  import opened SequenceParameterSet
  import opened SpsCodec
  import opened SpsSyntax
  import opened VuiSyntax

  // ----- fields in bytes -----

  /** k bytes from byte i on, as a number. */
  function WordOf(p: seq<byte>, i: nat, k: nat): nat
    requires 1 <= k <= 5 && i + k <= |p|
  {
    var b: int := p[i];
    if k == 1 then b
    else
      var b1: int := p[i + 1];
      if k == 2 then 0x100 * b + b1
      else
        var b2: int := p[i + 2];
        if k == 3 then 0x1_0000 * b + 0x100 * b1 + b2
        else
          var b3: int := p[i + 3];
          if k == 4 then 0x100_0000 * b + 0x1_0000 * b1 + 0x100 * b2 + b3
          else 0x1_0000_0000 * b + 0x100_0000 * b1 + 0x1_0000 * b2 + 0x100 * b3 + p[i + 4]
  }

  lemma {:induction false} WordIsUVal(p: seq<byte>, i: nat, k: nat)
    requires 1 <= k <= 5 && i + k <= |p|
    ensures UVal(ToBits(p), 8 * i, 8 * k) == WordOf(p, i, k)
    decreases k
  {
    hide UVal, ToBits, Pow2;
    ByteValue(p, i + k - 1, 8);
    PowZero();
    assert p[i + k - 1] / 1 == p[i + k - 1];
    if k > 1 {
      WordIsUVal(p, i, k - 1);
      UValSplit(ToBits(p), 8 * i, 8 * (k - 1), 8);
      assert Pow2(8) == 256 by { Pow2Values(); }
      assert 8 * i + 8 * (k - 1) == 8 * (i + k - 1);
    }
  }

  /** The n bits behind the first off bits of a word are v when v is what division leaves. */
  lemma BitsOfWord(p: seq<byte>, i: nat, k: nat, off: nat, n: nat)
    requires 1 <= k <= 5 && i + k <= |p| && off + n <= 8 * k
    ensures Pow2(n) > 0 && Pow2(8 * k - off - n) > 0
    ensures UVal(ToBits(p), 8 * i + off, n) == WordOf(p, i, k) / Pow2(8 * k - off - n) % Pow2(n)
  {
    hide UVal, ToBits, Pow2, WordOf;
    var s, r := ToBits(p), 8 * k - off - n;
    WordIsUVal(p, i, k);
    UValSplit(s, 8 * i, off + n, r);
    UValSplit(s, 8 * i, off, n);
    var w, high, low, tail := UVal(s, 8 * i, off + n), UVal(s, 8 * i, off), UVal(s, 8 * i + off, n), UVal(s, 8 * i + (off + n), r);
    assert off + n + r == 8 * k;
    assert WordOf(p, i, k) == w * Pow2(r) + tail;
    Commuted(w, Pow2(r));
    ModIs(WordOf(p, i, k), Pow2(r), w, tail);
    Commuted(high, Pow2(n));
    ModIs(w, Pow2(n), high, low);
  }

  lemma Commuted(a: nat, b: nat)
    ensures a * b == b * a
  {
  }

  lemma {:induction false} UBitsOf(s: Bits, pos: nat, n: nat)
    requires pos + n <= |s|
    ensures s[pos..pos + n] == UBits(n, UVal(s, pos, n))
  {
    if n > 0 {
      UBitsOf(s, pos, n - 1);
      var u, h := UVal(s, pos, n), UVal(s, pos, n - 1);
      assert u == 2 * h + BitVal(s, pos + n - 1);
      assert u / 2 == h && (u % 2 == 1 <==> s[pos + n - 1]);
      assert s[pos..pos + n] == s[pos..pos + (n - 1)] + [s[pos + n - 1]];
    }
  }

  lemma NextBits(s: Bits, a: Bits, code: Bits)
    requires a <= s && |a| + |code| <= |s| && s[|a|..|a| + |code|] == code
    ensures a + code <= s && |a + code| == |a| + |code|
  {
    assert s[..|a| + |code|] == s[..|a|] + s[|a|..|a| + |code|];
  }

  /** The n bits from position pos on, cut out of the bytes that hold them. */
  function FieldAt(p: seq<byte>, pos: nat, n: nat): nat
    requires 1 <= n <= 33 && pos + n <= 8 * |p|
  {
    var i, off := pos / 8, pos % 8;
    var k := (off + n + 7) / 8;
    WordOf(p, i, k) / Pow2(8 * k - off - n) % Pow2(n)
  }

  lemma FieldIsUVal(p: seq<byte>, pos: nat, n: nat)
    requires 1 <= n <= 33 && pos + n <= 8 * |p|
    ensures FieldAt(p, pos, n) == UVal(ToBits(p), pos, n)
  {
    hide UVal, ToBits, Pow2, WordOf;
    var i, off := pos / 8, pos % 8;
    var k := (off + n + 7) / 8;
    assert 8 * i + off == pos && 1 <= k <= 5 && off + n <= 8 * k && i + k <= |p|;
    BitsOfWord(p, i, k, off, n);
  }

  lemma NumberNext(p: seq<byte>, a: Bits, pos: nat, n: nat, v: nat)
    requires 1 <= n <= 33 && a <= ToBits(p) && |a| == pos && pos + n <= 8 * |p| && FieldAt(p, pos, n) == v
    ensures a + UBits(n, v) <= ToBits(p)
  {
    hide UVal, ToBits, FieldAt, UBits;
    FieldIsUVal(p, pos, n);
    UBitsOf(ToBits(p), pos, n);
    NextBits(ToBits(p), a, UBits(n, v));
  }

  /** If the next n bits behind the prefix a of a payload are those of v, the prefix goes on. */
  lemma UNext(p: seq<byte>, a: Bits, pos: nat, n: nat, v: nat) returns (b: Bits)
    requires 1 <= n <= 32 && a <= ToBits(p) && |a| == pos && pos + n <= 8 * |p| && FieldAt(p, pos, n) == v < TWO_TO_THE_32
    ensures b == a + U(n, v) && b <= ToBits(p) && |b| == pos + n
  {
    hide UVal, ToBits, FieldAt, UBits;
    NumberNext(p, a, pos, n, v);
    b := a + U(n, v);
  }

  lemma FlagNext(p: seq<byte>, a: Bits, pos: nat, v: nat) returns (b: Bits)
    requires a <= ToBits(p) && |a| == pos && pos + 1 <= 8 * |p| && FieldAt(p, pos, 1) == v < TWO_TO_THE_32
    ensures b == a + U1(v) && b <= ToBits(p) && |b| == pos + 1
  {
    hide UVal, ToBits, FieldAt, UBits;
    b := UNext(p, a, pos, 1, v);
  }

  /** An Exp-Golomb code is v + 1 as a number of 2 * len - 1 bits. */
  lemma CodeNext(p: seq<byte>, a: Bits, pos: nat, len: nat, v: nat)
    requires 1 <= len <= 17 && a <= ToBits(p) && |a| == pos && pos + (2 * len - 1) <= 8 * |p|
    requires Pow2(len - 1) <= v + 1 < 2 * Pow2(len - 1) && FieldAt(p, pos, 2 * len - 1) == v + 1
    ensures a + UeBits(v) <= ToBits(p) && |UeBits(v)| == 2 * len - 1
  {
    hide UVal, ToBits, Pow2, FieldAt, UBits, UeBits;
    Log2Unique(v + 1, len - 1);
    UeIsOneNumber(v, len);
    NumberNext(p, a, pos, 2 * len - 1, v + 1);
  }

  lemma UeNext(p: seq<byte>, a: Bits, pos: nat, len: nat, v: nat) returns (b: Bits)
    requires 1 <= len <= 17 && a <= ToBits(p) && |a| == pos && pos + (2 * len - 1) <= 8 * |p| && v < TWO_TO_THE_32
    requires Pow2(len - 1) <= v + 1 < 2 * Pow2(len - 1) && FieldAt(p, pos, 2 * len - 1) == v + 1
    ensures b == a + Ue(v) && b <= ToBits(p) && |b| == pos + (2 * len - 1)
  {
    hide UVal, ToBits, Pow2, FieldAt, UBits, UeBits;
    CodeNext(p, a, pos, len, v);
    b := a + Ue(v);
  }

  /** code is the code number: 2 * v - 1 for a positive v, -2 * v for any other. */
  lemma SeNext(p: seq<byte>, a: Bits, pos: nat, len: nat, v: int, code: nat) returns (b: Bits)
    requires 1 <= len <= 17 && a <= ToBits(p) && |a| == pos && pos + (2 * len - 1) <= 8 * |p|
    requires Pow2(len - 1) <= code + 1 < 2 * Pow2(len - 1) && FieldAt(p, pos, 2 * len - 1) == code + 1
    requires code == if v > 0 then 2 * v - 1 else -2 * v
    ensures b == a + SeBits(v) && b <= ToBits(p) && |b| == pos + (2 * len - 1)
  {
    hide UVal, ToBits, Pow2, FieldAt, UBits, UeBits;
    CodeNext(p, a, pos, len, code);
    b := a + SeBits(v);
  }

  lemma Powers()
    ensures Pow2(0) == 1 && Pow2(1) == 2 && Pow2(2) == 4 && Pow2(3) == 8 && Pow2(4) == 16 && Pow2(5) == 32
    ensures Pow2(6) == 64 && Pow2(7) == 128 && Pow2(8) == 256 && Pow2(9) == 512 && Pow2(10) == 1024
    ensures Pow2(11) == 2048 && Pow2(12) == 4096 && Pow2(13) == 8192 && Pow2(14) == 16384 && Pow2(15) == 32768
    ensures Pow2(16) == 65536 && Pow2(17) == 131072 && Pow2(18) == 262144 && Pow2(19) == 524288
    ensures Pow2(20) == 1048576 && Pow2(21) == 2097152 && Pow2(22) == 4194304 && Pow2(23) == 8388608
    ensures Pow2(32) == 4294967296
  {
  }

  // ----- steps of the loops -----

  lemma NextList(acc: Bits, m: Matrix, i: nat, count: nat)
    requires i < count <= 12
    ensures MatrixBits(acc, m, i, count) ==
      if m.present[i] == 0 then MatrixBits(acc + U1(0), m, i + 1, count)
      else MatrixBits(ScalingListBits(acc + U1(m.present[i]), m.lists[i]), m, i + 1, count)
  {
    hide U1, ScalingListBits;
  }

  lemma NoMoreLists(acc: Bits, m: Matrix, count: nat)
    requires count <= 12
    ensures MatrixBits(acc, m, count, count) == acc
  {
  }

  /** An entry that differs from the one before, or from a later one, is sent. */
  lemma NextEntry(acc: Bits, l: ScalingList, j: nat, last: int, next: int, d: int)
    requires j < |l.entries| && l.useDefault == 0 && next != 0 && l.entries[j] != 0
    requires j > 0 && l.entries[j] == last ==> exists k :: j < k < |l.entries| && l.entries[k] != last
    requires d == WrapDelta(l.entries[j] - last)
    ensures ListBits(acc, l, j, last, next) == ListBits(acc + SeBits(d), l, j + 1, l.entries[j], l.entries[j])
  {
    hide SeBits;
    if j > 0 && l.entries[j] == last {
      assert !TailIs(l.entries, j + 1, last);
    }
  }

  /** A constant tail ends with one code, and so does a default list. */
  lemma LastEntry(acc: Bits, l: ScalingList, j: nat, last: int, next: int, d: int)
    requires j < |l.entries| && next != 0
    requires l.useDefault != 0 || (j > 0 && forall k :: j <= k < |l.entries| ==> l.entries[k] == last)
    requires d == WrapDelta(0 - last)
    ensures ListBits(acc, l, j, last, next) == acc + SeBits(d)
  {
    hide SeBits;
    assert l.useDefault == 0 ==> TailIs(l.entries, j + 1, last);
    ListBitsExtends(acc + SeBits(d), l, j + 1, l.entries[j], 0);
  }

  lemma NextOffset(acc: Bits, offsets: Ints256, i: nat, count: int)
    requires count <= 256
    ensures OffsetsBits(acc, offsets, i, count) ==
      if i >= count then acc else OffsetsBits(acc + SeBits(offsets[i]), offsets, i + 1, count)
  {
  }

  lemma NextCpb(acc: Bits, x: Cpb, i: nat, count: int)
    requires count <= 32
    ensures CpbBits(acc, x, i, count) ==
      if i >= count then acc
      else CpbBits(acc + Ue(x.bitRateValueMinus1[i]) + Ue(x.cpbSizeValueMinus1[i]) + U1(x.cbrFlag[i]), x, i + 1, count)
  {
    hide Ue, U1;
  }

  /** A payload without two zeros in a row is sent as it is. */
  lemma {:induction false} SentAsIs(p: seq<byte>, count: nat)
    requires count <= 1 && (count == 1 && p != [] ==> p[0] != 0)
    requires forall i :: 0 < i < |p| ==> p[i] != 0 || p[i - 1] != 0
    ensures Escaped(p, count) == p
    decreases |p|
  {
    if p != [] {
      var rest := p[1..];
      forall i | 0 < i < |rest| ensures rest[i] != 0 || rest[i - 1] != 0 {
        assert rest[i] == p[i + 1] && rest[i - 1] == p[i + 1 - 1];
      }
      assert |p| > 1 && p[0] == 0 ==> p[1] != 0;
      SentAsIs(rest, NextCount(count, p[0]));
      PlainByte(p[0], rest, count);
    }
  }

  lemma AllSent(s: Bits, a: Bits)
    requires a <= s && |a| == |s|
    ensures a == s
  {
  }

  function WithList(lists: Lists12, i: nat, l: ScalingList): (r: Lists12)
    requires i < 12 && |l.entries| == ListSize(i)
    ensures r == lists[i := l]
  {
    lists[i := l]
  }

  function Padded(first: seq<int>, n: nat): (r: seq<int>)
    requires |first| <= n
    ensures |r| == n && forall i :: 0 <= i < n ==> r[i] == if i < |first| then first[i] else 0
  {
    first + seq(n - |first|, _ => 0)
  }

  lemma HeaderFromNothing(nal: Nal)
    ensures NalHeaderBits(nal) == [] + U(1, 0) + U(2, nal.refIdc) + U(5, nal.unitType)
  {
    assert [] + U(1, 0) == U(1, 0);
  }

  lemma NoMoreEntries(acc: Bits, l: ScalingList, last: int, next: int)
    ensures ListBits(acc, l, |l.entries|, last, next) == acc
  {
  }

  lemma NoChroma(acc: Bits, profileIdc: int, x: Chroma)
    requires profileIdc == 66
    ensures ChromaBits(acc, profileIdc, x) == acc
  {
  }

  lemma SendableToo(x: Sps)
    requires x.Writable()
    ensures x.Sendable()
  {
  }

  /** The stop bit and no zeros. */
  lemma Stop1(n: nat)
    requires n % 8 == 7
    ensures TrailingBits(n) == U(1, 1)
  {
    assert U(1, 1) == [true] by { StopCode1(); }
  }

  lemma StopCode1()
    ensures UBits(1, 1) == [true]
  {
  }

  /** The stop bit and three zeros. */
  lemma Stop4(n: nat)
    requires n % 8 == 4
    ensures TrailingBits(n) == U(4, 8)
  {
    assert U(4, 8) == [true, false, false, false] by { StopCode4(); }
  }

  lemma StopCode4()
    ensures UBits(4, 8) == [true, false, false, false]
  {
  }

  /** The stop bit and seven zeros. */
  lemma Stop8(n: nat)
    requires n % 8 == 0
    ensures TrailingBits(n) == U(8, 128)
  {
    assert U(8, 128) == [true, false, false, false, false, false, false, false] by { StopCode8(); }
  }

  lemma StopCode8()
    ensures UBits(8, 128) == [true, false, false, false, false, false, false, false]
  {
  }
}
