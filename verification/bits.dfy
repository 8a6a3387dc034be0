/** Bit strings and the codes of sections 7.2, 9.1 and 9.1.1 of H.264, as values.
    A bit string is read from its most significant bit on. An encoder extends an
    accumulated prefix; a parser maps a string and a position to a value and the
    position after it, and sees zeros beyond the end of the string. */
module BitCodes {

  type Bits = seq<bool>

  type byte = x: int | 0 <= x < 256

  const TWO_TO_THE_31: int := 0x8000_0000
  const TWO_TO_THE_32: int := 0x1_0000_0000

  // ----- fixed-width codes -----

  function Pow2(n: nat): (r: nat)
    ensures r >= 1
  {
    if n == 0 then 1 else 2 * Pow2(n - 1)
  }

  /** The low n bits of v. */
  function UBits(n: nat, v: nat): (code: Bits)
    ensures |code| == n
  {
    if n == 0 then [] else UBits(n - 1, v / 2) + [v % 2 == 1]
  }

  function BitVal(s: Bits, pos: nat): (r: nat)
    ensures r <= 1
  {
    if pos < |s| && s[pos] then 1 else 0
  }

  /** The value of the n bits from pos on. */
  function UVal(s: Bits, pos: nat, n: nat): (r: nat)
    ensures r < Pow2(n)
  {
    if n == 0 then 0 else 2 * UVal(s, pos, n - 1) + BitVal(s, pos + n - 1)
  }

  function Zeros(n: nat): (z: Bits)
    ensures |z| == n && forall i :: 0 <= i < n ==> !z[i]
  {
    seq(n, _ => false)
  }

  function ZeroSeq(n: nat): (z: seq<byte>)
    ensures |z| == n && forall i :: 0 <= i < n ==> z[i] == 0
  {
    seq(n, _ => 0)
  }

  lemma Associate<T>(a: seq<T>, b: seq<T>, c: seq<T>)
    ensures a + (b + c) == (a + b) + c
  {
  }

  lemma Pow2Small()
    ensures Pow2(1) == 2 && Pow2(2) == 4 && Pow2(3) == 8 && Pow2(4) == 16 && Pow2(5) == 32
    ensures Pow2(6) == 64 && Pow2(7) == 128 && Pow2(8) == 256
  {
  }

  lemma Pow2Values()
    ensures Pow2(1) == 2 && Pow2(2) == 4 && Pow2(3) == 8 && Pow2(4) == 16 && Pow2(5) == 32
    ensures Pow2(6) == 64 && Pow2(7) == 128 && Pow2(8) == 256 && Pow2(16) == 0x1_0000
    ensures Pow2(31) == TWO_TO_THE_31 && Pow2(32) == TWO_TO_THE_32
  {
    Pow2Small();
    Pow2Plus(8, 8);
    Pow2Plus(8, 7);
    Pow2Plus(16, 15);
    Pow2Plus(16, 16);
  }

  lemma {:induction false} Pow2Plus(a: nat, b: nat)
    ensures Pow2(a + b) == Pow2(a) * Pow2(b)
  {
    if b == 0 {
      assert Pow2(0) == 1;
    } else {
      Pow2Plus(a, b - 1);
      assert Pow2(a + b) == 2 * Pow2(a + (b - 1));
      TwiceTimes(Pow2(a), Pow2(b - 1));
      assert Pow2(b) == 2 * Pow2(b - 1);
    }
  }

  lemma TwiceTimes(d: nat, q: nat)
    ensures (2 * d) * q == 2 * (d * q) == d * (2 * q)
  {
  }

  lemma {:induction false} Pow2Monotone(a: nat, b: nat)
    requires a <= b
    ensures Pow2(a) <= Pow2(b)
  {
    if a < b {
      Pow2Monotone(a, b - 1);
    }
  }

  lemma PrefixOfSum(acc: Bits, code: Bits, s: Bits)
    requires acc + code <= s
    ensures acc <= s
    ensures forall i :: 0 <= i < |code| ==> s[|acc| + i] == code[i]
  {
    assert (acc + code)[..|acc|] == acc;
    assert s[..|acc|] == s[..|acc| + |code|][..|acc|];
    forall i | 0 <= i < |code| ensures s[|acc| + i] == code[i] {
      assert s[..|acc| + |code|][|acc| + i] == (acc + code)[|acc| + i];
    }
  }

  /** Reading n bits returns what was written as n bits. */
  lemma {:induction false} UAt(acc: Bits, n: nat, v: nat, s: Bits)
    requires acc + UBits(n, v) <= s && v < Pow2(n)
    ensures acc <= s && UVal(s, |acc|, n) == v
  {
    PrefixOfSum(acc, UBits(n, v), s);
    if n > 0 {
      var head := UBits(n - 1, v / 2);
      assert acc + UBits(n, v) == (acc + head) + [v % 2 == 1];
      PrefixOfSum(acc + head, [v % 2 == 1], s);
      UAt(acc, n - 1, v / 2, s);
      assert s[|acc + head| + 0] == (v % 2 == 1);
    }
  }

  // ----- Exp-Golomb codes (section 9.1) -----

  /** Position of the leading one bit. */
  function Log2(v: nat): (k: nat)
    requires v >= 1
    ensures Pow2(k) <= v < 2 * Pow2(k)
  {
    if v == 1 then 0 else 1 + Log2(v / 2)
  }

  /** ue(v): k zeros, a one, then the k bits below the leading one of v + 1. */
  function UeBits(v: nat): (code: Bits)
  {
    var k := Log2(v + 1);
    Zeros(k) + [true] + UBits(k, v + 1 - Pow2(k))
  }

  /** The zeros before the first one bit; gives up at the end of the string and after 32. */
  function ZeroRun(s: Bits, pos: nat, i: nat): (r: (nat, nat))
    requires i <= 32
    ensures i <= r.0 <= 32 && pos <= r.1
    decreases 32 - i
  {
    if pos >= |s| || i >= 32 then (i, pos)
    else if s[pos] then (i, pos + 1)
    else ZeroRun(s, pos + 1, i + 1)
  }

  function ParseUe(s: Bits, pos: nat): (r: (nat, nat))
    ensures r.0 < TWO_TO_THE_32 - 1 && pos <= r.1
  {
    var (i, p) := ZeroRun(s, pos, 0);
    if i >= 32 then (0, p)
    else
      Pow2Values();
      Pow2Monotone(i, 31);
      (UVal(s, p, i) + Pow2(i) - 1, p + i)
  }

  lemma {:induction false} Log2Unique(v: nat, k: nat)
    requires v >= 1 && Pow2(k) <= v < 2 * Pow2(k)
    ensures Log2(v) == k
  {
    if Log2(v) < k {
      Pow2Monotone(Log2(v) + 1, k);
    } else if k < Log2(v) {
      Pow2Monotone(k + 1, Log2(v));
    }
  }

  lemma {:induction false} ZeroRunAt(s: Bits, pos: nat, k: nat, i: nat)
    requires pos + k < |s| && s[pos + k] && i + k < 32
    requires forall j :: pos <= j < pos + k ==> !s[j]
    ensures ZeroRun(s, pos, i) == (i + k, pos + k + 1)
    decreases k
  {
    if k > 0 {
      ZeroRunAt(s, pos + 1, k - 1, i + 1);
    }
  }

  /** A run of zeros, its one bit and the suffix of a code at the end of a prefix of s. */
  lemma CodeParts(acc: Bits, k: nat, tail: Bits, s: Bits)
    requires acc + (Zeros(k) + [true] + tail) <= s
    ensures acc <= s && (acc + (Zeros(k) + [true])) + tail <= s
    ensures |acc| + k < |s| && s[|acc| + k]
    ensures forall j :: |acc| <= j < |acc| + k ==> !s[j]
  {
    var code := Zeros(k) + [true] + tail;
    PrefixOfSum(acc, code, s);
    assert acc + code == (acc + (Zeros(k) + [true])) + tail;
    assert s[|acc| + k] == code[k];
    forall j | |acc| <= j < |acc| + k ensures !s[j] {
      assert s[|acc| + (j - |acc|)] == code[j - |acc|];
    }
  }

  /** bs_read_ue undoes ue(v) for every 32-bit code, at any offset and whatever follows. */
  lemma UeAt(acc: Bits, v: nat, s: Bits)
    requires acc + UeBits(v) <= s && v < TWO_TO_THE_32 - 1
    ensures acc <= s && ParseUe(s, |acc|) == (v, |acc + UeBits(v)|)
  {
    hide UVal, UBits, ZeroRun, Log2, Pow2, Zeros;
    var k := Log2(v + 1);
    Log2OfWord(v + 1);
    var w := v + 1 - Pow2(k);
    CodeParts(acc, k, UBits(k, w), s);
    UAt(acc + (Zeros(k) + [true]), k, w, s);
    ZeroRunAt(s, |acc|, k, 0);
  }

  lemma Log2OfWord(v: nat)
    requires 1 <= v < TWO_TO_THE_32
    ensures Log2(v) <= 31
  {
    Pow2Values();
    if Log2(v) > 31 {
      Pow2Monotone(32, Log2(v));
    }
  }

  /** A number below 2^k written in n more bits gets n leading zeros. */
  lemma {:induction false} LeadingZeros(n: nat, k: nat, v: nat)
    requires v < Pow2(k)
    ensures UBits(n + k, v) == Zeros(n) + UBits(k, v)
  {
    if k > 0 {
      LeadingZeros(n, k - 1, v / 2);
      assert n + k - 1 == n + (k - 1);
    } else if n > 0 {
      LeadingZeros(n - 1, 0, 0);
      assert n + 0 - 1 == (n - 1) + 0;
      assert Zeros(n) == Zeros(n - 1) + [false];
    }
  }

  lemma {:induction false} LeadingOne(k: nat, w: nat)
    requires w < Pow2(k)
    ensures UBits(k + 1, Pow2(k) + w) == [true] + UBits(k, w)
  {
    if k == 0 {
      assert UBits(1, 1) == UBits(0, 0) + [true];
    } else {
      LeadingOne(k - 1, w / 2);
      assert (Pow2(k) + w) / 2 == Pow2(k - 1) + w / 2;
      assert k + 1 - 1 == (k - 1) + 1;
    }
  }

  /** What the writer sends, v + 1 as a 2 * len - 1 bit number, is the code of section 9.1. */
  lemma UeIsOneNumber(v: nat, len: nat)
    requires len == Log2(v + 1) + 1
    ensures UBits(2 * len - 1, v + 1) == UeBits(v)
  {
    var k := Log2(v + 1);
    LeadingOne(k, v + 1 - Pow2(k));
    LeadingZeros(k, k + 1, v + 1);
    assert 2 * len - 1 == k + (k + 1);
    assert UBits(2 * len - 1, v + 1) == Zeros(k) + ([true] + UBits(k, v + 1 - Pow2(k)));
  }

  // ----- signed Exp-Golomb codes (section 9.1.1) and C integer conversions -----

  /** Conversion of a 32-bit pattern to int. */
  function ToInt32(v: nat): (r: int)
    requires v < TWO_TO_THE_32
    ensures -TWO_TO_THE_31 <= r < TWO_TO_THE_31
  {
    if v < TWO_TO_THE_31 then v else v - TWO_TO_THE_32
  }

  /** Conversion of an int to uint32_t. */
  function U32(v: int): (r: nat)
    ensures r < TWO_TO_THE_32
    ensures 0 <= v < TWO_TO_THE_32 ==> r == v
    ensures -TWO_TO_THE_31 <= v < TWO_TO_THE_31 ==> ToInt32(r) == v
    ensures forall k: nat :: k < TWO_TO_THE_32 && ToInt32(k) == v ==> r == k
  {
    v % TWO_TO_THE_32
  }

  /** Division and remainder of C, which truncate toward zero. */
  function CDiv(a: int, b: int): int
    requires b > 0
  {
    if a >= 0 then a / b else -((-a) / b)
  }

  function CMod(a: int, b: int): int
    requires b > 0
  {
    a - b * CDiv(a, b)
  }

  /** The code number that bs_write_se sends. */
  function SeCode(v: int): (k: nat)
  {
    if v <= 0 then -2 * v else 2 * v - 1
  }

  /** The value that bs_read_se makes of a code number. */
  function SeValue(k: nat): (v: int)
    requires k < TWO_TO_THE_32
  {
    var r := ToInt32(k);
    if r % 2 == 1 then CDiv(if r + 1 < TWO_TO_THE_31 then r + 1 else r + 1 - TWO_TO_THE_32, 2)
    else -CDiv(r, 2)
  }

  function SeBits(v: int): Bits {
    UeBits(SeCode(v))
  }

  function ParseSe(s: Bits, pos: nat): (r: (int, nat))
    ensures -TWO_TO_THE_31 < r.0 < TWO_TO_THE_31 && pos <= r.1
  {
    var (k, p) := ParseUe(s, pos);
    (SeValue(k), p)
  }

  /** Table 9-3: code number k stands for (-1)^(k+1) * Ceil(k / 2). The reader agrees up to
      2^31 - 2; code numbers above that no longer fit the int they are stored in. */
  function StandardSe(k: nat): int {
    if k % 2 == 1 then (k + 1) / 2 else -(k / 2)
  }

  lemma SeAgreesWithStandard(k: nat)
    requires k < TWO_TO_THE_32 - 1
    ensures SeValue(k) == StandardSe(k) <==> k < TWO_TO_THE_31 - 1
  {
    if k >= TWO_TO_THE_31 {
      assert k % 2 == (k - TWO_TO_THE_32) % 2;
    }
  }

  lemma SeCodeValue(v: int)
    requires -0x3fff_ffff <= v <= 0x3fff_ffff
    ensures SeCode(v) < TWO_TO_THE_31 - 1 && SeValue(SeCode(v)) == v == StandardSe(SeCode(v))
  {
  }

  lemma SeAt(acc: Bits, v: int, s: Bits)
    requires acc + SeBits(v) <= s && -0x3fff_ffff <= v <= 0x3fff_ffff
    ensures acc <= s && ParseSe(s, |acc|) == (v, |acc + SeBits(v)|)
  {
    UeAt(acc, SeCode(v), s);
    SeCodeValue(v);
  }

  /** The domains of the two writers: the code number plus one has at most 16 bits. */
  predicate IsUe(v: int) {
    0 <= v && v + 1 < 0x1_0000
  }

  predicate IsSe(v: int) {
    -32767 <= v <= 32767
  }

  // ----- shifts, and bytes as bits -----

  /** x >> k */
  function Shr(x: nat, k: nat): nat {
    if k == 0 then x else Shr(x / 2, k - 1)
  }

  /** x << k */
  function Shl(x: nat, k: nat): nat
    decreases k
  {
    if k == 0 then x else Shl(2 * x, k - 1)
  }

  /** (x >> k) & 1 */
  predicate Bit(x: nat, k: nat) {
    Shr(x, k) % 2 == 1
  }

  lemma {:induction false} ShrOnce(x: nat, k: nat)
    ensures Shr(x, k + 1) == Shr(x, k) / 2
  {
    if k > 0 {
      ShrOnce(x / 2, k - 1);
    }
  }

  lemma {:induction false} ShlSum(x: nat, y: nat, k: nat)
    ensures Shl(x, k) + Shl(y, k) == Shl(x + y, k)
    decreases k
  {
    if k > 0 {
      ShlSum(2 * x, 2 * y, k - 1);
    }
  }

  /** (x & ~(1 << k)) | (v << k) */
  function SetBit(x: nat, k: nat, v: bool): nat {
    if k == 0 then x / 2 * 2 + (if v then 1 else 0) else 2 * SetBit(x / 2, k - 1, v) + x % 2
  }

  lemma {:induction false} SetBitSets(x: nat, k: nat, v: bool, j: nat)
    ensures Bit(SetBit(x, k, v), j) == if j == k then v else Bit(x, j)
  {
    if k > 0 && j > 0 {
      SetBitSets(x / 2, k - 1, v, j - 1);
    }
  }

  lemma {:induction false} SetBitBound(x: nat, k: nat, v: bool, m: nat)
    requires x < Pow2(m) && k < m
    ensures SetBit(x, k, v) < Pow2(m)
  {
    var half, h := Pow2(m - 1), x / 2;
    assert Pow2(m) == 2 * half && x == 2 * h + x % 2;
    assert h < half;
    if k > 0 {
      SetBitBound(h, k - 1, v, m - 1);
      assert SetBit(x, k, v) == 2 * SetBit(h, k - 1, v) + x % 2;
    }
  }

  lemma SetBitOfByte(x: byte, k: nat, v: bool)
    requires k < 8
    ensures SetBit(x, k, v) < 256
  {
    Pow2Values();
    SetBitBound(x, k, v, 8);
  }

  lemma {:induction false} BitOfMod(x: nat, m: nat, k: nat)
    requires k < m
    ensures Bit(x % Pow2(m), k) == Bit(x, k)
  {
    var half := Pow2(m - 1);
    var q, r := x / 2 / half, x / 2 % half;
    assert x / 2 == half * q + r;
    assert 2 * (half * q) == Pow2(m) * q;
    ModIs(x, Pow2(m), q, 2 * r + x % 2);
    if k > 0 {
      BitOfMod(x / 2, m - 1, k - 1);
    }
  }

  lemma MulDistributes(d: nat, a: nat, b: nat)
    ensures d * (a - b) == d * a - d * b
  {
  }

  lemma MulAtLeast(d: nat, a: nat)
    requires a > 0
    ensures d * a >= d
  {
  }

  lemma MulNonNegative(a: nat, b: nat)
    ensures a * b >= 0
  {
  }

  lemma ModIs(x: nat, d: nat, q: nat, r: nat)
    requires x == d * q + r && r < d
    ensures x % d == r && x / d == q
  {
    var q', r' := x / d, x % d;
    assert x == d * q' + r' && 0 <= r' < d;
    MulDistributes(d, q, q');
    if q' < q {
      MulAtLeast(d, q - q');
    } else if q' > q {
      MulAtLeast(d, q' - q);
      MulDistributes(d, q', q);
    }
  }

  /** Bit i of an n-bit code is bit n - 1 - i of the number. */
  lemma {:induction false} UBitsBit(n: nat, v: nat, i: nat)
    requires i < n
    ensures UBits(n, v)[i] == Bit(v, n - 1 - i)
  {
    if i < n - 1 {
      UBitsBit(n - 1, v / 2, i);
    }
  }

  /** The bits of a byte buffer, most significant bit of each byte first. */
  function ToBits(buf: seq<byte>): (s: Bits)
    ensures |s| == 8 * |buf|
  {
    if buf == [] then [] else ToBits(buf[..|buf| - 1]) + UBits(8, buf[|buf| - 1])
  }

  lemma {:induction false} ToBitsAt(buf: seq<byte>, i: nat, k: nat)
    requires i < |buf| && k < 8
    ensures ToBits(buf)[8 * i + 7 - k] == Bit(buf[i], k)
  {
    var last := |buf| - 1;
    if i < last {
      ToBitsAt(buf[..last], i, k);
    } else {
      UBitsBit(8, buf[i], 7 - k);
    }
  }

  lemma ToBitsAll(buf: seq<byte>)
    ensures forall i :: 0 <= i < 8 * |buf| ==> ToBits(buf)[i] == Bit(buf[i / 8], 7 - i % 8)
  {
    forall i | 0 <= i < 8 * |buf| ensures ToBits(buf)[i] == Bit(buf[i / 8], 7 - i % 8) {
      ToBitsAt(buf, i / 8, 7 - i % 8);
    }
  }

  /** Setting a bit of a byte sets that bit of the buffer and no other. */
  lemma SetBitInBuffer(buf: seq<byte>, i: nat, k: nat, v: bool, x: byte)
    requires i < |buf| && k < 8 && x == SetBit(buf[i], k, v)
    ensures ToBits(buf[i := x]) == ToBits(buf)[8 * i + 7 - k := v]
  {
    var s, t := ToBits(buf), ToBits(buf[i := x]);
    ToBitsAll(buf);
    ToBitsAll(buf[i := x]);
    forall j | 0 <= j < |t| ensures t[j] == s[8 * i + 7 - k := v][j] {
      if j / 8 == i {
        SetBitSets(buf[i], k, v, 7 - j % 8);
      }
    }
  }

  /** Storing the low eight bits of a number stores its eight-bit code. */
  lemma SetByteInBuffer(buf: seq<byte>, i: nat, v: nat, x: byte)
    requires i < |buf| && x == v % 256
    ensures ToBits(buf[i := x]) == ToBits(buf)[..8 * i] + UBits(8, v) + ToBits(buf)[8 * i + 8..]
  {
    hide ToBits, UBits, Bit;
    var s, t := ToBits(buf), ToBits(buf[i := x]);
    ToBitsAll(buf);
    ToBitsAll(buf[i := x]);
    var w := s[..8 * i] + UBits(8, v) + s[8 * i + 8..];
    forall j | 0 <= j < |t| ensures t[j] == w[j] {
      if j / 8 == i {
        Pow2Values();
        BitOfMod(v, 8, 7 - j % 8);
        UBitsBit(8, v, j % 8);
      }
    }
  }

  /** The byte whose bits are s[8*i..8*i+8]. */
  function ByteAt(s: Bits, i: nat): byte {
    Pow2Values();
    UVal(s, 8 * i, 8)
  }

  /** The bytes of a byte-aligned bit string. */
  function Pack(s: Bits): (buf: seq<byte>)
    ensures |buf| == |s| / 8
  {
    seq(|s| / 8, i requires 0 <= i < |s| / 8 => ByteAt(s, i))
  }

  /** The top n bits of a byte's bits, as a number, are the byte shifted right. */
  lemma {:induction false} ByteValue(buf: seq<byte>, i: nat, n: nat)
    requires i < |buf| && n <= 8
    ensures UVal(ToBits(buf), 8 * i, n) == buf[i] / Pow2(8 - n)
  {
    hide ToBits, Bit;
    if n == 0 {
      Pow2Values();
    } else {
      ByteValue(buf, i, n - 1);
      ToBitsAt(buf, i, 8 - n);
      assert 8 - (n - 1) == (8 - n) + 1;
      BitIsDigit(buf[i], 8 - n);
    }
  }

  lemma {:induction false} BitIsDigit(x: nat, k: nat)
    ensures x / Pow2(k) == 2 * (x / Pow2(k + 1)) + (if Bit(x, k) then 1 else 0)
  {
    if k > 0 {
      BitIsDigit(x / 2, k - 1);
      DivDiv(x, Pow2(k - 1));
      DivDiv(x, Pow2(k));
    }
  }

  lemma DivDiv(x: nat, d: nat)
    requires d > 0
    ensures x / 2 / d == x / (2 * d) && x / d / 2 == x / (2 * d)
  {
    HalfThenDiv(x, d);
    DivThenHalf(x, d);
  }

  lemma HalfThenDiv(x: nat, d: nat)
    requires d > 0
    ensures x / 2 / d == x / (2 * d)
  {
    var h := x / 2;
    var q, r := h / d, h % d;
    assert h == d * q + r;
    TwiceTimes(d, q);
    ModIs(x, 2 * d, q, 2 * r + x % 2);
  }

  lemma DivThenHalf(x: nat, d: nat)
    requires d > 0
    ensures x / d / 2 == x / (2 * d)
  {
    var h, r := x / d, x % d;
    assert x == d * h + r;
    TwiceTimes(d, h / 2);
    if h % 2 == 0 {
      ModIs(x, 2 * d, h / 2, r);
    } else {
      MulDistributes(d, h, 1);
      assert h - 1 == 2 * (h / 2);
      ModIs(x, 2 * d, h / 2, d + r);
    }
  }

  /** Packing the bits of a buffer gives the buffer back, and conversely. */
  lemma PackToBits(buf: seq<byte>)
    ensures Pack(ToBits(buf)) == buf
  {
    forall i | 0 <= i < |buf| ensures Pack(ToBits(buf))[i] == buf[i] {
      ByteValue(buf, i, 8);
    }
  }

  lemma ToBitsPack(s: Bits)
    requires |s| % 8 == 0
    ensures ToBits(Pack(s)) == s
  {
    hide ToBits, UVal, Bit;
    forall i | 0 <= i < |s| ensures ToBits(Pack(s))[i] == s[i] {
      var q, r := i / 8, i % 8;
      ToBitsAt(Pack(s), q, 7 - r);
      UValBit(s, 8 * q, 8, r);
    }
  }

  lemma {:induction false} UValBit(s: Bits, pos: nat, n: nat, i: nat)
    requires pos + n <= |s| && i < n
    ensures Bit(UVal(s, pos, n), n - 1 - i) == s[pos + i]
  {
    var u, h := UVal(s, pos, n), UVal(s, pos, n - 1);
    assert u == 2 * h + BitVal(s, pos + n - 1);
    assert u / 2 == h;
    if i < n - 1 {
      UValBit(s, pos, n - 1, i);
      assert Shr(u, n - 1 - i) == Shr(h, n - 2 - i);
    }
  }
}
