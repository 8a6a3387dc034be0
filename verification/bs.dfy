/** The bit cursor: one object reads or writes a byte buffer bit by bit. */
module BitCursor {
  import opened BitCodes

  /** The writer's table of code lengths for the values 0..255, in rows of sixteen. */
  const LEN_ROWS: seq<seq<nat>> := [
    [1, 1, 2, 2, 3, 3, 3, 3, 4, 4, 4, 4, 4, 4, 4, 4],
    [5, 5, 5, 5, 5, 5, 5, 5, 5, 5, 5, 5, 5, 5, 5, 5],
    [6, 6, 6, 6, 6, 6, 6, 6, 6, 6, 6, 6, 6, 6, 6, 6],
    [6, 6, 6, 6, 6, 6, 6, 6, 6, 6, 6, 6, 6, 6, 6, 6],
    [7, 7, 7, 7, 7, 7, 7, 7, 7, 7, 7, 7, 7, 7, 7, 7],
    [7, 7, 7, 7, 7, 7, 7, 7, 7, 7, 7, 7, 7, 7, 7, 7],
    [7, 7, 7, 7, 7, 7, 7, 7, 7, 7, 7, 7, 7, 7, 7, 7],
    [7, 7, 7, 7, 7, 7, 7, 7, 7, 7, 7, 7, 7, 7, 7, 7],
    [8, 8, 8, 8, 8, 8, 8, 8, 8, 8, 8, 8, 8, 8, 8, 8],
    [8, 8, 8, 8, 8, 8, 8, 8, 8, 8, 8, 8, 8, 8, 8, 8],
    [8, 8, 8, 8, 8, 8, 8, 8, 8, 8, 8, 8, 8, 8, 8, 8],
    [8, 8, 8, 8, 8, 8, 8, 8, 8, 8, 8, 8, 8, 8, 8, 8],
    [8, 8, 8, 8, 8, 8, 8, 8, 8, 8, 8, 8, 8, 8, 8, 8],
    [8, 8, 8, 8, 8, 8, 8, 8, 8, 8, 8, 8, 8, 8, 8, 8],
    [8, 8, 8, 8, 8, 8, 8, 8, 8, 8, 8, 8, 8, 8, 8, 8],
    [8, 8, 8, 8, 8, 8, 8, 8, 8, 8, 8, 8, 8, 8, 8, 8]
  ]

  function LenTable(v: nat): nat
    requires v < 256
  {
    RowLength();
    LEN_ROWS[v / 16][v % 16]
  }

  lemma RowLength()
    ensures |LEN_ROWS| == 16 && forall r :: 0 <= r < 16 ==> |LEN_ROWS[r]| == 16
  {
  }

  /** The table, applied to the highest nonzero byte of a 32-bit number. */
  function TableLen(v: nat): int
    requires v < TWO_TO_THE_32
  {
    if v >= 0x0100_0000 then 24 + LenTable(v / 0x0100_0000)
    else if v >= 0x0001_0000 then 16 + LenTable(v / 0x0001_0000)
    else if v >= 0x0000_0100 then 8 + LenTable(v / 0x0000_0100)
    else LenTable(v)
  }

  /** The table lookup counts the bits of every 32-bit number. */
  lemma TableLenIsBitLength(v: nat)
    requires 1 <= v < TWO_TO_THE_32
    ensures TableLen(v) == Log2(v) + 1
  {
    if v >= 0x0100_0000 {
      ByteLenIsBitLength(v, 24, 0x0100_0000, v / 0x0100_0000);
    } else if v >= 0x0001_0000 {
      ByteLenIsBitLength(v, 16, 0x0001_0000, v / 0x0001_0000);
    } else if v >= 0x0000_0100 {
      ByteLenIsBitLength(v, 8, 0x0000_0100, v / 0x0000_0100);
    } else {
      ByteLenIsBitLength(v, 0, 1, v);
    }
  }

  /** The byte at bit b of v is its highest nonzero byte. */
  lemma ByteLenIsBitLength(v: nat, b: nat, d: nat, top: nat)
    requires (b, d) in {(0, 1), (8, 0x100), (16, 0x1_0000), (24, 0x100_0000)}
    requires 1 <= top < 256 && d * top <= v < d * (top + 1)
    ensures v >= 1 && b + LenTable(top) == Log2(v) + 1
  {
    assert Pow2(b) == d by {
      Pow2Values();
      Pow2Plus(8, 16);
    }
    var k := LenTable(top) - 1;
    LenTableOfByte(top);
    Pow2Plus(b, k);
    ScaleBounds(d, Pow2(k), top);
    Log2Unique(v, b + k);
  }

  lemma FirstRow(c: nat)
    requires 1 <= c < 16
    ensures var k := LenTable(c) - 1; k >= 0 && Pow2(k) <= c < 2 * Pow2(k)
  {
  }

  lemma OtherRows(r: nat, c: nat)
    requires 1 <= r < 16 && c < 16
    ensures LenTable(16 * r + c) == if r < 2 then 5 else if r < 4 then 6 else if r < 8 then 7 else 8
  {
  }

  lemma LenTableOfByte(x: nat)
    requires 1 <= x < 256
    ensures var k := LenTable(x) - 1; k >= 0 && Pow2(k) <= x < 2 * Pow2(k)
  {
    hide LenTable;
    if x < 16 {
      FirstRow(x);
    } else {
      OtherRows(x / 16, x % 16);
      Pow2Values();
    }
  }

  lemma ScaleBounds(c: nat, lo: nat, x: nat)
    requires lo <= x < 2 * lo
    ensures c * lo <= c * x && c * (x + 1) <= 2 * (c * lo)
  {
    MulDistributes(c, x, lo);
    MulDistributes(c, 2 * lo, x + 1);
    TwiceTimes(c, lo);
    MulNonNegative(c, x - lo);
    MulNonNegative(c, 2 * lo - (x + 1));
  }

  class Bs {
    const buf: array<byte>
    const end: nat
    var p: nat
    var bitsLeft: int

    /** Every bit written since the start, also those that fell outside the buffer. */
    ghost var sent: Bits

    ghost predicate Valid()
      reads this
    {
      end <= buf.Length && 1 <= bitsLeft <= 8
    }

    /** The number of bits between the start of the buffer and the cursor. */
    function Pos(): nat
      requires Valid()
      reads this
    {
      8 * p + 8 - bitsLeft
    }

    /** The bits of the buffer; it does not depend on the cursor. */
    ghost function Stream(): Bits
      reads buf
    {
      if end <= buf.Length then ToBits(buf[..end]) else []
    }

    lemma StreamIsBuffer()
      requires Valid()
      ensures Stream() == ToBits(buf[..end])
    {
    }

    /** The cursor stands behind the bits sent, and those that fit are in the buffer. */
    ghost predicate Writing()
      reads this, buf
    {
      && Valid()
      && |sent| == Pos()
      && forall i :: 0 <= i < |sent| && i < 8 * end ==> Stream()[i] == sent[i]
    }

    constructor (buf: array<byte>, size: nat)
      requires size <= buf.Length
      ensures this.buf == buf && end == size
      ensures Valid() && Pos() == 0 && sent == [] && Writing()
    {
      this.buf := buf;
      end := size;
      p := 0;
      bitsLeft := 8;
      sent := [];
    }

    predicate ByteAligned()
      reads this
    {
      bitsLeft == 8
    }

    predicate Eof()
      reads this
    {
      p >= end
    }

    predicate Overrun()
      reads this
    {
      p > end
    }

    function BytePos(): nat
      reads this
    {
      if p > end then end else p
    }

    /** Overrun by itself notices an excess only from a whole byte on; on a byte boundary it
        is exact. */
    lemma OverrunExactness()
      requires Valid()
      ensures Overrun() <==> Pos() >= 8 * end + 8
      ensures ByteAligned() ==> (Overrun() <==> Pos() > 8 * end)
      ensures Eof() <==> Pos() >= 8 * end
    {
    }

    // ----- reading -----

    method ReadU1() returns (r: nat)
      requires Valid()
      modifies this`p, this`bitsLeft
      ensures Valid() && Stream() == old(Stream())
      ensures r == BitVal(Stream(), old(Pos())) && Pos() == old(Pos()) + 1
    {
      r := 0;
      bitsLeft := bitsLeft - 1;
      if !Eof() {
        ToBitsAt(buf[..end], p, bitsLeft);
        r := if Bit(buf[p], bitsLeft) then 1 else 0;
      }
      if bitsLeft == 0 {
        p, bitsLeft := p + 1, 8;
      }
    }

    method SkipU1()
      requires Valid()
      modifies this`p, this`bitsLeft
      ensures Valid() && Pos() == old(Pos()) + 1
    {
      bitsLeft := bitsLeft - 1;
      if bitsLeft == 0 {
        p, bitsLeft := p + 1, 8;
      }
    }

    method ReadU(n: nat) returns (r: nat)
      requires Valid() && n <= 32
      modifies this`p, this`bitsLeft
      ensures Valid() && Stream() == old(Stream())
      ensures r == UVal(Stream(), old(Pos()), n) && Pos() == old(Pos()) + n
    {
      r := 0;
      ghost var s, pos := Stream(), Pos();
      ShlSum(0, 0, n);
      for i := 0 to n
        invariant Valid() && Stream() == s && Pos() == pos + i
        invariant r == Shl(UVal(s, pos, i), n - i)
      {
        var bit := ReadU1();
        // The lower n - i - 1 bits of r are still clear, so adding is the OR of the source.
        ReadStep(s, pos, i, n);
        r := r + Shl(bit, n - i - 1);
      }
    }

    static lemma ReadStep(s: Bits, pos: nat, i: nat, n: nat)
      requires i < n
      ensures Shl(UVal(s, pos, i), n - i) + Shl(BitVal(s, pos + i), n - i - 1) ==
              Shl(UVal(s, pos, i + 1), n - i - 1)
    {
      var u := UVal(s, pos, i);
      assert UVal(s, pos, i + 1) == 2 * u + BitVal(s, pos + i);
      ShlSum(2 * u, BitVal(s, pos + i), n - i - 1);
    }

    method SkipU(n: nat)
      requires Valid()
      modifies this`p, this`bitsLeft
      ensures Valid() && Pos() == old(Pos()) + n
    {
      for i := 0 to n
        invariant Valid() && Pos() == old(Pos()) + i
      {
        SkipU1();
      }
    }

    /** The byte-wide fast path and the bit loop have one contract. */
    method ReadU8() returns (r: nat)
      requires Valid()
      modifies this`p, this`bitsLeft
      ensures Valid() && Stream() == old(Stream())
      ensures r == UVal(Stream(), old(Pos()), 8) && Pos() == old(Pos()) + 8
    {
      if bitsLeft == 8 && !Eof() {
        r := buf[p];
        ByteValue(buf[..end], p, 8);
        assert buf[..end][p] / Pow2(0) == r;
        p := p + 1;
        return;
      }
      r := ReadU(8);
    }

    method ReadUe() returns (r: nat)
      requires Valid()
      modifies this`p, this`bitsLeft
      ensures Valid() && Stream() == old(Stream())
      ensures r == ParseUe(Stream(), old(Pos())).0 && Pos() == ParseUe(Stream(), old(Pos())).1
    {
      ghost var s, run := Stream(), ZeroRun(Stream(), Pos(), 0);
      var i := 0;
      while !Eof() && i < 32
        invariant Valid() && Stream() == s && i <= 32
        invariant ZeroRun(s, Pos(), i) == run
        decreases 32 - i
      {
        var bit := ReadU1();
        if bit != 0 {
          assert run.0 == i && run.1 == Pos();
          break;
        }
        i := i + 1;
      }
      assert run.0 == i && run.1 == Pos();
      if i >= 32 {
        return 0;
      }
      r := ReadU(i);
      r := r + (Pow2(i) - 1);
    }

    method ReadSe() returns (r: int)
      requires Valid()
      modifies this`p, this`bitsLeft
      ensures Valid() && Stream() == old(Stream())
      ensures r == ParseSe(Stream(), old(Pos())).0 && Pos() == ParseSe(Stream(), old(Pos())).1
    {
      var k := ReadUe();
      r := ToInt32(k);
      if r % 2 == 1 {
        r := CDiv(if r + 1 < TWO_TO_THE_31 then r + 1 else r + 1 - TWO_TO_THE_32, 2);
      } else {
        r := -CDiv(r, 2);
      }
      assert r == SeValue(k);
    }

    // ----- writing -----

    /** A writer leaves the bits behind its own alone. */
    twostate predicate Untouched()
      requires old(Valid()) && Valid()
      reads this, buf
    {
      && |Stream()| == |old(Stream())|
      && forall i :: Pos() <= i < |Stream()| ==> Stream()[i] == old(Stream())[i]
    }

    method WriteU1(v: nat)
      requires Writing()
      modifies this, buf
      ensures Writing() && Untouched()
      ensures sent == old(sent) + [v % 2 == 1]
    {
      hide SetBit, ToBits;
      ghost var pos, bytes := Pos(), buf[..end];
      bitsLeft := bitsLeft - 1;
      if !Eof() {
        SetBitOfByte(buf[p], bitsLeft, v % 2 == 1);
        ghost var q, x := p, SetBit(buf[p], bitsLeft, v % 2 == 1);
        buf[p] := SetBit(buf[p], bitsLeft, v % 2 == 1);
        assert buf[..end] == bytes[q := x];
        SetBitInBuffer(bytes, q, bitsLeft, v % 2 == 1, x);
      }
      if bitsLeft == 0 {
        p, bitsLeft := p + 1, 8;
      }
      sent := sent + [v % 2 == 1];
    }

    /** The number is sent from its highest bit on. */
    static lemma UBitsStep(acc: Bits, i: nat, v: nat, n: nat)
      requires i <= n
      ensures i == 0 ==> acc + UBits(i, Shr(v, n)) == acc
      ensures i < n ==>
        (acc + UBits(i, Shr(v, n - i))) + [Shr(v, n - i - 1) % 2 == 1] == acc + UBits(i + 1, Shr(v, n - i - 1))
      ensures Shr(v, 0) == v
    {
      if i < n {
        ShrOnce(v, n - i - 1);
      }
    }

    method WriteU(n: nat, v: nat)
      requires Writing() && n <= 32
      modifies this, buf
      ensures Writing() && Untouched()
      ensures sent == old(sent) + UBits(n, v)
    {
      hide UBits, Shr, Stream, ToBits;
      UBitsStep(old(sent), 0, v, n);
      for i := 0 to n
        invariant Writing() && Untouched()
        invariant sent == old(sent) + UBits(i, Shr(v, n - i))
      {
        UBitsStep(old(sent), i, v, n);
        WriteU1(Shr(v, n - i - 1) % 2);
      }
    }

    /** The byte-wide fast path and the bit loop have one contract. */
    method WriteU8(v: nat)
      requires Writing()
      modifies this, buf
      ensures Writing() && Untouched()
      ensures sent == old(sent) + UBits(8, v)
    {
      hide UBits, ToBits;
      if bitsLeft == 8 && !Eof() {
        ghost var bytes, q := buf[..end], p;
        buf[p] := v % 256;
        ghost var x: byte := v % 256;
        assert buf[..end] == bytes[q := x];
        SetByteInBuffer(bytes, q, v, x);
        p := p + 1;
        sent := sent + UBits(8, v);
        return;
      }
      WriteU(8, v);
    }

    /** Defined while v + 1 has at most 16 bits: above that the source shifts by 32 or more. */
    method WriteUe(v: nat)
      requires Writing() && IsUe(v)
      modifies this, buf
      ensures Writing() && Untouched()
      ensures sent == old(sent) + UeBits(v)
    {
      Pow2Values();
      if v == 0 {
        assert UeBits(0) == [true];
        WriteU1(1);
      } else {
        TableLenIsBitLength(v + 1);
        var len := TableLen(v + 1);
        Log2AtMost(v + 1);
        UeIsOneNumber(v, len);
        WriteU(2 * len - 1, v + 1);
      }
    }

    static lemma Log2AtMost(v: nat)
      requires 1 <= v < 0x1_0000
      ensures Log2(v) < 16
    {
      Pow2Values();
      if Log2(v) >= 16 {
        Pow2Monotone(16, Log2(v));
      }
    }

    method WriteSe(v: int)
      requires Writing() && IsSe(v)
      modifies this, buf
      ensures Writing() && Untouched()
      ensures sent == old(sent) + SeBits(v)
    {
      NegatedTwice(v);
      if v <= 0 {
        WriteUe((TWO_TO_THE_32 - 1 - U32(v) + 1) * 2 % TWO_TO_THE_32);
      } else {
        WriteUe(U32(v) * 2 - 1);
      }
    }

    /** (~v + 1) * 2 on 32 bits */
    static lemma NegatedTwice(v: int)
      requires IsSe(v)
      ensures v <= 0 ==> (TWO_TO_THE_32 - 1 - U32(v) + 1) * 2 % TWO_TO_THE_32 == -2 * v
      ensures v > 0 ==> U32(v) == v
    {
    }
  }
}
