/** NAL units as bytes: emulation prevention (section 7.4.1 of H.264) and the byte stream
    format (Annex B). */
module NalBytes {
  import opened BitCodes

  // ----- emulation prevention -----

  /** The run of zeros that ends with byte x, after a run of count zeros. */
  function NextCount(count: nat, x: byte): nat {
    if x == 0 then count + 1 else 0
  }

  /** The payload x with an 03 in front of every byte below 04 that follows two zeros; count
      zeros have just been written. */
  function Escaped(x: seq<byte>, count: nat): seq<byte>
    requires count <= 2
    decreases |x|, count
  {
    if x == [] then []
    else if count == 2 && x[0] < 4 then [3] + Escaped(x, 0)
    else [x[0]] + Escaped(x[1..], NextCount(count, x[0]))
  }

  datatype Decoded = Invalid | Decoded(bytes: seq<byte>, used: nat)

  function Prepend(bytes: seq<byte>, n: nat, d: Decoded): Decoded {
    if d.Invalid? then Invalid else Decoded(bytes + d.bytes, n + d.used)
  }

  /** The payload of unit s, and how many bytes of s were used; count zeros have just been read.
      An 03 after two zeros is dropped; it must be followed by a byte up to 03 or be the last,
      in which case it is not counted either. */
  function Unescaped(s: seq<byte>, count: nat): (d: Decoded)
    requires count <= 2
    decreases |s|
  {
    if s == [] then Decoded([], 0)
    else if count == 2 && s[0] < 3 then Invalid
    else if count == 2 && s[0] == 3 then
      if |s| == 1 then Decoded([], 0)
      else if s[1] > 3 then Invalid
      else Prepend([s[1]], 2, Unescaped(s[2..], NextCount(0, s[1])))
    else Prepend([s[0]], 1, Unescaped(s[1..], NextCount(count, s[0])))
  }

  /** Decoding undoes encoding, for every byte string. */
  lemma {:induction false} UnescapeEscape(x: seq<byte>, count: nat)
    requires count <= 2
    ensures Unescaped(Escaped(x, count), count) == Decoded(x, |Escaped(x, count)|)
    decreases |x|
  {
    if x != [] {
      var s := Escaped(x, count);
      assert x == [x[0]] + x[1..];
      if count == 2 && x[0] < 4 {
        var rest := Escaped(x[1..], NextCount(0, x[0]));
        assert s == [3] + ([x[0]] + rest);
        assert s[2..] == rest;
        UnescapeEscape(x[1..], NextCount(0, x[0]));
      } else {
        assert s[1..] == Escaped(x[1..], NextCount(count, x[0]));
        UnescapeEscape(x[1..], NextCount(count, x[0]));
      }
    }
  }

  /** Whatever is accepted, the used part of it is the encoding of the result. */
  lemma {:induction false} EscapeUnescape(s: seq<byte>, count: nat)
    requires count <= 2 && Unescaped(s, count).Decoded?
    ensures var d := Unescaped(s, count);
            && (d.used == |s| || (d.used == |s| - 1 && s[d.used] == 3))
            && Escaped(d.bytes, count) == s[..d.used]
    decreases |s|
  {
    hide Escaped, Unescaped;
    UnescapedStep(s, count);
    if s == [] {
      EscapedNone(count);
    } else if count == 2 && s[0] == 3 {
      if |s| == 1 {
        EscapedNone(count);
      } else {
        var r := Unescaped(s[2..], NextCount(0, s[1]));
        EscapeUnescape(s[2..], NextCount(0, s[1]));
        EscapedByte(s[1], r.bytes);
        Rejoin(s, 2, r.used);
        Associate([3], [s[1]], s[2..][..r.used]);
      }
    } else {
      var r := Unescaped(s[1..], NextCount(count, s[0]));
      EscapeUnescape(s[1..], NextCount(count, s[0]));
      PlainByte(s[0], r.bytes, count);
      Rejoin(s, 1, r.used);
    }
  }

  /** One step of the decoder. */
  lemma UnescapedStep(s: seq<byte>, count: nat)
    requires count <= 2 && Unescaped(s, count).Decoded?
    ensures s == [] ==> Unescaped(s, count) == Decoded([], 0)
    ensures s != [] && !(count == 2 && s[0] == 3) ==>
      Unescaped(s, count) == Prepend([s[0]], 1, Unescaped(s[1..], NextCount(count, s[0]))) && !(count == 2 && s[0] < 3)
    ensures count == 2 && |s| == 1 && s[0] == 3 ==> Unescaped(s, count) == Decoded([], 0)
    ensures count == 2 && |s| > 1 && s[0] == 3 ==>
      Unescaped(s, count) == Prepend([s[1]], 2, Unescaped(s[2..], NextCount(0, s[1]))) && s[1] < 4
  {
  }

  lemma Rejoin(s: seq<byte>, n: nat, used: nat)
    requires n + used <= |s|
    ensures s[..n + used] == s[..n] + s[n..][..used]
    ensures n == 1 ==> s[..n] == [s[0]]
    ensures n == 2 ==> s[..n] == [s[0]] + [s[1]]
  {
  }

  lemma EscapedNone(count: nat)
    requires count <= 2
    ensures Escaped([], count) == []
  {
  }

  lemma PlainByte(x: byte, rest: seq<byte>, count: nat)
    requires count <= 2 && !(count == 2 && x < 4)
    ensures Escaped([x] + rest, count) == [x] + Escaped(rest, NextCount(count, x))
  {
    assert ([x] + rest)[1..] == rest;
  }

  lemma EscapedByte(x: byte, rest: seq<byte>)
    requires x < 4
    ensures Escaped([x] + rest, 2) == [3] + ([x] + Escaped(rest, NextCount(0, x)))
  {
    PlainByte(x, rest, 0);
  }

  predicate EndsInEscape(s: seq<byte>) {
    |s| >= 3 && s[|s| - 3] == 0 && s[|s| - 2] == 0 && s[|s| - 1] == 3
  }

  /** A byte that is neither zero nor part of an escape separates what stands around it. */
  lemma EndsBehind(t: seq<byte>, k: nat)
    requires k < |t| && t[k] != 0 && !(t[k] == 3 && k >= 2)
    ensures EndsInEscape(t) <==> EndsInEscape(t[k + 1..])
  {
    var u := t[k + 1..];
    assert forall i :: 0 <= i < |u| ==> u[i] == t[k + 1 + i];
  }

  /** How a unit ends depends on the zeros just read, not on what was before them. */
  lemma EndsAfter(count: nat, s: seq<byte>)
    requires count <= 2 && s != [] && !(count == 2 && s[0] <= 3)
    ensures EndsInEscape(ZeroSeq(count) + s) <==> EndsInEscape(ZeroSeq(NextCount(count, s[0])) + s[1..])
  {
    hide EndsInEscape;
    var t, u := ZeroSeq(count) + s, ZeroSeq(NextCount(count, s[0])) + s[1..];
    if s[0] == 0 {
      assert t == u;
    } else {
      assert u == t[count + 1..];
      EndsBehind(t, count);
    }
  }

  /** An 03 after two zeros that is not the last byte separates too. */
  lemma EndsAfterEscape(s: seq<byte>)
    requires |s| > 1 && s[0] == 3
    ensures EndsInEscape(ZeroSeq(2) + s) <==> EndsInEscape(ZeroSeq(0) + s[1..])
  {
    var t, u := ZeroSeq(2) + s, ZeroSeq(0) + s[1..];
    assert u == t[3..];
    assert t[2] == 3;
  }

  /** An accepted unit leaves its last byte unused exactly when it ends in 00 00 03. */
  lemma {:induction false} UnusedExactlyAfterEscape(s: seq<byte>, count: nat)
    requires count <= 2 && Unescaped(s, count).Decoded?
    ensures Unescaped(s, count).used < |s| <==> EndsInEscape(ZeroSeq(count) + s)
    decreases |s|
  {
    if s != [] {
      if count == 2 && s[0] == 3 {
        if |s| > 1 {
          UnusedExactlyAfterEscape(s[2..], NextCount(0, s[1]));
          EndsAfter(0, s[1..]);
          EndsAfterEscape(s);
        }
      } else {
        UnusedExactlyAfterEscape(s[1..], NextCount(count, s[0]));
        EndsAfter(count, s);
      }
    }
  }

  lemma EncodedIsAccepted(x: seq<byte>)
    ensures Unescaped(Escaped(x, 0), 0).Decoded? && !EndsInEscape(Escaped(x, 0))
  {
    hide Escaped, Unescaped, EndsInEscape;
    var s := Escaped(x, 0);
    UnescapeEscape(x, 0);
    UnusedExactlyAfterEscape(s, 0);
    assert ZeroSeq(0) + s == s;
  }

  lemma AcceptedIsEncoded(s: seq<byte>)
    requires Unescaped(s, 0).Decoded? && !EndsInEscape(s)
    ensures Escaped(Unescaped(s, 0).bytes, 0) == s
  {
    hide Escaped, Unescaped, EndsInEscape;
    EscapeUnescape(s, 0);
    UnusedExactlyAfterEscape(s, 0);
    assert ZeroSeq(0) + s == s;
    assert s[..|s|] == s;
  }

  lemma FinalEscapeIgnored(s: seq<byte>)
    requires Unescaped(s, 0).Decoded? && EndsInEscape(s)
    ensures Unescaped(s, 0) == Unescaped(s[..|s| - 1], 0)
  {
    hide Escaped, Unescaped, EndsInEscape;
    EscapeUnescape(s, 0);
    UnusedExactlyAfterEscape(s, 0);
    assert ZeroSeq(0) + s == s;
    UnescapeEscape(Unescaped(s, 0).bytes, 0);
  }

  /** The encoder's outputs are exactly the units the decoder accepts that do not end in
      00 00 03; one that does decodes like the unit without that last byte. */
  lemma EscapeBijection(s: seq<byte>)
    ensures (exists x :: Escaped(x, 0) == s) <==> Unescaped(s, 0).Decoded? && !EndsInEscape(s)
    ensures Unescaped(s, 0).Decoded? && !EndsInEscape(s) ==> Escaped(Unescaped(s, 0).bytes, 0) == s
    ensures Unescaped(s, 0).Decoded? && EndsInEscape(s) ==> Unescaped(s, 0) == Unescaped(s[..|s| - 1], 0)
  {
    hide Escaped, Unescaped, EndsInEscape;
    forall x | Escaped(x, 0) == s ensures Unescaped(s, 0).Decoded? && !EndsInEscape(s) {
      EncodedIsAccepted(x);
    }
    if Unescaped(s, 0).Decoded? {
      if EndsInEscape(s) {
        FinalEscapeIgnored(s);
      } else {
        AcceptedIsEncoded(s);
      }
    }
  }

  /** Three bytes that a unit must not contain: 00 00 00, 00 00 01 and 00 00 02. */
  predicate ForbiddenAt(s: seq<byte>, i: nat) {
    i + 2 < |s| && s[i] == 0 && s[i + 1] == 0 && s[i + 2] < 3
  }

  /** A nonzero byte, not below 03 after two zeros, separates what it stands between. */
  lemma CleanStep(count: nat, head: byte, rest: seq<byte>, i: nat)
    requires count <= 2 && head != 0 && (count == 2 ==> head >= 3)
    requires i > count ==> !ForbiddenAt(rest, i - count - 1)
    ensures !ForbiddenAt(ZeroSeq(count) + ([head] + rest), i)
  {
    var t := ZeroSeq(count) + ([head] + rest);
    assert t[count] == head;
    if i > count && i + 2 < |t| {
      assert forall k :: 0 <= k < |rest| ==> t[count + 1 + k] == rest[k];
    }
  }

  lemma {:induction false} EscapedIsClean(x: seq<byte>, count: nat, i: nat)
    requires count <= 2
    ensures !ForbiddenAt(ZeroSeq(count) + Escaped(x, count), i)
    decreases |x|, count
  {
    hide ForbiddenAt;
    if x != [] {
      if count == 2 && x[0] < 4 {
        if i > count {
          EscapedIsClean(x, 0, i - count - 1);
          assert ZeroSeq(0) + Escaped(x, 0) == Escaped(x, 0);
        }
        CleanStep(count, 3, Escaped(x, 0), i);
      } else if x[0] == 0 {
        EscapedIsClean(x[1..], count + 1, i);
        assert ZeroSeq(count) + ([x[0]] + Escaped(x[1..], count + 1)) ==
               ZeroSeq(count + 1) + Escaped(x[1..], count + 1);
      } else {
        if i > count {
          EscapedIsClean(x[1..], 0, i - count - 1);
          assert ZeroSeq(0) + Escaped(x[1..], 0) == Escaped(x[1..], 0);
        }
        CleanStep(count, x[0], Escaped(x[1..], 0), i);
      }
    } else {
      ShortIsClean(ZeroSeq(count) + [], i);
    }
  }

  lemma ShortIsClean(s: seq<byte>, i: nat)
    requires |s| <= 2
    ensures !ForbiddenAt(s, i)
  {
  }

  /** The encoder never ends with an inserted byte. */
  lemma {:induction false} EscapedLast(x: seq<byte>, count: nat)
    requires count <= 2 && x != []
    ensures Escaped(x, count) != [] && Escaped(x, count)[|Escaped(x, count)| - 1] == x[|x| - 1]
    decreases |x|, count
  {
    if count == 2 && x[0] < 4 {
      EscapedLast(x, 0);
    } else if |x| > 1 {
      EscapedLast(x[1..], NextCount(count, x[0]));
    } else {
      assert x[1..] == [];
    }
  }

  /** A payload of n bytes grows by at most (n - 1) / 2. */
  lemma {:induction false} ExpansionBound(x: seq<byte>, count: nat)
    requires count <= 2 && x != []
    ensures |x| <= |Escaped(x, count)| <= |x| + (|x| - 1 + count) / 2
    decreases |x|, count
  {
    if count == 2 && x[0] < 4 {
      ExpansionBound(x, 0);
    } else if |x| > 1 {
      ExpansionBound(x[1..], NextCount(count, x[0]));
    } else {
      assert x[1..] == [];
    }
  }

  /** All zeros meet the bound. */
  lemma {:induction false} ExpansionTight(n: nat)
    requires n >= 1
    ensures |Escaped(ZeroSeq(n), 0)| == n + (n - 1) / 2
  {
    var x := ZeroSeq(n);
    if n == 1 {
      assert x[1..] == [];
    } else {
      assert x[1..][1..] == ZeroSeq(n - 2);
      assert Escaped(x, 0) == [0] + ([0] + Escaped(x[1..][1..], 2));
      AfterTwoZeros(n - 2);
    }
  }

  lemma {:induction false} AfterTwoZeros(n: nat)
    ensures |Escaped(ZeroSeq(n), 2)| == n + (n + 1) / 2
  {
    var x := ZeroSeq(n);
    if n >= 1 {
      assert x[1..] == ZeroSeq(n - 1);
      assert Escaped(x, 2) == [3] + ([0] + Escaped(x[1..], 1));
      if n >= 2 {
        assert x[1..][1..] == ZeroSeq(n - 2);
        assert Escaped(x[1..], 1) == [0] + Escaped(x[1..][1..], 2);
        AfterTwoZeros(n - 2);
      } else {
        assert x[1..] == [];
      }
    }
  }

  lemma {:induction false} UnescapedNotLonger(s: seq<byte>, count: nat)
    requires count <= 2 && Unescaped(s, count).Decoded?
    ensures |Unescaped(s, count).bytes| <= |s|
    decreases |s|
  {
    if s != [] {
      if count == 2 && s[0] == 3 {
        if |s| > 1 {
          UnescapedNotLonger(s[2..], NextCount(0, s[1]));
        }
      } else {
        UnescapedNotLonger(s[1..], NextCount(count, s[0]));
      }
    }
  }

  /** The encoder puts an extra zero at index 0 and the unit behind it. It fails exactly when the
      unit does not fit; an empty payload never does. */
  method RbspToNal(rbsp: seq<byte>, nal: array<byte>) returns (rc: int)
    modifies nal
    ensures rc == -1 <==> rbsp != [] && 1 + |Escaped(rbsp, 0)| > nal.Length
    ensures rc != -1 ==> rc == 1 + |Escaped(rbsp, 0)|
    ensures 0 < rc <= nal.Length ==> nal[0] == 0 && nal[1..rc] == Escaped(rbsp, 0)
  {
    var i, j, count := 0, 1, 0;
    if nal.Length > 0 {
      nal[0] := 0;
    }
    while i < |rbsp|
      invariant 0 <= i <= |rbsp| && 1 <= j && 0 <= count <= 2
      invariant i > 0 || j > 1 ==> j <= nal.Length
      invariant nal.Length > 0 ==> nal[0] == 0
      invariant j <= nal.Length ==> nal[1..j] + Escaped(rbsp[i..], count) == Escaped(rbsp, 0)
      invariant i == 0 && j == 1 ==> count == 0
      decreases |rbsp| - i, count
    {
      if j >= nal.Length {
        NotEmpty(rbsp[i..], count);
        return -1;
      }
      if count == 2 && rbsp[i] / 4 == 0 {
        EscapeStep(nal[1..j], rbsp[i..], count);
        nal[j] := 3;
        assert nal[1..j + 1] == nal[1..j] + [3];
        j := j + 1;
        count := 0;
        continue;
      }
      EscapeStep(nal[1..j], rbsp[i..], count);
      assert rbsp[i..][1..] == rbsp[i + 1..];
      nal[j] := rbsp[i];
      assert nal[1..j + 1] == nal[1..j] + [rbsp[i]];
      if rbsp[i] == 0 {
        count := count + 1;
      } else {
        count := 0;
      }
      i := i + 1;
      j := j + 1;
    }
    rc := j;
  }

  lemma NotEmpty(x: seq<byte>, count: nat)
    requires x != [] && count <= 2
    ensures |Escaped(x, count)| > 0
  {
  }

  lemma EscapeStep(out: seq<byte>, x: seq<byte>, count: nat)
    requires x != [] && count <= 2
    ensures out + Escaped(x, count) ==
      if count == 2 && x[0] < 4 then (out + [3]) + Escaped(x, 0)
      else (out + [x[0]]) + Escaped(x[1..], NextCount(count, x[0]))
  {
    if count == 2 && x[0] < 4 {
      Associate(out, [3], Escaped(x, 0));
    } else {
      Associate(out, [x[0]], Escaped(x[1..], NextCount(count, x[0])));
    }
  }

  /** The decoder fails exactly on an invalid unit or when the output is too small. On success it
      also gives the number of bytes used. */
  method NalToRbsp(nal: seq<byte>, rbsp: array<byte>) returns (rc: int, nalSize: nat, rbspSize: nat)
    modifies rbsp
    ensures var d := Unescaped(nal, 0);
      if d.Decoded? && |d.bytes| <= rbsp.Length
      then rc == |d.bytes| && rbspSize == |d.bytes| && nalSize == d.used && rbsp[..rbspSize] == d.bytes
      else rc == -1
  {
    var i, j, count := 0, 0, 0;
    nalSize, rbspSize := |nal|, rbsp.Length;
    while i < |nal|
      invariant 0 <= i <= |nal| && 0 <= j <= rbsp.Length && 0 <= count <= 2
      invariant Unescaped(nal, 0) == Prepend(rbsp[..j], i, Unescaped(nal[i..], count))
      decreases |nal| - i
    {
      ghost var out, s := rbsp[..j], nal[i..];
      if count == 2 && nal[i] < 3 {
        return -1, nalSize, rbspSize;
      }
      if count == 2 && nal[i] == 3 {
        if i < |nal| - 1 && nal[i + 1] > 3 {
          return -1, nalSize, rbspSize;
        }
        if i == |nal| - 1 {
          break;
        }
        DecodeStep(out, i, s, count);
        assert s[2..] == nal[i + 2..];
        i := i + 1;
        count := 0;
      } else {
        DecodeStep(out, i, s, count);
        assert s[1..] == nal[i + 1..];
      }
      assert Unescaped(nal, 0) == Prepend(out + [nal[i]], i + 1, Unescaped(nal[i + 1..], NextCount(count, nal[i])));
      if j >= rbsp.Length {
        return -1, nalSize, rbspSize;
      }
      rbsp[j] := nal[i];
      assert rbsp[..j + 1] == out + [nal[i]];
      if nal[i] == 0 {
        count := count + 1;
      } else {
        count := 0;
      }
      j := j + 1;
      i := i + 1;
    }
    assert Unescaped(nal, 0) == Decoded(rbsp[..j], i);
    nalSize, rbspSize, rc := i, j, j;
  }

  lemma DecodeStep(out: seq<byte>, i: nat, s: seq<byte>, count: nat)
    requires s != [] && count <= 2 && !(count == 2 && s[0] < 3)
    requires count == 2 && s[0] == 3 ==> |s| > 1 && s[1] <= 3
    ensures Prepend(out, i, Unescaped(s, count)) ==
      if count == 2 && s[0] == 3
      then Prepend(out + [s[1]], i + 2, Unescaped(s[2..], NextCount(0, s[1])))
      else Prepend(out + [s[0]], i + 1, Unescaped(s[1..], NextCount(count, s[0])))
  {
    if count == 2 && s[0] == 3 {
      PrependTwice(out, i, [s[1]], 2, Unescaped(s[2..], NextCount(0, s[1])));
    } else {
      PrependTwice(out, i, [s[0]], 1, Unescaped(s[1..], NextCount(count, s[0])));
    }
  }

  lemma PrependTwice(a: seq<byte>, i: nat, b: seq<byte>, j: nat, d: Decoded)
    ensures Prepend(a, i, Prepend(b, j, d)) == Prepend(a + b, i + j, d)
  {
    if d.Decoded? {
      assert a + (b + d.bytes) == (a + b) + d.bytes;
    }
  }

  // ----- the byte stream -----

  predicate StartCodeAt(buf: seq<byte>, i: nat) {
    i + 2 < |buf| && buf[i] == 0 && buf[i + 1] == 0 && buf[i + 2] == 1
  }

  /** 00 00 00 or 00 00 01, either of which ends a unit */
  predicate StopAt(buf: seq<byte>, i: nat) {
    i + 2 < |buf| && buf[i] == 0 && buf[i + 1] == 0 && buf[i + 2] <= 1
  }

  /** The first unit of buf: it starts behind the first start code and ends at the first stop. */
  predicate UnitAt(buf: seq<byte>, start: nat, end: nat) {
    && 3 <= start <= end <= |buf|
    && StartCodeAt(buf, start - 3)
    && (forall i :: 0 <= i < start - 3 ==> !StartCodeAt(buf, i))
    && (forall i :: start <= i < end ==> !StopAt(buf, i))
    && (end == |buf| || StopAt(buf, end))
  }

  /** The first unit in bytes: 00 00 01 stands in front of it and nowhere before, 00 00 00 or
      00 00 01 behind it and nowhere inside. */
  lemma UnitInBytes(buf: seq<byte>, start: nat, end: nat, i: nat)
    requires UnitAt(buf, start, end) && i + 2 < |buf|
    ensures 3 <= start <= end <= |buf| && buf[start - 3] == 0 && buf[start - 2] == 0 && buf[start - 1] == 1
    ensures i + 3 < start ==> !(buf[i] == 0 && buf[i + 1] == 0 && buf[i + 2] == 1)
    ensures start <= i < end ==> !(buf[i] == 0 && buf[i + 1] == 0 && (buf[i + 2] == 0 || buf[i + 2] == 1))
    ensures end < |buf| ==>
      end + 2 < |buf| && buf[end] == 0 && buf[end + 1] == 0 && (buf[end + 2] == 0 || buf[end + 2] == 1)
  {
    CodeInBytes(buf, i);
  }

  lemma CodeInBytes(buf: seq<byte>, i: nat)
    ensures StartCodeAt(buf, i) <==> i + 2 < |buf| && buf[i] == 0 && buf[i + 1] == 0 && buf[i + 2] == 1
    ensures StopAt(buf, i) <==> i + 2 < |buf| && buf[i] == 0 && buf[i + 1] == 0 && (buf[i + 2] == 0 || buf[i + 2] == 1)
  {
  }

  lemma UnitUnique(buf: seq<byte>, start: nat, end: nat, start': nat, end': nat)
    requires UnitAt(buf, start, end) && UnitAt(buf, start', end')
    ensures start == start' && end == end'
  {
    assert start - 3 == start' - 3;
    assert !(end < end') && !(end' < end);
  }

  method FindNalUnit(buf: seq<byte>) returns (rc: int, nalStart: nat, nalEnd: nat)
    ensures
      if exists i: nat :: StartCodeAt(buf, i)
      then UnitAt(buf, nalStart, nalEnd) && rc == nalEnd - nalStart
      else rc == 0 && nalStart == 0 && nalEnd == 0
  {
    nalStart, nalEnd := 0, 0;
    var i, size := 0, |buf|;
    while i + 2 < size
      && (buf[i] != 0 || buf[i + 1] != 0 || buf[i + 2] != 1)
      && (i + 3 >= size || buf[i] != 0 || buf[i + 1] != 0 || buf[i + 2] != 0 || buf[i + 3] != 1)
      invariant 0 <= i
      invariant forall k :: 0 <= k < i ==> !StartCodeAt(buf, k)
      decreases size - i
    {
      i := i + 1;
    }
    if i + 2 >= size {
      return 0, 0, 0;
    }
    if buf[i] != 0 || buf[i + 1] != 0 || buf[i + 2] != 1 {
      i := i + 1;
    }
    if i + 2 >= size || buf[i] != 0 || buf[i + 1] != 0 || buf[i + 2] != 1 {
      // The first loop stopped at one of the two start codes, so the source's check never fails.
      assert false;
    }
    assert StartCodeAt(buf, i);
    i := i + 3;
    nalStart := i;
    while i + 2 < size
      && (buf[i] != 0 || buf[i + 1] != 0 || buf[i + 2] != 0)
      && (buf[i] != 0 || buf[i + 1] != 0 || buf[i + 2] != 1)
      invariant nalStart <= i <= size
      invariant forall k :: nalStart <= k < i ==> !StopAt(buf, k)
      decreases size - i
    {
      i := i + 1;
    }
    if i + 2 >= size {
      nalEnd := size;
      return nalEnd - nalStart, nalStart, nalEnd;
    }
    nalEnd := i;
    rc := nalEnd - nalStart;
  }

  /** What may follow a unit in a byte stream: nothing, or zeros and a start code. */
  predicate IsBoundary(tail: seq<byte>) {
    tail == [] || StopAt(tail, 0)
  }

  /** A unit in a byte stream: leading zeros, a start code, the unit, and what follows. */
  function Framed(lead: nat, unit: seq<byte>, tail: seq<byte>): (buf: seq<byte>)
    ensures |buf| == lead + 3 + |unit| + |tail|
    ensures buf[lead + 3..lead + 3 + |unit|] == unit
  {
    ZeroSeq(lead) + [0, 0, 1] + unit + tail
  }

  /** A clean unit with a nonzero last byte is found exactly behind the first start code, whatever
      stands in front of it, with any boundary behind it. */
  lemma UnitFoundBehind(prefix: seq<byte>, unit: seq<byte>, tail: seq<byte>)
    requires |prefix| >= 3 && StartCodeAt(prefix, |prefix| - 3)
    requires forall i :: 0 <= i < |prefix| - 3 ==> !StartCodeAt(prefix, i)
    requires unit != [] && unit[|unit| - 1] != 0 && IsBoundary(tail)
    requires forall i: nat :: !ForbiddenAt(unit, i)
    ensures UnitAt(prefix + unit + tail, |prefix|, |prefix| + |unit|)
  {
    var buf := prefix + unit + tail;
    var start, end := |prefix|, |prefix| + |unit|;
    assert buf[..start] == prefix && buf[start..end] == unit;
    forall i | 0 <= i < start - 3 ensures !StartCodeAt(buf, i) {
      assert !StartCodeAt(buf[..start], i);
    }
    forall i | start <= i < end ensures !StopAt(buf, i) {
      assert !ForbiddenAt(buf[start..end], i - start);
      assert buf[end - 1] == unit[|unit| - 1];
    }
    if tail != [] {
      assert buf[end] == tail[0] && buf[end + 1] == tail[1] && buf[end + 2] == tail[2];
    }
  }

  lemma FramedUnitFound(lead: nat, unit: seq<byte>, tail: seq<byte>)
    requires unit != [] && unit[|unit| - 1] != 0 && IsBoundary(tail)
    requires forall i: nat :: !ForbiddenAt(unit, i)
    ensures UnitAt(Framed(lead, unit, tail), lead + 3, lead + 3 + |unit|)
  {
    hide UnitAt;
    UnitFoundBehind(ZeroSeq(lead) + [0, 0, 1], unit, tail);
  }
}
