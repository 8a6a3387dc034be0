/** Scaling lists (section 7.3.2.1.1.1 of H.264): entries are sent as differences modulo 256,
    a constant tail is cut short and a list equal to the default is sent as a single code. */
module ScalingLists {
  import opened BitCodes
  import opened BitCursor

  datatype ScalingList = ScalingList(entries: seq<int>, useDefault: int)

  /** What a reader can leave behind. */
  predicate CanonicalList(l: ScalingList) {
    || (l.useDefault == 1 && forall k :: 0 <= k < |l.entries| ==> l.entries[k] == 8)
    || (l.useDefault == 0 && forall k :: 0 <= k < |l.entries| ==> l.entries[k] != 0)
  }

  /** The lists that the writer is defined for: each difference it sends, from entry j on, is in
      the domain of the signed code. */
  predicate SendableFrom(l: ScalingList, j: nat, last: int, next: int)
    requires j <= |l.entries|
    decreases |l.entries| - j
  {
    j == |l.entries| || next == 0 ||
    var n := NextScale(l, j, last);
    IsSe(WrapDelta(n - last)) && SendableFrom(l, j + 1, l.entries[j], n)
  }

  predicate SendableList(l: ScalingList) {
    SendableFrom(l, 0, 8, 8)
  }

  /** What the remainder of the reader leaves in a list. */
  predicate ModestList(l: ScalingList) {
    forall k :: 0 <= k < |l.entries| ==> -255 <= l.entries[k] <= 255
  }

  /** The lists whose entries are bytes, which differences modulo 256 can express. */
  predicate WritableList(l: ScalingList) {
    l.useDefault != 0 || forall k :: 0 <= k < |l.entries| ==> 0 <= l.entries[k] <= 255
  }

  // ----- the written form -----

  /** All entries from j on equal v. */
  predicate TailIs(list: seq<int>, j: nat, v: int) {
    forall k :: j <= k < |list| ==> list[k] == v
  }

  function NextScale(l: ScalingList, j: nat, last: int): int
    requires j < |l.entries|
  {
    if l.useDefault != 0 then 0
    else if j > 0 && l.entries[j] == last && TailIs(l.entries, j + 1, last) then 0
    else l.entries[j]
  }

  function WrapDelta(d: int): int {
    if d < -128 then d + 256 else if d > 127 then d - 256 else d
  }

  /** The codes of entries j, j + 1, ... behind acc. */
  function ListBits(acc: Bits, l: ScalingList, j: nat, last: int, next: int): (code: Bits)
    requires j <= |l.entries|
    decreases |l.entries| - j
  {
    if j == |l.entries| then acc
    else if next == 0 then ListBits(acc, l, j + 1, l.entries[j], 0)
    else
      var n := NextScale(l, j, last);
      ListBits(acc + SeBits(WrapDelta(n - last)), l, j + 1, l.entries[j], n)
  }

  function ScalingListBits(acc: Bits, l: ScalingList): Bits {
    ListBits(acc, l, 0, 8, 8)
  }

  // ----- the read form -----

  /** Fills entries j, j + 1, ... of l from the codes at pos. */
  function ParseEntries(s: Bits, pos: nat, l: ScalingList, j: nat, last: int, next: int)
    : (r: (ScalingList, nat))
    requires j <= |l.entries|
    ensures |r.0.entries| == |l.entries| && pos <= r.1
    decreases |l.entries| - j
  {
    if j == |l.entries| then (l, pos)
    else if next == 0 then
      ParseEntries(s, pos, l.(entries := l.entries[j := last]), j + 1, last, 0)
    else
      var n := CMod(last + ParseSe(s, pos).0 + 256, 256);
      var v := if n == 0 then last else n;
      var l' := ScalingList(l.entries[j := v], if j == 0 && n == 0 then 1 else 0);
      ParseEntries(s, ParseSe(s, pos).1, l', j + 1, v, n)
  }

  function ParseScalingList(s: Bits, pos: nat, l: ScalingList): (r: (ScalingList, nat))
    ensures |r.0.entries| == |l.entries| && pos <= r.1
  {
    ParseEntries(s, pos, l, 0, 8, 8)
  }

  // ----- round trip -----

  /** The modulo-256 difference of two entries is undone by the reader. */
  lemma DeltaUndone(last: int, n: int)
    requires 1 <= last <= 255 && 0 <= n <= 255
    ensures -128 <= WrapDelta(n - last) <= 127
    ensures CMod(last + WrapDelta(n - last) + 256, 256) == n
  {
  }

  lemma {:induction false} ListBitsExtends(acc: Bits, l: ScalingList, j: nat, last: int, next: int)
    requires j <= |l.entries|
    ensures acc <= ListBits(acc, l, j, last, next)
    ensures next == 0 ==> ListBits(acc, l, j, last, next) == acc
    decreases |l.entries| - j
  {
    hide SeBits, NextScale, WrapDelta;
    if j < |l.entries| {
      if next == 0 {
        ListBitsExtends(acc, l, j + 1, l.entries[j], 0);
      } else {
        var n := NextScale(l, j, last);
        ListBitsExtends(acc + SeBits(WrapDelta(n - last)), l, j + 1, l.entries[j], n);
      }
    }
  }

  /** The entries still to come when the writer has stopped sending. */
  lemma {:induction false} ParseTail(s: Bits, pos: nat, l: ScalingList, t: ScalingList, j: nat, last: int)
    requires j <= |l.entries| == |t.entries|
    requires t.useDefault == l.useDefault && t.entries[..j] == l.entries[..j] && TailIs(l.entries, j, last)
    ensures ParseEntries(s, pos, t, j, last, 0) == (l, pos)
    decreases |l.entries| - j
  {
    if j < |l.entries| {
      var t' := t.(entries := t.entries[j := last]);
      assert t'.entries[..j + 1] == l.entries[..j + 1];
      ParseTail(s, pos, l, t', j + 1, last);
    } else {
      assert t.entries == t.entries[..j] == l.entries[..j] == l.entries;
    }
  }

  /** The reader takes the code of one difference back. */
  lemma EntryRead(acc: Bits, t: ScalingList, j: nat, last: int, next: int, n: int, s: Bits)
    requires j < |t.entries| && next != 0 && 1 <= last <= 255 && 0 <= n <= 255
    requires acc + SeBits(WrapDelta(n - last)) <= s
    ensures acc <= s
    ensures var v := if n == 0 then last else n;
            var t' := ScalingList(t.entries[j := v], if j == 0 && n == 0 then 1 else 0);
            ParseEntries(s, |acc|, t, j, last, next) ==
            ParseEntries(s, |acc + SeBits(WrapDelta(n - last))|, t', j + 1, v, n)
  {
    hide SeBits, ParseSe;
    DeltaUndone(last, n);
    SeAt(acc, WrapDelta(n - last), s);
  }

  lemma {:induction false} EntriesRoundTrip(acc: Bits, l: ScalingList, t: ScalingList, j: nat, last: int, next: int, s: Bits)
    requires j <= |l.entries| == |t.entries|
    requires CanonicalList(l) && WritableList(l) && t.entries[..j] == l.entries[..j]
    requires last == (if j == 0 then 8 else l.entries[j - 1]) && next != 0
    requires j > 0 ==> l.useDefault == 0 && t.useDefault == 0
    requires ListBits(acc, l, j, last, next) <= s
    ensures acc <= s
    ensures |l.entries| > 0 ==>
      ParseEntries(s, |acc|, t, j, last, next) == (l, |ListBits(acc, l, j, last, next)|)
    decreases |l.entries| - j
  {
    hide SeBits, ParseSe;
    if j == |l.entries| {
      assert t.entries == t.entries[..j] == l.entries[..j] == l.entries;
    } else {
      var n := NextScale(l, j, last);
      var acc' := acc + SeBits(WrapDelta(n - last));
      var t' := ScalingList(t.entries[j := l.entries[j]], if j == 0 && n == 0 then 1 else 0);
      assert t'.entries[..j + 1] == l.entries[..j + 1];
      if n == 0 {
        LastCode(acc, l, t, j, last, next, s);
      } else {
        EntriesRoundTrip(acc', l, t', j + 1, l.entries[j], n, s);
        EntryRead(acc, t, j, last, next, n, s);
      }
    }
  }

  /** The code that ends a list: the rest of the list repeats the last entry. */
  lemma LastCode(acc: Bits, l: ScalingList, t: ScalingList, j: nat, last: int, next: int, s: Bits)
    requires j < |l.entries| == |t.entries|
    requires CanonicalList(l) && t.entries[..j] == l.entries[..j]
    requires last == (if j == 0 then 8 else l.entries[j - 1]) && 1 <= last <= 255
    requires next != 0 && NextScale(l, j, last) == 0
    requires j > 0 ==> l.useDefault == 0 && t.useDefault == 0
    requires ListBits(acc, l, j, last, next) <= s
    ensures acc <= s
    ensures ParseEntries(s, |acc|, t, j, last, next) == (l, |ListBits(acc, l, j, last, next)|)
  {
    hide SeBits, ParseSe;
    var acc' := acc + SeBits(WrapDelta(0 - last));
    ListBitsExtends(acc', l, j + 1, l.entries[j], 0);
    EntryRead(acc, t, j, last, next, 0, s);
    var t' := ScalingList(t.entries[j := last], if j == 0 then 1 else 0);
    assert TailIs(l.entries, j, last);
    assert t'.entries[..j + 1] == l.entries[..j + 1];
    ParseTail(s, |acc'|, l, t', j + 1, last);
  }

  /** A list of any positive length that a reader can have produced is read back with its flag,
      at any offset and whatever follows. */
  lemma ScalingListRoundTrip(acc: Bits, l: ScalingList, t: ScalingList, s: Bits)
    requires |t.entries| == |l.entries| > 0
    requires CanonicalList(l) && WritableList(l) && ScalingListBits(acc, l) <= s
    ensures acc <= s
    ensures ParseScalingList(s, |acc|, t) == (l, |ScalingListBits(acc, l)|)
  {
    EntriesRoundTrip(acc, l, t, 0, 8, 8, s);
  }

  /** Whatever the bits, a reader leaves a canonical list: the default flag comes with 8s only,
      and without it no entry is 0. */
  lemma {:induction false} ParsedEntries(s: Bits, pos: nat, l: ScalingList, j: nat, last: int, next: int)
    requires j <= |l.entries| && last != 0
    requires j == 0 ==> next != 0
    requires j == 0 ==> last == 8
    requires j == 0 || CanonicalList(l.(entries := l.entries[..j]))
    requires j > 0 && l.useDefault == 1 ==> last == 8 && next == 0
    requires |l.entries| > 0
    ensures CanonicalList(ParseEntries(s, pos, l, j, last, next).0)
    decreases |l.entries| - j
  {
    hide ParseSe, CMod;
    if j < |l.entries| {
      if next == 0 {
        ParsedEntries(s, pos, l.(entries := l.entries[j := last]), j + 1, last, 0);
      } else {
        var n := CMod(last + ParseSe(s, pos).0 + 256, 256);
        var v := if n == 0 then last else n;
        var l' := ScalingList(l.entries[j := v], if j == 0 && n == 0 then 1 else 0);
        assert l'.entries[..j + 1] == l.entries[..j] + [v];
        ParsedEntries(s, ParseSe(s, pos).1, l', j + 1, v, n);
      }
    }
  }

  lemma {:induction false} ParseKeepsPrefix(s: Bits, pos: nat, l: ScalingList, j: nat, last: int, next: int, k: nat)
    requires k < j <= |l.entries|
    ensures ParseEntries(s, pos, l, j, last, next).0.entries[k] == l.entries[k]
    ensures l.useDefault == 0 ==> ParseEntries(s, pos, l, j, last, next).0.useDefault == 0
    decreases |l.entries| - j
  {
    hide ParseSe, CMod;
    if j < |l.entries| {
      if next == 0 {
        ParseKeepsPrefix(s, pos, l.(entries := l.entries[j := last]), j + 1, last, 0, k);
      } else {
        var n := CMod(last + ParseSe(s, pos).0 + 256, 256);
        var v := if n == 0 then last else n;
        var l' := ScalingList(l.entries[j := v], if j == 0 && n == 0 then 1 else 0);
        ParseKeepsPrefix(s, ParseSe(s, pos).1, l', j + 1, v, n, k);
      }
    }
  }

  /** A negative entry comes back 256 higher. */
  lemma DeltaNotUndone(last: int, n: int)
    requires 1 <= last <= 255 && -255 <= n < 0
    ensures -254 <= WrapDelta(n - last) <= 127
    ensures CMod(last + WrapDelta(n - last) + 256, 256) == n + 256
  {
  }

  /** A list that is read back unchanged has no negative entry. */
  lemma {:induction false} SurvivorIsInRange(acc: Bits, l: ScalingList, t: ScalingList, j: nat, last: int, next: int, s: Bits)
    requires j <= |l.entries| == |t.entries| && l.useDefault == 0
    requires CanonicalList(l) && ModestList(l) && t.entries[..j] == l.entries[..j]
    requires forall k :: 0 <= k < j ==> 1 <= l.entries[k] <= 255
    requires last == (if j == 0 then 8 else l.entries[j - 1]) && next != 0
    requires ListBits(acc, l, j, last, next) <= s
    requires ParseEntries(s, |acc|, t, j, last, next).0.entries == l.entries
    ensures WritableList(l)
    decreases |l.entries| - j
  {
    hide SeBits, ParseSe, CMod;
    if j < |l.entries| {
      var n := NextScale(l, j, last);
      if n != 0 {
        var acc' := acc + SeBits(WrapDelta(n - last));
        ListBitsExtends(acc', l, j + 1, l.entries[j], n);
        assert acc' <= s;
        if n < 0 {
          DeltaNotUndone(last, n);
          SeAt(acc, WrapDelta(n - last), s);
          var t' := ScalingList(t.entries[j := n + 256], 0);
          ParseKeepsPrefix(s, |acc'|, t', j + 1, n + 256, n + 256, j);
        } else {
          EntryRead(acc, t, j, last, next, n, s);
          var t' := ScalingList(t.entries[j := n], 0);
          assert t'.entries[..j + 1] == l.entries[..j + 1];
          SurvivorIsInRange(acc', l, t', j + 1, n, n, s);
        }
      } else {
        assert TailIs(l.entries, j, last);
      }
    }
  }

  lemma ScalingListOnlyIf(acc: Bits, l: ScalingList, t: ScalingList, s: Bits)
    requires |t.entries| == |l.entries| && CanonicalList(l)
    requires ScalingListBits(acc, l) <= s && ParseScalingList(s, |acc|, t).0 == l
    ensures WritableList(l)
  {
    if l.useDefault == 0 {
      ParsedModest(s, |acc|, t, 0, 8, 8);
      SurvivorIsInRange(acc, l, t, 0, 8, 8, s);
    }
  }

  /** Whatever the bits, the entries read are remainders modulo 256. */
  lemma {:induction false} ParsedModest(s: Bits, pos: nat, l: ScalingList, j: nat, last: int, next: int)
    requires j <= |l.entries| && -255 <= last <= 255
    requires forall k :: 0 <= k < j ==> -255 <= l.entries[k] <= 255
    ensures ModestList(ParseEntries(s, pos, l, j, last, next).0)
    decreases |l.entries| - j
  {
    hide ParseSe;
    if j < |l.entries| {
      if next == 0 {
        ParsedModest(s, pos, l.(entries := l.entries[j := last]), j + 1, last, 0);
      } else {
        var n := CMod(last + ParseSe(s, pos).0 + 256, 256);
        var v := if n == 0 then last else n;
        var l' := ScalingList(l.entries[j := v], if j == 0 && n == 0 then 1 else 0);
        ParsedModest(s, ParseSe(s, pos).1, l', j + 1, v, n);
      }
    }
  }

  lemma {:induction false} ModestSendable(l: ScalingList, j: nat, last: int, next: int)
    requires j <= |l.entries| && ModestList(l) && -255 <= last <= 255
    ensures SendableFrom(l, j, last, next)
    decreases |l.entries| - j
  {
    if j < |l.entries| && next != 0 {
      ModestSendable(l, j + 1, l.entries[j], NextScale(l, j, last));
    }
  }

  /** Whatever the bits, the writer is defined for the list that was read. */
  lemma ParsedSendable(s: Bits, pos: nat, l: ScalingList)
    ensures SendableList(ParseScalingList(s, pos, l).0)
  {
    hide ParseSe, SendableFrom;
    ParsedModest(s, pos, l, 0, 8, 8);
    ModestSendable(ParseScalingList(s, pos, l).0, 0, 8, 8);
  }

  /** Of all lists, whatever their entries, exactly the canonical ones of bytes survive the round
      trip. */
  lemma ScalingListRoundTripExact(l: ScalingList, rest: Bits)
    requires |l.entries| > 0
    ensures ParseScalingList(ScalingListBits([], l) + rest, 0, l).0 == l <==> CanonicalList(l) && WritableList(l)
  {
    var s := ScalingListBits([], l) + rest;
    ParsedEntries(s, 0, l, 0, 8, 8);
    if CanonicalList(l) && WritableList(l) {
      ScalingListRoundTrip([], l, l, s);
    } else if CanonicalList(l) && ParseScalingList(s, 0, l).0 == l {
      ScalingListOnlyIf([], l, l, s);
    }
  }

  // ----- what the differences must be -----

  /** The differences that a reader takes for entries j, j + 1, ... of a list. */
  function DeltasRead(s: Bits, pos: nat, length: nat, j: nat, last: int, next: int): seq<int>
    requires j <= length
    decreases length - j
  {
    if j == length || next == 0 then []
    else
      var d := ParseSe(s, pos).0;
      var n := CMod(last + d + 256, 256);
      [d] + DeltasRead(s, ParseSe(s, pos).1, length, j + 1, if n == 0 then last else n, n)
  }

  function ListDeltas(s: Bits, pos: nat, length: nat): seq<int> {
    DeltasRead(s, pos, length, 0, 8, 8)
  }

  /** Each difference, added to the entry before it and 256, gives a number of which C's remainder
      is not negative. */
  predicate DeltasFit(deltas: seq<int>, last: int)
    decreases |deltas|
  {
    deltas == [] ||
    var sum := last + deltas[0] + 256;
    (sum >= 0 || sum % 256 == 0) && DeltasFit(deltas[1..], if sum % 256 == 0 then last else sum % 256)
  }

  predicate DeltasSmall(deltas: seq<int>) {
    forall k :: 0 <= k < |deltas| ==> -128 <= deltas[k] <= 127
  }

  lemma RemainderSign(last: int, d: int)
    ensures var sum := last + d + 256;
            var n := CMod(sum, 256);
            && (n == 0 <==> sum % 256 == 0) && (n >= 0 <==> sum >= 0 || sum % 256 == 0)
            && (n > 0 ==> n == sum % 256)
  {
    var sum := last + d + 256;
    if sum < 0 {
      assert -sum == 256 * ((-sum) / 256) + (-sum) % 256;
    }
  }

  /** The list read is one of bytes exactly when its differences fit. */
  lemma {:induction false} WritableFromDeltas(s: Bits, pos: nat, l: ScalingList, j: nat, last: int, next: int)
    requires j <= |l.entries| && 1 <= last <= 255 && next >= 0
    requires forall k :: 0 <= k < j ==> 1 <= l.entries[k] <= 255
    requires j == 0 ==> next != 0
    requires j > 0 && next != 0 ==> l.useDefault == 0
    ensures WritableList(ParseEntries(s, pos, l, j, last, next).0) <==>
            DeltasFit(DeltasRead(s, pos, |l.entries|, j, last, next), last)
    decreases |l.entries| - j
  {
    hide ParseSe, CMod;
    if j < |l.entries| {
      if next == 0 {
        WritableFromDeltas(s, pos, l.(entries := l.entries[j := last]), j + 1, last, 0);
      } else {
        var d := ParseSe(s, pos).0;
        var n := CMod(last + d + 256, 256);
        var v := if n == 0 then last else n;
        var l' := ScalingList(l.entries[j := v], if j == 0 && n == 0 then 1 else 0);
        RemainderSign(last, d);
        var more := DeltasRead(s, ParseSe(s, pos).1, |l.entries|, j + 1, v, n);
        assert ([d] + more)[1..] == more;
        if n < 0 {
          ParseKeepsPrefix(s, ParseSe(s, pos).1, l', j + 1, v, n, j);
        } else {
          WritableFromDeltas(s, ParseSe(s, pos).1, l', j + 1, v, n);
        }
      }
    }
  }

  lemma WritableExactly(s: Bits, pos: nat, l: ScalingList)
    ensures WritableList(ParseScalingList(s, pos, l).0) <==> DeltasFit(ListDeltas(s, pos, |l.entries|), 8)
  {
    WritableFromDeltas(s, pos, l, 0, 8, 8);
  }

  /** The range of differences that the standard allows (section 7.4.2.1.1.1) is enough. */
  lemma {:induction false} SmallDeltasFit(deltas: seq<int>, last: int)
    requires DeltasSmall(deltas) && 1 <= last <= 255
    ensures DeltasFit(deltas, last)
    decreases |deltas|
  {
    if deltas != [] {
      var sum := last + deltas[0] + 256;
      SmallDeltasFit(deltas[1..], if sum % 256 == 0 then last else sum % 256);
    }
  }

  /** One difference of -300 in front of a list of any length leaves the entry -36, which does not
      survive being written. */
  lemma LargeDifferenceIsLost(s: Bits, l: ScalingList)
    requires SeBits(-300) <= s && |l.entries| > 0
    ensures var r := ParseScalingList(s, 0, l).0;
            && r.entries[0] == -36 && !WritableList(r)
            && ParseScalingList(ScalingListBits([], r), 0, r).0 != r
  {
    hide SeBits, ParseSe, DeltasFit;
    assert [] + SeBits(-300) == SeBits(-300);
    SeAt([], -300, s);
    var r := ParseScalingList(s, 0, l).0;
    var t := ScalingList(l.entries[0 := -36], 0);
    assert ParseScalingList(s, 0, l) == ParseEntries(s, ParseSe(s, 0).1, t, 1, -36, -36);
    ParseKeepsPrefix(s, ParseSe(s, 0).1, t, 1, -36, -36, 0);
    assert ScalingListBits([], r) + [] == ScalingListBits([], r);
    ScalingListRoundTripExact(r, []);
  }

  // ----- the reader and the writer -----

  method ReadScalingList(b: Bs, l0: ScalingList) returns (l: ScalingList)
    requires b.Valid()
    modifies b`p, b`bitsLeft
    ensures b.Valid() && b.Stream() == old(b.Stream())
    ensures l == ParseScalingList(b.Stream(), old(b.Pos()), l0).0
    ensures b.Pos() == ParseScalingList(b.Stream(), old(b.Pos()), l0).1
  {
    hide ParseSe;
    var entries, useDefault := l0.entries, l0.useDefault;
    var lastScale, nextScale := 8, 8;
    ghost var s, goal := b.Stream(), ParseScalingList(b.Stream(), b.Pos(), l0);
    for j := 0 to |entries|
      invariant |entries| == |l0.entries| && b.Valid() && b.Stream() == s
      invariant ParseEntries(s, b.Pos(), ScalingList(entries, useDefault), j, lastScale, nextScale) == goal
    {
      if nextScale != 0 {
        var deltaScale := b.ReadSe();
        nextScale := CMod(lastScale + deltaScale + 256, 256);
        useDefault := if j == 0 && nextScale == 0 then 1 else 0;
      }
      entries := entries[j := if nextScale == 0 then lastScale else nextScale];
      lastScale := entries[j];
    }
    l := ScalingList(entries, useDefault);
  }

  /** The scale to send for entry j: 0 for a default list and for a constant tail. */
  method ChooseNext(l: ScalingList, j: nat, lastScale: int) returns (nextScale: int)
    requires j < |l.entries|
    ensures nextScale == NextScale(l, j, lastScale)
  {
    if l.useDefault != 0 {
      return 0;
    }
    nextScale := l.entries[j];
    if j > 0 && nextScale == lastScale {
      var allSame := true;
      var k := j + 1;
      while k < |l.entries|
        invariant j < k <= |l.entries|
        invariant allSame && forall i :: j < i < k ==> l.entries[i] == lastScale
      {
        if l.entries[k] != lastScale {
          assert !TailIs(l.entries, j + 1, lastScale);
          allSame := false;
          break;
        }
        k := k + 1;
      }
      if allSame {
        nextScale := 0;
      }
    }
  }

  method WriteScalingList(b: Bs, l: ScalingList)
    requires b.Writing() && SendableList(l)
    modifies b, b.buf
    ensures b.Writing()
    ensures b.sent == ScalingListBits(old(b.sent), l)
  {
    hide SeBits;
    var lastScale, nextScale := 8, 8;
    for j := 0 to |l.entries|
      invariant b.Writing()
      invariant SendableFrom(l, j, lastScale, nextScale)
      invariant ListBits(b.sent, l, j, lastScale, nextScale) == ScalingListBits(old(b.sent), l)
    {
      if nextScale != 0 {
        nextScale := ChooseNext(l, j, lastScale);
        var deltaScale := nextScale - lastScale;
        if deltaScale < -128 {
          deltaScale := deltaScale + 256;
        } else if deltaScale > 127 {
          deltaScale := deltaScale - 256;
        }
        b.WriteSe(deltaScale);
      }
      lastScale := l.entries[j];
    }
  }
}
