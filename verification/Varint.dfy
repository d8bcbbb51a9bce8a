/** Base-128 varints: the writer, the 64-bit reader, the 32-bit reader and zigzag. */
module Varints {
  import opened Words

  function Varint(v: nat): (s: bytes)
    ensures |s| >= 1
  {
    if v < 0x80 then [v] else [0x80 + v % 0x80] + Varint(v / 0x80)
  }

  /** `bitpos` is 7 * k; a group shifted past bit 63 loses its high bits. */
  function ReadVarintFrom(s: bytes, k: nat, acc: nat): Parse<nat>
  {
    if 7 * k >= 64 || s == [] then Bad
    else
      var acc' := OrAt(acc, s[0] % 0x80, 7 * k, WORD64);
      if s[0] < 0x80 then Got(acc', s[1..]) else ReadVarintFrom(s[1..], k + 1, acc')
  }

  function ReadVarint(s: bytes): Parse<nat> {
    ReadVarintFrom(s, 0, 0)
  }

  /** The loop of the 32-bit reader; `bitpos` is an 8-bit counter and wraps. */
  function ReadVarint32From(s: bytes, bitpos: nat, acc: nat): Parse<nat>
    requires bitpos < 0x100
  {
    if s == [] then Bad
    else
      var b := s[0];
      var signExtension := if bitpos < 63 then 0xFF else 0x01;
      if bitpos >= 32 && b % 0x80 != 0 && (acc / 0x8000_0000 == 0 || b != signExtension) then Bad
      else
        var acc' := if bitpos >= 32 then acc else OrAt(acc, b % 0x80, bitpos, WORD32);
        var bitpos' := (bitpos + 7) % 0x100;
        if b >= 0x80 then ReadVarint32From(s[1..], bitpos', acc')
        else if bitpos' == 35 && b / 0x10 % 8 != 0 then Bad
        else Got(acc', s[1..])
  }

  function ReadVarint32(s: bytes): Parse<nat> {
    if s == [] then Bad
    else if s[0] < 0x80 then Got(s[0], s[1..])
    else ReadVarint32From(s[1..], 7, s[0] % 0x80)
  }

  /** Skipping never bounds the length of the varint. */
  function SkipVarint(s: bytes): Parse<()> {
    if s == [] then Bad
    else if s[0] < 0x80 then Got((), s[1..])
    else SkipVarint(s[1..])
  }

  /** The two's-complement word of a signed value, and back. */
  function ToWord64(n: int): nat { n % WORD64 }

  function ToSigned64(w: nat): int { if w >= 0x8000_0000_0000_0000 then w - WORD64 else w }

  function ToSigned32(w: nat): int {
    var low := w % WORD32;
    if low >= 0x8000_0000 then low - WORD32 else low
  }

  /** `~(w << 1)` for a negative value, `w << 1` otherwise, on 64-bit words. */
  function Zigzag(n: int): nat {
    var doubled := 2 * ToWord64(n) % WORD64;
    if n < 0 then WORD64 - 1 - doubled else doubled
  }

  function Unzigzag(w: nat): int {
    if w % 2 == 1 then ToSigned64((WORD64 - 1 - w / 2) % WORD64) else ToSigned64(w / 2)
  }

  // ---- progress -------------------------------------------------------------------------

  lemma {:induction false} ReadVarintShrinks(s: bytes, k: nat, acc: nat)
    ensures var p := ReadVarintFrom(s, k, acc); p.Got? ==> |p.rest| < |s| && p.rest == s[|s| - |p.rest|..]
  {
    if 7 * k < 64 && s != [] {
      ReadVarintShrinks(s[1..], k + 1, OrAt(acc, s[0] % 0x80, 7 * k, WORD64));
    }
  }

  lemma {:induction false} ReadVarint32Shrinks(s: bytes, bitpos: nat, acc: nat)
    requires bitpos < 0x100
    ensures var p := ReadVarint32From(s, bitpos, acc); p.Got? ==> |p.rest| < |s| && p.rest == s[|s| - |p.rest|..]
  {
    if s != [] {
      var acc' := if bitpos >= 32 then acc else OrAt(acc, s[0] % 0x80, bitpos, WORD32);
      ReadVarint32Shrinks(s[1..], (bitpos + 7) % 0x100, acc');
    }
  }

  lemma ReadersShrink(s: bytes)
    ensures ReadVarint(s).Got? ==> |ReadVarint(s).rest| < |s|
    ensures ReadVarint32(s).Got? ==> |ReadVarint32(s).rest| < |s|
  {
    hide ReadVarintFrom, ReadVarint32From;
    ReadVarintShrinks(s, 0, 0);
    if s != [] {
      ReadVarint32Shrinks(s[1..], 7, s[0] % 0x80);
    }
  }

  /** The 32-bit reader returns 32-bit words. */
  lemma {:induction false} ReadVarint32InWord(s: bytes, bitpos: nat, acc: nat)
    requires bitpos < 0x100 && acc < WORD32
    ensures ReadVarint32From(s, bitpos, acc).Got? ==> ReadVarint32From(s, bitpos, acc).value < WORD32
  {
    if s != [] {
      OrAtInWord(acc, s[0] % 0x80, bitpos);
      var acc' := if bitpos >= 32 then acc else OrAt(acc, s[0] % 0x80, bitpos, WORD32);
      ReadVarint32InWord(s[1..], (bitpos + 7) % 0x100, acc');
    }
  }

  lemma OrAtInWord(acc: nat, group: nat, bitpos: nat)
    requires acc < WORD32
    ensures OrAt(acc, group, bitpos, WORD32) < WORD32
  {
    Pow2Words();
    BitOrBound(acc, group * Pow2(bitpos) % WORD32, 32);
  }

  // ---- length ---------------------------------------------------------------------------

  /** A varint fits in k bytes exactly when its value fits in 7 * k bits. */
  lemma {:induction false} VarintLength(v: nat, k: nat)
    requires k >= 1
    ensures |Varint(v)| <= k <==> v < Pow2(7 * k)
  {
    hide Pow2;
    Pow2Words();
    if k > 1 {
      NextShift(k - 1);
      if v >= 0x80 {
        DivideBound(v, Pow2(7 * (k - 1)));
        VarintLength(v / 0x80, k - 1);
      } else {
        MulMono(1, Pow2(7 * (k - 1)), 0x80);
      }
    }
  }

  lemma DivideBound(v: nat, p: nat)
    ensures v < 0x80 * p <==> v / 0x80 < p
  {
  }

  lemma VarintAtMostTen(v: nat)
    requires v < WORD64
    ensures |Varint(v)| <= 10
  {
    Pow2Words();
    Pow2Sum(64, 6);
    VarintLength(v, 10);
  }

  // ---- 64-bit round trip ----------------------------------------------------------------

  lemma SplitProduct(v: nat, p: nat)
    ensures v % 0x80 * p + v / 0x80 * (0x80 * p) == v * p
    ensures v % 0x80 * p <= 0x7F * p && v % 0x80 * p <= v * p
  {
    MulSplit(v % 0x80, v / 0x80, p);
    MulMono(v % 0x80, 0x7F, p);
    MulMono(v % 0x80, v, p);
  }

  lemma ReadVarintStep(v: nat, t: bytes, k: nat, acc: nat, acc': nat)
    requires 7 * k < 64 && acc' == OrAt(acc, v % 0x80, 7 * k, WORD64)
    ensures ReadVarintFrom(Varint(v) + t, k, acc)
         == if v < 0x80 then Got(acc', t) else ReadVarintFrom(Varint(v / 0x80) + t, k + 1, acc')
  {
    hide OrAt;
    var s := Varint(v) + t;
    assert s[0] % 0x80 == v % 0x80;
    assert s[1..] == if v < 0x80 then t else Varint(v / 0x80) + t;
  }

  lemma {:induction false} ReadVarintFromWritten(v: nat, t: bytes, k: nat, acc: nat)
    requires acc < Pow2(7 * k) && acc + v * Pow2(7 * k) < WORD64
    requires k > 0 ==> v > 0
    ensures ReadVarintFrom(Varint(v) + t, k, acc) == Got(acc + v * Pow2(7 * k), t)
    decreases v
  {
    hide OrAt, Varint, ReadVarintFrom, Pow2;
    ShiftInRange(v, k);
    var p := Pow2(7 * k);
    SplitProduct(v, p);
    OrAtAdds(acc, v % 0x80, 7 * k, WORD64);
    var acc' := acc + v % 0x80 * p;
    ReadVarintStep(v, t, k, acc, acc');
    if v >= 0x80 {
      NextShift(k);
      ReadVarintFromWritten(v / 0x80, t, k + 1, acc');
    }
  }

  lemma NextShift(k: nat)
    ensures Pow2(7 * (k + 1)) == 0x80 * Pow2(7 * k)
  {
    Pow2Words();
    Pow2Sum(7, 7 * k);
    assert 7 + 7 * k == 7 * (k + 1);
  }

  lemma LargeProduct(v: nat, q: nat)
    requires v > 0 && q > 0
    ensures v * (WORD64 * q) >= WORD64
  {
    assert v * q >= 1;
    assert v * (WORD64 * q) == WORD64 * (v * q);
  }

  lemma ShiftInRange(v: nat, k: nat)
    requires v * Pow2(7 * k) < WORD64 && (k > 0 ==> v > 0)
    ensures 7 * k < 64
  {
    if k >= 10 {
      Pow2Words();
      Pow2Sum(64, 7 * k - 64);
      LargeProduct(v, Pow2(7 * k - 64));
    }
  }

  /** Every 64-bit value survives the round trip, and exactly its bytes are consumed. */
  lemma VarintRoundTrip(v: nat, t: bytes)
    requires v < WORD64
    ensures ReadVarint(Varint(v) + t) == Got(v, t)
  {
    ReadVarintFromWritten(v, t, 0, 0);
  }

  lemma {:induction false} SkipVarintWritten(v: nat, t: bytes)
    ensures SkipVarint(Varint(v) + t) == Got((), t)
  {
    var s := Varint(v) + t;
    if v < 0x80 {
      assert s[1..] == t;
    } else {
      assert s[1..] == Varint(v / 0x80) + t;
      SkipVarintWritten(v / 0x80, t);
    }
  }

  // ---- the 32-bit reader on written varints -----------------------------------------------

  predicate SignLike(g: nat) { g == 0 || g == 0x7F }

  /** Four groups, each of them all zeros or all ones on its own, under a last byte 0x01. */
  predicate SignRun(high: nat) {
    && high / 0x1000_0000 == 1
    && SignLike(high % 0x80)
    && SignLike(high / 0x80 % 0x80)
    && SignLike(high / 0x4000 % 0x80)
    && SignLike(high / 0x20_0000 % 0x80)
  }

  /** The values whose varint the 32-bit reader accepts: 32-bit values, and values of ten bytes with bits
      31 and 63 set in which each seven-bit group from bit 35 to bit 62 is all zeros or all ones. Bits 32
      to 34 are not looked at. */
  predicate Accepted32(v: nat) {
    v < WORD32 || (v / 0x8000_0000 % 2 == 1 && SignRun(v / 0x8_0000_0000))
  }

  /** Acceptance of the bytes from group k on; `w` is the value shifted right by 7 * k bits. */
  predicate HighAccepted(w: nat, k: nat, acc: nat) {
    if w < 0x80 then acc >= 0x8000_0000 && k >= 9 && w == 1
    else (w % 0x80 == 0 || (w % 0x80 == 0x7F && acc >= 0x8000_0000 && k < 9)) && HighAccepted(w / 0x80, k + 1, acc)
  }

  /** `size` bounds the value left at group k: one bit at group 9, seven more for each group below. */
  lemma {:induction false} ReadHighGroups(w: nat, k: nat, size: nat, acc: nat, t: bytes)
    requires 5 <= k <= 9 && 0 < w < size
    requires size == [0x2000_0000, 0x40_0000, 0x8000, 0x100, 0x2][k - 5]
    ensures ReadVarint32From(Varint(w) + t, 7 * k, acc) == if HighAccepted(w, k, acc) then Got(acc, t) else Bad
    decreases w
  {
    hide OrAt;
    var s := Varint(w) + t;
    if w < 0x80 {
      assert s[0] == w && s[1..] == t;
    } else {
      assert s[0] == 0x80 + w % 0x80;
      assert s[1..] == Varint(w / 0x80) + t;
      ReadHighGroups(w / 0x80, k + 1, size / 0x80, acc, t);
    }
  }

  lemma GroupBound(g: nat, p: nat)
    requires g < 0x80 && p <= 0x20_0000
    ensures g * p < WORD32
  {
    MulMono(g, 0x7F, p);
  }

  lemma OrLowGroup(acc: nat, w: nat, bitpos: nat)
    requires acc < Pow2(bitpos) <= 0x20_0000
    ensures OrAt(acc, w % 0x80, bitpos, WORD32) == acc + w % 0x80 * Pow2(bitpos)
  {
    GroupBound(w % 0x80, Pow2(bitpos));
    OrAtAdds(acc, w % 0x80, bitpos, WORD32);
  }

  /** One byte below bit 28. */
  lemma ReadLowGroup(w: nat, bitpos: nat, acc: nat, t: bytes, acc': nat)
    requires bitpos <= 21 && acc' == OrAt(acc, w % 0x80, bitpos, WORD32)
    ensures ReadVarint32From(Varint(w) + t, bitpos, acc)
         == if w < 0x80 then Got(acc', t) else ReadVarint32From(Varint(w / 0x80) + t, bitpos + 7, acc')
  {
    hide OrAt;
    var s := Varint(w) + t;
    assert s[0] % 0x80 == w % 0x80;
    assert s[1..] == if w < 0x80 then t else Varint(w / 0x80) + t;
  }

  lemma FifthGroupKept(w: nat)
    ensures w % 0x80 * 0x1000_0000 % WORD32 == w % 0x10 * 0x1000_0000
  {
    var g := w % 0x80;
    assert g * 0x1000_0000 == g / 0x10 * WORD32 + g % 0x10 * 0x1000_0000;
    assert g % 0x10 == w % 0x10;
  }

  lemma OrFifthGroup(w: nat, acc: nat)
    requires acc < 0x1000_0000
    ensures OrAt(acc, w % 0x80, 28, WORD32) == acc + w % 0x10 * 0x1000_0000
  {
    hide OrAt;
    Pow2Words();
    FifthGroupKept(w);
    OrAtKeeps(acc, w % 0x80, w % 0x10, 28, WORD32);
  }

  /** The byte at bit 28: only its low four bits stay inside the word. */
  lemma ReadFifthGroup(w: nat, acc: nat, t: bytes, acc': nat)
    requires 0 < w < 0x10_0000_0000 && acc' == OrAt(acc, w % 0x80, 28, WORD32)
    ensures ReadVarint32From(Varint(w) + t, 28, acc)
         == if w < 0x80 then (if w < 0x10 then Got(acc', t) else Bad)
            else if HighAccepted(w / 0x80, 5, acc') then Got(acc', t) else Bad
  {
    hide OrAt;
    var s := Varint(w) + t;
    assert s[0] % 0x80 == w % 0x80;
    if w < 0x80 {
      assert s[1..] == t;
      assert w / 0x10 % 8 == w / 0x10;
    } else {
      assert s[1..] == Varint(w / 0x80) + t;
      ReadHighGroups(w / 0x80, 5, 0x2000_0000, acc', t);
    }
  }

  lemma ReadThreeGroups(low: nat, w: nat, t: bytes)
    requires low < 0x80 && 0 < w
    ensures var w2 := w / 0x80;
            var w3 := w2 / 0x80;
            var w4 := w3 / 0x80;
            var acc4 := low + w % 0x80 * 0x80 + w2 % 0x80 * 0x4000 + w3 % 0x80 * 0x20_0000;
            ReadVarint32From(Varint(w) + t, 7, low)
              == if w4 > 0 then ReadVarint32From(Varint(w4) + t, 28, acc4) else Got(acc4, t)
  {
    hide OrAt, Varint, ReadVarint32From;
    Pow2Words();
    Pow2Sum(7, 7);
    Pow2Sum(14, 7);
    var w2 := w / 0x80;
    var w3 := w2 / 0x80;
    var acc2 := low + w % 0x80 * 0x80;
    var acc3 := acc2 + w2 % 0x80 * 0x4000;
    var acc4 := acc3 + w3 % 0x80 * 0x20_0000;
    OrLowGroup(low, w, 7);
    ReadLowGroup(w, 7, low, t, acc2);
    OrLowGroup(acc2, w2, 14);
    ReadLowGroup(w2, 14, acc2, t, acc3);
    OrLowGroup(acc3, w3, 21);
    ReadLowGroup(w3, 21, acc3, t, acc4);
    if w >= 0x80 && w2 >= 0x80 && w3 >= 0x80 {
    } else if w < 0x80 {
      assert acc4 == acc2;
    } else if w2 < 0x80 {
      assert acc4 == acc3;
    }
  }

  /** A varint of two or more bytes, after its first byte; `w` is the value shifted right by 7. */
  lemma ReadAfterFirst(low: nat, w: nat, t: bytes)
    requires low < 0x80 && 0 < w < 0x200_0000_0000_0000
    ensures var v := low + 0x80 * w;
            ReadVarint32From(Varint(w) + t, 7, low) == if Accepted32(v) then Got(v % WORD32, t) else Bad
  {
    hide OrAt, Varint, ReadVarint32From, Accepted32, HighAccepted;
    var w2 := w / 0x80;
    var w3 := w2 / 0x80;
    var w4 := w3 / 0x80;
    var acc4 := low + w % 0x80 * 0x80 + w2 % 0x80 * 0x4000 + w3 % 0x80 * 0x20_0000;
    ReadThreeGroups(low, w, t);
    assert low + 0x80 * w == acc4 + w4 * 0x1000_0000;
    if w4 == 0 {
      SmallVarint(low + 0x80 * w);
    } else {
      OrFifthGroup(w4, acc4);
      ReadFifthGroup(w4, acc4, t, acc4 + w4 % 0x10 * 0x1000_0000);
      FifthGroupWord(low + 0x80 * w, acc4, w4);
    }
  }

  lemma SmallVarint(v: nat)
    requires v < WORD32
    ensures Accepted32(v) && v % WORD32 == v
  {
  }

  lemma FifthGroupWord(v: nat, acc: nat, w: nat)
    requires acc < 0x1000_0000 && v == acc + w * 0x1000_0000 && v < WORD64
    ensures acc + w % 0x10 * 0x1000_0000 == v % WORD32
    ensures w < 0x80 ==> (Accepted32(v) <==> w < 0x10)
    ensures w >= 0x80 ==> (Accepted32(v) <==> HighAccepted(w / 0x80, 5, v % WORD32))
  {
    hide SignRun, HighAccepted;
    LowWord(v, acc, w);
    HighPart(v, acc, w);
    Bit31(v);
    if w < 0x80 {
      NoSignRun();
    } else {
      HighAcceptedMeaning(v / 0x8_0000_0000, v % WORD32);
    }
  }

  lemma LowWord(v: nat, acc: nat, w: nat)
    requires acc < 0x1000_0000 && v == acc + w * 0x1000_0000
    ensures acc + w % 0x10 * 0x1000_0000 == v % WORD32
    ensures v < WORD32 <==> w < 0x10
  {
    assert v == w / 0x10 * WORD32 + (acc + w % 0x10 * 0x1000_0000);
  }

  lemma HighPart(v: nat, acc: nat, w: nat)
    requires acc < 0x1000_0000 && v == acc + w * 0x1000_0000
    ensures v / 0x8_0000_0000 == w / 0x80
  {
    assert v == w / 0x80 * 0x8_0000_0000 + (acc + w % 0x80 * 0x1000_0000);
  }

  lemma Bit31(v: nat)
    ensures v / 0x8000_0000 % 2 == 1 <==> v % WORD32 >= 0x8000_0000
  {
  }

  lemma NoSignRun()
    ensures !SignRun(0)
  {
  }

  lemma HighAcceptedMeaning(high: nat, acc: nat)
    requires 0 < high < 0x2000_0000
    ensures HighAccepted(high, 5, acc)
        <==> acc >= 0x8000_0000 && SignRun(high)
  {
    var w6 := high / 0x80;
    var w7 := w6 / 0x80;
    var w8 := w7 / 0x80;
    var w9 := w8 / 0x80;
    assert w7 == high / 0x4000 && w8 == high / 0x20_0000 && w9 == high / 0x1000_0000;
    assert w8 > 0 ==> (HighAccepted(w8, 8, acc) <==> acc >= 0x8000_0000 && w9 == 1 && SignLike(w8 % 0x80));
    assert w7 > 0 ==> (HighAccepted(w7, 7, acc) <==>
      acc >= 0x8000_0000 && w9 == 1 && SignLike(w8 % 0x80) && SignLike(w7 % 0x80));
    assert w6 > 0 ==> (HighAccepted(w6, 6, acc) <==>
      acc >= 0x8000_0000 && w9 == 1 && SignLike(w8 % 0x80) && SignLike(w7 % 0x80) && SignLike(w6 % 0x80));
  }

  /** The 32-bit reader on the writer's output, for every 64-bit value. */
  lemma Varint32OnWritten(v: nat, t: bytes)
    requires v < WORD64
    ensures ReadVarint32(Varint(v) + t) == if Accepted32(v) then Got(v % WORD32, t) else Bad
  {
    hide Accepted32, ReadVarint32From;
    var s := Varint(v) + t;
    if v < 0x80 {
      assert s[1..] == t;
      SmallVarint(v);
    } else {
      assert s[0] % 0x80 == v % 0x80;
      assert s[1..] == Varint(v / 0x80) + t;
      ReadAfterFirst(v % 0x80, v / 0x80, t);
    }
  }

  /** The three ranges a caller meets: 32-bit values, sign-extended negatives, everything between. */
  lemma Varint32Ranges(v: nat, t: bytes)
    requires v < WORD64
    ensures v < WORD32 ==> ReadVarint32(Varint(v) + t) == Got(v, t)
    ensures v >= WORD64 - 0x8000_0000 ==> ReadVarint32(Varint(v) + t) == Got(v % WORD32, t)
    ensures WORD32 <= v < 0x8000_0000_0000_0000 ==> ReadVarint32(Varint(v) + t) == Bad
  {
    hide Varint, ReadVarint32, ReadVarint32From;
    Varint32OnWritten(v, t);
  }

  /** It does not accept exactly the values that fit, nor exactly those and the sign extensions: here bits
      32 to 62 are zero under the sign bit, and bit 31 is set. */
  lemma AcceptedMisfit(t: bytes)
    ensures ReadVarint32(Varint(0x8000_0000_8000_0000) + t) == Got(0x8000_0000, t)
  {
    hide Varint, ReadVarint32, ReadVarint32From;
    Varint32OnWritten(0x8000_0000_8000_0000, t);
  }

  // ---- zigzag -----------------------------------------------------------------------------

  lemma ZigzagRoundTrip(n: int)
    requires -0x8000_0000_0000_0000 <= n < 0x8000_0000_0000_0000
    ensures Zigzag(n) < WORD64 && Unzigzag(Zigzag(n)) == n
    ensures Zigzag(n) == if n < 0 then -2 * n - 1 else 2 * n
  {
    if n < 0 {
      assert ToWord64(n) == n + WORD64;
      assert 2 * ToWord64(n) % WORD64 == 2 * n + WORD64;
    }
  }

  lemma SignedRoundTrip(n: int)
    requires -0x8000_0000_0000_0000 <= n < 0x8000_0000_0000_0000
    ensures ToWord64(n) < WORD64 && ToSigned64(ToWord64(n)) == n
    ensures -0x8000_0000 <= n < 0x8000_0000 ==> ToSigned32(ToWord64(n)) == n
  {
    if n < 0 {
      assert ToWord64(n) == n + WORD64;
      assert (n + WORD64) % WORD32 == n % WORD32;
    }
  }
}
