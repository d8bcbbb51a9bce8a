/** The wire format in its own terms: groups of seven bits, the numbers of the wire types, signed and zigzag
    values, little-endian words, and the examples of the Protocol Buffers "Encoding" specification. */
module WireFormat {
  import opened Words
  import opened Varints
  import opened Schema
  import opened Wire
  import opened Encoding
  import opened Decoding

  // ---- varints, on any bytes -----------------------------------------------------------------

  /** The bytes at the front that say that another one follows. */
  function Continued(s: bytes): (n: nat)
    ensures n <= |s|
  {
    if s != [] && s[0] >= 0x80 then 1 + Continued(s[1..]) else 0
  }

  /** The low seven bits of the first n bytes, least significant group first. */
  function Groups(s: bytes, n: nat): nat
    requires n <= |s|
  {
    if n == 0 then 0 else s[0] % 0x80 + 0x80 * Groups(s[1..], n - 1)
  }

  /** The group at bit 63: its lowest bit stays inside the word. */
  lemma TenthGroup(acc: nat, g: nat)
    requires acc < Pow2(63) && g < 0x80
    ensures OrAt(acc, g, 63, WORD64) == (acc + g * Pow2(63)) % WORD64
  {
    hide OrAt;
    Pow2Words();
    var half := 0x8000_0000_0000_0000;
    assert g * half == g / 2 * WORD64 + g % 2 * half;
    assert g * half % WORD64 == g % 2 * half;
    OrAtKeeps(acc, g, g % 2, 63, WORD64);
    assert acc + g * half == g / 2 * WORD64 + (acc + g % 2 * half);
  }

  lemma LowerGroup(acc: nat, g: nat, k: nat)
    requires k < 9 && acc < Pow2(7 * k) && g < 0x80
    ensures OrAt(acc, g, 7 * k, WORD64) == acc + g * Pow2(7 * k) < Pow2(7 * (k + 1)) <= Pow2(63) < WORD64
  {
    hide OrAt, Pow2;
    Pow2Words();
    NextShift(k);
    MulMono(g, 0x7F, Pow2(7 * k));
    Pow2Sum(7 * (k + 1), 63 - 7 * (k + 1));
    assert 7 * (k + 1) + (63 - 7 * (k + 1)) == 63;
    MulMono(1, Pow2(63 - 7 * (k + 1)), Pow2(7 * (k + 1)));
    OrAtAdds(acc, g, 7 * k, WORD64);
  }

  /** `acc` holds the groups below group k. */
  lemma {:induction false} GroupsRead(s: bytes, k: nat, acc: nat)
    requires k <= 10 && acc < Pow2(7 * k)
    ensures var n := Continued(s);
            ReadVarintFrom(s, k, acc)
              == if n < |s| && k + n < 10 then Got((acc + Groups(s, n + 1) * Pow2(7 * k)) % WORD64, s[n + 1..]) else Bad
  {
    hide OrAt, Pow2;
    if k < 10 && s != [] {
      var g, p := s[0] % 0x80, Pow2(7 * k);
      var acc' := OrAt(acc, g, 7 * k, WORD64);
      assert Groups(s, 1) == g;
      if k == 9 {
        TenthGroup(acc, g);
        assert s[0] >= 0x80 ==> ReadVarintFrom(s[1..], 10, acc') == Bad;
      } else {
        LowerGroup(acc, g, k);
        if s[0] < 0x80 {
          SmallMod(acc', WORD64);
        } else {
          NextShift(k);
          GroupsRead(s[1..], k + 1, acc');
          var n := Continued(s);
          if n < |s| {
            MulSplit(g, Groups(s[1..], n), p);
            assert s[1..][n..] == s[n + 1..];
          }
        }
      }
    }
  }

  /** Any bytes: the reader takes at most ten, up to the first without its top bit, and their groups make up the
      word, modulo 2^64. */
  lemma VarintMeaning(s: bytes)
    ensures var n := Continued(s);
            ReadVarint(s)
              == if n < |s| && n < 10 then Got(Groups(s, n + 1) % 0x1_0000_0000_0000_0000, s[n + 1..]) else Bad
  {
    GroupsRead(s, 0, 0);
  }

  lemma {:induction false} SkipMeaning(s: bytes)
    ensures var n := Continued(s);
            SkipVarint(s) == if n < |s| then Got((), s[n + 1..]) else Bad
  {
    if s != [] && s[0] >= 0x80 {
      SkipMeaning(s[1..]);
      var n := Continued(s);
      assert n < |s| ==> s[1..][n..] == s[n + 1..];
    }
  }

  // ---- 32-bit varints, on any bytes --------------------------------------------------------------

  /** A byte past the fifth: no bits, or, under a set bit 31, what the ten bytes of a negative number have there. */
  predicate SignOrZero(b: byte, j: nat, low: nat) {
    b % 0x80 == 0 || (low >= 0x8000_0000 && b == if j < 9 then 0xFF else 0x01)
  }

  /** A byte of the varint from position `from` on that is none of these. */
  ghost predicate Misfit(s: bytes, j: nat, from: nat, low: nat) {
    exists i :: from <= i <= Continued(s) && i < |s| && !SignOrZero(s[i], j + i, low)
  }

  lemma MisfitTail(s: bytes, j: nat, from: nat, low: nat)
    requires s != [] && s[0] >= 0x80 && from > 0
    ensures Misfit(s, j, from, low) <==> Misfit(s[1..], j + 1, from - 1, low)
  {
    var n := Continued(s);
    if Misfit(s, j, from, low) {
      var i :| from <= i <= n && i < |s| && !SignOrZero(s[i], j + i, low);
      assert s[1..][i - 1] == s[i] && j + 1 + (i - 1) == j + i;
    }
    if Misfit(s[1..], j + 1, from - 1, low) {
      var i :| from - 1 <= i <= n - 1 && i < |s| - 1 && !SignOrZero(s[1..][i], j + 1 + i, low);
      assert s[i + 1] == s[1..][i] && j + (i + 1) == j + 1 + i;
    }
  }

  /** The bytes from the sixth on, while the bit counter has not wrapped. */
  lemma {:induction false} HighBytes(s: bytes, j: nat, low: nat)
    requires 5 <= j && j + Continued(s) < 37
    ensures ReadVarint32From(s, 7 * j, low)
         == if Continued(s) >= |s| || Misfit(s, j, 0, low) then Bad else Got(low, s[Continued(s) + 1..])
  {
    hide OrAt;
    if s != [] {
      assert !SignOrZero(s[0], j, low) ==> Misfit(s, j, 0, low);
      if s[0] >= 0x80 {
        HighBytes(s[1..], j + 1, low);
        MisfitTail(s, j, 1, low);
        assert SignOrZero(s[0], j, low) ==> (Misfit(s, j, 0, low) <==> Misfit(s, j, 1, low));
        assert Continued(s) < |s| ==> s[1..][Continued(s[1..]) + 1..] == s[Continued(s) + 1..];
      }
    }
  }

  /** The word once the groups from group j on are added, before it is cut to 32 bits. */
  function LowSum(s: bytes, j: nat, acc: nat): nat
    requires Continued(s) < |s| && j < 5
  {
    acc + Groups(s, if j + Continued(s) < 5 then Continued(s) + 1 else 5 - j) * Pow2(7 * j)
  }

  function LowFrom(s: bytes, j: nat, acc: nat): nat
    requires Continued(s) < |s| && j < 5
  {
    LowSum(s, j, acc) % 0x1_0000_0000
  }

  lemma GroupsTail(s: bytes, m: nat)
    requires 0 < m <= |s|
    ensures Groups(s, m) == s[0] % 0x80 + 0x80 * Groups(s[1..], m - 1)
  {
  }

  lemma LowSumTail(s: bytes, j: nat, acc: nat)
    requires j < 4 && s != [] && s[0] >= 0x80 && Continued(s) < |s|
    ensures LowSum(s[1..], j + 1, acc + s[0] % 0x80 * Pow2(7 * j)) == LowSum(s, j, acc)
  {
    hide Pow2, Groups;
    NextShift(j);
    var m := if j + Continued(s) < 5 then Continued(s) + 1 else 5 - j;
    GroupsTail(s, m);
    MulSplit(s[0] % 0x80, Groups(s[1..], m - 1), Pow2(7 * j));
  }

  lemma LowFromTail(s: bytes, j: nat, acc: nat)
    requires j < 4 && s != [] && s[0] >= 0x80 && Continued(s) < |s|
    ensures LowFrom(s[1..], j + 1, acc + s[0] % 0x80 * Pow2(7 * j)) == LowFrom(s, j, acc)
  {
    hide LowSum, Pow2;
    LowSumTail(s, j, acc);
  }

  lemma LowFromLast(s: bytes, j: nat, acc: nat)
    requires j < 5 && s != [] && Continued(s) < |s| && (s[0] < 0x80 || j == 4)
    ensures LowFrom(s, j, acc) == (acc + s[0] % 0x80 * Pow2(7 * j)) % 0x1_0000_0000
  {
    hide Pow2;
    assert Groups(s, 1) == s[0] % 0x80;
  }

  lemma FifthInWord(acc: nat, b: byte)
    requires acc < 0x1000_0000
    ensures OrAt(acc, b % 0x80, 28, WORD32) == (acc + b % 0x80 * 0x1000_0000) % WORD32
  {
    hide OrAt;
    OrFifthGroup(b, acc);
    var g := b % 0x80;
    assert g % 0x10 == b % 0x10;
    assert acc + g * 0x1000_0000 == g / 0x10 * WORD32 + (acc + g % 0x10 * 0x1000_0000);
  }

  predicate FifthTooLarge(s: bytes, j: nat) { j + Continued(s) == 4 && Continued(s) < |s| && s[Continued(s)] >= 0x10 }

  lemma FifthTail(s: bytes, j: nat)
    requires s != [] && s[0] >= 0x80
    ensures FifthTooLarge(s, j) <==> FifthTooLarge(s[1..], j + 1)
  {
  }

  /** The fifth byte. */
  lemma FifthByte(s: bytes, acc: nat)
    requires acc < 0x1000_0000 && 4 + Continued(s) < 37
    ensures ReadVarint32From(s, 28, acc)
         == if Continued(s) >= |s| || FifthTooLarge(s, 4) || Misfit(s, 4, 1, LowFrom(s, 4, acc)) then Bad
            else Got(LowFrom(s, 4, acc), s[Continued(s) + 1..])
  {
    hide OrAt, Pow2, Misfit;
    Pow2Words();
    if s != [] {
      var acc' := OrAt(acc, s[0] % 0x80, 28, WORD32);
      FifthInWord(acc, s[0]);
      if s[0] < 0x80 {
        LowFromLast(s, 4, acc);
        assert s[0] / 0x10 % 8 == s[0] / 0x10;
        NoneBeyond(s, 4, LowFrom(s, 4, acc));
      } else {
        HighBytes(s[1..], 5, acc');
        if Continued(s) < |s| {
          LowFromLast(s, 4, acc);
          MisfitTail(s, 4, 1, acc');
          assert s[1..][Continued(s[1..]) + 1..] == s[Continued(s) + 1..];
        }
      }
    }
  }

  lemma NoneBeyond(s: bytes, j: nat, low: nat)
    requires Continued(s) == 0
    ensures !Misfit(s, j, 1, low)
  {
  }

  lemma LowStep(s: bytes, j: nat, acc: nat)
    requires 1 <= j <= 3 && acc < Pow2(7 * j) && s != []
    ensures var acc' := acc + s[0] % 0x80 * Pow2(7 * j);
            && acc' < Pow2(7 * (j + 1)) <= 0x1000_0000
            && ReadVarint32From(s, 7 * j, acc)
                 == if s[0] < 0x80 then Got(acc', s[1..]) else ReadVarint32From(s[1..], 7 * (j + 1), acc')
  {
    hide OrAt, Pow2;
    Pow2Words();
    Pow2Sum(7, 7);
    Pow2Sum(14, 7);
    NextShift(j);
    MulMono(s[0] % 0x80, 0x7F, Pow2(7 * j));
    OrLowGroup(acc, s[0], 7 * j);
  }

  lemma {:induction false} LowBytes(s: bytes, j: nat, acc: nat)
    requires 1 <= j <= 4 && acc < Pow2(7 * j) && j + Continued(s) < 37
    ensures ReadVarint32From(s, 7 * j, acc)
         == if Continued(s) >= |s| || FifthTooLarge(s, j) || Misfit(s, j, 5 - j, LowFrom(s, j, acc)) then Bad
            else Got(LowFrom(s, j, acc), s[Continued(s) + 1..])
    decreases 4 - j
  {
    hide OrAt, Pow2, Misfit, ReadVarint32From, LowFrom;
    Pow2Words();
    if j == 4 {
      FifthByte(s, acc);
    } else if s == [] {
      NothingToRead(7 * j, acc);
    } else {
      LowStep(s, j, acc);
      var acc' := acc + s[0] % 0x80 * Pow2(7 * j);
      if s[0] < 0x80 {
        LowFromLast(s, j, acc);
        SmallMod(acc', WORD32);
        FewBytes(s, j, 5 - j, LowFrom(s, j, acc));
      } else {
        LowBytes(s[1..], j + 1, acc');
        if Continued(s) < |s| {
          LowFromTail(s, j, acc);
          MisfitTail(s, j, 5 - j, LowFrom(s, j, acc));
          assert s[1..][Continued(s[1..]) + 1..] == s[Continued(s) + 1..];
        }
      }
    }
  }

  lemma NothingToRead(bitpos: nat, acc: nat)
    requires bitpos < 0x100
    ensures ReadVarint32From([], bitpos, acc) == Bad
  {
  }

  lemma FewBytes(s: bytes, j: nat, from: nat, low: nat)
    requires Continued(s) < from
    ensures !Misfit(s, j, from, low)
  {
  }

  lemma FirstByte(s: bytes)
    requires s != []
    ensures ReadVarint32(s) == if s[0] < 0x80 then Got(s[0], s[1..]) else ReadVarint32From(s[1..], 7 * 1, s[0] % 0x80)
  {
    hide ReadVarint32From;
  }

  lemma ContinuedTail(s: bytes)
    requires s != []
    ensures Continued(s) == if s[0] < 0x80 then 0 else Continued(s[1..]) + 1
    ensures 0 < Continued(s) < |s| ==> s[1..][Continued(s)..] == s[Continued(s) + 1..]
  {
  }

  /** Any varint of at most 37 bytes: the reader takes the low 32 bits of the first five groups. A fifth byte that is
      the last must fit in the word, later bytes hold no bits or those of a sign extension; all else is an error. */
  lemma Varint32Meaning(s: bytes)
    requires Continued(s) < 37
    ensures ReadVarint32(s)
         == if Continued(s) >= |s| || FifthTooLarge(s, 0) || Misfit(s, 0, 5, LowFrom(s, 0, 0)) then Bad
            else Got(LowFrom(s, 0, 0), s[Continued(s) + 1..])
  {
    hide OrAt, ReadVarint32, ReadVarint32From, Misfit, LowFrom, Pow2, FifthTooLarge, Continued;
    if s == [] {
      assert ReadVarint32(s) == Bad by { NoBytes(); }
    } else {
      FirstByte(s);
      ContinuedTail(s);
      if s[0] < 0x80 {
        OneByteWord(s);
        FewBytes(s, 0, 5, LowFrom(s, 0, 0));
      } else {
        FirstShift(s[0]);
        LowBytes(s[1..], 1, s[0] % 0x80);
        FifthTail(s, 0);
        if Continued(s) < |s| {
          LowFromTail(s, 0, 0);
          MisfitTail(s, 0, 5, LowFrom(s, 0, 0));
        }
      }
    }
  }

  lemma NoBytes()
    ensures ReadVarint32([]) == Bad && Continued([]) == 0
  {
  }

  lemma FirstShift(b: byte)
    ensures b % 0x80 * Pow2(7 * 0) == b % 0x80 < Pow2(7 * 1)
  {
    Pow2Words();
    assert Pow2(7 * 0) == 1 && 7 * 1 == 7;
  }

  lemma OneByteWord(s: bytes)
    requires s != [] && s[0] < 0x80
    ensures Continued(s) == 0 && !FifthTooLarge(s, 0) && LowFrom(s, 0, 0) == s[0]
  {
    LowFromLast(s, 0, 0);
    FirstShift(s[0]);
  }

  function Padding(n: nat): (s: bytes)
    ensures |s| == n
  {
    if n == 0 then [] else [0x80] + Padding(n - 1)
  }

  lemma {:induction false} PaddingRead(j: nat)
    requires 1 <= j <= 37
    ensures ReadVarint32From(Padding(37 - j) + [0x01], 7 * j % 0x100, 0) == Got(8, [])
    decreases 37 - j
  {
    hide OrAt;
    var s := Padding(37 - j) + [0x01];
    if j == 37 {
      assert s == [0x01] && s[1..] == [];
      OrAtAdds(0, 1, 3, WORD32);
      assert Pow2(3) == 8;
    } else {
      assert s[0] == 0x80 && s[1..] == Padding(37 - (j + 1)) + [0x01];
      OrAtAdds(0, 0, 7 * j, WORD32);
      PaddingRead(j + 1);
    }
  }

  /** One byte longer: 37 bytes without bits and then a bit. The 8-bit counter has wrapped to 3, so the bit lands in
      the word. The 64-bit reader rejects these bytes. */
  lemma CounterWraps()
    ensures Continued(Padding(37) + [0x01]) == 37
    ensures ReadVarint32(Padding(37) + [0x01]) == Got(8, []) && ReadVarint(Padding(37) + [0x01]) == Bad
  {
    hide ReadVarint32, ReadVarint32From, ReadVarint, Continued, Groups;
    var s := Padding(37) + [0x01];
    assert s[0] == 0x80 && s[1..] == Padding(36) + [0x01];
    FirstByte(s);
    PaddingRead(1);
    PaddingContinued(37);
    VarintMeaning(s);
  }

  lemma {:induction false} PaddingContinued(n: nat)
    ensures Continued(Padding(n) + [0x01]) == n
  {
    var s := Padding(n) + [0x01];
    if n > 0 {
      assert s[1..] == Padding(n - 1) + [0x01];
      PaddingContinued(n - 1);
    }
  }

  // ---- wire types --------------------------------------------------------------------------------

  /** The payload of a record one does not know ends where its wire type says: 0 is a varint of any length, 1 is
      eight bytes, 2 a length and as many bytes, 5 four bytes. The others are errors. */
  lemma SkipByNumber(wt: nat, s: bytes)
    ensures SkipField(wt, s)
         == match wt
            case 0 => if Continued(s) < |s| then Got((), s[Continued(s) + 1..]) else Bad
            case 1 => if |s| >= 8 then Got((), s[8..]) else Bad
            case 2 =>
              var p := ReadVarint32(s);
              if p.Got? && p.value <= |p.rest| then Got((), p.rest[p.value..]) else Bad
            case 5 => if |s| >= 4 then Got((), s[4..]) else Bad
            case _ => Bad
  {
    hide ReadVarint32;
    SkipMeaning(s);
  }

  function WireNumber(l: LType): nat {
    match l
    case Fixed64T => 1
    case Fixed32T => 5
    case BytesT => 2
    case StringT => 2
    case FixedBytesT => 2
    case SubmessageT => 2
    case _ => 0
  }

  /** A record is the varint of eight times the field number plus the wire type, and the payload. */
  lemma RecordBytes(f: Field, v: Value)
    ensures EncodeTagged(f, v)
         == if EncodeValue(f, v).None? then None
            else Some(Varint(8 * f.tag + WireNumber(f.ltype)) + EncodeValue(f, v).value)
  {
    hide EncodeValue, Varint;
  }

  // ---- scalars -----------------------------------------------------------------------------------

  /** The signed integers of so many bits. */
  predicate InBits(n: int, bits: nat)
    requires bits > 0
  {
    -(Pow2(bits - 1) as int) <= n < Pow2(bits - 1)
  }

  /** The ranges of the integer fields. */
  lemma RangesByBits(n: int, width: nat)
    requires IntWidth(width)
    ensures FitsSigned(n, width) <==> InBits(n, 8 * width)
    ensures FitsUnsigned(n, width) <==> 0 <= n < Pow2(8 * width)
  {
    Pow2Words();
    Pow2Sum(8, 7);
    assert Pow2(7) == 0x80 && Pow2(8) == 0x100;
    Pow2Sum(8, 8);
  }

  lemma NoOtherWidth(n: int, width: nat)
    requires !IntWidth(width)
    ensures !FitsSigned(n, width) && !FitsUnsigned(n, width)
  {
  }

  /** The bytes of a scalar: a bool is one byte, a negative integer takes its 64-bit two's complement, zigzag
      counts 0, -1, 1, -2, fixed words are little-endian, and bytes and strings follow their length. */
  lemma ScalarBytes(f: Field, v: Value)
    requires ScalarFits(f, v)
    ensures EncodeScalar(f, v)
         == match f.ltype
            case BoolT => Some(if v.n == 0 then [0] else [1])
            case VarintT => Some(Varint(if v.n < 0 then v.n + 0x1_0000_0000_0000_0000 else v.n))
            case UVarintT => Some(Varint(v.n))
            case SVarintT => Some(Varint(if v.n < 0 then -2 * v.n - 1 else 2 * v.n))
            case Fixed32T => Some(LittleEndian(v.n, 4))
            case Fixed64T => Some(LittleEndian(v.n, 8))
            case StringT => Some(Varint(|CString(v.data, f.dataSize)|) + CString(v.data, f.dataSize))
            case _ => Some(Varint(|v.data|) + v.data)
  {
    hide Varint, CString, Zigzag, FixedBytes, LittleEndian;
    match f.ltype
    case BoolT => assert Varint(0) == [0] && Varint(1) == [1] by { OneByte(); }
    case SVarintT => ZigzagRoundTrip(v.n);
    case Fixed32T => FixedIsLittleEndian(v.n, 4);
    case Fixed64T => FixedIsLittleEndian(v.n, 8);
    case _ =>
  }

  lemma OneByte()
    ensures Varint(0) == [0] && Varint(1) == [1]
  {
  }

  /** Byte i holds bits 8 * i to 8 * i + 7. */
  function LittleEndian(n: nat, k: nat): (s: bytes)
    ensures |s| == k
  {
    seq(k, i requires 0 <= i < k => n / Pow2(8 * i) % 0x100)
  }

  lemma DivideTwice(n: nat, p: nat)
    requires p > 0
    ensures n / 0x100 / p == n / (0x100 * p)
  {
    var q := n / 0x100 / p;
    assert q * p <= n / 0x100 < (q + 1) * p;
    assert q * (0x100 * p) == 0x100 * (q * p) && (q + 1) * (0x100 * p) == 0x100 * ((q + 1) * p);
    assert q * (0x100 * p) <= n < (q + 1) * (0x100 * p);
    QuotientIs(n, 0x100 * p, q);
  }

  lemma QuotientIs(n: nat, d: nat, q: nat)
    requires d > 0 && q * d <= n < (q + 1) * d
    ensures n / d == q
  {
    var r := n / d;
    assert r * d <= n < (r + 1) * d;
    if r < q {
      MulMono(r + 1, q, d);
    } else if q < r {
      MulMono(q + 1, r, d);
    }
  }

  lemma {:induction false} FixedIsLittleEndian(n: nat, k: nat)
    ensures FixedBytes(n, k) == LittleEndian(n, k)
  {
    if k > 0 {
      FixedIsLittleEndian(n / 0x100, k - 1);
      forall i | 0 < i < k ensures FixedBytes(n, k)[i] == n / Pow2(8 * i) % 0x100 {
        assert FixedBytes(n, k)[i] == LittleEndian(n / 0x100, k - 1)[i - 1];
        Pow2Sum(8, 8 * (i - 1));
        assert 8 + 8 * (i - 1) == 8 * i && Pow2(8) == 0x100;
        DivideTwice(n, Pow2(8 * (i - 1)));
      }
      assert FixedBytes(n, k)[0] == n / Pow2(8 * 0) % 0x100;
    }
  }

  /** The low bits of a word as a signed number. */
  function SignedBits(word: nat, bits: nat): int
    requires bits > 0
  {
    var low := word % Pow2(bits);
    if low < Pow2(bits - 1) then low else low - Pow2(bits)
  }

  /** Any varint in a signed field: of up to 32 bits it takes the low 32 bits of the word, whatever the others are,
      a field of 64 bits takes them all; then the number must fit. */
  lemma SignedRead(f: Field, s: bytes)
    requires f.ltype.VarintT? && ReadVarint(s).Got?
    ensures var n := SignedBits(ReadVarint(s).value, if f.dataSize == 8 then 64 else 32);
            DecodeScalar(f, s)
              == if f.dataSize in {1, 2, 4, 8} && InBits(n, 8 * f.dataSize) then Got(Int(n), ReadVarint(s).rest)
                 else Bad
  {
    hide ReadVarint, FitsSigned, Pow2, InBits;
    var word := ReadVarint(s).value;
    Pow2Words();
    WordRead(s);
    SmallMod(word, WORD64);
    if IntWidth(f.dataSize) {
      RangesByBits(SignedBits(word, if f.dataSize == 8 then 64 else 32), f.dataSize);
    } else {
      NoOtherWidth(SignedBits(word, 32), f.dataSize);
    }
  }

  lemma UnsignedRead(f: Field, s: bytes)
    requires f.ltype.UVarintT? && ReadVarint(s).Got?
    ensures var n := ReadVarint(s).value;
            DecodeScalar(f, s)
              == if f.dataSize in {1, 2, 4, 8} && n < Pow2(8 * f.dataSize) then Got(Int(n), ReadVarint(s).rest)
                 else Bad
  {
    hide ReadVarint, FitsUnsigned, Pow2;
    if IntWidth(f.dataSize) {
      RangesByBits(ReadVarint(s).value, f.dataSize);
    } else {
      NoOtherWidth(ReadVarint(s).value, f.dataSize);
    }
  }

  /** Even words count up from 0, odd ones down from -1. */
  lemma ZigzagRead(f: Field, s: bytes)
    requires f.ltype.SVarintT? && ReadVarint(s).Got?
    ensures var word := ReadVarint(s).value;
            var n := if word % 2 == 0 then word / 2 else -(word / 2 as int) - 1;
            DecodeScalar(f, s)
              == if f.dataSize in {1, 2, 4, 8} && InBits(n, 8 * f.dataSize) then Got(Int(n), ReadVarint(s).rest)
                 else Bad
  {
    hide ReadVarint, FitsSigned, Unzigzag, InBits;
    var word := ReadVarint(s).value;
    WordRead(s);
    UnzigzagIs(word);
    if IntWidth(f.dataSize) {
      RangesByBits(Unzigzag(word), f.dataSize);
    } else {
      NoOtherWidth(Unzigzag(word), f.dataSize);
    }
  }

  lemma UnzigzagIs(word: nat)
    requires word < WORD64
    ensures Unzigzag(word) == if word % 2 == 0 then word / 2 else -(word / 2 as int) - 1
  {
  }

  lemma WordRead(s: bytes)
    requires ReadVarint(s).Got?
    ensures ReadVarint(s).value < WORD64
  {
    VarintMeaning(s);
  }

  /** Bools, fixed words, and data behind a length. Of the length prefixes only those that fit are accepted. */
  lemma OtherScalarsRead(f: Field, s: bytes)
    ensures f.ltype.BoolT? ==>
              DecodeScalar(f, s)
                == if ReadVarint32(s).Bad? then Bad
                   else Got(Int(if ReadVarint32(s).value == 0 then 0 else 1), ReadVarint32(s).rest)
    ensures f.ltype.Fixed32T? && |s| >= 4 ==>
              DecodeScalar(f, s).Got? && DecodeScalar(f, s).rest == s[4..]
              && DecodeScalar(f, s).value.Int? && 0 <= DecodeScalar(f, s).value.n
              && LittleEndian(DecodeScalar(f, s).value.n, 4) == s[..4]
    ensures f.ltype.Fixed64T? && |s| >= 8 ==>
              DecodeScalar(f, s).Got? && DecodeScalar(f, s).rest == s[8..]
              && DecodeScalar(f, s).value.Int? && 0 <= DecodeScalar(f, s).value.n
              && LittleEndian(DecodeScalar(f, s).value.n, 8) == s[..8]
    ensures (f.ltype.Fixed32T? && |s| < 4) || (f.ltype.Fixed64T? && |s| < 8) ==> DecodeScalar(f, s) == Bad
  {
    hide ReadVarint32, LittleEndian, FixedBytes;
    if f.ltype.Fixed32T? && |s| >= 4 {
      FixedAgain(s[..4]);
      FixedIsLittleEndian(FixedValue(s[..4]), 4);
    } else if f.ltype.Fixed64T? && |s| >= 8 {
      FixedAgain(s[..8]);
      FixedIsLittleEndian(FixedValue(s[..8]), 8);
    }
  }

  lemma {:induction false} FixedAgain(s: bytes)
    ensures FixedBytes(FixedValue(s), |s|) == s
  {
    if s != [] {
      FixedAgain(s[1..]);
      var n := FixedValue(s);
      assert n % 0x100 == s[0] && n / 0x100 == FixedValue(s[1..]);
      assert s == [s[0]] + s[1..];
    }
  }

  /** Data behind its length: bytes share their field with a four-byte count, a string needs room for its
      terminator, and bytes of fixed length come whole or not at all. */
  lemma DataRead(f: Field, data: bytes, t: bytes)
    requires |data| < WORD32 && (f.ltype.BytesT? || f.ltype.StringT? || f.ltype.FixedBytesT?)
    ensures DecodeScalar(f, Varint(|data|) + data + t)
         == if f.ltype.BytesT? then (if |data| + 4 <= f.dataSize then Got(Blob(data), t) else Bad)
            else if f.ltype.StringT? then (if |data| + 1 <= f.dataSize then Got(Blob(data), t) else Bad)
            else if data == [] then Got(Blob(seq(f.dataSize, _ => 0)), t)
            else if |data| == f.dataSize then Got(Blob(data), t)
            else Bad
  {
    hide ReadDelimited, Varint;
    ReadDelimitedWritten(data, t);
    var zeros: bytes := seq(f.dataSize, _ => 0);
    assert Zeros(f.dataSize) == zeros;
  }
}
