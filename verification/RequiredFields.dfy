/** The bitmap of required fields seen while decoding, and the check at the end. */
module RequiredFields {
  import opened Words
  import opened Schema
  import opened Decoding
  import opened Iterators

  /** The word with bit k set exactly when base + k is in the set, for k below n. */
  ghost function Mask(T: set<nat>, base: nat, n: nat): nat
    decreases n
  {
    if n == 0 then 0 else (if base in T then 1 else 0) + 2 * Mask(T, base + 1, n - 1)
  }

  /** Setting a bit adds an element, whether or not the bit was set before. */
  lemma {:induction false} SetBit(T: set<nat>, base: nat, n: nat, k: nat)
    requires k < n
    ensures BitOr(Mask(T, base, n), Pow2(k)) == Mask(T + {base + k}, base, n)
    decreases n
  {
    hide BitOr, Pow2;
    var high := Mask(T, base + 1, n - 1);
    if k == 0 {
      LowBit(if base in T then 1 else 0, high);
      MaskElsewhere(T, base, base + 1, n - 1);
    } else {
      HigherBit(if base in T then 1 else 0, high, k);
      SetBit(T, base + 1, n - 1, k - 1);
      assert base + 1 + (k - 1) == base + k;
    }
  }

  lemma LowBit(low: nat, high: nat)
    requires low <= 1
    ensures BitOr(low + 2 * high, Pow2(0)) == 1 + 2 * high
  {
    BitOrWithZero(high);
    assert (low + 2 * high) / 2 == high;
  }

  lemma HigherBit(low: nat, high: nat, k: nat)
    requires low <= 1 && k > 0
    ensures BitOr(low + 2 * high, Pow2(k)) == low + 2 * BitOr(high, Pow2(k - 1))
  {
    assert (low + 2 * high) % 2 == low && (low + 2 * high) / 2 == high;
    assert Pow2(k) % 2 == 0 && Pow2(k) / 2 == Pow2(k - 1);
  }

  lemma {:induction false} BitOrWithZero(x: nat)
    ensures BitOr(x, 0) == x
  {
    if x != 0 {
      BitOrWithZero(x / 2);
    }
  }

  lemma {:induction false} MaskElsewhere(T: set<nat>, m: nat, base: nat, n: nat)
    requires m < base || m >= base + n
    ensures Mask(T + {m}, base, n) == Mask(T, base, n)
    decreases n
  {
    if n > 0 {
      MaskElsewhere(T, m, base + 1, n - 1);
    }
  }

  lemma {:induction false} EmptyMask(base: nat, n: nat)
    ensures Mask({}, base, n) == 0
    decreases n
  {
    if n > 0 {
      EmptyMask(base + 1, n - 1);
    }
  }

  /** A word equals r one bits exactly when its set holds the first r positions and no later ones. */
  lemma {:induction false} MaskIsOnes(T: set<nat>, base: nat, n: nat, r: nat)
    requires r <= n
    ensures Mask(T, base, n) == Pow2(r) - 1
       <==> forall k :: base <= k < base + n ==> (k in T <==> k < base + r)
    decreases n
  {
    if n > 0 {
      var low := if base in T then 1 else 0;
      var high := Mask(T, base + 1, n - 1);
      if r > 0 {
        MaskIsOnes(T, base + 1, n - 1, r - 1);
        assert low + 2 * high == 2 * Pow2(r - 1) - 1 <==> low == 1 && high == Pow2(r - 1) - 1;
      } else {
        MaskIsOnes(T, base + 1, n - 1, 0);
        assert low + 2 * high == 0 <==> low == 0 && high == 0;
      }
      assert (forall k :: base <= k < base + n ==> (k in T <==> k < base + r))
        <==> (base in T <==> r > 0) && forall k :: base + 1 <= k < base + n ==> (k in T <==> k < base + r);
    }
  }

  // ---- required indices -----------------------------------------------------------------------

  /** The required indices of the fields seen, up to PB_MAX_REQUIRED_FIELDS. */
  ghost function Indices(fs: seq<Field>, seen: set<nat>): (T: set<nat>)
  {
    set i | i in seen && i < |fs| && Tracked(fs, i) :: CountRequired(fs, i)
  }

  lemma {:induction false} CountGrows(fs: seq<Field>, i: nat, j: nat)
    requires i <= j <= |fs|
    ensures CountRequired(fs, i) <= CountRequired(fs, j)
    ensures i < j && fs[i].rule.Required? ==> CountRequired(fs, i) < CountRequired(fs, j)
    decreases j - i
  {
    if i < j {
      CountGrows(fs, i, j - 1);
    }
  }

  /** Each index below the number of required fields belongs to one of them. */
  lemma {:induction false} FieldWithIndex(fs: seq<Field>, n: nat, j: nat) returns (i: nat)
    requires j <= |fs| && n < CountRequired(fs, j)
    ensures i < j && fs[i].rule.Required? && CountRequired(fs, i) == n
    decreases j
  {
    if CountRequired(fs, j - 1) == n {
      i := j - 1;
    } else {
      i := FieldWithIndex(fs, n, j - 1);
    }
  }

  /** The number of required fields that are checked. */
  function CheckedCount(fs: seq<Field>): nat {
    var total := CountRequired(fs, |fs|);
    if total > PB_MAX_REQUIRED_FIELDS then PB_MAX_REQUIRED_FIELDS else total
  }

  lemma IndicesBelow(fs: seq<Field>, seen: set<nat>)
    ensures forall n :: n in Indices(fs, seen) ==> n < CheckedCount(fs)
  {
    forall n | n in Indices(fs, seen) ensures n < CheckedCount(fs) {
      var i :| i in seen && i < |fs| && Tracked(fs, i) && CountRequired(fs, i) == n;
      CountGrows(fs, i, |fs|);
    }
  }

  /** All tracked fields were seen exactly when all checked indices are there. */
  lemma IndicesComplete(fs: seq<Field>, seen: set<nat>)
    ensures AllRequired(fs, seen) <==> forall n :: 0 <= n < CheckedCount(fs) ==> n in Indices(fs, seen)
  {
    if AllRequired(fs, seen) {
      forall n | 0 <= n < CheckedCount(fs) ensures n in Indices(fs, seen) {
        var i := FieldWithIndex(fs, n, |fs|);
        assert Tracked(fs, i);
      }
    }
    if forall n :: 0 <= n < CheckedCount(fs) ==> n in Indices(fs, seen) {
      forall i | 0 <= i < |fs| && Tracked(fs, i) ensures i in seen {
        CountGrows(fs, i, |fs|);
        var n := CountRequired(fs, i);
        assert n in Indices(fs, seen);
        var j :| j in seen && j < |fs| && Tracked(fs, j) && CountRequired(fs, j) == n;
        if i < j {
          CountGrows(fs, i, j);
        } else if j < i {
          CountGrows(fs, j, i);
        }
      }
    }
  }

  ghost function RequiredBefore(fs: seq<Field>, i: nat): set<nat>
    requires i <= |fs|
  {
    set j | 0 <= j < i && fs[j].rule.Required?
  }

  lemma {:induction false} CountIsSize(fs: seq<Field>, i: nat)
    requires i <= |fs|
    ensures CountRequired(fs, i) == |RequiredBefore(fs, i)|
  {
    if i == 0 {
      assert RequiredBefore(fs, 0) == {};
    } else {
      CountIsSize(fs, i - 1);
      assert RequiredBefore(fs, i) == RequiredBefore(fs, i - 1) + if fs[i - 1].rule.Required? then {i - 1} else {};
    }
  }

  /** A message lacks something exactly when a required field never occurred that has fewer than 64 required fields
      before it: the 64th is still missed, the 65th is not. */
  lemma FirstSixtyFour(fs: seq<Field>, seen: set<nat>)
    ensures AllRequired(fs, seen)
       <==> forall i :: 0 <= i < |fs| && fs[i].rule.Required? && |RequiredBefore(fs, i)| < 64 ==> i in seen
  {
    hide CountRequired;
    forall i | 0 <= i < |fs|
      ensures Tracked(fs, i) <==> fs[i].rule.Required? && |RequiredBefore(fs, i)| < 64
    {
      CountIsSize(fs, i);
    }
  }

  lemma IndicesAdd(fs: seq<Field>, seen: set<nat>, i: nat)
    requires i < |fs|
    ensures Indices(fs, seen + {i}) == Indices(fs, seen) + if Tracked(fs, i) then {CountRequired(fs, i)} else {}
  {
  }

  /** The two words hold the indices of the fields seen. An empty table has nothing to check. */
  ghost predicate Recorded(fs: seq<Field>, seen: set<nat>, words: seq<nat>) {
    && |words| == 2
    && (fs != [] ==>
          words[0] == Mask(Indices(fs, seen), 0, 32) && words[1] == Mask(Indices(fs, seen), 32, 32))
  }

  lemma NothingRecorded(fs: seq<Field>)
    ensures Recorded(fs, {}, [0, 0])
  {
    assert Indices(fs, {}) == {};
    EmptyMask(0, 32);
    EmptyMask(32, 32);
  }

  /** `fields_seen[index >> 5] |= 1 << (index & 31)` for a tracked field; other fields change nothing. */
  lemma RecordField(fs: seq<Field>, seen: set<nat>, words: seq<nat>, i: nat)
    requires Recorded(fs, seen, words) && i < |fs|
    ensures !Tracked(fs, i) ==> Recorded(fs, seen + {i}, words)
    ensures Tracked(fs, i) ==>
              var n := CountRequired(fs, i);
              Recorded(fs, seen + {i}, words[n / 32 := BitOr(words[n / 32], Pow2(n % 32))])
  {
    hide Mask, BitOr, Pow2;
    IndicesAdd(fs, seen, i);
    var T := Indices(fs, seen);
    if Tracked(fs, i) {
      var n := CountRequired(fs, i);
      if n < 32 {
        SetBit(T, 0, 32, n);
        MaskElsewhere(T, n, 32, 32);
      } else {
        SetBit(T, 32, 32, n - 32);
        MaskElsewhere(T, n, 0, 32);
        assert 32 + (n - 32) == n;
      }
    } else {
      assert T + {} == T;
    }
  }

  lemma ShiftedOnes(r: nat)
    requires r <= 32
    ensures 0xFFFF_FFFF / Pow2(32 - r) == Pow2(r) - 1
  {
    Pow2Words();
    Pow2Sum(r, 32 - r);
    OnesDivided(Pow2(r), Pow2(32 - r));
  }

  lemma OnesDivided(q: nat, p: nat)
    requires p > 0 && q > 0 && q * p == WORD32
    ensures 0xFFFF_FFFF / p == q - 1
  {
    var d := 0xFFFF_FFFF / p;
    assert d * p <= 0xFFFF_FFFF < (d + 1) * p;
    if d >= q {
      MulMono(q, d, p);
    } else if d + 1 < q {
      MulMono(d + 2, q, p);
    }
  }

  /** A word passes its test exactly when it misses none of its first r indices. */
  lemma WordTest(T: set<nat>, base: nat, r: nat, count: nat)
    requires r <= 32 && (forall n :: n in T ==> n < count) && (r < 32 ==> count == base + r)
    ensures Mask(T, base, 32) == 0xFFFF_FFFF / Pow2(32 - r) <==> forall k :: base <= k < base + r ==> k in T
  {
    hide Mask, Pow2;
    ShiftedOnes(r);
    MaskIsOnes(T, base, 32, r);
  }

  /** The number of required fields, by walking the iterator to the end of the table. */
  method CountToEnd(iter: FieldIter) returns (count: nat)
    requires iter.Valid() && forall i :: 0 <= i < |iter.start| ==> iter.start[i].tag > 0
    modifies iter
    ensures iter.Valid()
    ensures count == CountRequired(iter.start, |iter.start|)
  {
    ghost var fs := iter.start;
    var more := true;
    var lastType: Rule := FieldAt(iter.start, iter.pos).rule;
    count := iter.requiredFieldIndex;
    while more
      invariant iter.Valid()
      invariant more ==> iter.pos < |fs| || fs == []
      invariant !more ==> iter.pos == 0
      invariant !more && fs != [] ==> count == CountRequired(fs, |fs| - 1) && lastType == fs[|fs| - 1].rule
      invariant fs == [] ==> count == 0
      decreases if more then |fs| + 1 - iter.pos else 0
    {
      count := iter.requiredFieldIndex;
      lastType := FieldAt(iter.start, iter.pos).rule;
      more := iter.Next();
    }
    if lastType.Required? && FieldAt(iter.start, iter.pos).tag != 0 {
      count := count + 1;
    }
  }

  lemma WholeWordTest(T: set<nat>, base: nat)
    ensures Mask(T, base, 32) == 0xFFFF_FFFF <==> forall k :: base <= k < base + 32 ==> k in T
  {
    hide Mask;
    Pow2Words();
    MaskIsOnes(T, base, 32, 32);
  }

  /** Compares the words of the bitmap with all-ones patterns: whole words first, then the rest. */
  method AllSeen(fieldsSeen: array<nat>, count: nat, ghost T: set<nat>) returns (ok: bool)
    requires fieldsSeen.Length == 2 && count <= PB_MAX_REQUIRED_FIELDS && forall n :: n in T ==> n < count
    requires count > 0 ==> fieldsSeen[0] == Mask(T, 0, 32) && fieldsSeen[1] == Mask(T, 32, 32)
    ensures ok == forall n :: 0 <= n < count ==> n in T
  {
    hide Mask, Pow2;
    if count > 0 {
      for i := 0 to count / 32
        invariant forall k :: 0 <= k < 32 * i ==> k in T
      {
        WholeWordTest(T, 32 * i);
        assert fieldsSeen[i] == Mask(T, 32 * i, 32);
        if fieldsSeen[i] != 0xFFFF_FFFF {
          return false;
        }
      }
      var r := count % 32;
      if r != 0 {
        var base := count / 32 * 32;
        WordTest(T, base, r, count);
        assert fieldsSeen[count / 32] == Mask(T, base, 32);
        if fieldsSeen[count / 32] != 0xFFFF_FFFF / Pow2(32 - r) {
          return false;
        }
      }
    }
    ok := true;
  }

  /** Reports exactly whether one of the first PB_MAX_REQUIRED_FIELDS required fields is missing, for
      any table and from any iterator position. */
  method CheckRequired(iter: FieldIter, fieldsSeen: array<nat>, ghost seen: set<nat>) returns (ok: bool)
    requires iter.Valid() && forall i :: 0 <= i < |iter.start| ==> iter.start[i].tag > 0
    requires fieldsSeen.Length == 2 && Recorded(iter.start, seen, fieldsSeen[..])
    modifies iter
    ensures ok == AllRequired(iter.start, seen)
  {
    hide Mask, Indices, AllRequired;
    ghost var words := fieldsSeen[..];
    var count := CountToEnd(iter);
    if count > PB_MAX_REQUIRED_FIELDS {
      count := PB_MAX_REQUIRED_FIELDS;
    }
    assert fieldsSeen[..] == words;
    IndicesBelow(iter.start, seen);
    IndicesComplete(iter.start, seen);
    ok := AllSeen(fieldsSeen, count, Indices(iter.start, seen));
  }
}
