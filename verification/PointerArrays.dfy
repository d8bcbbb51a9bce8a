/** Packed arrays in allocated storage: how the array grows while its elements are decoded. */
module PointerArrays {
  import opened Words
  import opened Varints
  import opened Schema
  import opened Wire
  import opened Decoding
  import opened InputStreams
  import opened Decoder

  const SIZE_MAX: nat := 0xFFFF_FFFF_FFFF_FFFF

  /** The size check before an allocation; the division is skipped when both sizes use only the low
      half of the bits. */
  function SizeAllowed(dataSize: nat, arraySize: nat): bool {
    && dataSize != 0 && arraySize != 0
    && (dataSize >= WORD32 || arraySize >= WORD32 ==> SIZE_MAX / arraySize >= dataSize)
  }

  /** The check passes exactly when the product of two nonzero sizes fits in a size_t. */
  lemma SizeCheckIsExact(dataSize: nat, arraySize: nat)
    requires dataSize <= SIZE_MAX && arraySize <= SIZE_MAX
    ensures SizeAllowed(dataSize, arraySize)
       <==> dataSize > 0 && arraySize > 0 && dataSize * arraySize <= SIZE_MAX
  {
    if dataSize > 0 && arraySize > 0 {
      QuotientBound(SIZE_MAX, arraySize, dataSize);
      if dataSize < WORD32 && arraySize < WORD32 {
        MulMono(dataSize, WORD32 - 1, arraySize);
        assert dataSize * arraySize <= (WORD32 - 1) * (WORD32 - 1);
      }
    }
  }

  lemma QuotientBound(m: nat, a: nat, d: nat)
    requires a > 0
    ensures m / a >= d <==> d * a <= m
  {
    var q := m / a;
    assert q * a <= m < (q + 1) * a;
    if q >= d {
      MulMono(d, q, a);
    } else {
      MulMono(q + 1, d, a);
    }
  }

  /** The next allocated length: the remaining bytes give an estimate, rounded upwards. */
  function Grown(left: nat, dataSize: nat, size: nat): (r: nat)
    requires left > 0 && dataSize > 0 && size < PB_SIZE_MAX
    ensures size < r <= PB_SIZE_MAX
  {
    var remain := (left - 1) / dataSize + 1;
    if remain < PB_SIZE_MAX - size then size + remain else size + 1
  }

  /** As many entries as the remaining bytes can hold, and not one more; near the limit a single one. */
  lemma GrownIsEstimate(left: nat, dataSize: nat, size: nat)
    requires left > 0 && dataSize > 0 && size < PB_SIZE_MAX
    ensures var more := Grown(left, dataSize, size) - size;
            if left <= (PB_SIZE_MAX - size - 1) * dataSize then (more - 1) * dataSize < left <= more * dataSize
            else more == 1
  {
    RoundedUp(left, dataSize, PB_SIZE_MAX - size - 1);
  }

  lemma RoundedUp(left: nat, d: nat, room: nat)
    requires left > 0 && d > 0
    ensures var q := (left - 1) / d;
            q * d < left <= (q + 1) * d && (left <= room * d <==> q + 1 <= room)
  {
    var q := (left - 1) / d;
    assert q * d <= left - 1 < (q + 1) * d;
    if q + 1 <= room {
      MulMono(q + 1, room, d);
    } else {
      MulMono(room, q, d);
    }
  }

  /** The bytes of n fixed words make room for exactly those. */
  lemma GrownByWords(n: nat, dataSize: nat, size: nat)
    requires n > 0 && dataSize > 0 && size + n < PB_SIZE_MAX
    ensures n * dataSize > 0 && Grown(n * dataSize, dataSize, size) == size + n
  {
    MulMono(1, n, dataSize);
    MulMono(n, PB_SIZE_MAX - size - 1, dataSize);
    GrownIsEstimate(n * dataSize, dataSize, size);
    var more := Grown(n * dataSize, dataSize, size) - size;
    if more < n {
      MulMono(more + 1, n, dataSize);
    } else if more > n {
      MulMono(n, more - 1, dataSize);
    }
  }

  lemma AllowedWhenSmall(dataSize: nat, arraySize: nat)
    requires 0 < dataSize <= 8 && 0 < arraySize <= PB_SIZE_MAX
    ensures SizeAllowed(dataSize, arraySize) && dataSize * arraySize <= 8 * PB_SIZE_MAX
  {
    MulMono(dataSize, 8, arraySize);
    SizeCheckIsExact(dataSize, arraySize);
  }

  /** A scalar is decoded alike whatever the size of its array. */
  lemma SameScalar(f: Field, s: bytes)
    ensures DecodeScalar(f.(arraySize := PB_SIZE_MAX), s) == DecodeScalar(f, s)
  {
    hide ReadVarint, ReadVarint32, ReadDelimited, ReadFixed;
  }

  predicate FixedWords(f: Field) {
    (f.ltype.Fixed32T? && f.dataSize == 4) || (f.ltype.Fixed64T? && f.dataSize == 8)
  }

  /** The whole words in a payload. */
  function WordCount(f: Field, payload: bytes): nat {
    if f.dataSize == 8 then |payload| / 8 else |payload| / 4
  }

  /** A payload of whole fixed words, at least one, with room and memory for just as many entries more. */
  predicate WordsFit(f: Field, payload: bytes, count: nat, available: nat) {
    var n := WordCount(f, payload);
    && FixedWords(f)
    && n > 0 && |payload| == f.dataSize * n
    && count + n < PB_SIZE_MAX
    && f.dataSize * (count + n) <= available
  }

  /** So many bytes left and entries used: nothing is allocated before the first word, and then enough for all n. */
  predicate OnePass(f: Field, n: nat, start: nat, left: nat, count: nat, room: nat) {
    && FixedWords(f)
    && start <= count <= start + n
    && left == (if f.dataSize == 8 then 8 * (n - (count - start)) else 4 * (n - (count - start)))
    && room == if count == start then start else start + n
  }

  lemma OnePassStarts(f: Field, payload: bytes, count: nat, available: nat)
    requires WordsFit(f, payload, count, available)
    ensures OnePass(f, WordCount(f, payload), count, |payload|, count, count) && WordCount(f, payload) > 0
  {
  }

  lemma OnePassStep(f: Field, payload: bytes, start: nat, available: nat, s: bytes, count: nat, room: nat)
    requires WordsFit(f, payload, start, available) && s != []
    requires OnePass(f, WordCount(f, payload), start, |s|, count, room)
    ensures count <= room && DecodeScalar(f, s).Got?
    ensures count == room ==> count < PB_SIZE_MAX && Affords(available, f, |s|, count)
    ensures var next := if count < room then room else Grown(|s|, f.dataSize, count);
            OnePass(f, WordCount(f, payload), start, |DecodeScalar(f, s).rest|, count + 1, next)
  {
    hide FixedValue, Grown;
    var n := WordCount(f, payload);
    if count == start {
      assert |s| == f.dataSize * n;
      GrownByWords(n, f.dataSize, start);
    }
  }

  lemma OnePassEnds(f: Field, n: nat, start: nat, count: nat, room: nat)
    requires OnePass(f, n, start, 0, count, room)
    ensures count == start + n == room
  {
  }

  lemma PackedEnds(g: Field, items: seq<Value>)
    ensures Decoding.DecodePacked(g, [], items) == Some(items)
  {
  }

  /** One element further. */
  lemma PackedStep(g: Field, s: bytes, items: seq<Value>)
    requires s != [] && |items| <= g.arraySize
    ensures var p := DecodeScalar(g, s);
            Decoding.DecodePacked(g, s, items)
              == if p.Bad? || |items| == g.arraySize then None
                 else Decoding.DecodePacked(g, p.rest, items + [p.value])
  {
    hide DecodeScalar;
    ScalarShrinks(g, s);
  }

  /** There is memory for the next allocation. */
  predicate Affords(available: nat, f: Field, left: nat, size: nat) {
    left > 0 && f.dataSize > 0 && size < PB_SIZE_MAX && f.dataSize * Grown(left, f.dataSize, size) <= available
  }

  /** The pointer and the count of a repeated field; the pointer is null until something is allocated. */
  class PointerField {
    var data: array?<Value>
    var count: nat

    ghost predicate Valid()
      reads this
    {
      && count <= PB_SIZE_MAX
      && (if data == null then count == 0 else count <= data.Length <= PB_SIZE_MAX)
    }

    ghost function Items(): seq<Value>
      requires Valid()
      reads this, data
    {
      if data == null then [] else data[..count]
    }

    constructor ()
      ensures Valid() && Items() == []
    {
      data, count := null, 0;
    }

    /** Reallocates to `arraySize` entries and keeps the entries in use; `available` is the memory there
        is. On failure the old pointer stays. */
    method Allocate(dataSize: nat, arraySize: nat, available: nat) returns (ok: bool)
      requires Valid() && count < arraySize <= PB_SIZE_MAX && dataSize <= PB_SIZE_MAX
      modifies this
      ensures Valid() && Items() == old(Items()) && count == old(count)
      ensures ok == (SizeAllowed(dataSize, arraySize) && dataSize * arraySize <= available)
      ensures ok ==> data != null && fresh(data) && data.Length == arraySize
      ensures !ok ==> data == old(data)
    {
      if !SizeAllowed(dataSize, arraySize) || dataSize * arraySize > available {
        return false;
      }
      var bigger := new Value[arraySize](_ => Int(0));
      if data != null {
        for i := 0 to count
          invariant Valid() && data == old(data) && count == old(count)
          invariant bigger[..i] == old(Items())[..i]
          invariant data[..count] == old(Items())
        {
          bigger[i] := data[i];
        }
      }
      data := bigger;
      ok := true;
    }

    /** Grows storage that is used up, by an estimate of the elements that remain or, near the limit, by
        one, so that there is room for one more element. */
    method Reserve(left: nat, dataSize: nat, size: nat, available: nat) returns (ok: bool, size': nat)
      requires Valid() && left > 0 && 0 < dataSize <= 8
      requires count <= size <= PB_SIZE_MAX && (size > count ==> data != null && data.Length == size)
      modifies this
      ensures Valid() && Items() == old(Items()) && count == old(count)
      ensures data == old(data) || (data != null && fresh(data))
      ensures ok ==> count < size' <= PB_SIZE_MAX && data != null && data.Length == size'
      ensures available >= 8 * PB_SIZE_MAX ==> ok == (count < PB_SIZE_MAX)
      ensures count < size ==> ok && size' == size && data == old(data)
      ensures count == size < PB_SIZE_MAX ==>
                size' == Grown(left, dataSize, size) && ok == (dataSize * size' <= available)
    {
      hide SizeAllowed;
      size' := size;
      if count == PB_SIZE_MAX {
        return false, size;
      }
      ok := true;
      if count + 1 > size {
        size' := Grown(left, dataSize, size);
        AllowedWhenSmall(dataSize, size');
        ok := Allocate(dataSize, size', available);
      }
    }

    /** One element, decoded in place below the allocated length. */
    method DecodeElement(sub: InputStream, f: Field, size: nat, available: nat) returns (ok: bool, size': nat)
      requires Valid() && sub.Valid() && sub.bytesLeft > 0 && f.ltype.Packable() && 0 < f.dataSize <= 8
      requires count <= size <= PB_SIZE_MAX && (size > count ==> data != null && data.Length == size)
      modifies this, data, sub
      ensures Valid() && sub.Valid() && old(sub.state) <= sub.state && sub.End() <= old(sub.End())
      ensures data == old(data) || fresh(data)
      ensures ok ==> count <= size' <= PB_SIZE_MAX && data != null && data.Length == size'
      ensures var p := DecodeScalar(f, old(sub.Unread()));
              && (ok ==> && old(count) < PB_SIZE_MAX && p.Got? && Items() == old(Items()) + [p.value]
                         && sub.Unread() == p.rest && sub.End() == old(sub.End()))
              && (!ok ==> Items() == old(Items()))
              && (!ok && available >= 8 * PB_SIZE_MAX ==> old(count) == PB_SIZE_MAX || p.Bad?)
              && (old(count) < size ==> ok == p.Got? && (ok ==> size' == size))
      ensures old(count) == size < PB_SIZE_MAX && Affords(available, f, old(sub.bytesLeft), size) ==>
                && ok == DecodeScalar(f, old(sub.Unread())).Got?
                && (ok ==> size' == Grown(old(sub.bytesLeft), f.dataSize, size))
    {
      hide DecodeScalar;
      ok, size' := Reserve(sub.bytesLeft, f.dataSize, size, available);
      if !ok {
        return;
      }
      ghost var items := Items();
      var v;
      ok, v := DecScalar(sub, f);
      if ok {
        data[count] := v;
        count := count + 1;
        assert Items() == items + [v];
      }
    }

    /** The loop: every element lands below the allocated length, which never exceeds PB_SIZE_MAX. */
    method DecodeElements(sub: InputStream, f: Field, available: nat) returns (status: bool)
      requires Valid() && sub.Valid() && f.ltype.Packable() && 0 < f.dataSize <= 8
      modifies this, data, sub
      ensures Valid() && sub.Valid() && old(sub.state) <= sub.state && sub.End() <= old(sub.End())
      ensures data == old(data) || fresh(data)
      ensures var all := Decoding.DecodePacked(f.(arraySize := PB_SIZE_MAX), old(sub.Unread()), old(Items()));
              && (status ==> all == Some(Items()) && sub.End() == old(sub.End()))
              && (available >= 8 * PB_SIZE_MAX ==> status == all.Some?)
      ensures old(Items()) <= Items()
      ensures WordsFit(f, old(sub.Unread()), old(count), available) ==>
                status && count == old(count) + WordCount(f, old(sub.Unread())) && data != null && data.Length == count
    {
      hide DecodeScalar, Grown, Affords, WordsFit, WordCount, OnePass, Decoding.DecodePacked;
      ghost var g, before, payload := f.(arraySize := PB_SIZE_MAX), Items(), sub.Unread();
      ghost var words, n := WordsFit(f, payload, count, available), WordCount(f, payload);
      if words {
        OnePassStarts(f, payload, count, available);
      }
      var allocatedSize := count;
      status := true;
      while sub.bytesLeft > 0 && status
        invariant Valid() && sub.Valid() && old(sub.state) <= sub.state && sub.End() <= old(sub.End())
        invariant data == old(data) || fresh(data)
        invariant status ==> count <= allocatedSize <= PB_SIZE_MAX
        invariant status && (allocatedSize > count || count > old(count)) ==>
                    data != null && data.Length == allocatedSize
        invariant before <= Items()
        invariant status ==> sub.End() == old(sub.End())
        invariant status ==>
                    Decoding.DecodePacked(g, payload, before) == Decoding.DecodePacked(g, sub.Unread(), Items())
        invariant !status && available >= 8 * PB_SIZE_MAX ==> Decoding.DecodePacked(g, payload, before).None?
        invariant words ==> status && OnePass(f, n, old(count), sub.bytesLeft, count, allocatedSize)
        decreases sub.bytesLeft, status
      {
        SameScalar(f, sub.Unread());
        ScalarShrinks(f, sub.Unread());
        PackedStep(g, sub.Unread(), Items());
        if words {
          OnePassStep(f, payload, old(count), available, sub.Unread(), count, allocatedSize);
        }
        status, allocatedSize := DecodeElement(sub, f, allocatedSize, available);
      }
      if words {
        OnePassEnds(f, n, old(count), count, allocatedSize);
      }
      if status {
        assert sub.Unread() == [];
        PackedEnds(g, Items());
      }
    }

    /** Decodes a packed payload into the array. With memory enough it succeeds exactly when the payload is a run of
        elements that brings the array to at most PB_SIZE_MAX. Fixed words need no more memory than they end up
        in: they are allocated in one step, all at once and no more. */
    method DecodePacked(stream: InputStream, f: Field, available: nat) returns (ok: bool)
      requires Valid() && stream.Valid() && f.ltype.Packable() && 0 < f.dataSize <= 8
      modifies this, stream, data
      ensures Valid() && stream.Valid()
      ensures var p := ReadDelimited(old(stream.Unread()));
              var g := f.(arraySize := PB_SIZE_MAX);
              var all := if p.Got? then Decoding.DecodePacked(g, p.value, old(Items())) else None;
              && (ok ==> all == Some(Items()) && stream.Unread() == p.rest && stream.End() == old(stream.End()))
              && (available >= 8 * PB_SIZE_MAX ==> ok == all.Some?)
      ensures old(Items()) <= Items()
      ensures var p := ReadDelimited(old(stream.Unread()));
              p.Got? && WordsFit(f, p.value, old(count), available) ==>
                ok && count == old(count) + WordCount(f, p.value) && data != null && data.Length == count
    {
      hide ReadDelimited, DecodeScalar, WordsFit, WordCount, Decoding.DecodePacked;
      var sub;
      ok, sub := stream.MakeSubstream();
      if !ok {
        return;
      }
      var status := DecodeElements(sub, f, available);
      ok := stream.CloseSubstream(sub);
      ok := status;
    }
  }
}
