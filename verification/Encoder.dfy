/** The encoder as it runs, on writing and sizing streams, proved against the functions of `Encoding`. */
module Encoder {
  import opened Words
  import opened Varints
  import opened Schema
  import opened Wire
  import opened Encoding
  import opened Iterators
  import opened OutputStreams

  // ---- structs as the encoder finds them ------------------------------------------------------

  /** A value of the field's C type. A bytes length or an array count may still exceed its buffer: the
      encoder checks that. Encoded lengths are held in a 64-bit `size_t`. */
  predicate HeldValue(f: Field, v: Value)
    decreases f, 1
  {
    match f.ltype
    case BoolT => v.Int?
    case VarintT => v.Int? && (IntWidth(f.dataSize) ==> FitsSigned(v.n, f.dataSize))
    case SVarintT => v.Int? && (IntWidth(f.dataSize) ==> FitsSigned(v.n, f.dataSize))
    case UVarintT => v.Int? && (IntWidth(f.dataSize) ==> FitsUnsigned(v.n, f.dataSize))
    case Fixed32T => v.Int? && 0 <= v.n < WORD32
    case Fixed64T => v.Int? && 0 <= v.n < WORD64
    case BytesT => v.Blob?
    case StringT => v.Blob?
    case FixedBytesT => v.Blob? && |v.data| == f.dataSize
    case SubmessageT =>
      && v.Msg?
      && Held(f.sub, v.slots)
      && var body := EncodeFrom(f.sub, v.slots, 0); body.Some? ==> |body.value| < WORD64
  }

  predicate HeldSlot(fs: seq<Field>, slots: seq<Slot>, i: nat)
    requires |slots| == |fs| && i < |fs|
    decreases fs, 0
  {
    var f, slot := fs[i], slots[SlotOf(fs, i)];
    && 0 < f.tag <= PB_SIZE_MAX && f.dataSize <= PB_SIZE_MAX
    && match f.rule
       case Required => slot.Plain? && HeldValue(f, slot.v)
       case Optional =>
         if f.HasSize() then slot.Opt? && (slot.has ==> HeldValue(f, slot.v))
         else slot.Plain? && HeldValue(f, slot.v)
       case Repeated =>
         && slot.Rep?
         && (forall k :: 0 <= k < |slot.items| ==> HeldValue(f, slot.items[k]))
         && (f.ltype.Packable() ==>
              var payload := EncodePacked(f, slot.items); payload.Some? ==> |payload.value| < WORD64)
       case OneOf => slot.Unset? || (slot.Union? && (slot.which == f.tag ==> HeldValue(f, slot.v)))
  }

  predicate Held(fs: seq<Field>, slots: seq<Slot>)
    decreases fs, 1
  {
    |slots| == |fs| && forall i :: 0 <= i < |fs| ==> HeldSlot(fs, slots, i)
  }

  // ---- sequencing writes ------------------------------------------------------------------------

  function Prepend(a: bytes, rest: Option<bytes>): Option<bytes> {
    if rest.None? then None else Some(a + rest.value)
  }

  lemma PrependNothing(o: Option<bytes>)
    ensures Prepend([], o) == o
  {
    assert o.Some? ==> [] + o.value == o.value;
  }

  /** A write after a successful one. */
  lemma Then(s: OutputStream, m: Mark, limit: nat, a: bytes, n: Mark, ok: bool, out: Option<bytes>)
    requires Advanced(s.sizing, m, a, n) && s.Outcome(n, limit, ok, out)
    ensures s.Outcome(m, limit, ok, Prepend(a, out))
  {
    ChainInside(s.sizing, limit, m, a, n, s.Here());
    if ok {
      Chain(s.sizing, m, a, n, out.value, s.Here());
    }
  }

  /** A first write that did not fit: nothing longer fits either. */
  lemma Full(s: OutputStream, m: Mark, limit: nat, a: bytes, out: Option<bytes>)
    requires s.Outcome(m, limit, false, Some(a)) && (out.Some? ==> |out.value| >= |a|)
    ensures s.Outcome(m, limit, false, out)
  {
  }

  /** `head` followed by `tail`, both of which must be there. */
  function Followed(head: Option<bytes>, tail: Option<bytes>): Option<bytes> {
    if head.None? || tail.None? then None else Some(head.value + tail.value)
  }

  /** One turn of a writing loop: `out` was written from mark m on, and now `head` was to be. */
  lemma Step(s: OutputStream, m: Mark, limit: nat, out: bytes, n: Mark, ok: bool, head: Option<bytes>,
             tail: Option<bytes>, whole: Option<bytes>)
    requires Advanced(s.sizing, m, out, n) && s.Outcome(n, limit, ok, head)
    requires whole == Prepend(out, Followed(head, tail))
    ensures s.Valid() && s.Limit() == limit
    ensures ok ==> Advanced(s.sizing, m, out + head.value, s.Here()) && whole == Prepend(out + head.value, tail)
    ensures !ok ==> s.Outcome(m, limit, false, whole)
  {
    Then(s, m, limit, out, n, ok, head);
    if tail.Some? && head.Some? {
      assert out + (head.value + tail.value) == out + head.value + tail.value;
    }
    if !ok && head.Some? {
      Full(s, m, limit, out + head.value, whole);
    }
  }

  /** The end of a writing loop. */
  lemma Finish(s: OutputStream, m: Mark, limit: nat, out: bytes, whole: Option<bytes>)
    requires s.Valid() && s.Limit() == limit && Advanced(s.sizing, m, out, s.Here())
    requires whole == Prepend(out, Some([]))
    ensures s.Outcome(m, limit, true, whole)
  {
    assert out + [] == out;
    AdvancedInside(s.sizing, limit, m, out, s.Here());
  }

  lemma NothingWritten(s: OutputStream)
    requires s.Valid()
    ensures Advanced(s.sizing, s.Here(), [], s.Here()) && s.Outcome(s.Here(), s.Limit(), true, Some([]))
    ensures s.Outcome(s.Here(), s.Limit(), false, None)
  {
    Stay(s.sizing, s.Here());
  }

  // ---- scalars ------------------------------------------------------------------------------

  /** `strnlen`: the length up to the terminator or the end of the buffer. */
  method StringLength(data: bytes, maxSize: nat) returns (size: nat)
    ensures size == |CString(data, maxSize)| && size <= |data| && data[..size] == CString(data, maxSize)
  {
    hide CString;
    size := 0;
    while size < maxSize && size < |data| && data[size] != 0
      invariant size <= |data| && size <= maxSize
      invariant CString(data, maxSize) == data[..size] + CString(data[size..], maxSize - size)
    {
      CStringAt(data, maxSize, size);
      size := size + 1;
    }
    CStringAt(data, maxSize, size);
  }

  lemma CStringAt(data: bytes, maxSize: nat, size: nat)
    requires size <= |data| && size <= maxSize
    ensures CString(data[size..], maxSize - size)
         == if size == maxSize || size == |data| || data[size] == 0 then []
            else [data[size]] + CString(data[size + 1..], maxSize - size - 1)
  {
    if size < |data| {
      assert data[size..][1..] == data[size + 1..];
    }
  }

  method EncScalar(stream: OutputStream, f: Field, v: Value) returns (ok: bool)
    requires stream.Valid() && !f.ltype.SubmessageT? && HeldValue(f, v) && f.dataSize <= PB_SIZE_MAX
    modifies stream, stream.buf
    ensures stream.Outcome(old(stream.Here()), old(stream.Limit()), ok, EncodeScalar(f, v))
  {
    hide Varint, Delimited, Zigzag, ToWord64, FixedBytes, CString;
    NothingWritten(stream);
    match f.ltype
    case BoolT => ok := stream.EncodeVarint(if v.n != 0 then 1 else 0);
    case VarintT =>
      if !IntWidth(f.dataSize) {
        return false;
      }
      SignedRoundTrip(v.n);
      ok := stream.EncodeVarint(ToWord64(v.n));
    case UVarintT =>
      if !IntWidth(f.dataSize) {
        return false;
      }
      ok := stream.EncodeVarint(v.n);
    case SVarintT =>
      if !IntWidth(f.dataSize) {
        return false;
      }
      ok := stream.EncodeSvarint(v.n);
    case Fixed32T => ok := stream.EncodeFixed32(v.n);
    case Fixed64T => ok := stream.EncodeFixed64(v.n);
    case BytesT =>
      if |v.data| + BYTES_HEADER > f.dataSize {
        return false;
      }
      ok := stream.EncodeString(v.data);
    case StringT =>
      var size := StringLength(v.data, f.dataSize);
      ok := stream.EncodeString(v.data[..size]);
    case FixedBytesT => ok := stream.EncodeString(v.data);
  }

  method EncTagForField(stream: OutputStream, f: Field) returns (ok: bool)
    requires stream.Valid() && f.tag <= PB_SIZE_MAX
    modifies stream, stream.buf
    ensures stream.Outcome(old(stream.Here()), old(stream.Limit()), ok, Some(FieldTag(f)))
  {
    ok := stream.EncodeTag(WireType(f.ltype), f.tag);
  }

  /** The zero check of a proto3 field, through submessages. */
  method CheckProto3DefaultValue(fs: seq<Field>, slots: seq<Slot>, i: nat) returns (zero: bool)
    requires Held(fs, slots) && i < |fs|
    ensures zero == IsZeroField(fs, slots, i)
    decreases fs, 0
  {
    var f, slot := fs[i], slots[SlotOf(fs, i)];
    assert HeldSlot(fs, slots, i);
    match f.rule
    case Required => zero := false;
    case Repeated => zero := slot.items == [];
    case OneOf => zero := Which(slot) == 0;
    case Optional =>
      if f.HasSize() {
        zero := !slot.has;
      } else {
        zero := CheckProto3Value(f, slot.v);
      }
  }

  method CheckProto3Value(f: Field, v: Value) returns (zero: bool)
    requires HeldValue(f, v)
    ensures zero == IsZeroValue(f, v)
    decreases f, 2
  {
    match f.ltype
    case BytesT => zero := v.data == [];
    case StringT => zero := f.dataSize == 0 || v.data == [] || v.data[0] == 0;
    case FixedBytesT => zero := f.dataSize == 0;
    case SubmessageT =>
      assert Held(f.sub, v.slots);
      zero := CheckSubmessage(f.sub, v.slots);
    case _ => zero := v.n == 0;
  }

  method CheckSubmessage(fs: seq<Field>, slots: seq<Slot>) returns (zero: bool)
    requires Held(fs, slots)
    ensures zero == AllZero(fs, slots)
    decreases fs, 1
  {
    var iter := new FieldIter(fs, 0);
    var more := fs != [];
    while more
      invariant iter.Valid() && iter.start == fs && fresh(iter)
      invariant more ==> iter.pos < |fs|
      invariant forall k :: 0 <= k < (if more then iter.pos else |fs|) ==> IsZeroField(fs, slots, k)
      decreases if more then |fs| - iter.pos else 0
    {
      zero := CheckProto3DefaultValue(fs, slots, iter.pos);
      if !zero {
        return false;
      }
      more := iter.Next();
    }
    zero := true;
  }

  // ---- values, fields and messages --------------------------------------------------------------

  method EncValue(stream: OutputStream, f: Field, v: Value) returns (ok: bool)
    requires stream.Valid() && HeldValue(f, v) && f.dataSize <= PB_SIZE_MAX
    modifies stream, stream.buf
    ensures stream.Outcome(old(stream.Here()), old(stream.Limit()), ok, EncodeValue(f, v))
    decreases f, 1
  {
    if f.ltype.SubmessageT? {
      assert Held(f.sub, v.slots);
      ok := EncodeSubmessage(stream, f.sub, v.slots);
    } else {
      ok := EncScalar(stream, f, v);
    }
  }

  /** The submessage is encoded twice: on a sizing stream for its length, then on a substream that may
      write exactly that much. The second pass never writes a different number of bytes. */
  method EncodeSubmessage(stream: OutputStream, fields: seq<Field>, slots: seq<Slot>) returns (ok: bool)
    requires stream.Valid() && |slots| == |fields| && Held(fields, slots)
    requires EncodeFrom(fields, slots, 0).Some? ==> |EncodeFrom(fields, slots, 0).value| < WORD64
    modifies stream, stream.buf
    ensures var body := EncodeFrom(fields, slots, 0);
            stream.Outcome(old(stream.Here()), old(stream.Limit()), ok,
                           if body.Some? then Some(Delimited(body.value)) else None)
    decreases fields, 4
  {
    hide EncodeFrom, Held, Varint;
    ghost var m, limit, out := stream.Here(), stream.Limit(), EncodeFrom(fields, slots, 0);
    NothingWritten(stream);
    var sizer := new OutputStream.Sizing();
    ok := Encode(sizer, fields, slots);
    if !ok {
      return;
    }
    var size := sizer.bytesWritten;
    ok := stream.EncodeVarint(size);
    if !ok {
      Full(stream, m, limit, Varint(size), Some(Delimited(out.value)));
      return;
    }
    ghost var n := stream.Here();
    ok := EncodeSized(stream, fields, slots, size);
    Then(stream, m, limit, Varint(size), n, ok, out);
  }

  /** The second pass, behind the length; a sizing stream just adds the size. */
  method EncodeSized(stream: OutputStream, fields: seq<Field>, slots: seq<Slot>, size: nat) returns (ok: bool)
    requires stream.Valid() && |slots| == |fields| && Held(fields, slots)
    requires EncodeFrom(fields, slots, 0).Some? && size == |EncodeFrom(fields, slots, 0).value|
    modifies stream, stream.buf
    ensures stream.Outcome(old(stream.Here()), old(stream.Limit()), ok, EncodeFrom(fields, slots, 0))
    decreases fields, 3
  {
    hide EncodeFrom, Held;
    if stream.sizing {
      stream.WriteCount(size);
      return true;
    }
    if stream.bytesWritten + size > stream.maxSize {
      return false;
    }
    var sub := new OutputStream(stream.buf, stream.state, size);
    var status := Encode(sub, fields, slots);
    stream.bytesWritten := stream.bytesWritten + sub.bytesWritten;
    stream.state := sub.state;
    if sub.bytesWritten != size {
      return false;
    }
    ok := status;
  }

  /** All fields in table order. */
  method Encode(stream: OutputStream, fields: seq<Field>, slots: seq<Slot>) returns (ok: bool)
    requires stream.Valid() && |slots| == |fields| && Held(fields, slots)
    modifies stream, stream.buf
    ensures stream.Outcome(old(stream.Here()), old(stream.Limit()), ok, EncodeFrom(fields, slots, 0))
    decreases fields, 2
  {
    hide EncodeField, Held, Advanced, Inside;
    ghost var m, limit := stream.Here(), stream.Limit();
    NothingWritten(stream);
    if fields == [] {
      return true;
    }
    var iter := new FieldIter(fields, 0);
    PrependNothing(EncodeFrom(fields, slots, 0));
    ghost var out: bytes := [];
    var more := true;
    while more
      invariant iter.Valid() && iter.start == fields && fresh(iter)
      invariant stream.Valid() && stream.Limit() == limit && Advanced(stream.sizing, m, out, stream.Here())
      invariant more ==> iter.pos < |fields|
      invariant EncodeFrom(fields, slots, 0)
             == Prepend(out, EncodeFrom(fields, slots, if more then iter.pos else |fields|))
      decreases if more then |fields| - iter.pos else 0
    {
      ghost var n, head := stream.Here(), EncodeField(fields, slots, iter.pos);
      ghost var tail := EncodeFrom(fields, slots, iter.pos + 1);
      ok := EncField(stream, fields, slots, iter.pos);
      Step(stream, m, limit, out, n, ok, head, tail, EncodeFrom(fields, slots, 0));
      if !ok {
        return;
      }
      out := out + head.value;
      more := iter.Next();
    }
    ok := true;
    Finish(stream, m, limit, out, EncodeFrom(fields, slots, 0));
  }

  /** A field as the table describes it: required, optional with its has_ flag or implicit presence,
      an array, or the active member of a union. */
  method EncField(stream: OutputStream, fields: seq<Field>, slots: seq<Slot>, i: nat) returns (ok: bool)
    requires stream.Valid() && |slots| == |fields| && Held(fields, slots) && i < |fields|
    modifies stream, stream.buf
    ensures stream.Outcome(old(stream.Here()), old(stream.Limit()), ok, EncodeField(fields, slots, i))
    decreases fields, 1
  {
    hide EncodeTagged, HeldValue;
    var f, slot := fields[i], slots[SlotOf(fields, i)];
    assert HeldSlot(fields, slots, i);
    NothingWritten(stream);
    match f.rule
    case Required => ok := EncTagged(stream, f, slot.v);
    case Optional =>
      var has: bool;
      if f.HasSize() {
        has := slot.has;
      } else {
        var zero := CheckProto3DefaultValue(fields, slots, i);
        has := !zero;
      }
      if has {
        ok := EncTagged(stream, f, slot.v);
      } else {
        ok := true;
      }
    case Repeated => ok := EncArray(stream, f, slot.items);
    case OneOf =>
      if Which(slot) == f.tag {
        ok := EncTagged(stream, f, slot.v);
      } else {
        ok := true;
      }
  }

  method EncTagged(stream: OutputStream, f: Field, v: Value) returns (ok: bool)
    requires stream.Valid() && HeldValue(f, v) && f.dataSize <= PB_SIZE_MAX && f.tag <= PB_SIZE_MAX
    modifies stream, stream.buf
    ensures stream.Outcome(old(stream.Here()), old(stream.Limit()), ok, EncodeTagged(f, v))
    decreases f, 2
  {
    hide EncodeValue, HeldValue, FieldTag;
    ghost var m, limit := stream.Here(), stream.Limit();
    ok := EncTagForField(stream, f);
    if !ok {
      Full(stream, m, limit, FieldTag(f), EncodeTagged(f, v));
      return;
    }
    ghost var n := stream.Here();
    ok := EncValue(stream, f, v);
    Then(stream, m, limit, FieldTag(f), n, ok, EncodeValue(f, v));
  }

  /** The elements of a packed array, one after the other. */
  method EncPackedItems(stream: OutputStream, f: Field, items: seq<Value>) returns (ok: bool)
    requires stream.Valid() && f.ltype.Packable() && f.dataSize <= PB_SIZE_MAX
    requires forall k :: 0 <= k < |items| ==> HeldValue(f, items[k])
    modifies stream, stream.buf
    ensures stream.Outcome(old(stream.Here()), old(stream.Limit()), ok, EncodePacked(f, items))
  {
    hide EncodeScalar, HeldValue, Advanced, Inside;
    ghost var m, limit := stream.Here(), stream.Limit();
    ghost var out: bytes := [];
    NothingWritten(stream);
    PrependNothing(EncodePacked(f, items));
    assert items[0..] == items;
    for i := 0 to |items|
      invariant stream.Valid() && stream.Limit() == limit && Advanced(stream.sizing, m, out, stream.Here())
      invariant EncodePacked(f, items) == Prepend(out, EncodePacked(f, items[i..]))
    {
      ghost var n, head, tail := stream.Here(), EncodeScalar(f, items[i]), EncodePacked(f, items[i + 1..]);
      assert items[i..][1..] == items[i + 1..];
      ok := EncScalar(stream, f, items[i]);
      Step(stream, m, limit, out, n, ok, head, tail, EncodePacked(f, items));
      if !ok {
        return;
      }
      out := out + head.value;
    }
    ok := true;
    Finish(stream, m, limit, out, EncodePacked(f, items));
  }

  /** An array: packed behind its length when the type allows it, one record for each element otherwise.
      Fixed-width payloads are sized by multiplication, the others on a sizing stream. */
  method EncArray(stream: OutputStream, f: Field, items: seq<Value>) returns (ok: bool)
    requires stream.Valid() && f.dataSize <= PB_SIZE_MAX && f.tag <= PB_SIZE_MAX
    requires forall k :: 0 <= k < |items| ==> HeldValue(f, items[k])
    requires f.ltype.Packable() && EncodePacked(f, items).Some? ==> |EncodePacked(f, items).value| < WORD64
    modifies stream, stream.buf
    ensures stream.Outcome(old(stream.Here()), old(stream.Limit()), ok, EncodeArray(f, items))
    decreases f, 4
  {
    if |items| == 0 {
      NothingWritten(stream);
      return true;
    }
    if |items| > f.arraySize {
      NothingWritten(stream);
      return false;
    }
    if f.ltype.Packable() {
      ok := EncPackedArray(stream, f, items);
    } else {
      ok := EncEach(stream, f, items);
    }
  }

  lemma {:induction false} PackedWords(f: Field, items: seq<Value>, width: nat)
    requires (f.ltype.Fixed32T? && width == 4) || (f.ltype.Fixed64T? && width == 8)
    requires forall k :: 0 <= k < |items| ==> HeldValue(f, items[k])
    ensures EncodePacked(f, items).Some? && |EncodePacked(f, items).value| == width * |items|
  {
    if items != [] {
      assert HeldValue(f, items[0]);
      PackedWords(f, items[1..], width);
    }
  }

  /** The length of a packed payload; the stream itself is not touched. */
  method PackedSize(f: Field, items: seq<Value>) returns (ok: bool, size: nat)
    requires f.ltype.Packable() && f.dataSize <= PB_SIZE_MAX
    requires forall k :: 0 <= k < |items| ==> HeldValue(f, items[k])
    ensures ok == EncodePacked(f, items).Some?
    ensures ok ==> size == |EncodePacked(f, items).value|
  {
    if f.ltype.Fixed32T? {
      PackedWords(f, items, 4);
      return true, 4 * |items|;
    }
    if f.ltype.Fixed64T? {
      PackedWords(f, items, 8);
      return true, 8 * |items|;
    }
    var sizer := new OutputStream.Sizing();
    ok := EncPackedItems(sizer, f, items);
    size := sizer.bytesWritten;
  }

  method EncPackedArray(stream: OutputStream, f: Field, items: seq<Value>) returns (ok: bool)
    requires stream.Valid() && f.ltype.Packable() && f.dataSize <= PB_SIZE_MAX && f.tag <= PB_SIZE_MAX
    requires forall k :: 0 <= k < |items| ==> HeldValue(f, items[k])
    requires EncodePacked(f, items).Some? ==> |EncodePacked(f, items).value| < WORD64
    modifies stream, stream.buf
    ensures var payload := EncodePacked(f, items);
            stream.Outcome(old(stream.Here()), old(stream.Limit()), ok,
                           if payload.Some? then Some(PackedRecord(f, payload.value)) else None)
  {
    hide EncodePacked, HeldValue, TagBytes, Delimited;
    ghost var m, limit, payload := stream.Here(), stream.Limit(), EncodePacked(f, items);
    ghost var tag := TagBytes(f.tag, WT_STRING);
    ok := stream.EncodeTag(WT_STRING, f.tag);
    if !ok {
      Full(stream, m, limit, tag, if payload.Some? then Some(PackedRecord(f, payload.value)) else None);
      return;
    }
    ghost var n := stream.Here();
    ok := EncPackedBody(stream, f, items);
    Then(stream, m, limit, tag, n, ok, if payload.Some? then Some(Delimited(payload.value)) else None);
  }

  method EncPackedBody(stream: OutputStream, f: Field, items: seq<Value>) returns (ok: bool)
    requires stream.Valid() && f.ltype.Packable() && f.dataSize <= PB_SIZE_MAX
    requires forall k :: 0 <= k < |items| ==> HeldValue(f, items[k])
    requires EncodePacked(f, items).Some? ==> |EncodePacked(f, items).value| < WORD64
    modifies stream, stream.buf
    ensures var payload := EncodePacked(f, items);
            stream.Outcome(old(stream.Here()), old(stream.Limit()), ok,
                           if payload.Some? then Some(Delimited(payload.value)) else None)
  {
    hide EncodePacked, HeldValue, Varint;
    ghost var m, limit, payload := stream.Here(), stream.Limit(), EncodePacked(f, items);
    NothingWritten(stream);
    var size;
    ok, size := PackedSize(f, items);
    if !ok {
      return;
    }
    ok := stream.EncodeVarint(size);
    if !ok {
      Full(stream, m, limit, Varint(size), Some(Delimited(payload.value)));
      return;
    }
    ghost var n := stream.Here();
    if stream.sizing {
      stream.WriteCount(size);
      Then(stream, m, limit, Varint(size), n, true, payload);
      return true;
    }
    ok := EncPackedItems(stream, f, items);
    Then(stream, m, limit, Varint(size), n, ok, payload);
  }

  method EncEach(stream: OutputStream, f: Field, items: seq<Value>) returns (ok: bool)
    requires stream.Valid() && f.dataSize <= PB_SIZE_MAX && f.tag <= PB_SIZE_MAX
    requires forall k :: 0 <= k < |items| ==> HeldValue(f, items[k])
    modifies stream, stream.buf
    ensures stream.Outcome(old(stream.Here()), old(stream.Limit()), ok, EncodeEach(f, items))
    decreases f, 3
  {
    hide EncodeTagged, HeldValue, Advanced, Inside;
    ghost var m, limit := stream.Here(), stream.Limit();
    ghost var out: bytes := [];
    NothingWritten(stream);
    PrependNothing(EncodeEach(f, items));
    assert items[0..] == items;
    for i := 0 to |items|
      invariant stream.Valid() && stream.Limit() == limit && Advanced(stream.sizing, m, out, stream.Here())
      invariant EncodeEach(f, items) == Prepend(out, EncodeEach(f, items[i..]))
    {
      ghost var n, head, tail := stream.Here(), EncodeTagged(f, items[i]), EncodeEach(f, items[i + 1..]);
      assert items[i..][1..] == items[i + 1..];
      ok := EncTagged(stream, f, items[i]);
      Step(stream, m, limit, out, n, ok, head, tail, EncodeEach(f, items));
      if !ok {
        return;
      }
      out := out + head.value;
    }
    ok := true;
    Finish(stream, m, limit, out, EncodeEach(f, items));
  }

  /** The encoded size, from a pass that writes nothing. */
  method GetEncodedSize(fields: seq<Field>, slots: seq<Slot>) returns (ok: bool, size: nat)
    requires |slots| == |fields| && Held(fields, slots)
    ensures ok == EncodeFrom(fields, slots, 0).Some?
    ensures ok ==> size == |EncodeFrom(fields, slots, 0).value|
  {
    var stream := new OutputStream.Sizing();
    ok := Encode(stream, fields, slots);
    size := stream.bytesWritten;
  }

  /** Encoding into the first `capacity` bytes of a buffer succeeds exactly when the encoded size is at
      most the capacity, puts exactly the encoding at its front, and never writes beyond the capacity. */
  method EncodeToBuffer(buf: array<byte>, capacity: nat, fields: seq<Field>, slots: seq<Slot>)
    returns (ok: bool, written: nat)
    requires capacity <= buf.Length && |slots| == |fields| && Held(fields, slots)
    modifies buf
    ensures var out := EncodeFrom(fields, slots, 0);
            && ok == (out.Some? && |out.value| <= capacity)
            && (ok ==> written == |out.value| && buf[..written] == out.value && buf[written..] == old(buf[written..]))
    ensures buf[capacity..] == old(buf[capacity..])
  {
    var stream := new OutputStream(buf, 0, capacity);
    ok := Encode(stream, fields, slots);
    written := stream.bytesWritten;
  }
}
