/** The decoder as it runs: field decoders on an input stream, and a destination struct updated in
    place, proved against the functions of `Decoding`. */
module Decoder {
  import opened Words
  import opened Varints
  import opened Schema
  import opened Wire
  import opened Encoding
  import opened Decoding
  import opened Shapes
  import opened InputStreams
  import opened Iterators
  import opened RequiredFields

  /** The destination struct. */
  class Struct {
    var slots: seq<Slot>

    constructor (slots: seq<Slot>)
      ensures this.slots == slots
    {
      this.slots := slots;
    }
  }

  // ---- scalars ----------------------------------------------------------------------------

  /** Half the range of an integer of `width` bytes. */
  function HalfRange(width: nat): nat
    requires IntWidth(width)
  {
    match width
    case 1 => 0x80
    case 2 => 0x8000
    case 4 => 0x8000_0000
    case _ => 0x8000_0000_0000_0000
  }

  /** Storing an integer in `width` bytes: the value read back afterwards. */
  function CastSigned(n: int, width: nat): int
    requires IntWidth(width)
  {
    (n + HalfRange(width)) % (2 * HalfRange(width)) - HalfRange(width)
  }

  function CastUnsigned(n: nat, width: nat): nat
    requires IntWidth(width)
  {
    n % (2 * HalfRange(width))
  }

  lemma CastKeeps(n: int, width: nat)
    requires IntWidth(width)
    ensures CastSigned(n, width) == n <==> FitsSigned(n, width)
    ensures n >= 0 ==> (CastUnsigned(n, width) == n <==> FitsUnsigned(n, width))
  {
    hide HalfRange;
    var half := HalfRange(width);
    RangesByHalf(n, width);
    Wraps(n + half, 2 * half);
    Wraps(n, 2 * half);
  }

  lemma RangesByHalf(n: int, width: nat)
    requires IntWidth(width)
    ensures HalfRange(width) > 0
    ensures FitsSigned(n, width) <==> 0 <= n + HalfRange(width) < 2 * HalfRange(width)
    ensures FitsUnsigned(n, width) <==> 0 <= n < 2 * HalfRange(width)
  {
  }

  lemma Wraps(n: int, m: int)
    requires m > 0
    ensures n % m == n <==> 0 <= n < m
  {
    if 0 <= n < m {
      SmallMod(n, m);
    }
  }

  method DecBool(stream: InputStream, f: Field) returns (ok: bool, v: Value)
    requires stream.Valid() && f.ltype.BoolT?
    modifies stream
    ensures stream.Follows(ok, DecodeScalar(f, old(stream.Unread())))
    ensures ok ==> v == DecodeScalar(f, old(stream.Unread())).value
  {
    hide ReadVarint32;
    var value;
    ok, value := stream.DecodeVarint32();
    v := Int(if value != 0 then 1 else 0);
  }

  method DecVarint(stream: InputStream, f: Field) returns (ok: bool, v: Value)
    requires stream.Valid() && f.ltype.VarintT?
    modifies stream
    ensures stream.Follows(ok, DecodeScalar(f, old(stream.Unread())))
    ensures ok ==> v == DecodeScalar(f, old(stream.Unread())).value
  {
    hide ReadVarint, ToSigned32, ToSigned64, CastSigned;
    var value;
    v := Int(0);
    ok, value := stream.DecodeVarint();
    if !ok {
      return;
    }
    var svalue := if f.dataSize == 8 then ToSigned64(value) else ToSigned32(value);
    if !IntWidth(f.dataSize) {
      return false, v;
    }
    var clamped := CastSigned(svalue, f.dataSize);
    CastKeeps(svalue, f.dataSize);
    v := Int(clamped);
    ok := clamped == svalue;
  }

  method DecUvarint(stream: InputStream, f: Field) returns (ok: bool, v: Value)
    requires stream.Valid() && f.ltype.UVarintT?
    modifies stream
    ensures stream.Follows(ok, DecodeScalar(f, old(stream.Unread())))
    ensures ok ==> v == DecodeScalar(f, old(stream.Unread())).value
  {
    hide ReadVarint, CastUnsigned;
    var value;
    v := Int(0);
    ok, value := stream.DecodeVarint();
    if !ok {
      return;
    }
    if !IntWidth(f.dataSize) {
      return false, v;
    }
    var clamped := CastUnsigned(value, f.dataSize);
    CastKeeps(value, f.dataSize);
    v := Int(clamped);
    ok := clamped == value;
  }

  method DecSvarint(stream: InputStream, f: Field) returns (ok: bool, v: Value)
    requires stream.Valid() && f.ltype.SVarintT?
    modifies stream
    ensures stream.Follows(ok, DecodeScalar(f, old(stream.Unread())))
    ensures ok ==> v == DecodeScalar(f, old(stream.Unread())).value
  {
    hide ReadVarint, Unzigzag, CastSigned;
    var value;
    v := Int(0);
    ok, value := stream.DecodeSvarint();
    if !ok {
      return;
    }
    if !IntWidth(f.dataSize) {
      return false, v;
    }
    var clamped := CastSigned(value, f.dataSize);
    CastKeeps(value, f.dataSize);
    v := Int(clamped);
    ok := clamped == value;
  }

  method DecFixed32(stream: InputStream, f: Field) returns (ok: bool, v: Value)
    requires stream.Valid() && f.ltype.Fixed32T?
    modifies stream
    ensures stream.Follows(ok, DecodeScalar(f, old(stream.Unread())))
    ensures ok ==> v == DecodeScalar(f, old(stream.Unread())).value
  {
    hide ReadFixed;
    var value;
    ok, value := stream.DecodeFixed32();
    v := Int(value);
  }

  method DecFixed64(stream: InputStream, f: Field) returns (ok: bool, v: Value)
    requires stream.Valid() && f.ltype.Fixed64T?
    modifies stream
    ensures stream.Follows(ok, DecodeScalar(f, old(stream.Unread())))
    ensures ok ==> v == DecodeScalar(f, old(stream.Unread())).value
  {
    hide ReadFixed;
    var value;
    ok, value := stream.DecodeFixed64();
    v := Int(value);
  }

  /** Reads `size` bytes into a buffer of the struct. */
  method ReadBytes(stream: InputStream, size: nat) returns (ok: bool, data: bytes)
    requires stream.Valid()
    modifies stream
    ensures stream.Follows(ok, if |old(stream.Unread())| < size then Bad else Got((), old(stream.Unread())[size..]))
    ensures ok ==> data == old(stream.Unread())[..size]
  {
    var buf := new byte[size];
    ok := stream.Read(buf, size);
    data := buf[..];
    assert data == buf[..size];
  }

  method DecBytes(stream: InputStream, f: Field) returns (ok: bool, v: Value)
    requires stream.Valid() && f.ltype.BytesT? && f.dataSize <= PB_SIZE_MAX
    modifies stream
    ensures stream.Follows(ok, DecodeScalar(f, old(stream.Unread())))
    ensures ok ==> v == DecodeScalar(f, old(stream.Unread())).value
  {
    hide ReadVarint32;
    var size, data;
    v := Blob([]);
    ok, size := stream.DecodeVarint32();
    if !ok {
      return;
    }
    if size > PB_SIZE_MAX {
      return false, v;
    }
    var allocSize := size + BYTES_HEADER;
    if allocSize > f.dataSize {
      return false, v;
    }
    ok, data := ReadBytes(stream, size);
    v := Blob(data);
  }

  /** `size + 1` is computed in 32 bits. */
  method DecString(stream: InputStream, f: Field) returns (ok: bool, v: Value)
    requires stream.Valid() && f.ltype.StringT? && f.dataSize <= PB_SIZE_MAX
    modifies stream
    ensures stream.Follows(ok, DecodeScalar(f, old(stream.Unread())))
    ensures ok ==> v == DecodeScalar(f, old(stream.Unread())).value
  {
    hide ReadVarint32;
    ghost var all := stream.Unread();
    var size, data;
    v := Blob([]);
    ok, size := stream.DecodeVarint32();
    if !ok {
      return;
    }
    Varint32Word(all);
    var allocSize := (size + 1) % WORD32;
    if allocSize < size {
      return false, v;
    }
    if allocSize > f.dataSize {
      return false, v;
    }
    ok, data := ReadBytes(stream, size);
    v := Blob(data);
  }

  lemma Varint32Word(s: bytes)
    ensures ReadVarint32(s).Got? ==> ReadVarint32(s).value < WORD32
  {
    hide ReadVarint32From;
    if s != [] {
      ReadVarint32InWord(s[1..], 7, s[0] % 0x80);
    }
  }

  method DecFixedLengthBytes(stream: InputStream, f: Field) returns (ok: bool, v: Value)
    requires stream.Valid() && f.ltype.FixedBytesT? && f.dataSize <= PB_SIZE_MAX
    modifies stream
    ensures stream.Follows(ok, DecodeScalar(f, old(stream.Unread())))
    ensures ok ==> v == DecodeScalar(f, old(stream.Unread())).value
  {
    hide ReadVarint32;
    ghost var all := stream.Unread();
    var size, data;
    v := Blob([]);
    ok, size := stream.DecodeVarint32();
    if !ok {
      return;
    }
    if size > PB_SIZE_MAX {
      Varint32Word(all);
      return false, v;
    }
    if size == 0 {
      return true, Blob(Zeros(f.dataSize));
    }
    if size != f.dataSize {
      return false, v;
    }
    ok, data := ReadBytes(stream, f.dataSize);
    v := Blob(data);
  }

  method DecScalar(stream: InputStream, f: Field) returns (ok: bool, v: Value)
    requires stream.Valid() && !f.ltype.SubmessageT? && f.dataSize <= PB_SIZE_MAX
    modifies stream
    ensures stream.Follows(ok, DecodeScalar(f, old(stream.Unread())))
    ensures ok ==> v == DecodeScalar(f, old(stream.Unread())).value
  {
    hide DecodeScalar;
    match f.ltype
    case BoolT => ok, v := DecBool(stream, f);
    case VarintT => ok, v := DecVarint(stream, f);
    case UVarintT => ok, v := DecUvarint(stream, f);
    case SVarintT => ok, v := DecSvarint(stream, f);
    case Fixed32T => ok, v := DecFixed32(stream, f);
    case Fixed64T => ok, v := DecFixed64(stream, f);
    case BytesT => ok, v := DecBytes(stream, f);
    case StringT => ok, v := DecString(stream, f);
    case FixedBytesT => ok, v := DecFixedLengthBytes(stream, f);
  }

  // ---- defaults -------------------------------------------------------------------------------

  /** Initializes every field of the struct; members of a union reset its which_ tag once each. */
  method SetToDefaults(fields: seq<Field>, dest: Struct)
    requires |dest.slots| == |fields|
    modifies dest
    ensures dest.slots == Defaults(fields) && Untouched(fields, dest.slots)
  {
    var iter := new FieldIter(fields, 0);
    var more := fields != [];
    while more
      invariant iter.Valid() && iter.start == fields && fresh(iter)
      invariant |dest.slots| == |fields|
      invariant more ==> iter.pos < |fields|
      invariant forall k :: 0 <= k < (if more then iter.pos else |fields|) ==> dest.slots[k] == DefaultSlot(fields, k)
      decreases if more then |fields| - iter.pos else 0
    {
      dest.slots := dest.slots[iter.pos := DefaultSlot(fields, iter.pos)];
      more := iter.Next();
    }
    assert dest.slots == Defaults(fields);
    DefaultsUntouched(fields, dest.slots);
  }

  // ---- fields and messages ----------------------------------------------------------------------

  /** The packed loop: elements are decoded in place until the substream or the array is used up. */
  method DecodePackedArray(stream: InputStream, f: Field, k: nat, dest: Struct) returns (ok: bool)
    requires stream.Valid() && k < |dest.slots| && dest.slots[k].Rep?
    requires f.ltype.Packable() && f.dataSize <= PB_SIZE_MAX
    modifies stream, dest
    ensures stream.Valid() && old(stream.state) <= stream.state && stream.End() <= old(stream.End())
    ensures |dest.slots| == old(|dest.slots|)
    ensures var p := ReadDelimited(old(stream.Unread()));
            var all := if p.Got? then DecodePacked(f, p.value, old(dest.slots[k].items)) else None;
            && ok == all.Some?
            && (ok ==> && dest.slots == old(dest.slots)[k := Rep(all.value)]
                       && stream.Unread() == p.rest && stream.End() == old(stream.End()))
  {
    hide ReadDelimited, DecodeScalar;
    var sub;
    ok, sub := stream.MakeSubstream();
    if !ok {
      return;
    }
    ghost var payload := sub.Unread();
    ghost var end := sub.End();
    var status := true;
    while sub.bytesLeft > 0 && |dest.slots[k].items| < f.arraySize
      invariant sub.Valid() && sub.End() == end && stream.state <= sub.state
      invariant |dest.slots| == |old(dest.slots)| && dest.slots[k].Rep?
      invariant dest.slots == old(dest.slots)[k := dest.slots[k]]
      invariant DecodePacked(f, payload, old(dest.slots[k].items)) == DecodePacked(f, sub.Unread(), dest.slots[k].items)
      invariant !status ==> DecodePacked(f, payload, old(dest.slots[k].items)).None?
      modifies sub, dest
      decreases sub.bytesLeft
    {
      ghost var rest := sub.Unread();
      var v;
      status, v := DecScalar(sub, f);
      if !status {
        break;
      }
      ScalarShrinks(f, rest);
      dest.slots := dest.slots[k := Rep(dest.slots[k].items + [v])];
    }
    if sub.bytesLeft != 0 {
      return false;
    }
    ok := stream.CloseSubstream(sub);
    ok := status;
  }

  /** The decoder of one value. A submessage is decoded into its own struct: over defaults for an array
      element, over the contents it already has otherwise. */
  method DecValue(stream: InputStream, f: Field, prior: Value) returns (ok: bool, v: Value)
    requires stream.Valid() && FieldOk(f)
    requires f.ltype.SubmessageT? && !f.rule.Repeated? ==> ShapedValue(f, prior)
    modifies stream
    ensures stream.Follows(ok, DecodeValue(f, old(stream.Unread()), prior))
    ensures ok ==> v == DecodeValue(f, old(stream.Unread()), prior).value
    decreases f, 1
  {
    if f.ltype.SubmessageT? {
      ok, v := DecSubmessage(stream, f, prior);
    } else {
      hide DecodeScalar;
      ok, v := DecScalar(stream, f);
    }
  }

  method DecSubmessage(stream: InputStream, f: Field, prior: Value) returns (ok: bool, v: Value)
    requires stream.Valid() && FieldOk(f) && f.ltype.SubmessageT?
    requires !f.rule.Repeated? ==> ShapedValue(f, prior)
    modifies stream
    ensures stream.Follows(ok, DecodeValue(f, old(stream.Unread()), prior))
    ensures ok ==> v == DecodeValue(f, old(stream.Unread()), prior).value
    decreases f, 0
  {
    hide ReadDelimited, DecodeInto, Shaped, TableOk;
    var sub;
    v := prior;
    ok, sub := stream.MakeSubstream();
    if !ok {
      return;
    }
    var dest: Struct;
    var status: bool;
    if f.rule.Repeated? {
      dest := new Struct(seq(|f.sub|, _ => Unset));
      status := Decode(sub, f.sub, dest);
    } else {
      ShapedLength(f.sub, prior.slots);
      dest := new Struct(prior.slots);
      status := DecodeNoinit(sub, f.sub, dest);
    }
    ok := stream.CloseSubstream(sub);
    v := Msg(dest.slots);
    ok := ok && status;
  }

  /** Releases the union's old contents when another member arrives: the old member is looked up by its
      tag, then the iterator returns to the new one. Static members own nothing to free. */
  method ReleaseUnion(iter: FieldIter, dest: Struct) returns (ok: bool)
    requires iter.Valid() && TableOk(iter.start) && iter.pos < |iter.start| && |dest.slots| == |iter.start|
    requires iter.start[iter.pos].rule.OneOf?
    modifies iter
    ensures iter.Valid()
    ensures ok == !ReleaseFails(iter.start, iter.start[old(iter.pos)], dest.slots[SlotOf(iter.start, old(iter.pos))])
    ensures ok ==> iter.pos == old(iter.pos)
  {
    var f := iter.start[iter.pos];
    LookupUnique(iter.start, iter.pos);
    var oldTag := Which(dest.slots[SlotOf(iter.start, iter.pos)]);
    if oldTag == 0 || oldTag == f.tag {
      return true;
    }
    ok := iter.Find(oldTag);
    if !ok {
      return;
    }
    ok := iter.Find(f.tag);
  }

  /** One record of a known field. */
  method DecodeStaticField(stream: InputStream, wt: nat, iter: FieldIter, dest: Struct) returns (ok: bool)
    requires stream.Valid() && iter.Valid() && iter.pos < |iter.start|
    requires TableOk(iter.start) && Shaped(iter.start, dest.slots)
    modifies stream, iter, dest
    ensures iter.Valid()
    ensures |dest.slots| == old(|dest.slots|)
    ensures stream.Follows(ok, DecodeField(iter.start, old(iter.pos), wt, old(stream.Unread()), old(dest.slots)))
    ensures ok ==> iter.pos == old(iter.pos)
    ensures ok ==> dest.slots == DecodeField(iter.start, old(iter.pos), wt, old(stream.Unread()), old(dest.slots)).value
    decreases iter.start, 0
  {
    hide ReadDelimited, DecodeScalar, DecodeValue;
    var fs, i := iter.start, iter.pos;
    var f, k := fs[i], SlotOf(fs, i);
    SharedIsOneOf(fs, i);
    assert FieldOk(f) && ShapedSlot(fs, dest.slots[k], k);
    var v: Value;
    match f.rule
    case Required =>
      ok, v := DecValue(stream, f, dest.slots[k].v);
      dest.slots := dest.slots[k := Plain(v)];
    case Optional =>
      if f.HasSize() {
        dest.slots := dest.slots[k := Opt(true, dest.slots[k].v)];
        ok, v := DecValue(stream, f, dest.slots[k].v);
        dest.slots := dest.slots[k := Opt(true, v)];
      } else {
        ok, v := DecValue(stream, f, dest.slots[k].v);
        dest.slots := dest.slots[k := Plain(v)];
      }
    case Repeated =>
      if wt == WT_STRING && f.ltype.Packable() {
        ok := DecodePackedArray(stream, f, k, dest);
      } else {
        if |dest.slots[k].items| >= f.arraySize {
          return false;
        }
        ok, v := DecValue(stream, f, f.initial);
        dest.slots := dest.slots[k := Rep(dest.slots[k].items + [v])];
      }
    case OneOf => ok := DecodeUnionMember(stream, iter, dest);
  }

  /** A union member: old contents are released, a submessage that was not active starts from defaults,
      and the which_ tag is set before the value is decoded. */
  method DecodeUnionMember(stream: InputStream, iter: FieldIter, dest: Struct) returns (ok: bool)
    requires stream.Valid() && iter.Valid() && iter.pos < |iter.start| && iter.start[iter.pos].rule.OneOf?
    requires TableOk(iter.start) && |dest.slots| == |iter.start|
    requires ShapedSlot(iter.start, dest.slots[SlotOf(iter.start, iter.pos)], SlotOf(iter.start, iter.pos))
    modifies stream, iter, dest
    ensures iter.Valid()
    ensures |dest.slots| == old(|dest.slots|)
    ensures var fs, i := iter.start, old(iter.pos);
            var slot := old(dest.slots)[SlotOf(fs, i)];
            var p := if ReleaseFails(fs, fs[i], slot) then Bad
                     else DecodeValue(fs[i], old(stream.Unread()), UnionBase(fs[i], slot));
            && stream.Follows(ok, p)
            && (ok ==> iter.pos == i && dest.slots == old(dest.slots)[SlotOf(fs, i) := Union(fs[i].tag, p.value)])
    decreases iter.start, 0, 0
  {
    hide DecodeValue, Defaults;
    var fs, i := iter.start, iter.pos;
    var f, k := fs[i], SlotOf(fs, i);
    SharedIsOneOf(fs, i);
    assert FieldOk(f);
    ok := ReleaseUnion(iter, dest);
    if !ok {
      return;
    }
    BaseShaped(fs, i, dest.slots[k]);
    var base := dest.slots[k];
    if f.ltype.SubmessageT? && Which(base) != f.tag {
      base := Union(f.tag, Msg(Defaults(f.sub)));
    } else if !f.ltype.SubmessageT? {
      base := Union(f.tag, f.initial);
    }
    dest.slots := dest.slots[k := base];
    var v;
    ok, v := DecValue(stream, f, base.v);
    dest.slots := dest.slots[k := Union(f.tag, v)];
  }

  /** One turn of the record loop: a zero tag, an unknown field to skip, or a field to decode. */
  method DecodeRecord(stream: InputStream, iter: FieldIter, dest: Struct, fieldsSeen: array<nat>, ghost seen: set<nat>)
    returns (ok: bool, stopped: bool, ghost seen': set<nat>)
    requires stream.Valid() && stream.bytesLeft > 0 && iter.Valid()
    requires TableOk(iter.start) && |dest.slots| == |iter.start| && Shaped(iter.start, dest.slots)
    requires fieldsSeen.Length == 2 && Recorded(iter.start, seen, fieldsSeen[..])
    modifies stream, iter, dest, fieldsSeen
    ensures stream.Valid() && old(stream.state) <= stream.state && stream.End() <= old(stream.End())
    ensures iter.Valid() && |dest.slots| == |iter.start|
    ensures ok ==> stream.End() == old(stream.End()) && stream.bytesLeft < old(stream.bytesLeft)
    ensures ok ==> Shaped(iter.start, dest.slots) && Recorded(iter.start, seen', fieldsSeen[..])
    ensures DecodeLoop(iter.start, old(stream.Unread()), old(dest.slots), seen)
         == if !ok then None
            else if stopped then Some(Progress(dest.slots, seen', true, stream.Unread()))
            else DecodeLoop(iter.start, stream.Unread(), dest.slots, seen')
    decreases iter.start, 1
  {
    hide ReadTag, DecodeField, SkipField, DecodeScalar, Shaped, Recorded, FieldOk, Lookup, UniqueTags;
    var fields := iter.start;
    var wt, tag, eof;
    seen', stopped := seen, false;
    ok, wt, tag, eof := stream.DecodeTag();
    if !ok {
      ok, stopped := eof, true;
      return;
    }
    assert TableOk(fields) ==> UniqueTags(fields);
    var found := iter.Find(tag);
    if !found {
      ok := stream.Skip(wt);
    } else if fields == [] {
      ScalarShrinks(Terminator(), stream.Unread());
      var dropped;
      ok, dropped := DecScalar(stream, Terminator());
    } else {
      var i := iter.pos;
      seen' := seen + {i};
      RecordField(fields, seen, fieldsSeen[..], i);
      if fields[i].rule.Required? && iter.requiredFieldIndex < PB_MAX_REQUIRED_FIELDS {
        var n := iter.requiredFieldIndex;
        ghost var words := fieldsSeen[..];
        fieldsSeen[n / 32] := BitOr(fieldsSeen[n / 32], Pow2(n % 32));
        assert fieldsSeen[..] == words[n / 32 := BitOr(words[n / 32], Pow2(n % 32))];
      }
      FieldShaped(fields, i, wt, stream.Unread(), dest.slots);
      ok := DecodeStaticField(stream, wt, iter, dest);
    }
  }

  /** Decodes into the struct as it is. It succeeds exactly when `DecodeInto` does, with that struct,
      and stops exactly where that does. */
  method DecodeNoinit(stream: InputStream, fields: seq<Field>, dest: Struct) returns (ok: bool)
    requires stream.Valid() && TableOk(fields) && Shaped(fields, dest.slots)
    modifies stream, dest
    ensures stream.Valid() && old(stream.state) <= stream.state && stream.End() <= old(stream.End())
    ensures |dest.slots| == |fields|
    ensures var p := DecodeInto(fields, old(stream.Unread()), old(dest.slots));
            && ok == p.Some?
            && (ok ==> && dest.slots == p.value.slots
                       && stream.Unread() == p.value.rest && stream.End() == old(stream.End()))
    decreases fields, 2
  {
    hide DecodeLoop, Shaped, Recorded, FieldOk, UniqueTags, AllRequired;
    ghost var all, before := stream.Unread(), dest.slots;
    ShapedLength(fields, before);
    var iter := new FieldIter(fields, 0);
    var fieldsSeen := new nat[2](_ => 0);
    ghost var seen: set<nat> := {};
    var stopped := false;
    NothingRecorded(fields);
    assert fieldsSeen[..] == [0, 0];
    while stream.bytesLeft > 0 && !stopped
      invariant stream.Valid() && old(stream.state) <= stream.state && stream.End() == old(stream.End())
      invariant fresh(iter) && iter.Valid() && iter.start == fields
      invariant fresh(fieldsSeen) && fieldsSeen.Length == 2 && Recorded(fields, seen, fieldsSeen[..])
      invariant |dest.slots| == |fields| && Shaped(fields, dest.slots)
      invariant DecodeLoop(fields, all, before, {})
             == if stopped then Some(Progress(dest.slots, seen, true, stream.Unread()))
                else DecodeLoop(fields, stream.Unread(), dest.slots, seen)
      decreases stream.bytesLeft
    {
      ok, stopped, seen := DecodeRecord(stream, iter, dest, fieldsSeen, seen);
      if !ok {
        return;
      }
    }
    if !stopped {
      LoopEnds(fields, dest.slots, seen);
      assert stream.Unread() == [];
    }
    TagsPositive(fields);
    ok := CheckRequired(iter, fieldsSeen, seen);
  }

  lemma LoopEnds(fs: seq<Field>, a: seq<Slot>, seen: set<nat>)
    requires |a| == |fs|
    ensures DecodeLoop(fs, [], a, seen) == Some(Progress(a, seen, false, []))
  {
  }

  lemma TagsPositive(fs: seq<Field>)
    requires TableOk(fs)
    ensures forall i :: 0 <= i < |fs| ==> fs[i].tag > 0
  {
    forall i | 0 <= i < |fs| ensures fs[i].tag > 0 {
      assert FieldOk(fs[i]);
    }
  }

  /** Decodes into a struct initialized to defaults. */
  method Decode(stream: InputStream, fields: seq<Field>, dest: Struct) returns (ok: bool)
    requires stream.Valid() && TableOk(fields) && |dest.slots| == |fields|
    modifies stream, dest
    ensures stream.Valid() && old(stream.state) <= stream.state && stream.End() <= old(stream.End())
    ensures |dest.slots| == |fields|
    ensures var p := Decoding.Decode(fields, old(stream.Unread()));
            && ok == p.Some?
            && (ok ==> && dest.slots == p.value.slots
                       && stream.Unread() == p.value.rest && stream.End() == old(stream.End()))
    decreases fields, 3
  {
    SetToDefaults(fields, dest);
    DefaultsShaped(fields);
    ok := DecodeNoinit(stream, fields, dest);
  }
}
