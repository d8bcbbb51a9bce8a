/** What the encoder writes: the bytes of a message under a table, or None when it reports an error
    other than a full stream. */
module Encoding {
  import opened Words
  import opened Varints
  import opened Schema
  import opened Wire

  /** The integer stored in a field of `dataSize` bytes, as the 64-bit word the encoder computes. */
  function StoredWord(f: Field, n: int): Option<nat> {
    match f.ltype
    case VarintT => if FitsSigned(n, f.dataSize) then Some(ToWord64(n)) else None
    case UVarintT => if FitsUnsigned(n, f.dataSize) then Some(n) else None
    case SVarintT => if FitsSigned(n, f.dataSize) then Some(Zigzag(n)) else None
    case _ => None
  }

  /** The field encoders, without the tag. */
  function EncodeScalar(f: Field, v: Value): Option<bytes> {
    match (f.ltype, v)
    case (BoolT, Int(n)) => Some(Varint(if n != 0 then 1 else 0))
    case (Fixed32T, Int(n)) => if 0 <= n < WORD32 then Some(FixedBytes(n, 4)) else None
    case (Fixed64T, Int(n)) => if 0 <= n < WORD64 then Some(FixedBytes(n, 8)) else None
    case (BytesT, Blob(data)) => if |data| + BYTES_HEADER <= f.dataSize then Some(Delimited(data)) else None
    case (StringT, Blob(data)) => Some(Delimited(CString(data, f.dataSize)))
    case (FixedBytesT, Blob(data)) => if |data| == f.dataSize then Some(Delimited(data)) else None
    case (_, Int(n)) => var w :- StoredWord(f, n); Some(Varint(w))
    case _ => None
  }

  function EncodeValue(f: Field, v: Value): Option<bytes>
    decreases f, 0
  {
    if f.ltype.SubmessageT? then
      if v.Msg? && |v.slots| == |f.sub| then
        var body :- EncodeFrom(f.sub, v.slots, 0);
        Some(Delimited(body))
      else None
    else EncodeScalar(f, v)
  }

  /** The payload of a packed array. */
  function EncodePacked(f: Field, items: seq<Value>): Option<bytes> {
    if items == [] then Some([])
    else
      var head :- EncodeScalar(f, items[0]);
      var tail :- EncodePacked(f, items[1..]);
      Some(head + tail)
  }

  function FieldTag(f: Field): bytes {
    TagBytes(f.tag, WireType(f.ltype))
  }

  function EncodeTagged(f: Field, v: Value): Option<bytes>
    decreases f, 1
  {
    var body :- EncodeValue(f, v);
    Some(FieldTag(f) + body)
  }

  /** One record for each element. */
  function EncodeEach(f: Field, items: seq<Value>): Option<bytes>
    decreases f, 2, |items|
  {
    if items == [] then Some([])
    else
      var head :- EncodeTagged(f, items[0]);
      var tail :- EncodeEach(f, items[1..]);
      Some(head + tail)
  }

  function PackedRecord(f: Field, payload: bytes): bytes {
    TagBytes(f.tag, WT_STRING) + Delimited(payload)
  }

  function EncodeArray(f: Field, items: seq<Value>): Option<bytes>
    decreases f, 3
  {
    if items == [] then Some([])
    else if |items| > f.arraySize then None
    else if f.ltype.Packable() then
      var payload :- EncodePacked(f, items);
      Some(PackedRecord(f, payload))
    else EncodeEach(f, items)
  }

  // ---- presence ---------------------------------------------------------------------------

  function Which(slot: Slot): nat {
    if slot.Union? then slot.which else 0
  }

  /** The zero check of a proto3 field. */
  predicate IsZeroField(fs: seq<Field>, slots: seq<Slot>, i: nat)
    requires |slots| == |fs| && i < |fs|
    decreases fs, 0
  {
    var f, slot := fs[i], slots[SlotOf(fs, i)];
    match f.rule
    case Required => false
    case Repeated => slot == Rep([])
    case OneOf => Which(slot) == 0
    case Optional =>
      if f.HasSize() then slot.Opt? && !slot.has
      else slot.Plain? && IsZeroValue(f, slot.v)
  }

  predicate AllZero(fs: seq<Field>, slots: seq<Slot>)
    decreases fs, 1
  {
    |slots| == |fs| && forall i :: 0 <= i < |fs| ==> IsZeroField(fs, slots, i)
  }

  predicate IsZeroValue(f: Field, v: Value)
    decreases f, 1
  {
    match (f.ltype, v)
    case (BytesT, Blob(data)) => data == []
    case (StringT, Blob(data)) => CString(data, f.dataSize) == []
    case (FixedBytesT, Blob(data)) => f.dataSize == 0
    case (SubmessageT, Msg(slots)) => AllZero(f.sub, slots)
    case (_, Int(n)) => n == 0
    case _ => false
  }

  /** Whether the encoder emits field i. */
  predicate Present(fs: seq<Field>, slots: seq<Slot>, i: nat)
    requires |slots| == |fs| && i < |fs|
  {
    var f, slot := fs[i], slots[SlotOf(fs, i)];
    match f.rule
    case Required => true
    case Optional => if f.HasSize() then slot.Opt? && slot.has else !IsZeroField(fs, slots, i)
    case Repeated => slot != Rep([])
    case OneOf => Which(slot) == f.tag
  }

  // ---- messages ---------------------------------------------------------------------------

  function EncodeField(fs: seq<Field>, slots: seq<Slot>, i: nat): Option<bytes>
    requires |slots| == |fs| && i < |fs|
    decreases fs, 0
  {
    var f, slot := fs[i], slots[SlotOf(fs, i)];
    if !Present(fs, slots, i) then Some([])
    else
      match (f.rule, slot)
      case (Required, Plain(v)) => EncodeTagged(f, v)
      case (Optional, Opt(_, v)) => if f.HasSize() then EncodeTagged(f, v) else None
      case (Optional, Plain(v)) => if f.HasSize() then None else EncodeTagged(f, v)
      case (Repeated, Rep(items)) => EncodeArray(f, items)
      case (OneOf, Union(_, v)) => EncodeTagged(f, v)
      case _ => None
  }

  /** Fields i and later, in table order. */
  function EncodeFrom(fs: seq<Field>, slots: seq<Slot>, i: nat): Option<bytes>
    requires |slots| == |fs| && i <= |fs|
    decreases fs, 1, |fs| - i
  {
    if i == |fs| then Some([])
    else
      var head :- EncodeField(fs, slots, i);
      var tail :- EncodeFrom(fs, slots, i + 1);
      Some(head + tail)
  }

  function Encode(fs: seq<Field>, slots: seq<Slot>): Option<bytes>
    requires |slots| == |fs|
  {
    EncodeFrom(fs, slots, 0)
  }

  // ---- messages the encoder accepts --------------------------------------------------------

  /** A struct of the table's C type, with array counts inside their arrays and C strings inside their
      buffers, terminated or not; when `sized`, also every length it has on the wire is below 2^32. */
  predicate MessageFits(fs: seq<Field>, slots: seq<Slot>, sized: bool)
    decreases fs, 2
  {
    |slots| == |fs| && forall i :: 0 <= i < |fs| ==> SlotFits(fs, slots, i, sized)
  }

  predicate SlotFits(fs: seq<Field>, slots: seq<Slot>, i: nat, sized: bool)
    requires |slots| == |fs| && i < |fs|
    decreases fs, 1
  {
    var f, slot := fs[i], slots[SlotOf(fs, i)];
    && (SlotOf(fs, i) != i ==> slots[i] == Shared)
    && match f.rule
       case Required => slot.Plain? && ValueFits(f, slot.v, sized)
       case Optional =>
         if f.HasSize() then slot.Opt? && (slot.has ==> ValueFits(f, slot.v, sized))
         else slot.Plain? && ValueFits(f, slot.v, sized)
       case Repeated =>
         && slot.Rep?
         && |slot.items| <= f.arraySize
         && (forall k :: 0 <= k < |slot.items| ==> ValueFits(f, slot.items[k], sized))
         && (sized && f.ltype.Packable() ==>
              var payload := EncodePacked(f, slot.items); payload.Some? ==> |payload.value| < WORD32)
       case OneOf => slot.Unset? || (slot.Union? && (slot.which == f.tag ==> ValueFits(f, slot.v, sized)))
  }

  predicate ValueFits(f: Field, v: Value, sized: bool)
    decreases f, 3
  {
    if f.ltype.SubmessageT? then
      && v.Msg?
      && MessageFits(f.sub, v.slots, sized)
      && (sized ==> var body := EncodeFrom(f.sub, v.slots, 0); body.Some? ==> |body.value| < WORD32)
    else ScalarFits(f, v)
  }

  /** A C string may fill its whole buffer, without a terminator. */
  predicate ScalarFits(f: Field, v: Value) {
    if f.ltype.StringT? then v.Blob? && |v.data| <= f.dataSize else ScalarOk(f, v)
  }

  /** A string without room for its terminator. */
  predicate FullString(f: Field, v: Value) {
    f.ltype.StringT? && v.Blob? && |CString(v.data, f.dataSize)| >= f.dataSize
  }

  predicate MessageOk(fs: seq<Field>, slots: seq<Slot>) { MessageFits(fs, slots, true) }

  predicate SlotOk(fs: seq<Field>, slots: seq<Slot>, i: nat)
    requires |slots| == |fs| && i < |fs|
  {
    SlotFits(fs, slots, i, true)
  }

  predicate ValueOk(f: Field, v: Value) { ValueFits(f, v, true) }

  lemma ScalarEncodes(f: Field, v: Value)
    requires ScalarFits(f, v)
    ensures EncodeScalar(f, v).Some?
  {
  }

  lemma {:induction false} PackedEncodes(f: Field, items: seq<Value>)
    requires f.ltype.Packable() && forall k :: 0 <= k < |items| ==> ScalarOk(f, items[k])
    ensures EncodePacked(f, items).Some?
  {
    if items != [] {
      ScalarEncodes(f, items[0]);
      PackedEncodes(f, items[1..]);
    }
  }

  lemma {:induction false} ValueEncodes(f: Field, v: Value, sized: bool)
    requires TableOk(f.sub) && ValueFits(f, v, sized)
    ensures EncodeValue(f, v).Some?
    decreases f, 0
  {
    if f.ltype.SubmessageT? {
      MessageEncodes(f.sub, v.slots, 0, sized);
    } else {
      ScalarEncodes(f, v);
    }
  }

  lemma {:induction false} EachEncodes(f: Field, items: seq<Value>, sized: bool)
    requires TableOk(f.sub) && forall k :: 0 <= k < |items| ==> ValueFits(f, items[k], sized)
    ensures EncodeEach(f, items).Some?
    decreases f, 1, |items|
  {
    if items != [] {
      ValueEncodes(f, items[0], sized);
      EachEncodes(f, items[1..], sized);
    }
  }

  lemma {:induction false} FieldEncodes(fs: seq<Field>, slots: seq<Slot>, i: nat, sized: bool)
    requires TableOk(fs) && MessageFits(fs, slots, sized) && i < |fs|
    ensures EncodeField(fs, slots, i).Some?
    decreases fs, 0
  {
    assert SlotFits(fs, slots, i, sized) && FieldOk(fs[i]);
    var f, slot := fs[i], slots[SlotOf(fs, i)];
    if Present(fs, slots, i) {
      if f.rule.Repeated? {
        if f.ltype.Packable() {
          forall k | 0 <= k < |slot.items| ensures ScalarOk(f, slot.items[k]) {
            assert ValueFits(f, slot.items[k], sized);
          }
          PackedEncodes(f, slot.items);
        } else {
          EachEncodes(f, slot.items, sized);
        }
      } else {
        ValueEncodes(f, slot.v, sized);
      }
    }
  }

  /** The encoder reports no error on a well-formed message (a full stream apart). */
  lemma {:induction false} MessageEncodes(fs: seq<Field>, slots: seq<Slot>, i: nat, sized: bool)
    requires TableOk(fs) && MessageFits(fs, slots, sized) && i <= |fs|
    ensures EncodeFrom(fs, slots, i).Some?
    decreases fs, 1, |fs| - i
  {
    if i < |fs| {
      FieldEncodes(fs, slots, i, sized);
      MessageEncodes(fs, slots, i + 1, sized);
    }
  }
}
