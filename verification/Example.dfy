/** One message with a field of every kind, and its bytes. The first four records are the examples of the Protocol
    Buffers "Encoding" specification. */
module Example {
  import opened Words
  import opened Varints
  import opened Schema
  import opened Wire
  import opened Encoding
  import opened Decoding
  import opened Evolution

  function Scalar(tag: nat, rule: Rule, ltype: LType, sizeOffset: int, dataSize: nat, initial: Value): Field {
    Field(tag, rule, Static, ltype, 0, sizeOffset, dataSize, 0, [], initial)
  }

  /** `message Test1 { optional int32 a = 1; }` */
  const TEST1: seq<Field> := [Scalar(1, Optional, VarintT, -1, 4, Int(0))]

  function Nested(tag: nat, rule: Rule, dataOffset: int): Field {
    Field(tag, rule, Static, SubmessageT, dataOffset, -1, 8, 0, TEST1, Int(0))
  }

  const TABLE: seq<Field> := [
    Scalar(1, Optional, VarintT, -1, 4, Int(5)),
    Scalar(2, Required, StringT, 0, 16, Blob([])),
    Nested(3, Optional, 0),
    Field(6, Repeated, Static, VarintT, 0, -1, 4, 3, [], Int(0)),
    Scalar(7, OneOf, BoolT, -1, 1, Int(0)),
    Nested(8, OneOf, PB_SIZE_MAX),
    Scalar(9, Required, Fixed32T, 0, 4, Int(0)),
    Scalar(10, Optional, VarintT, 0, 4, Int(0)),
    Scalar(12, Required, SVarintT, 0, 4, Int(0))]

  const INNER: Value := Msg([Opt(true, Int(150))])

  /** An int32 of 150, the text "testing", a nested 150, the array 3, 270, 86942, a union that holds its second
      member, the fixed word 1, a zero without a has_ flag, and the sint32 -1. */
  const MESSAGE: seq<Slot> := [
    Opt(true, Int(150)),
    Plain(Blob([116, 101, 115, 116, 105, 110, 103])),
    Opt(true, INNER),
    Rep([Int(3), Int(270), Int(86942)]),
    Union(8, INNER),
    Shared,
    Plain(Int(1)),
    Plain(Int(0)),
    Plain(Int(-1))]

  const TEXT: bytes := [0x12, 0x07, 0x74, 0x65, 0x73, 0x74, 0x69, 0x6E, 0x67]

  const BYTES: bytes :=
    [0x08, 0x96, 0x01] + TEXT + [0x1A, 0x03, 0x08, 0x96, 0x01] + [0x32, 0x06, 0x03, 0x8E, 0x02, 0x9E, 0xA7, 0x05]
      + [0x42, 0x03, 0x08, 0x96, 0x01] + [0x4D, 0x01, 0x00, 0x00, 0x00] + [0x60, 0x01]

  lemma Small(n: nat)
    requires n < 0x80
    ensures Varint(n) == [n]
  {
  }

  lemma Word150()
    ensures Varint(150) == [0x96, 0x01]
  {
    Small(1);
  }

  lemma Record(f: Field, v: Value, body: bytes)
    requires 8 * f.tag + WireType(f.ltype) < 0x80 && EncodeValue(f, v) == Some(body)
    ensures EncodeTagged(f, v) == Some([8 * f.tag + WireType(f.ltype)] + body)
  {
    Small(8 * f.tag + WireType(f.ltype));
  }

  lemma OfScalar(f: Field, v: Value)
    requires !f.ltype.SubmessageT?
    ensures EncodeValue(f, v) == EncodeScalar(f, v)
  {
  }

  lemma OfNested(f: Field, v: Value, body: bytes)
    requires f.ltype.SubmessageT? && v.Msg? && |v.slots| == |f.sub| && EncodeFrom(f.sub, v.slots, 0) == Some(body)
    ensures EncodeValue(f, v) == Some(Delimited(body))
  {
  }

  lemma OneField(fs: seq<Field>, slots: seq<Slot>, i: nat, head: bytes, tail: bytes)
    requires |slots| == |fs| && i < |fs| && EncodeField(fs, slots, i) == Some(head)
    requires EncodeFrom(fs, slots, i + 1) == Some(tail)
    ensures EncodeFrom(fs, slots, i) == Some(head + tail)
  {
  }

  lemma Inner(i: nat)
    requires i == 2 || i == 5
    ensures EncodeValue(TABLE[i], INNER) == Some([0x03, 0x08, 0x96, 0x01])
  {
    hide Varint, EncodeFrom, EncodeValue, EncodeTagged;
    var f := TEST1[0];
    Word150();
    OfScalar(f, Int(150));
    Record(f, Int(150), [0x96, 0x01]);
    assert EncodeField(TEST1, INNER.slots, 0) == EncodeTagged(f, Int(150));
    assert [0x08] + [0x96, 0x01] == [0x08, 0x96, 0x01];
    NoMore(TEST1, INNER.slots);
    OneField(TEST1, INNER.slots, 0, [0x08, 0x96, 0x01], []);
    assert [0x08, 0x96, 0x01] + [] == [0x08, 0x96, 0x01];
    OfNested(TABLE[i], INNER, [0x08, 0x96, 0x01]);
    Small(3);
    assert Delimited([0x08, 0x96, 0x01]) == [0x03, 0x08, 0x96, 0x01];
  }

  lemma NoMore(fs: seq<Field>, slots: seq<Slot>)
    requires |slots| == |fs|
    ensures EncodeFrom(fs, slots, |fs|) == Some([])
  {
  }

  /** The records of the scalars that are present. */
  lemma ScalarRecords()
    ensures EncodeTagged(TABLE[0], Int(150)) == Some([0x08, 0x96, 0x01])
    ensures EncodeTagged(TABLE[6], Int(1)) == Some([0x4D, 0x01, 0x00, 0x00, 0x00])
    ensures EncodeTagged(TABLE[8], Int(-1)) == Some([0x60, 0x01])
  {
    hide Varint, EncodeValue, EncodeTagged, FixedBytes;
    Word150();
    OfScalar(TABLE[0], Int(150));
    Record(TABLE[0], Int(150), [0x96, 0x01]);
    assert [0x08] + [0x96, 0x01] == [0x08, 0x96, 0x01];
    One();
    OfScalar(TABLE[6], Int(1));
    Record(TABLE[6], Int(1), [0x01, 0x00, 0x00, 0x00]);
    assert [0x4D] + [0x01, 0x00, 0x00, 0x00] == [0x4D, 0x01, 0x00, 0x00, 0x00];
    Small(1);
    OfScalar(TABLE[8], Int(-1));
    Record(TABLE[8], Int(-1), [0x01]);
    assert [0x60] + [0x01] == [0x60, 0x01];
  }

  lemma OtherRecords()
    ensures EncodeTagged(TABLE[1], MESSAGE[1].v) == Some(TEXT)
    ensures EncodeTagged(TABLE[2], INNER) == Some([0x1A, 0x03, 0x08, 0x96, 0x01])
    ensures EncodeTagged(TABLE[5], INNER) == Some([0x42, 0x03, 0x08, 0x96, 0x01])
  {
    hide EncodeValue, EncodeTagged;
    Text();
    Record(TABLE[1], MESSAGE[1].v, [0x07] + MESSAGE[1].v.data);
    assert [0x12] + ([0x07] + MESSAGE[1].v.data) == TEXT;
    Inner(2);
    Record(TABLE[2], INNER, [0x03, 0x08, 0x96, 0x01]);
    assert [0x1A] + [0x03, 0x08, 0x96, 0x01] == [0x1A, 0x03, 0x08, 0x96, 0x01];
    Inner(5);
    Record(TABLE[5], INNER, [0x03, 0x08, 0x96, 0x01]);
    assert [0x42] + [0x03, 0x08, 0x96, 0x01] == [0x42, 0x03, 0x08, 0x96, 0x01];
  }

  lemma Text()
    ensures EncodeValue(TABLE[1], MESSAGE[1].v) == Some([0x07] + MESSAGE[1].v.data)
  {
    hide CString;
    var data := MESSAGE[1].v.data;
    CStringWhole(data, 16);
    Small(7);
  }

  lemma One()
    ensures FixedBytes(1, 4) == [1, 0, 0, 0]
  {
    assert FixedBytes(0, 2) == [0] + FixedBytes(0, 1);
  }

  lemma PackedBytes(f: Field, items: seq<Value>, payload: bytes)
    requires f.ltype.Packable() && 8 * f.tag + 2 < 0x80 && 0 < |items| <= f.arraySize
    requires EncodePacked(f, items) == Some(payload) && |payload| < 0x80
    ensures EncodeArray(f, items) == Some([8 * f.tag + 2, |payload|] + payload)
  {
    hide Varint, EncodePacked;
    Small(8 * f.tag + 2);
    Small(|payload|);
    assert [8 * f.tag + 2] + ([|payload|] + payload) == [8 * f.tag + 2, |payload|] + payload;
  }

  lemma Packed()
    ensures EncodePacked(TABLE[3], MESSAGE[3].items) == Some([0x03, 0x8E, 0x02, 0x9E, 0xA7, 0x05])
    ensures EncodeArray(TABLE[3], MESSAGE[3].items) == Some([0x32, 0x06, 0x03, 0x8E, 0x02, 0x9E, 0xA7, 0x05])
  {
    hide Varint, EncodeArray;
    var f, items := TABLE[3], MESSAGE[3].items;
    Groups270();
    assert EncodeScalar(f, Int(3)) == Some([0x03]) by { Small(3); }
    assert items[2..] == [Int(86942)] && items[2..][1..] == [] && items[1..][1..] == items[2..];
    assert EncodePacked(f, items[2..]) == Some([0x9E, 0xA7, 0x05] + []);
    assert EncodePacked(f, items[1..]) == Some([0x8E, 0x02] + ([0x9E, 0xA7, 0x05] + []));
    assert EncodePacked(f, items) == Some([0x03] + ([0x8E, 0x02] + ([0x9E, 0xA7, 0x05] + [])));
    assert [0x03] + ([0x8E, 0x02] + ([0x9E, 0xA7, 0x05] + [])) == [0x03, 0x8E, 0x02, 0x9E, 0xA7, 0x05];
    PackedBytes(f, items, [0x03, 0x8E, 0x02, 0x9E, 0xA7, 0x05]);
    assert [0x32, 0x06] + [0x03, 0x8E, 0x02, 0x9E, 0xA7, 0x05] == [0x32, 0x06, 0x03, 0x8E, 0x02, 0x9E, 0xA7, 0x05];
  }

  lemma Groups270()
    ensures Varint(270) == [0x8E, 0x02] && Varint(86942) == [0x9E, 0xA7, 0x05]
  {
    Small(2);
    Small(5);
    assert Varint(679) == [0xA7] + Varint(5);
  }

  lemma Fields()
    ensures EncodeField(TABLE, MESSAGE, 0) == Some([0x08, 0x96, 0x01])
    ensures EncodeField(TABLE, MESSAGE, 1) == Some(TEXT)
    ensures EncodeField(TABLE, MESSAGE, 2) == Some([0x1A, 0x03, 0x08, 0x96, 0x01])
    ensures EncodeField(TABLE, MESSAGE, 3) == Some([0x32, 0x06, 0x03, 0x8E, 0x02, 0x9E, 0xA7, 0x05])
    ensures EncodeField(TABLE, MESSAGE, 4) == Some([])
    ensures EncodeField(TABLE, MESSAGE, 5) == Some([0x42, 0x03, 0x08, 0x96, 0x01])
    ensures EncodeField(TABLE, MESSAGE, 6) == Some([0x4D, 0x01, 0x00, 0x00, 0x00])
    ensures EncodeField(TABLE, MESSAGE, 7) == Some([])
    ensures EncodeField(TABLE, MESSAGE, 8) == Some([0x60, 0x01])
  {
    hide EncodeTagged, EncodeArray;
    ScalarRecords();
    OtherRecords();
    Packed();
    assert !Joins(TABLE, 4) && Joins(TABLE, 5) && SlotOf(TABLE, 4) == 4 && SlotOf(TABLE, 5) == 4;
    assert IsZeroValue(TABLE[7], Int(0));
  }

  /** The message and its bytes. */
  lemma ExampleEncoded()
    ensures Encode(TABLE, MESSAGE) == Some(BYTES)
  {
    hide EncodeField, EncodeFrom;
    Fields();
    NoMore(TABLE, MESSAGE);
    OneField(TABLE, MESSAGE, 8, [0x60, 0x01], []);
    OneField(TABLE, MESSAGE, 7, [], [0x60, 0x01] + []);
    var end := [0x4D, 0x01, 0x00, 0x00, 0x00] + ([] + ([0x60, 0x01] + []));
    OneField(TABLE, MESSAGE, 6, [0x4D, 0x01, 0x00, 0x00, 0x00], [] + ([0x60, 0x01] + []));
    OneField(TABLE, MESSAGE, 5, [0x42, 0x03, 0x08, 0x96, 0x01], end);
    OneField(TABLE, MESSAGE, 4, [], [0x42, 0x03, 0x08, 0x96, 0x01] + end);
    var packed := [0x32, 0x06, 0x03, 0x8E, 0x02, 0x9E, 0xA7, 0x05];
    var union := [] + ([0x42, 0x03, 0x08, 0x96, 0x01] + end);
    OneField(TABLE, MESSAGE, 3, packed, union);
    OneField(TABLE, MESSAGE, 2, [0x1A, 0x03, 0x08, 0x96, 0x01], packed + union);
    OneField(TABLE, MESSAGE, 1, TEXT, [0x1A, 0x03, 0x08, 0x96, 0x01] + (packed + union));
    OneField(TABLE, MESSAGE, 0, [0x08, 0x96, 0x01], TEXT + ([0x1A, 0x03, 0x08, 0x96, 0x01] + (packed + union)));
    assert BYTES == [0x08, 0x96, 0x01] + (TEXT + ([0x1A, 0x03, 0x08, 0x96, 0x01] + (packed + union)));
  }

  // ---- the theorems apply to it -----------------------------------------------------------------

  lemma TableIsOk()
    ensures TableOk(TABLE)
  {
    assert FieldOk(TEST1[0]);
    assert TableOk(TEST1);
    forall i | 0 <= i < |TABLE| ensures FieldOk(TABLE[i]) {
      assert TableOk([]);
    }
  }

  lemma InnerIsOk(f: Field)
    requires f.ltype.SubmessageT? && f.sub == TEST1
    ensures ValueOk(f, INNER) && FormedValue(f, INNER, Exact)
  {
    Inner(2);
    var m := INNER.slots;
    assert SlotOk(TEST1, m, 0) && MessageOk(TEST1, m);
    assert FormedSlot(TEST1, m[0], 0, Exact);
    var body := EncodeFrom(TEST1, m, 0);
    assert body.Some? ==> EncodeValue(TABLE[2], INNER) == Some(Delimited(body.value));
    assert Clean(TEST1, m);
  }

  lemma ScalarsAreOk(i: nat)
    requires i in {0, 1, 6, 7, 8}
    ensures SlotFits(TABLE, MESSAGE, i, true)
  {
    assert SlotOf(TABLE, i) == i;
    assert ValueFits(TABLE[i], MESSAGE[i].v, true);
  }

  lemma OthersAreOk(i: nat)
    requires 2 <= i <= 5
    ensures SlotFits(TABLE, MESSAGE, i, true)
  {
    hide EncodeFrom, EncodePacked, MessageFits;
    if i == 3 {
      hide Varint;
      Packed();
      assert |[0x03, 0x8E, 0x02, 0x9E, 0xA7, 0x05]| == 6;
      forall k | 0 <= k < |MESSAGE[3].items| ensures ValueFits(TABLE[3], MESSAGE[3].items[k], true) {}
    } else {
      InnerIsOk(TABLE[2]);
      InnerIsOk(TABLE[5]);
      assert Joins(TABLE, 5) && SlotOf(TABLE, 4) == 4;
    }
  }

  lemma MessageIsOk()
    ensures MessageOk(TABLE, MESSAGE)
  {
    hide SlotFits;
    forall i | 0 <= i < |TABLE| ensures SlotFits(TABLE, MESSAGE, i, true) {
      if i in {0, 1, 6, 7, 8} {
        ScalarsAreOk(i);
      } else {
        OthersAreOk(i);
      }
    }
    AllFit(TABLE, MESSAGE);
  }

  lemma AllFit(fs: seq<Field>, slots: seq<Slot>)
    requires |slots| == |fs| && forall i :: 0 <= i < |fs| ==> SlotFits(fs, slots, i, true)
    ensures MessageOk(fs, slots)
  {
  }

  lemma SlotIsClean(i: nat)
    requires i < |TABLE|
    ensures FormedSlot(TABLE, MESSAGE[i], i, Exact)
  {
    hide Formed;
    if i == 2 || i == 4 {
      hide ScalarOk, Settled;
      InnerIsOk(TABLE[2]);
      InnerIsOk(TABLE[5]);
      assert Joins(TABLE, 5) && SlotOf(TABLE, 5) == 4;
      assert FormedMember(TABLE, 4, MESSAGE[4], 5, Exact);
    }
  }

  lemma MessageIsClean()
    ensures Clean(TABLE, MESSAGE)
  {
    hide FormedSlot;
    forall i | 0 <= i < |TABLE| ensures FormedSlot(TABLE, MESSAGE[i], i, Exact) {
      SlotIsClean(i);
    }
  }

  /** And back again. */
  lemma ExampleDecoded()
    ensures var p := Decode(TABLE, BYTES);
            p.Some? && p.value.slots == MESSAGE && !p.value.stopped && p.value.rest == []
  {
    hide TableOk, MessageOk, Formed, EncodeFrom, DecodeInto;
    TableIsOk();
    MessageIsOk();
    MessageIsClean();
    ExampleEncoded();
    RoundTrip(TABLE, MESSAGE);
  }
}
