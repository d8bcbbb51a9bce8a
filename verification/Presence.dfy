/** Which fields are sent, said on the bytes: a field is left out exactly when it has nothing to say, fields come
    in table order, and arrays go out packed or element by element. */
module Presence {
  import opened Words
  import opened Varints
  import opened Schema
  import opened Encoding
  import opened Evolution
  import opened Soundness

  predicate Sends(out: Option<bytes>) { out.Some? && out.value != [] }

  lemma TaggedSends(f: Field, v: Value)
    ensures EncodeTagged(f, v).Some? ==> Sends(EncodeTagged(f, v))
  {
    hide EncodeValue, Varint;
  }

  lemma EachSends(f: Field, items: seq<Value>)
    requires items != []
    ensures EncodeEach(f, items).Some? ==> Sends(EncodeEach(f, items))
  {
    hide EncodeTagged;
    TaggedSends(f, items[0]);
  }

  lemma ArraySends(f: Field, items: seq<Value>)
    requires items != []
    ensures EncodeArray(f, items).Some? ==> Sends(EncodeArray(f, items))
  {
    hide EncodeEach, EncodePacked, Varint;
    EachSends(f, items);
  }

  // ---- scalars with implicit presence ----------------------------------------------------------

  /** An optional field without a has_ flag. */
  predicate Implicit(f: Field) { f.rule.Optional? && f.sizeOffset == 0 }

  /** Such a scalar is left out exactly when it is zero: an integer 0, no bytes, or a string whose first character
      is its terminator. Bytes of fixed length are always sent, unless their length is 0. */
  lemma ZeroScalarOmitted(fs: seq<Field>, slots: seq<Slot>, i: nat)
    requires |slots| == |fs| && i < |fs| && Implicit(fs[i]) && !fs[i].ltype.SubmessageT?
    requires slots[SlotOf(fs, i)].Plain? && ScalarFits(fs[i], slots[SlotOf(fs, i)].v)
    ensures var v, out := slots[SlotOf(fs, i)].v, EncodeField(fs, slots, i);
            && out.Some?
            && (v.Int? ==> (out.value == [] <==> v.n == 0))
            && (v.Blob? && !fs[i].ltype.StringT? ==> (out.value == [] <==> v.data == []))
            && (v.Blob? && fs[i].ltype.StringT? ==> (out.value == [] <==> v.data == [] || v.data[0] == 0))
  {
    hide EncodeTagged;
    var f, v := fs[i], slots[SlotOf(fs, i)].v;
    ScalarEncodes(f, v);
    TaggedEncodes(f, v);
    TaggedSends(f, v);
    ZeroScalar(f, v);
    assert Present(fs, slots, i) == !IsZeroValue(f, v);
  }

  lemma ZeroScalar(f: Field, v: Value)
    requires !f.ltype.SubmessageT? && ScalarFits(f, v)
    ensures IsZeroValue(f, v)
         == match v
            case Int(n) => n == 0
            case Blob(data) => data == [] || (f.ltype.StringT? && data[0] == 0)
            case Msg(_) => false
  {
  }

  lemma TaggedEncodes(f: Field, v: Value)
    requires EncodeValue(f, v).Some?
    ensures EncodeTagged(f, v).Some?
  {
  }

  // ---- every other field -----------------------------------------------------------------------

  /** A required field is always sent, an optional one with a has_ flag exactly when the flag is set, an array
      exactly when it has elements, a union member exactly when it is the active one. */
  lemma FieldOmitted(fs: seq<Field>, slots: seq<Slot>, i: nat)
    requires |slots| == |fs| && i < |fs| && fs[i].tag > 0 && !Implicit(fs[i]) && EncodeField(fs, slots, i).Some?
    ensures EncodeField(fs, slots, i) == Some([])
       <==> match slots[SlotOf(fs, i)]
            case Plain(_) => !fs[i].rule.Required?
            case Opt(has, _) => !(fs[i].rule.Optional? && has)
            case Rep(items) => !(fs[i].rule.Repeated? && items != [])
            case Union(which, _) => !(fs[i].rule.OneOf? && which == fs[i].tag)
            case _ => true
  {
    hide EncodeTagged, EncodeArray;
    var f := fs[i];
    match slots[SlotOf(fs, i)]
    case Plain(v) => TaggedSends(f, v);
    case Opt(_, v) => TaggedSends(f, v);
    case Rep(items) =>
      if items != [] {
        ArraySends(f, items);
      }
    case Union(_, v) => TaggedSends(f, v);
    case _ =>
  }

  // ---- submessages with implicit presence --------------------------------------------------------

  predicate Silent(fs: seq<Field>, slots: seq<Slot>, i: nat)
    requires |slots| == |fs| && i < |fs|
  {
    EncodeField(fs, slots, i) == Some([])
  }

  lemma {:induction false} NothingSent(fs: seq<Field>, slots: seq<Slot>, i: nat)
    requires |slots| == |fs| && i <= |fs| && EncodeFrom(fs, slots, i).Some?
    ensures EncodeFrom(fs, slots, i) == Some([])
       <==> forall k :: i <= k < |fs| ==> Silent(fs, slots, k)
    decreases |fs| - i
  {
    hide EncodeField;
    if i < |fs| {
      var head, tail := EncodeField(fs, slots, i), EncodeFrom(fs, slots, i + 1);
      assert EncodeFrom(fs, slots, i) == Some(head.value + tail.value);
      assert |head.value + tail.value| == |head.value| + |tail.value|;
      assert head.value + tail.value == [] <==> head.value == [] && tail.value == [];
      NothingSent(fs, slots, i + 1);
      assert Silent(fs, slots, i) <==> head == Some([]);
    }
  }

  lemma ZeroFieldSilent(fs: seq<Field>, slots: seq<Slot>, i: nat)
    requires |slots| == |fs| && i < |fs| && fs[i].tag > 0 && IsZeroField(fs, slots, i)
    ensures EncodeField(fs, slots, i) == Some([])
  {
  }

  /** A union that holds a member is not silent: that member is sent. */
  lemma SilentField(fs: seq<Field>, slots: seq<Slot>, i: nat)
    requires TableOk(fs) && Formed(fs, slots, Loose) && i < |fs|
    requires forall k :: 0 <= k < |fs| ==> Silent(fs, slots, k)
    ensures IsZeroField(fs, slots, i)
  {
    hide EncodeTagged, EncodeArray, TableOk, IsZeroValue;
    var f, k := fs[i], SlotOf(fs, i);
    var slot := slots[k];
    SharedIsOneOf(fs, i);
    assert Silent(fs, slots, i);
    SlotFormed(fs, slots, k, Loose);
    match f.rule
    case Required => TaggedSends(f, slot.v);
    case Repeated =>
      if slot.items != [] {
        ArraySends(f, slot.items);
      }
    case Optional =>
      TaggedSends(f, slot.v);
    case OneOf =>
      if slot.Union? {
        MemberOf(fs, k, slot);
        var n :| 0 <= n < |fs| && FormedMember(fs, k, slot, n, Loose);
        SharedIsOneOf(fs, n);
        assert Silent(fs, slots, n);
        TaggedSends(fs[n], slot.v);
      }
  }

  /** What the zero check says of a struct the decoder can leave: that it encodes to no bytes. */
  lemma ZeroIsSilent(fs: seq<Field>, slots: seq<Slot>)
    requires TableOk(fs) && Formed(fs, slots, Loose)
    ensures EncodeFrom(fs, slots, 0).Some?
    ensures AllZero(fs, slots) <==> EncodeFrom(fs, slots, 0) == Some([])
  {
    hide EncodeField, IsZeroField, EncodeFrom;
    FormedLength(fs, slots, Loose);
    FormedFits(fs, slots);
    MessageEncodes(fs, slots, 0, false);
    NothingSent(fs, slots, 0);
    if AllZero(fs, slots) {
      forall k | 0 <= k < |fs| ensures Silent(fs, slots, k) {
        assert FieldOk(fs[k]);
        ZeroFieldSilent(fs, slots, k);
      }
    }
    if EncodeFrom(fs, slots, 0) == Some([]) {
      forall k | 0 <= k < |fs| ensures IsZeroField(fs, slots, k) {
        SilentField(fs, slots, k);
      }
    }
  }

  /** An implicit submessage that the decoder can leave is left out exactly when its own body has no bytes. */
  lemma EmptySubmessageOmitted(fs: seq<Field>, slots: seq<Slot>, i: nat)
    requires |slots| == |fs| && i < |fs| && Implicit(fs[i]) && fs[i].ltype.SubmessageT? && TableOk(fs[i].sub)
    requires slots[SlotOf(fs, i)].Plain? && slots[SlotOf(fs, i)].v.Msg?
    requires Formed(fs[i].sub, slots[SlotOf(fs, i)].v.slots, Loose)
    ensures EncodeField(fs, slots, i).Some?
    ensures EncodeField(fs, slots, i) == Some([])
       <==> EncodeFrom(fs[i].sub, slots[SlotOf(fs, i)].v.slots, 0) == Some([])
  {
    hide EncodeTagged, EncodeFrom, AllZero;
    var f, v := fs[i], slots[SlotOf(fs, i)].v;
    FormedLength(f.sub, v.slots, Loose);
    ZeroIsSilent(f.sub, v.slots);
    TaggedEncodes(f, v);
    TaggedSends(f, v);
    assert IsZeroValue(f, v) == AllZero(f.sub, v.slots);
  }

  // ---- the order of the fields -----------------------------------------------------------------

  /** The fields before i, one behind the other. */
  function Before(fs: seq<Field>, slots: seq<Slot>, i: nat): Option<bytes>
    requires |slots| == |fs| && i <= |fs|
  {
    if i == 0 then Some([])
    else
      var before :- Before(fs, slots, i - 1);
      var last :- EncodeField(fs, slots, i - 1);
      Some(before + last)
  }

  /** A message is its fields' bytes in table order, and fails exactly when one of them does: split before any
      field, the first part is the bytes of the fields before it. */
  lemma {:induction false} FieldsInOrder(fs: seq<Field>, slots: seq<Slot>, i: nat)
    requires |slots| == |fs| && i <= |fs|
    ensures EncodeFrom(fs, slots, 0)
         == if Before(fs, slots, i).None? || EncodeFrom(fs, slots, i).None? then None
            else Some(Before(fs, slots, i).value + EncodeFrom(fs, slots, i).value)
    ensures i == |fs| ==> Encode(fs, slots) == Before(fs, slots, i)
  {
    hide EncodeField;
    if i == 0 {
      var whole := EncodeFrom(fs, slots, 0);
      assert whole.Some? ==> [] + whole.value == whole.value;
    } else {
      FieldsInOrder(fs, slots, i - 1);
      var before, last, rest := Before(fs, slots, i - 1), EncodeField(fs, slots, i - 1), EncodeFrom(fs, slots, i);
      if before.Some? && last.Some? && rest.Some? {
        assert before.value + (last.value + rest.value) == before.value + last.value + rest.value;
      }
    }
    var before := Before(fs, slots, i);
    assert before.Some? ==> before.value + [] == before.value;
  }

  // ---- arrays -------------------------------------------------------------------------------------

  /** Numbers and bools are packed. */
  predicate Number(l: LType) { !l.BytesT? && !l.StringT? && !l.SubmessageT? && !l.FixedBytesT? }

  /** The encoded elements, last one first taken off. */
  function Elements(f: Field, items: seq<Value>, tagged: bool): Option<bytes> {
    if items == [] then Some([])
    else
      var before :- Elements(f, items[..|items| - 1], tagged);
      var last :- (if tagged then EncodeTagged(f, items[|items| - 1]) else EncodeScalar(f, items[|items| - 1]));
      Some(before + last)
  }

  lemma {:induction false} PackedElements(f: Field, items: seq<Value>)
    ensures EncodePacked(f, items) == Elements(f, items, false)
    decreases |items|
  {
    hide EncodeScalar;
    if items != [] {
      PackedAppends(f, items[..|items| - 1], items[|items| - 1]);
      PackedElements(f, items[..|items| - 1]);
      assert items == items[..|items| - 1] + [items[|items| - 1]];
    }
  }

  lemma Appended(head: Option<bytes>, tail: Option<bytes>, last: Option<bytes>)
    ensures head.Some? && tail.Some? && last.Some? ==>
              head.value + (tail.value + last.value) == head.value + tail.value + last.value
  {
  }

  lemma AloneOrLast(o: Option<bytes>)
    ensures o.Some? ==> o.value + [] == [] + o.value
  {
  }

  lemma {:induction false} PackedAppends(f: Field, items: seq<Value>, v: Value)
    ensures EncodePacked(f, items + [v])
         == if EncodePacked(f, items).None? || EncodeScalar(f, v).None? then None
            else Some(EncodePacked(f, items).value + EncodeScalar(f, v).value)
    decreases |items|
  {
    hide EncodeScalar;
    if items == [] {
      assert [v][1..] == [] && [] + [v] == [v];
      AloneOrLast(EncodeScalar(f, v));
    } else {
      assert (items + [v])[1..] == items[1..] + [v] && (items + [v])[0] == items[0];
      PackedAppends(f, items[1..], v);
      Appended(EncodeScalar(f, items[0]), EncodePacked(f, items[1..]), EncodeScalar(f, v));
    }
  }

  lemma {:induction false} EachAppends(f: Field, items: seq<Value>, v: Value)
    ensures EncodeEach(f, items + [v])
         == if EncodeEach(f, items).None? || EncodeTagged(f, v).None? then None
            else Some(EncodeEach(f, items).value + EncodeTagged(f, v).value)
    decreases |items|
  {
    hide EncodeTagged;
    if items == [] {
      assert [v][1..] == [] && [] + [v] == [v];
      AloneOrLast(EncodeTagged(f, v));
    } else {
      assert (items + [v])[1..] == items[1..] + [v] && (items + [v])[0] == items[0];
      EachAppends(f, items[1..], v);
      Appended(EncodeTagged(f, items[0]), EncodeEach(f, items[1..]), EncodeTagged(f, v));
    }
  }

  lemma {:induction false} EachElements(f: Field, items: seq<Value>)
    ensures EncodeEach(f, items) == Elements(f, items, true)
    decreases |items|
  {
    hide EncodeTagged;
    if items != [] {
      EachAppends(f, items[..|items| - 1], items[|items| - 1]);
      EachElements(f, items[..|items| - 1]);
      assert items == items[..|items| - 1] + [items[|items| - 1]];
    }
  }

  /** An array longer than array_size is an error. Otherwise numbers go into one record of wire type 2, their
      encodings one behind the other, and everything else gets one tagged record for each element, in order. */
  lemma ArrayRecords(fs: seq<Field>, slots: seq<Slot>, i: nat)
    requires |slots| == |fs| && i < |fs| && fs[i].rule.Repeated? && slots[SlotOf(fs, i)].Rep?
    requires slots[SlotOf(fs, i)].items != []
    ensures var f, items := fs[i], slots[SlotOf(fs, i)].items;
            var elements := Elements(f, items, !Number(f.ltype));
            EncodeField(fs, slots, i)
              == if |items| > f.arraySize || elements.None? then None
                 else if !Number(f.ltype) then elements
                 else Some(Varint(8 * f.tag + 2) + Varint(|elements.value|) + elements.value)
  {
    hide Varint, EncodeEach, EncodePacked, Elements;
    var f, items := fs[i], slots[SlotOf(fs, i)].items;
    PackedElements(f, items);
    EachElements(f, items);
    var payload := EncodePacked(f, items);
    if payload.Some? {
      var p := payload.value;
      assert Varint(8 * f.tag + 2) + (Varint(|p|) + p) == Varint(8 * f.tag + 2) + Varint(|p|) + p;
    }
  }
}
