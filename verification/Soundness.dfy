/** Properties of the decoder on arbitrary input, and of the two array encodings. */
module Soundness {
  import opened Words
  import opened Varints
  import opened Schema
  import opened Wire
  import opened Encoding
  import opened Decoding
  import opened Merging
  import opened MergeResults
  import opened Shapes
  import opened Evolution

  // ---- whatever the input, the struct stays well formed -----------------------------------

  lemma {:induction false} FixedBound(s: bytes)
    ensures FixedValue(s) < Pow2(8 * |s|)
  {
    if s != [] {
      FixedBound(s[1..]);
      Pow2Sum(8, 8 * |s[1..]|);
      assert Pow2(8) == 0x100;
      assert 8 + 8 * |s[1..]| == 8 * |s|;
    }
  }

  lemma ScalarFormed(f: Field, s: bytes)
    ensures DecodeScalar(f, s).Got? ==> ScalarOk(f, DecodeScalar(f, s).value)
    ensures DecodeScalar(f, s).Got? ==> f.ltype.StringT? || Settled(f, DecodeScalar(f, s).value)
  {
    hide ReadVarint, ReadVarint32, ReadDelimited, FixedValue, ToSigned32, ToSigned64, Unzigzag;
    Pow2Words();
    if |s| >= 4 {
      FixedBound(s[..4]);
    }
    if |s| >= 8 {
      FixedBound(s[..8]);
    }
  }

  lemma {:induction false} PackedFormed(f: Field, s: bytes, items: seq<Value>, level: Level)
    requires f.ltype.Packable() && |items| <= f.arraySize && !level.Exact?
    requires forall k :: 0 <= k < |items| ==> FormedValue(f, items[k], level)
    ensures var all := DecodePacked(f, s, items);
            all.Some? ==>
              |all.value| <= f.arraySize && forall k :: 0 <= k < |all.value| ==> FormedValue(f, all.value[k], level)
    decreases |s|
  {
    hide DecodeScalar, ScalarOk, Settled;
    if s != [] && |items| < f.arraySize {
      ScalarFormed(f, s);
      ScalarShrinks(f, s);
      var p := DecodeScalar(f, s);
      if p.Got? {
        PackedFormed(f, p.rest, items + [p.value], level);
      }
    }
  }

  lemma DefaultsHeld(fs: seq<Field>, level: Level)
    requires TableOk(fs)
    ensures Formed(fs, Defaults(fs), level)
  {
    DefaultsFormed(fs);
    CleanIsFormed(fs, Defaults(fs), level);
  }

  lemma {:induction false} ValueFormed(f: Field, s: bytes, prior: Value, level: Level)
    requires !level.Exact? && FieldOk(f) && (f.ltype.SubmessageT? && !f.rule.Repeated? ==> FormedValue(f, prior, level))
    ensures DecodeValue(f, s, prior).Got? ==> FormedValue(f, DecodeValue(f, s, prior).value, level)
    decreases f, 0, 0
  {
    if f.ltype.SubmessageT? {
      var p := ReadDelimited(s);
      if p.Got? {
        DefaultsHeld(f.sub, level);
        var base := if f.rule.Repeated? then DefaultValue(f) else prior;
        LoopFormed(f.sub, p.value, base.slots, {}, level);
      }
    } else {
      ScalarFormed(f, s);
    }
  }

  lemma {:induction false} UpdateFormed(fs: seq<Field>, a: seq<Slot>, k: nat, slot: Slot, level: Level)
    requires Formed(fs, a, level) && k < |fs| && FormedSlot(fs, slot, k, level)
    ensures Formed(fs, a[k := slot], level)
  {
  }

  lemma {:induction false} FieldFormed(fs: seq<Field>, i: nat, wt: nat, s: bytes, a: seq<Slot>, level: Level)
    requires !level.Exact? && TableOk(fs) && |a| == |fs| && Formed(fs, a, level) && i < |fs|
    ensures DecodeField(fs, i, wt, s, a).Got? ==> Formed(fs, DecodeField(fs, i, wt, s, a).value, level)
    decreases fs, |s|, 0
  {
    hide Formed;
    var f, k := fs[i], SlotOf(fs, i);
    var slot, p := a[k], DecodeField(fs, i, wt, s, a);
    SharedIsOneOf(fs, i);
    assert FormedSlot(fs, slot, k, level) && FieldOk(f) by { SlotFormed(fs, a, k, level); }
    if p.Got? {
      FieldSlotFormed(fs, i, wt, s, a, level);
      UpdateFormed(fs, a, k, p.value[k], level);
      assert p.value == a[k := p.value[k]];
    }
  }

  lemma SlotFormed(fs: seq<Field>, a: seq<Slot>, k: nat, level: Level)
    requires Formed(fs, a, level) && k < |fs|
    ensures |a| == |fs| && FormedSlot(fs, a[k], k, level)
  {
  }

  lemma {:induction false} FieldSlotFormed(fs: seq<Field>, i: nat, wt: nat, s: bytes, a: seq<Slot>, level: Level)
    requires !level.Exact? && TableOk(fs) && |a| == |fs| && i < |fs|
    requires FormedSlot(fs, a[SlotOf(fs, i)], SlotOf(fs, i), level)
    requires DecodeField(fs, i, wt, s, a).Got?
    ensures FormedSlot(fs, DecodeField(fs, i, wt, s, a).value[SlotOf(fs, i)], SlotOf(fs, i), level)
    decreases fs, |s|, 0, 0
  {
    var f, k := fs[i], SlotOf(fs, i);
    var slot := a[k];
    assert FieldOk(f);
    SharedIsOneOf(fs, i);
    match f.rule
    case Required => ValueFormed(f, s, slot.v, level);
    case Optional => ValueFormed(f, s, slot.v, level);
    case Repeated =>
      if wt == WT_STRING && f.ltype.Packable() {
        PackedFormed(f, ReadDelimited(s).value, slot.items, level);
      } else {
        ValueFormed(f, s, f.initial, level);
      }
    case OneOf =>
      var base := UnionBase(f, slot);
      if f.ltype.SubmessageT? {
        if slot.Union? && slot.which == f.tag {
          var m :| 0 <= m < |fs| && FormedMember(fs, k, slot, m, level);
          SameTag(fs, m, i);
        } else {
          DefaultsHeld(f.sub, level);
        }
      }
      ValueFormed(f, s, base, level);
      var after := DecodeField(fs, i, wt, s, a).value[k];
      assert FormedMember(fs, k, after, i, level);
  }

  lemma {:induction false} LoopFormed(fs: seq<Field>, s: bytes, a: seq<Slot>, seen: set<nat>, level: Level)
    requires !level.Exact? && TableOk(fs) && Formed(fs, a, level)
    ensures DecodeLoop(fs, s, a, seen).Some? ==> Formed(fs, DecodeLoop(fs, s, a, seen).value.slots, level)
    decreases fs, |s|, 1
  {
    hide Formed, ReadTag, SkipField, DecodeField, DecodeScalar, Lookup, TableOk;
    assert |a| == |fs| by { FormedLength(fs, a, level); }
    if s != [] {
      match ReadTag(s)
      case TagBad =>
      case TagZero(after) =>
      case Tag(tag, wt, after) =>
        if fs == [] && tag == 0 {
          ScalarShrinks(Terminator(), after);
          var p := DecodeScalar(Terminator(), after);
          if p.Got? {
            LoopFormed(fs, p.rest, a, seen, level);
          }
        } else {
          match Lookup(fs, tag)
          case None =>
            var p := SkipField(wt, after);
            if p.Got? {
              LoopFormed(fs, p.rest, a, seen, level);
            }
          case Some(i) =>
            FieldFormed(fs, i, wt, after, a, level);
            var p := DecodeField(fs, i, wt, after, a);
            if p.Got? {
              LoopFormed(fs, p.rest, p.value, seen + {i}, level);
            }
        }
    }
  }

  lemma FormedLength(fs: seq<Field>, a: seq<Slot>, level: Level)
    requires Formed(fs, a, level)
    ensures |a| == |fs|
  {
  }

  lemma MemberOf(fs: seq<Field>, k: nat, slot: Slot)
    requires k < |fs| && FormedSlot(fs, slot, k, Loose) && fs[k].rule.OneOf? && !Joins(fs, k) && slot.Union?
    ensures exists n :: 0 <= n < |fs| && FormedMember(fs, k, slot, n, Loose)
  {
  }

  lemma {:induction false} FormedFits(fs: seq<Field>, m: seq<Slot>)
    requires TableOk(fs) && Formed(fs, m, Loose)
    ensures MessageFits(fs, m, false)
    decreases fs, 1
  {
    forall i | 0 <= i < |fs| ensures SlotFits(fs, m, i, false) {
      var k := SlotOf(fs, i);
      var f, slot := fs[i], m[k];
      SharedIsOneOf(fs, i);
      assert FormedSlot(fs, m[i], i, Loose) && FormedSlot(fs, slot, k, Loose) && FieldOk(f);
      match f.rule
      case Required => ValueFormedFits(f, slot.v);
      case Optional => ValueFormedFits(f, slot.v);
      case Repeated =>
        forall n | 0 <= n < |slot.items| ensures ValueFits(f, slot.items[n], false) {
          ValueFormedFits(f, slot.items[n]);
        }
      case OneOf =>
        if slot.Union? && slot.which == f.tag {
          MemberOf(fs, k, slot);
          var n :| 0 <= n < |fs| && FormedMember(fs, k, slot, n, Loose);
          SameTag(fs, n, i);
          ValueFormedFits(f, slot.v);
        }
    }
  }

  lemma {:induction false} ValueFormedFits(f: Field, v: Value)
    requires FieldOk(f) && FormedValue(f, v, Loose)
    ensures ValueFits(f, v, false)
    decreases f, 0
  {
    if f.ltype.SubmessageT? {
      FormedFits(f.sub, v.slots);
    }
  }

  /** Whatever bytes it is given, a decoder that succeeds leaves every integer inside its field, every
      string and array inside its buffer and every union tag naming a member; and the encoder then
      accepts the struct. */
  lemma DecodedIsFormed(fs: seq<Field>, s: bytes)
    requires TableOk(fs) && Decode(fs, s).Some?
    ensures Formed(fs, Decode(fs, s).value.slots, Loose)
    ensures Encode(fs, Decode(fs, s).value.slots).Some?
  {
    DefaultsHeld(fs, Loose);
    LoopFormed(fs, s, Defaults(fs), {}, Loose);
    FormedFits(fs, Decode(fs, s).value.slots);
    MessageEncodes(fs, Decode(fs, s).value.slots, 0, false);
  }

  // ---- what was decoded, sent again ------------------------------------------------------------

  /** No string the struct holds has a zero byte before its end. */
  predicate NulFree(fs: seq<Field>, slots: seq<Slot>)
    decreases fs, 2
  {
    |slots| == |fs| && forall i :: 0 <= i < |fs| ==> NulFreeSlot(fs, slots[i], i)
  }

  predicate NulFreeSlot(fs: seq<Field>, slot: Slot, i: nat)
    requires i < |fs|
    decreases fs, 1
  {
    match slot
    case Plain(v) => NulFreeValue(fs[i], v)
    case Opt(_, v) => NulFreeValue(fs[i], v)
    case Rep(items) => forall k :: 0 <= k < |items| ==> NulFreeValue(fs[i], items[k])
    case Union(_, _) => forall m :: 0 <= m < |fs| ==> NulFreeMember(fs, i, slot, m)
    case _ => true
  }

  predicate NulFreeMember(fs: seq<Field>, i: nat, slot: Slot, m: nat)
    requires m < |fs| && slot.Union?
    decreases fs, 0
  {
    SlotOf(fs, m) == i && fs[m].tag == slot.which ==> NulFreeValue(fs[m], slot.v)
  }

  predicate NulFreeValue(f: Field, v: Value)
    decreases f, 3
  {
    if f.ltype.SubmessageT? then v.Msg? && NulFree(f.sub, v.slots)
    else f.ltype.StringT? ==> v.Blob? && 0 !in v.data
  }

  lemma {:induction false} TidyValue(f: Field, v: Value)
    requires FieldOk(f) && FormedValue(f, v, Tidy)
    ensures FormedValue(f, v, Exact) <==> NulFreeValue(f, v)
    decreases f, 0
  {
    if f.ltype.SubmessageT? {
      TidyIsClean(f.sub, v.slots);
    }
  }

  lemma {:induction false} TidySlot(fs: seq<Field>, slot: Slot, i: nat)
    requires TableOk(fs) && i < |fs| && FormedSlot(fs, slot, i, Tidy)
    ensures FormedSlot(fs, slot, i, Exact) <==> NulFreeSlot(fs, slot, i)
    decreases fs, 0
  {
    var f := fs[i];
    assert FieldOk(f);
    if !Joins(fs, i) {
      match f.rule
      case Required => TidyValue(f, slot.v);
      case Optional => TidyValue(f, slot.v);
      case Repeated =>
        forall k | 0 <= k < |slot.items|
          ensures FormedValue(f, slot.items[k], Exact) <==> NulFreeValue(f, slot.items[k])
        {
          TidyValue(f, slot.items[k]);
        }
      case OneOf =>
        if slot.Union? {
          TidyUnion(fs, slot, i);
        }
    }
  }

  lemma {:induction false} TidyUnion(fs: seq<Field>, slot: Slot, i: nat)
    requires TableOk(fs) && i < |fs| && !Joins(fs, i) && fs[i].rule.OneOf?
    requires slot.Union? && FormedSlot(fs, slot, i, Tidy)
    ensures FormedSlot(fs, slot, i, Exact) <==> NulFreeSlot(fs, slot, i)
    decreases fs, 0, 0
  {
    var n :| 0 <= n < |fs| && FormedMember(fs, i, slot, n, Tidy);
    assert FieldOk(fs[n]);
    TidyValue(fs[n], slot.v);
    forall m | 0 <= m < |fs| && fs[m].tag == slot.which ensures m == n {
      SameTag(fs, m, n);
    }
    assert FormedMember(fs, i, slot, n, Exact) <==> NulFreeMember(fs, i, slot, n);
    assert NulFreeSlot(fs, slot, i) <==> NulFreeMember(fs, i, slot, n);
  }

  /** A tidy struct is clean exactly when it is free of zero bytes. */
  lemma {:induction false} TidyIsClean(fs: seq<Field>, slots: seq<Slot>)
    requires TableOk(fs) && Formed(fs, slots, Tidy)
    ensures Clean(fs, slots) <==> NulFree(fs, slots)
    decreases fs, 1
  {
    forall i | 0 <= i < |fs|
      ensures FormedSlot(fs, slots[i], i, Exact) <==> NulFreeSlot(fs, slots[i], i)
    {
      assert FormedSlot(fs, slots[i], i, Tidy);
      TidySlot(fs, slots[i], i);
    }
  }

  /** Whatever was accepted is clean exactly when no string in it has a zero byte. With lengths below 2^32
      it can be sent on and is accepted again, and comes back unchanged in exactly that case. */
  lemma DecodedComesBack(fs: seq<Field>, s: bytes)
    requires TableOk(fs) && Decode(fs, s).Some?
    ensures var m := Decode(fs, s).value.slots;
            && Encode(fs, m).Some?
            && (Clean(fs, m) <==> NulFree(fs, m))
            && (MessageOk(fs, m) ==>
                  var again := Decode(fs, Encode(fs, m).value);
                  again.Some? && (again.value.slots == m <==> NulFree(fs, m)))
  {
    hide Decode, View, NulFree, Formed, FormedSlot, OverfullFrom, EncodeFrom, Agree, SameUnions, TableOk, MessageOk;
    var m := Decode(fs, s).value.slots;
    DecodedIsFormed(fs, s);
    DecodedIsTidy(fs, s);
    TidyIsClean(fs, m);
    if MessageOk(fs, m) {
      AgreeWithItself(fs);
      FormedNeverOverfull(fs, fs, m, 0);
      DecodeIsView(fs, fs, m);
      ViewClean(fs, fs, m);
      if Clean(fs, m) {
        CleanView(fs, m);
      }
    }
  }

  lemma DecodedIsTidy(fs: seq<Field>, s: bytes)
    requires TableOk(fs) && Decode(fs, s).Some?
    ensures Formed(fs, Decode(fs, s).value.slots, Tidy)
  {
    DefaultsHeld(fs, Tidy);
    LoopFormed(fs, s, Defaults(fs), {}, Tidy);
  }

  /** Structs the decoder leaves can be decoded into again. */
  lemma {:induction false} FormedIsShaped(fs: seq<Field>, a: seq<Slot>)
    requires TableOk(fs) && Formed(fs, a, Loose)
    ensures Shaped(fs, a)
    decreases fs, 1
  {
    forall i | 0 <= i < |fs| ensures ShapedSlot(fs, a[i], i) {
      var f, slot := fs[i], a[i];
      assert FormedSlot(fs, slot, i, Loose) && FieldOk(f);
      if !Joins(fs, i) {
        match f.rule
        case Required => FormedValueIsShaped(f, slot.v);
        case Optional => FormedValueIsShaped(f, slot.v);
        case Repeated =>
        case OneOf =>
          if slot.Union? {
            var n :| 0 <= n < |fs| && FormedMember(fs, i, slot, n, Loose);
            FormedValueIsShaped(fs[n], slot.v);
            MemberShaped(fs, n, slot.v);
          }
      }
    }
  }

  lemma {:induction false} FormedValueIsShaped(f: Field, v: Value)
    requires FieldOk(f) && FormedValue(f, v, Loose)
    ensures ShapedValue(f, v)
    decreases f, 0
  {
    if f.ltype.SubmessageT? {
      FormedIsShaped(f.sub, v.slots);
    }
  }

  /** In such a struct every union tag is known: releasing the old contents of a union never fails. */
  lemma FormedTagsKnown(fs: seq<Field>, a: seq<Slot>, i: nat)
    requires Formed(fs, a, Loose) && i < |fs| && fs[i].rule.OneOf?
    ensures !ReleaseFails(fs, fs[i], a[SlotOf(fs, i)])
  {
    var k := SlotOf(fs, i);
    SharedIsOneOf(fs, i);
    assert FormedSlot(fs, a[k], k, Loose);
    if a[k].Union? {
      MemberOf(fs, k, a[k]);
    }
  }

  // ---- packed and unpacked arrays ------------------------------------------------------------

  lemma {:induction false} EachOfScalars(s: Field, items: seq<Value>)
    requires s.ltype.Packable() && forall k :: 0 <= k < |items| ==> ScalarOk(s, items[k])
    ensures EncodeEach(s, items).Some?
  {
    if items != [] {
      ScalarEncodes(s, items[0]);
      assert EncodeTagged(s, items[0]).Some?;
      EachOfScalars(s, items[1..]);
    }
  }

  /** The packed record of an array and one record for each element do the same to the reader: they
      append the elements, or both fail when the array would hold more than `array_size`. */
  lemma PackedIsUnpacked(R: seq<Field>, j: nat, s: Field, items: seq<Value>, a: seq<Slot>, seen: set<nat>, t: bytes)
    requires |a| == |R| && Lookup(R, s.tag) == Some(j) && FieldsAgree(R[j], s) && FieldOk(s)
    requires s.rule.Repeated? && s.ltype.Packable() && items != []
    requires forall k :: 0 <= k < |items| ==> ScalarOk(s, items[k])
    requires EncodePacked(s, items).Some? ==> |EncodePacked(s, items).value| < WORD32
    ensures EncodePacked(s, items).Some? && EncodeEach(s, items).Some?
    ensures var k := SlotOf(R, j);
            var packed := DecodeLoop(R, PackedRecord(s, EncodePacked(s, items).value) + t, a, seen);
            var each := DecodeLoop(R, EncodeEach(s, items).value + t, a, seen);
            && packed == each
            && packed == if a[k].Rep? && |a[k].items| + |items| <= R[j].arraySize
                 then DecodeLoop(R, t, a[k := Rep(a[k].items + SettleAll(s, items))], seen + {j})
                 else None
  {
    hide DecodeLoop;
    PackedEncodes(s, items);
    EachOfScalars(s, items);
    PackedRecordTheorem(R, s, items, a, seen, t);
    EachTheorem(R, s, items, a, seen, t);
    ApplyScalars(R, j, s, items, a);
  }

  // ---- strings that fill their buffer ---------------------------------------------------------

  /** The encoder sends a string that fills its whole buffer; the decoder takes back exactly the
      strings that leave room for their terminator. */
  lemma StringBuffer(f: Field, data: bytes, t: bytes)
    requires f.ltype.StringT? && f.dataSize <= PB_SIZE_MAX
    ensures EncodeScalar(f, Blob(data)).Some?
    ensures var text := CString(data, f.dataSize);
            DecodeScalar(f, EncodeScalar(f, Blob(data)).value + t)
              == if |text| < f.dataSize then Got(Blob(text), t) else Bad
  {
    hide CString, ReadDelimited, Delimited;
    ReadDelimitedWritten(CString(data, f.dataSize), t);
  }

  /** Such a string: three letters in three bytes. */
  lemma FullStringLost(f: Field, t: bytes)
    requires f.ltype.StringT? && f.dataSize == 3
    ensures EncodeScalar(f, Blob([65, 66, 67])) == Some([3, 65, 66, 67])
    ensures DecodeScalar(f, [3, 65, 66, 67] + t) == Bad
  {
    var data: bytes := [65, 66, 67];
    CStringWhole(data, 3);
    assert Delimited(data) == [3, 65, 66, 67];
    StringBuffer(f, data, t);
  }
}
