/** Merging a message into a struct, with no bytes involved, and the proof that decoding an encoded
    message is merging. The reader's table may lack fields of the writer's. */
module Merging {
  import opened Words
  import opened Varints
  import opened Schema
  import opened Wire
  import opened Encoding
  import opened Decoding

  // ---- reader and writer tables -----------------------------------------------------------

  predicate FieldsAgree(r: Field, s: Field) {
    && r.rule == s.rule
    && r.ltype == s.ltype
    && r.HasSize() == s.HasSize()
    && r.dataSize == s.dataSize
    && r.arraySize == s.arraySize
    && Agree(r.sub, s.sub)
  }

  /** Fields with one tag agree, and the writer has every field the reader requires. */
  predicate Agree(R: seq<Field>, S: seq<Field>) {
    && UniqueTags(R)
    && forall j :: 0 <= j < |R| ==>
      match Lookup(S, R[j].tag)
      case None => !R[j].rule.Required?
      case Some(i) => FieldsAgree(R[j], S[i])
  }

  // ---- merging ----------------------------------------------------------------------------

  /** Submessages merge into what is there, array elements into defaults, scalars replace. A string without
      room for its terminator is refused. */
  function MergeValue(r: Field, prior: Value, s: Field, v: Value): Option<Value>
    decreases s, 0
  {
    if s.ltype.SubmessageT? then
      var base := if r.rule.Repeated? then DefaultValue(r) else prior;
      if base.Msg? && |base.slots| == |r.sub| && v.Msg? && |v.slots| == |s.sub| then
        var m :- Merge(r.sub, base.slots, s.sub, v.slots, 0);
        Some(Msg(m))
      else None
    else if FullString(s, v) then None
    else Some(Settle(s, v))
  }

  /** One occurrence of writer field s arriving at reader field j. */
  function Store(R: seq<Field>, a: seq<Slot>, j: nat, s: Field, v: Value): (m: Option<seq<Slot>>)
    requires |a| == |R| && j < |R|
    ensures m.Some? ==> |m.value| == |R|
    decreases s, 1
  {
    var r, k := R[j], SlotOf(R, j);
    match (r.rule, a[k])
    case (Required, Plain(prior)) =>
      var v' :- MergeValue(r, prior, s, v);
      Some(a[k := Plain(v')])
    case (Optional, Plain(prior)) =>
      if r.HasSize() then None
      else
        var v' :- MergeValue(r, prior, s, v);
        Some(a[k := Plain(v')])
    case (Optional, Opt(_, prior)) =>
      if !r.HasSize() then None
      else
        var v' :- MergeValue(r, prior, s, v);
        Some(a[k := Opt(true, v')])
    case (Repeated, Rep(items)) =>
      if |items| >= r.arraySize then None
      else
        var v' :- MergeValue(r, r.initial, s, v);
        Some(a[k := Rep(items + [v'])])
    case (OneOf, _) =>
      if !(a[k].Union? || a[k].Unset?) || ReleaseFails(R, r, a[k]) then None
      else
        var v' :- MergeValue(r, UnionBase(r, a[k]), s, v);
        Some(a[k := Union(r.tag, v')])
    case _ => None
  }

  function Apply(R: seq<Field>, a: seq<Slot>, s: Field, v: Value): (m: Option<seq<Slot>>)
    requires |a| == |R|
    ensures m.Some? ==> |m.value| == |R|
    decreases s, 2
  {
    match Lookup(R, s.tag)
    case None => Some(a)
    case Some(j) => Store(R, a, j, s, v)
  }

  function ApplyAll(R: seq<Field>, a: seq<Slot>, s: Field, items: seq<Value>): (m: Option<seq<Slot>>)
    requires |a| == |R|
    ensures m.Some? ==> |m.value| == |R|
    decreases s, 3, |items|
  {
    if items == [] then Some(a)
    else
      var a' :- Apply(R, a, s, items[0]);
      ApplyAll(R, a', s, items[1..])
  }

  /** The values field i contributes. */
  function Occurrences(fs: seq<Field>, slots: seq<Slot>, i: nat): seq<Value>
    requires |slots| == |fs| && i < |fs|
  {
    if !Present(fs, slots, i) then []
    else
      match slots[SlotOf(fs, i)]
      case Plain(v) => [v]
      case Opt(_, v) => [v]
      case Rep(items) => items
      case Union(_, v) => [v]
      case _ => []
  }

  /** Merging fields i and later of the writer's message b into the reader's struct a, one occurrence
      after the other; None when one cannot be stored. */
  function Merge(R: seq<Field>, a: seq<Slot>, S: seq<Field>, b: seq<Slot>, i: nat): (m: Option<seq<Slot>>)
    requires |a| == |R| && |b| == |S| && i <= |S|
    ensures m.Some? ==> |m.value| == |R|
    decreases S, 0, |S| - i
  {
    if i == |S| then Some(a)
    else
      var a' :- ApplyAll(R, a, S[i], Occurrences(S, b, i));
      Merge(R, a', S, b, i + 1)
  }

  // ---- scalars ----------------------------------------------------------------------------

  lemma ScalarRoundTrip(r: Field, s: Field, v: Value, t: bytes)
    requires FieldsAgree(r, s) && s.dataSize <= PB_SIZE_MAX && ScalarFits(s, v)
    ensures EncodeScalar(s, v).Some?
    ensures DecodeScalar(r, EncodeScalar(s, v).value + t) == if FullString(s, v) then Bad else Got(Settle(s, v), t)
  {
    hide Varint, ReadVarint, ReadVarint32, Zigzag, Unzigzag, ToWord64, ToSigned64, ToSigned32;
    hide ReadDelimited, Delimited, ReadFixed, FixedBytes, CString, Agree;
    match s.ltype
    case BoolT => Varint32Ranges(if v.n != 0 then 1 else 0, t);
    case VarintT =>
      SignedRoundTrip(v.n);
      VarintRoundTrip(ToWord64(v.n), t);
    case SVarintT =>
      ZigzagRoundTrip(v.n);
      VarintRoundTrip(Zigzag(v.n), t);
    case UVarintT => VarintRoundTrip(v.n, t);
    case Fixed32T => ReadFixedWritten(v.n, 4, t);
    case Fixed64T => ReadFixedWritten(v.n, 8, t);
    case BytesT => ReadDelimitedWritten(v.data, t);
    case StringT => ReadDelimitedWritten(CString(v.data, s.dataSize), t);
    case FixedBytesT => ReadDelimitedWritten(v.data, t);
  }

  // ---- one record -------------------------------------------------------------------------

  /** The rest of the record loop, when the records so far could be stored. */
  function Continue(R: seq<Field>, t: bytes, a: Option<seq<Slot>>, seen: set<nat>): Option<Progress>
    requires a.Some? ==> |a.value| == |R|
  {
    if a.None? then None else DecodeLoop(R, t, a.value, seen)
  }

  function Note(R: seq<Field>, seen: set<nat>, tag: nat): set<nat> {
    match Lookup(R, tag)
    case None => seen
    case Some(j) => seen + {j}
  }

  function AfterSkip(R: seq<Field>, p: Parse<()>, a: seq<Slot>, seen: set<nat>): Option<Progress>
    requires |a| == |R|
  {
    if p.Bad? then None else DecodeLoop(R, p.rest, a, seen)
  }

  function AfterField(R: seq<Field>, p: Parse<seq<Slot>>, seen: set<nat>): Option<Progress>
    requires p.Got? ==> |p.value| == |R|
  {
    if p.Bad? then None else DecodeLoop(R, p.rest, p.value, seen)
  }

  lemma LoopRecord(R: seq<Field>, tag: nat, wt: nat, body: bytes, a: seq<Slot>, seen: set<nat>)
    requires |a| == |R| && 0 < tag < TAG_LIMIT && wt < 8
    ensures DecodeLoop(R, TagBytes(tag, wt) + body, a, seen)
         == match Lookup(R, tag)
            case None => AfterSkip(R, SkipField(wt, body), a, seen)
            case Some(j) => AfterField(R, DecodeField(R, j, wt, body, a), seen + {j})
  {
    hide SkipField, DecodeField, Lookup, ReadTag;
    assert |TagBytes(tag, wt)| >= 1;
    ReadTagWritten(tag, wt, body);
  }

  /** A word with field number zero that is not the zero tag. */
  lemma ReadZeroNumber(wt: nat, body: bytes)
    requires 0 < wt < 8
    ensures TagBytes(0, wt) == [wt] && ReadTag([wt] + body) == Tag(0, wt, body)
  {
    assert ([wt] + body)[1..] == body;
  }

  /** Skipped by its wire type, the payload [1] of a record with field number zero is an error. Read as the
      terminator of an empty table, it is a bool. */
  lemma ZeroRecordIsRead(wt: nat, seen: set<nat>)
    requires 0 < wt < 8
    ensures DecodeLoop([], TagBytes(0, wt) + [1], [], seen) == Some(Progress([], seen, false, []))
    ensures SkipField(wt, [1]) == Bad
  {
    ReadZeroNumber(wt, [1]);
    assert DecodeScalar(Terminator(), [1]) == Got(Int(1), []);
  }

  /** A record of a field the table does not have is skipped by its wire type, whatever its payload,
      except in an empty table when its field number is zero. */
  lemma UnknownRecord(fs: seq<Field>, tag: nat, wt: nat, a: seq<Slot>, seen: set<nat>)
    requires |a| == |fs| && tag < TAG_LIMIT && wt < 8 && 8 * tag + wt > 0 && Lookup(fs, tag).None?
    ensures (forall body ::
               DecodeLoop(fs, TagBytes(tag, wt) + body, a, seen) == AfterSkip(fs, SkipField(wt, body), a, seen))
       <==> fs != [] || tag != 0
  {
    hide SkipField, DecodeScalar, Lookup, ReadTag;
    if fs == [] && tag == 0 {
      ZeroRecordIsRead(wt, seen);
      assert AfterSkip(fs, SkipField(wt, [1]), a, seen) == None;
    } else {
      forall body
        ensures DecodeLoop(fs, TagBytes(tag, wt) + body, a, seen) == AfterSkip(fs, SkipField(wt, body), a, seen)
      {
        if tag > 0 {
          LoopRecord(fs, tag, wt, body, a, seen);
        } else {
          ReadZeroNumber(wt, body);
        }
      }
    }
  }

  /** An unknown field is skipped exactly. */
  lemma SkipWritten(s: Field, v: Value, t: bytes)
    requires ValueOk(s, v) && s.dataSize <= PB_SIZE_MAX && EncodeValue(s, v).Some?
    ensures SkipField(WireType(s.ltype), EncodeValue(s, v).value + t) == Got((), t)
  {
    hide Varint, SkipVarint, ReadDelimited, Delimited, CString, EncodeFrom, MessageOk;
    match s.ltype
    case BoolT => SkipVarintWritten(if v.n != 0 then 1 else 0, t);
    case VarintT => SkipVarintWritten(ToWord64(v.n), t);
    case UVarintT => SkipVarintWritten(v.n, t);
    case SVarintT =>
      ZigzagRoundTrip(v.n);
      SkipVarintWritten(Zigzag(v.n), t);
    case Fixed32T => ReadFixedWritten(v.n, 4, t);
    case Fixed64T => ReadFixedWritten(v.n, 8, t);
    case BytesT => ReadDelimitedWritten(v.data, t);
    case StringT => ReadDelimitedWritten(CString(v.data, s.dataSize), t);
    case FixedBytesT => ReadDelimitedWritten(v.data, t);
    case SubmessageT => ReadDelimitedWritten(EncodeFrom(s.sub, v.slots, 0).value, t);
  }

  /** The reader of field s, if it has one, agrees with it. */
  predicate ReadersAgree(R: seq<Field>, s: Field) {
    match Lookup(R, s.tag)
    case None => true
    case Some(j) => FieldsAgree(R[j], s)
  }

  lemma AgreeingReaders(R: seq<Field>, S: seq<Field>, i: nat)
    requires UniqueTags(S) && Agree(R, S) && i < |S|
    ensures ReadersAgree(R, S[i])
  {
    hide UniqueTags, FieldsAgree;
    LookupUnique(S, i);
  }

  lemma {:induction false} ValueTheorem(r: Field, s: Field, v: Value, prior: Value, t: bytes)
    requires FieldsAgree(r, s) && FieldOk(s) && ValueOk(s, v) && EncodeValue(s, v).Some?
    ensures DecodeValue(r, EncodeValue(s, v).value + t, prior)
         == match MergeValue(r, prior, s, v) case None => Bad case Some(m) => Got(m, t)
    decreases s, 0
  {
    if s.ltype.SubmessageT? {
      var body := EncodeFrom(s.sub, v.slots, 0).value;
      ReadDelimitedWritten(body, t);
      var base := if r.rule.Repeated? then DefaultValue(r) else prior;
      if base.Msg? && |base.slots| == |r.sub| {
        assert body + [] == body;
        DecodeOfEncodeFrom(r.sub, s.sub, base.slots, v.slots, 0, {}, []);
        SeenCovers(r.sub, s.sub, v.slots, {});
      }
    } else {
      ScalarRoundTrip(r, s, v, t);
    }
  }

  lemma {:induction false} RecordTheorem(R: seq<Field>, s: Field, v: Value, a: seq<Slot>, seen: set<nat>, t: bytes)
    requires |a| == |R| && ReadersAgree(R, s) && FieldOk(s) && ValueOk(s, v) && EncodeTagged(s, v).Some?
    ensures DecodeLoop(R, EncodeTagged(s, v).value + t, a, seen)
         == Continue(R, t, Apply(R, a, s, v), Note(R, seen, s.tag))
    decreases s, 2
  {
    var body := EncodeValue(s, v).value;
    var wt := WireType(s.ltype);
    assert EncodeTagged(s, v).value + t == TagBytes(s.tag, wt) + (body + t);
    LoopRecord(R, s.tag, wt, body + t, a, seen);
    match Lookup(R, s.tag)
    case None => SkipWritten(s, v, t);
    case Some(j) => StoreTheorem(R, j, s, v, a, t);
  }

  lemma {:induction false} StoreTheorem(R: seq<Field>, j: nat, s: Field, v: Value, a: seq<Slot>, t: bytes)
    requires |a| == |R| && j < |R| && FieldsAgree(R[j], s) && FieldOk(s) && ValueOk(s, v) && EncodeValue(s, v).Some?
    ensures DecodeField(R, j, WireType(s.ltype), EncodeValue(s, v).value + t, a)
         == match Store(R, a, j, s, v) case None => Bad case Some(a') => Got(a', t)
    decreases s, 1
  {
    var r, k := R[j], SlotOf(R, j);
    match (r.rule, a[k])
    case (Required, Plain(prior)) => ValueTheorem(r, s, v, prior, t);
    case (Optional, Plain(prior)) => ValueTheorem(r, s, v, prior, t);
    case (Optional, Opt(_, prior)) => ValueTheorem(r, s, v, prior, t);
    case (Repeated, Rep(items)) => ValueTheorem(r, s, v, r.initial, t);
    case (OneOf, _) => ValueTheorem(r, s, v, UnionBase(r, a[k]), t);
    case _ =>
  }

  // ---- arrays -----------------------------------------------------------------------------

  lemma {:induction false} EachTheorem(R: seq<Field>, s: Field, items: seq<Value>, a: seq<Slot>,
                                       seen: set<nat>, t: bytes)
    requires |a| == |R| && ReadersAgree(R, s) && FieldOk(s)
    requires (forall k :: 0 <= k < |items| ==> ValueOk(s, items[k])) && EncodeEach(s, items).Some?
    ensures DecodeLoop(R, EncodeEach(s, items).value + t, a, seen)
         == Continue(R, t, ApplyAll(R, a, s, items), if items == [] then seen else Note(R, seen, s.tag))
    decreases s, 3, |items|
  {
    if items == [] {
      assert EncodeEach(s, items).value + t == t;
    } else {
      var head, tail := EncodeTagged(s, items[0]).value, EncodeEach(s, items[1..]).value;
      assert EncodeEach(s, items).value + t == head + (tail + t);
      RecordTheorem(R, s, items[0], a, seen, tail + t);
      var a' := Apply(R, a, s, items[0]);
      if a'.Some? {
        EachTheorem(R, s, items[1..], a'.value, Note(R, seen, s.tag), t);
        assert Note(R, Note(R, seen, s.tag), s.tag) == Note(R, seen, s.tag);
      }
    }
  }

  function SettleAll(s: Field, items: seq<Value>): seq<Value> {
    if items == [] then [] else [Settle(s, items[0])] + SettleAll(s, items[1..])
  }

  /** Packed payloads are read element by element, up to the size of the array. */
  lemma {:induction false} PackedTheorem(r: Field, s: Field, items: seq<Value>, acc: seq<Value>)
    requires FieldsAgree(r, s) && s.dataSize <= PB_SIZE_MAX && s.ltype.Packable()
    requires (forall k :: 0 <= k < |items| ==> ScalarOk(s, items[k])) && EncodePacked(s, items).Some?
    ensures DecodePacked(r, EncodePacked(s, items).value, acc)
         == if items == [] || |acc| + |items| <= r.arraySize then Some(acc + SettleAll(s, items)) else None
    decreases |items|
  {
    if items == [] {
      assert acc + SettleAll(s, items) == acc;
    } else {
      var head, tail := EncodeScalar(s, items[0]).value, EncodePacked(s, items[1..]).value;
      ScalarRoundTrip(r, s, items[0], tail);
      ScalarShrinks(r, head + tail);
      var v := Settle(s, items[0]);
      assert acc + [v] + SettleAll(s, items[1..]) == acc + SettleAll(s, items);
      PackedTheorem(r, s, items[1..], acc + [v]);
    }
  }

  /** Storing scalars one by one appends them all, or overflows. */
  lemma {:induction false} ApplyScalars(R: seq<Field>, j: nat, s: Field, items: seq<Value>, a: seq<Slot>)
    requires |a| == |R| && Lookup(R, s.tag) == Some(j) && FieldsAgree(R[j], s)
    requires s.rule.Repeated? && s.ltype.Packable()
    ensures var k := SlotOf(R, j);
            ApplyAll(R, a, s, items)
              == if items == [] then Some(a)
                 else if a[k].Rep? && |a[k].items| + |items| <= R[j].arraySize
                   then Some(a[k := Rep(a[k].items + SettleAll(s, items))])
                 else None
    decreases |items|
  {
    var k := SlotOf(R, j);
    if items != [] {
      StoreScalar(R, j, s, items[0], a);
      if a[k].Rep? && |a[k].items| < R[j].arraySize {
        var v := Settle(s, items[0]);
        var a' := a[k := Rep(a[k].items + [v])];
        ApplyScalars(R, j, s, items[1..], a');
        if items[1..] == [] {
          assert SettleAll(s, items) == [v];
        } else {
          assert a[k].items + SettleAll(s, items) == a'[k].items + SettleAll(s, items[1..]);
          assert a'[k := Rep(a'[k].items + SettleAll(s, items[1..]))] == a[k := Rep(a[k].items + SettleAll(s, items))];
        }
      }
    }
  }

  lemma StoreScalar(R: seq<Field>, j: nat, s: Field, v: Value, a: seq<Slot>)
    requires |a| == |R| && Lookup(R, s.tag) == Some(j) && FieldsAgree(R[j], s)
    requires s.rule.Repeated? && s.ltype.Packable()
    ensures var k := SlotOf(R, j);
            Apply(R, a, s, v)
              == if a[k].Rep? && |a[k].items| < R[j].arraySize
                   then Some(a[k := Rep(a[k].items + [Settle(s, v)])])
                 else None
  {
    assert MergeValue(R[j], R[j].initial, s, v) == Some(Settle(s, v));
  }

  lemma {:induction false} PackedRecordTheorem(R: seq<Field>, s: Field, items: seq<Value>, a: seq<Slot>,
                                               seen: set<nat>, t: bytes)
    requires |a| == |R| && ReadersAgree(R, s) && FieldOk(s) && s.rule.Repeated? && s.ltype.Packable() && items != []
    requires (forall k :: 0 <= k < |items| ==> ScalarOk(s, items[k])) && EncodePacked(s, items).Some?
    requires |EncodePacked(s, items).value| < WORD32
    ensures DecodeLoop(R, PackedRecord(s, EncodePacked(s, items).value) + t, a, seen)
         == Continue(R, t, ApplyAll(R, a, s, items), Note(R, seen, s.tag))
  {
    var payload := EncodePacked(s, items).value;
    assert PackedRecord(s, payload) + t == TagBytes(s.tag, WT_STRING) + (Delimited(payload) + t);
    LoopRecord(R, s.tag, WT_STRING, Delimited(payload) + t, a, seen);
    ReadDelimitedWritten(payload, t);
    match Lookup(R, s.tag)
    case None => ApplyNothing(R, a, s, items);
    case Some(j) =>
      ApplyScalars(R, j, s, items, a);
      var k := SlotOf(R, j);
      if a[k].Rep? {
        PackedTheorem(R[j], s, items, a[k].items);
      }
  }

  lemma {:induction false} ApplyNothing(R: seq<Field>, a: seq<Slot>, s: Field, items: seq<Value>)
    requires |a| == |R| && Lookup(R, s.tag).None?
    ensures ApplyAll(R, a, s, items) == Some(a)
    decreases |items|
  {
    if items != [] {
      ApplyNothing(R, a, s, items[1..]);
    }
  }

  // ---- messages ---------------------------------------------------------------------------

  lemma {:induction false} FieldTheorem(R: seq<Field>, S: seq<Field>, b: seq<Slot>, i: nat, a: seq<Slot>,
                                        seen: set<nat>, t: bytes)
    requires TableOk(S) && Agree(R, S) && MessageOk(S, b) && i < |S| && |a| == |R| && EncodeField(S, b, i).Some?
    ensures DecodeLoop(R, EncodeField(S, b, i).value + t, a, seen)
         == Continue(R, t, ApplyAll(R, a, S[i], Occurrences(S, b, i)),
                     if Present(S, b, i) then Note(R, seen, S[i].tag) else seen)
    decreases S, 0
  {
    var s, slot := S[i], b[SlotOf(S, i)];
    assert FieldOk(s) && SlotOk(S, b, i);
    AgreeingReaders(R, S, i);
    if !Present(S, b, i) {
      assert EncodeField(S, b, i).value + t == t;
    } else if s.rule.Repeated? {
      if s.ltype.Packable() {
        assert forall k :: 0 <= k < |slot.items| ==> ValueOk(s, slot.items[k]);
        PackedRecordTheorem(R, s, slot.items, a, seen, t);
      } else {
        EachTheorem(R, s, slot.items, a, seen, t);
      }
    } else {
      RecordTheorem(R, s, slot.v, a, seen, t);
      ApplyOne(R, a, s, slot.v);
    }
  }

  lemma ApplyOne(R: seq<Field>, a: seq<Slot>, s: Field, v: Value)
    requires |a| == |R|
    ensures ApplyAll(R, a, s, [v]) == Apply(R, a, s, v)
  {
    assert [v][1..] == [];
  }

  /** The reader fields found while decoding fields i and later of b. */
  function SeenFrom(R: seq<Field>, S: seq<Field>, b: seq<Slot>, i: nat, seen: set<nat>): (all: set<nat>)
    requires |b| == |S| && i <= |S|
    ensures seen <= all
    decreases |S| - i
  {
    if i == |S| then seen
    else SeenFrom(R, S, b, i + 1, if Present(S, b, i) then Note(R, seen, S[i].tag) else seen)
  }

  lemma {:induction false} SeenField(R: seq<Field>, S: seq<Field>, b: seq<Slot>, i: nat, seen: set<nat>, w: nat)
    requires |b| == |S| && i <= w < |S| && Present(S, b, w)
    ensures Lookup(R, S[w].tag).Some? ==> Lookup(R, S[w].tag).value in SeenFrom(R, S, b, i, seen)
    decreases |S| - i
  {
    if i < w {
      SeenField(R, S, b, i + 1, if Present(S, b, i) then Note(R, seen, S[i].tag) else seen, w);
    }
  }

  lemma SeenCovers(R: seq<Field>, S: seq<Field>, b: seq<Slot>, seen: set<nat>)
    requires Agree(R, S) && |b| == |S|
    ensures AllRequired(R, SeenFrom(R, S, b, 0, seen))
  {
    forall j | 0 <= j < |R| && Tracked(R, j) ensures j in SeenFrom(R, S, b, 0, seen) {
      LookupUnique(R, j);
      var w := Lookup(S, R[j].tag).value;
      SeenField(R, S, b, 0, seen, w);
    }
  }

  /** The records of a message, and whatever comes after them. */
  lemma {:induction false} DecodeOfEncodeFrom(R: seq<Field>, S: seq<Field>, a: seq<Slot>, b: seq<Slot>, i: nat,
                                              seen: set<nat>, t: bytes)
    requires TableOk(S) && Agree(R, S) && MessageOk(S, b) && i <= |S| && |a| == |R| && EncodeFrom(S, b, i).Some?
    ensures DecodeLoop(R, EncodeFrom(S, b, i).value + t, a, seen)
         == Continue(R, t, Merge(R, a, S, b, i), SeenFrom(R, S, b, i, seen))
    decreases S, 1, |S| - i
  {
    hide DecodeLoop, EncodeField, ApplyAll, Occurrences, Present, Note, TableOk, Agree;
    if i == |S| {
      assert EncodeFrom(S, b, i).value + t == t;
    } else {
      var head, tail := EncodeField(S, b, i).value, EncodeFrom(S, b, i + 1).value;
      assert EncodeFrom(S, b, i).value + t == head + (tail + t);
      FieldTheorem(R, S, b, i, a, seen, tail + t);
      var a' := ApplyAll(R, a, S[i], Occurrences(S, b, i));
      if a'.Some? {
        DecodeOfEncodeFrom(R, S, a'.value, b, i + 1, if Present(S, b, i) then Note(R, seen, S[i].tag) else seen, t);
      }
    }
  }

  /** Decoding an encoded message into a struct is folding its records into it, and fails exactly when
      that does. `MergeResults` says what the fold leaves and when it fails. */
  lemma DecodeIsMerge(R: seq<Field>, S: seq<Field>, a: seq<Slot>, b: seq<Slot>)
    requires TableOk(S) && Agree(R, S) && MessageOk(S, b) && |a| == |R|
    ensures Encode(S, b).Some?
    ensures match Merge(R, a, S, b, 0)
            case None => DecodeInto(R, Encode(S, b).value, a) == None
            case Some(m) =>
              && var p := DecodeInto(R, Encode(S, b).value, a);
              && p.Some? && p.value.slots == m && !p.value.stopped && p.value.rest == []
  {
    MessageEncodes(S, b, 0, true);
    assert Encode(S, b).value + [] == Encode(S, b).value;
    DecodeOfEncodeFrom(R, S, a, b, 0, {}, []);
    SeenCovers(R, S, b, {});
  }
}
