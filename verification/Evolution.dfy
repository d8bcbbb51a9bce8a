/** Round trips and schema evolution: what a reader sees of a message, slot by slot. */
module Evolution {
  import opened Words
  import opened Schema
  import opened Encoding
  import opened Decoding
  import opened Merging
  import opened MergeResults
  import opened Shapes

  /** The struct a reader with table R ends up with, given message b of writer table S: fields the
      message has, submessages viewed in turn, and defaults everywhere else. */
  function View(R: seq<Field>, S: seq<Field>, b: seq<Slot>): (m: seq<Slot>)
    requires |b| == |S|
    ensures |m| == |R|
  {
    Merged(R, Defaults(R), S, b)
  }

  lemma ViewAt(R: seq<Field>, S: seq<Field>, b: seq<Slot>, j: nat)
    requires |b| == |S| && j < |R|
    ensures View(R, S, b)[j] == MergedSlot(R, Defaults(R), S, b, j)
  {
    hide MergedSlot, Defaults;
  }

  lemma MergeIsView(R: seq<Field>, S: seq<Field>, b: seq<Slot>)
    requires TableOk(S) && Agree(R, S) && SameUnions(R, S) && MessageOk(S, b)
    ensures Merge(R, Defaults(R), S, b, 0) == if Overfull(R, S, b) then None else Some(View(R, S, b))
  {
    hide Agree, SameUnions, Merge, Merged, FailsFrom, OverfullFrom;
    DefaultsShaped(R);
    MergeResult(R, Defaults(R), S, b);
    FailsFresh(R, S, b, 0);
  }

  /** Any reader whose fields agree with the writer's decodes exactly its view of the message: fields
      it does not know are skipped, fields the message lacks take their defaults. It fails exactly when
      the message sends it a string without room for its terminator. */
  lemma DecodeIsView(R: seq<Field>, S: seq<Field>, b: seq<Slot>)
    requires TableOk(S) && Agree(R, S) && SameUnions(R, S) && MessageOk(S, b)
    ensures Encode(S, b).Some?
    ensures var p := Decode(R, Encode(S, b).value);
            && (p.None? <==> Overfull(R, S, b))
            && (p.Some? ==> p.value.slots == View(R, S, b) && !p.value.stopped && p.value.rest == [])
  {
    DecodeIsMerge(R, S, Defaults(R), b);
    MergeIsView(R, S, b);
  }

  // ---- one table, read and written ----------------------------------------------------------

  lemma {:induction false} AgreeWithItself(fs: seq<Field>)
    requires TableOk(fs)
    ensures Agree(fs, fs) && SameUnions(fs, fs)
  {
    forall j | 0 <= j < |fs|
      ensures Lookup(fs, fs[j].tag) == Some(j) && FieldsAgree(fs[j], fs[j]) && SameUnions(fs[j].sub, fs[j].sub)
    {
      LookupUnique(fs, j);
      assert FieldOk(fs[j]);
      AgreeWithItself(fs[j].sub);
    }
  }

  /** How much is asked of a struct besides that its values fit. `Tidy`: absent fields hold their defaults,
      and bools are 0 or 1. `Exact`: strings also stop at their terminator. */
  datatype Level = Loose | Tidy | Exact

  /** Structs as the decoder leaves them: integers fit their fields, strings and arrays their buffers,
      and a union's tag is that of one of its members. */
  predicate Formed(fs: seq<Field>, slots: seq<Slot>, level: Level)
    decreases fs, 2
  {
    |slots| == |fs| && forall i :: 0 <= i < |fs| ==> FormedSlot(fs, slots[i], i, level)
  }

  predicate FormedSlot(fs: seq<Field>, slot: Slot, i: nat, level: Level)
    requires i < |fs|
    decreases fs, 1
  {
    var f := fs[i];
    if Joins(fs, i) then slot == Shared
    else
      match f.rule
      case Required => slot.Plain? && FormedValue(f, slot.v, level)
      case Optional =>
        if f.HasSize() then
          slot.Opt? && FormedValue(f, slot.v, level) && (slot.has || level.Loose? || slot.v == DefaultValue(f))
        else slot.Plain? && FormedValue(f, slot.v, level)
      case Repeated =>
        && slot.Rep?
        && |slot.items| <= f.arraySize
        && forall k :: 0 <= k < |slot.items| ==> FormedValue(f, slot.items[k], level)
      case OneOf =>
        slot.Unset? || (slot.Union? && exists m :: 0 <= m < |fs| && FormedMember(fs, i, slot, m, level))
  }

  predicate FormedMember(fs: seq<Field>, i: nat, slot: Slot, m: nat, level: Level)
    requires m < |fs| && slot.Union?
    decreases fs, 0
  {
    SlotOf(fs, m) == i && fs[m].tag == slot.which && FormedValue(fs[m], slot.v, level)
  }

  predicate FormedValue(f: Field, v: Value, level: Level)
    decreases f, 3
  {
    if f.ltype.SubmessageT? then v.Msg? && Formed(f.sub, v.slots, level)
    else ScalarOk(f, v) && (level.Loose? || (level.Tidy? && f.ltype.StringT?) || Settled(f, v))
  }

  predicate Clean(fs: seq<Field>, slots: seq<Slot>) { Formed(fs, slots, Exact) }

  lemma {:induction false} DefaultsFormed(fs: seq<Field>)
    requires TableOk(fs)
    ensures Formed(fs, Defaults(fs), Exact)
    decreases fs, 1
  {
    forall i | 0 <= i < |fs| ensures FormedSlot(fs, Defaults(fs)[i], i, Exact) {
      assert FieldOk(fs[i]);
      DefaultFormed(fs[i]);
    }
  }

  lemma {:induction false} DefaultFormed(f: Field)
    requires FieldOk(f)
    ensures FormedValue(f, DefaultValue(f), Exact)
    decreases f, 0
  {
    if f.ltype.SubmessageT? {
      DefaultsFormed(f.sub);
    }
  }

  lemma {:induction false} CStringWhole(data: bytes, max: nat)
    requires 0 !in data && |data| <= max
    ensures CString(data, max) == data
  {
    if data != [] {
      CStringWhole(data[1..], max - 1);
    }
  }

  /** A clean value that the proto3 zero check calls zero is the default value. */
  lemma {:induction false} ZeroIsDefault(f: Field, v: Value)
    requires FieldOk(f) && FormedValue(f, v, Exact) && IsZeroValue(f, v)
    requires f.ltype.SubmessageT? || f.initial == ZeroValue(f)
    ensures v == DefaultValue(f)
    decreases f, 0
  {
    if f.ltype.SubmessageT? {
      forall i | 0 <= i < |f.sub| ensures v.slots[i] == Defaults(f.sub)[i] {
        assert IsZeroField(f.sub, v.slots, i);
        ZeroSlotIsDefault(f.sub, v.slots, i);
      }
      assert v.slots == Defaults(f.sub);
    } else if f.ltype.StringT? {
      CStringWhole(v.data, f.dataSize);
    }
  }

  lemma {:induction false} ZeroSlotIsDefault(fs: seq<Field>, slots: seq<Slot>, i: nat)
    requires TableOk(fs) && Clean(fs, slots) && i < |fs| && IsZeroField(fs, slots, i)
    ensures slots[i] == DefaultSlot(fs, i)
    decreases fs, 0
  {
    var f := fs[i];
    assert FieldOk(f) && FormedSlot(fs, slots[i], i, Exact);
    SharedIsOneOf(fs, i);
    if !Joins(fs, i) {
      match f.rule
      case Optional =>
        if !f.HasSize() {
          ZeroIsDefault(f, slots[i].v);
        }
      case _ =>
    }
  }

  lemma {:induction false} CleanViewValue(f: Field, v: Value)
    requires FieldOk(f) && FormedValue(f, v, Exact)
    ensures MergedValue(f, DefaultValue(f), f, v) == v
    decreases f, 0
  {
    if f.ltype.SubmessageT? {
      CleanView(f.sub, v.slots);
    } else if f.ltype.StringT? {
      CStringWhole(v.data, f.dataSize);
    }
  }

  lemma {:induction false} CleanViewSlot(fs: seq<Field>, slots: seq<Slot>, j: nat)
    requires TableOk(fs) && Clean(fs, slots) && j < |fs|
    ensures MergedSlot(fs, Defaults(fs), fs, slots, j) == slots[j]
    decreases fs, 0
  {
    assert FormedSlot(fs, slots[j], j, Exact) && FieldOk(fs[j]);
    AgreeWithItself(fs);
    var filler := FillerFrom(fs, fs, slots, j, 0);
    if filler.Some? {
      var m := filler.value;
      LookupUnique(fs, m);
      assert FieldOk(fs[m]);
      SharedIsOneOf(fs, m);
      CleanFilled(fs, slots, j, m);
    } else {
      LookupUnique(fs, j);
      CleanUnfilled(fs, slots, j);
    }
  }

  lemma {:induction false} CleanFilled(fs: seq<Field>, slots: seq<Slot>, j: nat, m: nat)
    requires TableOk(fs) && Clean(fs, slots) && m < |fs| && SlotOf(fs, m) == j && Present(fs, slots, m)
    ensures FilledSlot(fs[m], DefaultSlot(fs, j), fs[m], slots[j]) == slots[j]
    decreases fs, 0, 0
  {
    var f, slot := fs[m], slots[j];
    assert FormedSlot(fs, slots[j], j, Exact) && FieldOk(f);
    SharedIsOneOf(fs, m);
    match f.rule
    case Required => CleanViewValue(f, slot.v);
    case Optional => CleanViewValue(f, slot.v);
    case Repeated =>
      forall k | 0 <= k < |slot.items| ensures MergedItems(f, f, slot.items)[k] == slot.items[k] {
        CleanViewValue(f, slot.items[k]);
      }
      assert MergedItems(f, f, slot.items) == slot.items;
    case OneOf =>
      var n :| 0 <= n < |fs| && FormedMember(fs, j, slot, n, Exact);
      SameTag(fs, m, n);
      CleanViewValue(f, slot.v);
  }

  lemma SameTag(fs: seq<Field>, m: nat, n: nat)
    requires UniqueTags(fs) && m < |fs| && n < |fs| && fs[m].tag == fs[n].tag
    ensures m == n
  {
    LookupUnique(fs, m);
    LookupUnique(fs, n);
  }

  lemma {:induction false} CleanUnfilled(fs: seq<Field>, slots: seq<Slot>, j: nat)
    requires TableOk(fs) && Clean(fs, slots) && j < |fs|
    requires FillerFrom(fs, fs, slots, j, 0).None?
    ensures slots[j] == DefaultSlot(fs, j)
  {
    var f := fs[j];
    assert FormedSlot(fs, slots[j], j, Exact) && FieldOk(f);
    LookupUnique(fs, j);
    if !Joins(fs, j) {
      assert SlotOf(fs, j) == j && !Present(fs, slots, j);
      match f.rule
      case Optional =>
        if !f.HasSize() {
          ZeroIsDefault(f, slots[j].v);
        }
      case OneOf =>
        if slots[j].Union? {
          var m :| 0 <= m < |fs| && FormedMember(fs, j, slots[j], m, Exact);
          LookupUnique(fs, m);
        }
      case _ =>
    }
  }

  lemma {:induction false} CleanView(fs: seq<Field>, slots: seq<Slot>)
    requires TableOk(fs) && Clean(fs, slots)
    ensures View(fs, fs, slots) == slots
    decreases fs, 1
  {
    forall j | 0 <= j < |fs| ensures View(fs, fs, slots)[j] == slots[j] {
      CleanViewSlot(fs, slots, j);
    }
  }

  // ---- every view is clean --------------------------------------------------------------------

  lemma {:induction false} ValueComesOutClean(r: Field, s: Field, v: Value)
    requires FieldsAgree(r, s) && SameUnions(r.sub, s.sub) && FieldOk(r) && FieldOk(s) && ValueOk(s, v)
    requires !ValueOverfull(r, s, v)
    ensures FormedValue(r, MergedValue(r, DefaultValue(r), s, v), Exact)
    decreases s, 0
  {
    if s.ltype.SubmessageT? {
      ViewClean(r.sub, s.sub, v.slots);
    }
  }

  lemma {:induction false} SlotComesOutClean(R: seq<Field>, S: seq<Field>, b: seq<Slot>, m: nat, i: nat)
    requires TableOk(R) && TableOk(S) && MessageOk(S, b) && m < |R| && i < |S| && Present(S, b, i)
    requires FieldsAgree(R[m], S[i]) && SameUnions(R[m].sub, S[i].sub)
    requires !AnyOverfull(R[m], S[i], Occurrences(S, b, i))
    ensures var k := SlotOf(R, m);
            FormedSlot(R, FilledSlot(R[m], DefaultSlot(R, k), S[i], b[SlotOf(S, i)]), k, Exact)
    decreases S, 0
  {
    var r, s, k, slot := R[m], S[i], SlotOf(R, m), b[SlotOf(S, i)];
    assert FieldOk(r) && FieldOk(s) && SlotOk(S, b, i);
    SharedIsOneOf(R, m);
    match s.rule
    case Repeated =>
      forall n | 0 <= n < |slot.items| ensures FormedValue(r, MergedItems(r, s, slot.items)[n], Exact) {
        NoneOverfull(r, s, slot.items, n);
        ValueComesOutClean(r, s, slot.items[n]);
      }
    case OneOf =>
      ValueComesOutClean(r, s, slot.v);
      assert FormedMember(R, k, FilledSlot(r, DefaultSlot(R, k), s, slot), m, Exact);
    case _ => ValueComesOutClean(r, s, slot.v);
  }

  lemma {:induction false} NoneOverfull(r: Field, s: Field, items: seq<Value>, n: nat)
    requires n < |items| && !AnyOverfull(r, s, items)
    ensures !ValueOverfull(r, s, items[n])
  {
    if n > 0 {
      NoneOverfull(r, s, items[1..], n - 1);
    }
  }

  lemma {:induction false} FieldNotOverfull(R: seq<Field>, S: seq<Field>, b: seq<Slot>, i: nat, k: nat)
    requires |b| == |S| && i <= k < |S| && !OverfullFrom(R, S, b, i) && Lookup(R, S[k].tag).Some?
    ensures !AnyOverfull(R[Lookup(R, S[k].tag).value], S[k], Occurrences(S, b, k))
    decreases k - i
  {
    if i < k {
      FieldNotOverfull(R, S, b, i + 1, k);
    }
  }

  /** What is decoded is in normal form, whatever the message held in fields it does not send. */
  lemma {:induction false} ViewClean(R: seq<Field>, S: seq<Field>, b: seq<Slot>)
    requires TableOk(R) && TableOk(S) && Agree(R, S) && SameUnions(R, S) && MessageOk(S, b) && !Overfull(R, S, b)
    ensures Clean(R, View(R, S, b))
    decreases S, 2
  {
    forall j | 0 <= j < |R| ensures FormedSlot(R, View(R, S, b)[j], j, Exact) {
      ViewSlotClean(R, S, b, j);
    }
  }

  lemma {:induction false} ViewSlotClean(R: seq<Field>, S: seq<Field>, b: seq<Slot>, j: nat)
    requires TableOk(R) && TableOk(S) && Agree(R, S) && SameUnions(R, S) && MessageOk(S, b) && j < |R|
    requires !Overfull(R, S, b)
    ensures FormedSlot(R, MergedSlot(R, Defaults(R), S, b, j), j, Exact)
    decreases S, 1
  {
    DefaultsFormed(R);
    assert FormedSlot(R, Defaults(R)[j], j, Exact);
    hide Formed, FormedSlot, FilledSlot, DefaultSlot, TableOk, MessageOk, AnyOverfull, OverfullFrom;
    match FillerFrom(R, S, b, j, 0)
    case None =>
    case Some(m) =>
      var w := WriterOf(R, S, b, m).value;
      LookupUnique(R, m);
      FieldNotOverfull(R, S, b, 0, w);
      SlotComesOutClean(R, S, b, m, w);
  }

  // ---- what the decoder leaves can be sent --------------------------------------------------------------------

  lemma {:induction false} FormedNeverOverfull(R: seq<Field>, S: seq<Field>, b: seq<Slot>, i: nat)
    requires TableOk(S) && Agree(R, S) && Formed(S, b, Loose) && i <= |S|
    ensures !OverfullFrom(R, S, b, i)
    decreases S, 1, |S| - i
  {
    if i < |S| {
      if Lookup(R, S[i].tag).Some? {
        FormedFieldFits(R, S, b, i);
      }
      FormedNeverOverfull(R, S, b, i + 1);
    }
  }

  lemma {:induction false} FormedFieldFits(R: seq<Field>, S: seq<Field>, b: seq<Slot>, i: nat)
    requires TableOk(S) && Agree(R, S) && Formed(S, b, Loose) && i < |S| && Lookup(R, S[i].tag).Some?
    ensures !AnyOverfull(R[Lookup(R, S[i].tag).value], S[i], Occurrences(S, b, i))
    decreases S, 0
  {
    var s, k := S[i], SlotOf(S, i);
    var r, slot := R[Lookup(R, s.tag).value], b[k];
    assert FieldOk(s) && FormedSlot(S, slot, k, Loose);
    AgreeingReaders(R, S, i);
    SharedIsOneOf(S, i);
    if Present(S, b, i) {
      match s.rule
      case Repeated => FormedItemsFit(r, s, slot.items);
      case OneOf =>
        var n :| 0 <= n < |S| && FormedMember(S, k, slot, n, Loose);
        SameTag(S, n, i);
        FormedItemsFit(r, s, [slot.v]);
      case _ => FormedItemsFit(r, s, [slot.v]);
    }
  }

  lemma {:induction false} FormedItemsFit(r: Field, s: Field, items: seq<Value>)
    requires FieldsAgree(r, s) && FieldOk(s) && forall k :: 0 <= k < |items| ==> FormedValue(s, items[k], Loose)
    ensures !AnyOverfull(r, s, items)
    decreases s, 2, |items|
  {
    if items != [] {
      if s.ltype.SubmessageT? {
        FormedNeverOverfull(r.sub, s.sub, items[0].slots, 0);
      }
      FormedItemsFit(r, s, items[1..]);
    }
  }

  lemma {:induction false} CleanIsFormed(fs: seq<Field>, slots: seq<Slot>, level: Level)
    requires Formed(fs, slots, Exact)
    ensures Formed(fs, slots, level)
    decreases fs, 1
  {
    forall i | 0 <= i < |fs| ensures FormedSlot(fs, slots[i], i, level) {
      assert FormedSlot(fs, slots[i], i, Exact);
      var f, slot := fs[i], slots[i];
      if !Joins(fs, i) {
        match f.rule
        case Required => CleanValueIsFormed(f, slot.v, level);
        case Optional => CleanValueIsFormed(f, slot.v, level);
        case Repeated =>
          forall k | 0 <= k < |slot.items| ensures FormedValue(f, slot.items[k], level) {
            CleanValueIsFormed(f, slot.items[k], level);
          }
        case OneOf =>
          if slot.Union? {
            var m :| 0 <= m < |fs| && FormedMember(fs, i, slot, m, Exact);
            CleanValueIsFormed(fs[m], slot.v, level);
            assert FormedMember(fs, i, slot, m, level);
          }
      }
    }
  }

  lemma {:induction false} CleanValueIsFormed(f: Field, v: Value, level: Level)
    requires FormedValue(f, v, Exact)
    ensures FormedValue(f, v, level)
    decreases f, 0
  {
    if f.ltype.SubmessageT? {
      CleanIsFormed(f.sub, v.slots, level);
    }
  }

  /** The round trip: a clean message is decoded from its encoding unchanged. */
  lemma RoundTrip(fs: seq<Field>, m: seq<Slot>)
    requires TableOk(fs) && MessageOk(fs, m) && Clean(fs, m)
    ensures Encode(fs, m).Some?
    ensures var p := Decode(fs, Encode(fs, m).value);
            p.Some? && p.value.slots == m && !p.value.stopped && p.value.rest == []
  {
    AgreeWithItself(fs);
    CleanIsFormed(fs, m, Loose);
    FormedNeverOverfull(fs, fs, m, 0);
    DecodeIsView(fs, fs, m);
    CleanView(fs, m);
  }
}
