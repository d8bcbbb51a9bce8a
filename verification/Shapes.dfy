/** Structs of a table's C type, whatever they hold: counts may exceed their arrays and union tags may
    name no member. Decoding keeps a struct's shape. */
module Shapes {
  import opened Words
  import opened Schema
  import opened Wire
  import opened Decoding

  predicate Shaped(fs: seq<Field>, slots: seq<Slot>)
    decreases fs, 2
  {
    |slots| == |fs| && forall i :: 0 <= i < |fs| ==> ShapedSlot(fs, slots[i], i)
  }

  predicate ShapedSlot(fs: seq<Field>, slot: Slot, i: nat)
    requires i < |fs|
    decreases fs, 1
  {
    var f := fs[i];
    if Joins(fs, i) then slot == Shared
    else
      match f.rule
      case Required => slot.Plain? && ShapedValue(f, slot.v)
      case Optional =>
        if f.HasSize() then slot.Opt? && ShapedValue(f, slot.v) else slot.Plain? && ShapedValue(f, slot.v)
      case Repeated => slot.Rep?
      case OneOf =>
        slot.Unset? || (slot.Union? && forall m :: 0 <= m < |fs| ==> ShapedMember(fs, i, slot, m))
  }

  /** The contents of a union are those of the member its tag names, if it names one. */
  predicate ShapedMember(fs: seq<Field>, i: nat, slot: Slot, m: nat)
    requires m < |fs| && slot.Union?
    decreases fs, 0
  {
    SlotOf(fs, m) == i && fs[m].tag == slot.which ==> ShapedValue(fs[m], slot.v)
  }

  predicate ShapedValue(f: Field, v: Value)
    decreases f, 3
  {
    f.ltype.SubmessageT? ==> v.Msg? && Shaped(f.sub, v.slots)
  }

  lemma {:induction false} DefaultsShaped(fs: seq<Field>)
    ensures Shaped(fs, Defaults(fs))
    decreases fs, 1
  {
    forall i | 0 <= i < |fs| ensures ShapedSlot(fs, Defaults(fs)[i], i) {
      DefaultShaped(fs[i]);
    }
  }

  lemma {:induction false} DefaultShaped(f: Field)
    ensures ShapedValue(f, DefaultValue(f))
    decreases f, 0
  {
    if f.ltype.SubmessageT? {
      DefaultsShaped(f.sub);
    }
  }

  lemma ShapedLength(fs: seq<Field>, a: seq<Slot>)
    requires Shaped(fs, a)
    ensures |a| == |fs|
  {
  }

  lemma SlotShaped(fs: seq<Field>, a: seq<Slot>, k: nat)
    requires Shaped(fs, a) && k < |fs|
    ensures |a| == |fs| && ShapedSlot(fs, a[k], k)
  {
  }

  lemma UpdateShaped(fs: seq<Field>, a: seq<Slot>, k: nat, slot: Slot)
    requires Shaped(fs, a) && k < |fs| && ShapedSlot(fs, slot, k)
    ensures Shaped(fs, a[k := slot])
  {
  }

  /** The value a union member is decoded over has the member's shape. */
  lemma BaseShaped(fs: seq<Field>, i: nat, slot: Slot)
    requires i < |fs| && fs[i].rule.OneOf? && ShapedSlot(fs, slot, SlotOf(fs, i))
    ensures ShapedValue(fs[i], UnionBase(fs[i], slot))
  {
    SharedIsOneOf(fs, i);
    DefaultShaped(fs[i]);
    if slot.Union? {
      assert ShapedMember(fs, SlotOf(fs, i), slot, i);
    }
  }

  /** Storing a member's value under its tag. */
  lemma MemberShaped(fs: seq<Field>, i: nat, v: Value)
    requires UniqueTags(fs) && i < |fs| && fs[i].rule.OneOf? && ShapedValue(fs[i], v)
    ensures ShapedSlot(fs, Union(fs[i].tag, v), SlotOf(fs, i))
  {
    SharedIsOneOf(fs, i);
    forall m | 0 <= m < |fs| ensures ShapedMember(fs, SlotOf(fs, i), Union(fs[i].tag, v), m) {
      if fs[m].tag == fs[i].tag {
        LookupUnique(fs, m);
        LookupUnique(fs, i);
      }
    }
  }

  lemma {:induction false} ValueShaped(f: Field, s: bytes, prior: Value)
    requires TableOk(f.sub)
    requires f.ltype.SubmessageT? && !f.rule.Repeated? ==> ShapedValue(f, prior)
    ensures DecodeValue(f, s, prior).Got? ==> ShapedValue(f, DecodeValue(f, s, prior).value)
    decreases f, 0, 0
  {
    if f.ltype.SubmessageT? {
      var p := ReadDelimited(s);
      if p.Got? {
        DefaultsShaped(f.sub);
        var base := if f.rule.Repeated? then DefaultValue(f) else prior;
        LoopShaped(f.sub, p.value, base.slots, {});
      }
    }
  }

  lemma {:induction false} FieldShaped(fs: seq<Field>, i: nat, wt: nat, s: bytes, a: seq<Slot>)
    requires TableOk(fs) && |a| == |fs| && Shaped(fs, a) && i < |fs|
    ensures DecodeField(fs, i, wt, s, a).Got? ==> Shaped(fs, DecodeField(fs, i, wt, s, a).value)
    decreases fs, |s|, 0
  {
    hide Shaped, ReadDelimited, DecodePacked;
    var k := SlotOf(fs, i);
    var p := DecodeField(fs, i, wt, s, a);
    SlotShaped(fs, a, k);
    if p.Got? {
      FieldSlotShaped(fs, i, wt, s, a);
      UpdateShaped(fs, a, k, p.value[k]);
      assert p.value == a[k := p.value[k]];
    }
  }

  lemma {:induction false} FieldSlotShaped(fs: seq<Field>, i: nat, wt: nat, s: bytes, a: seq<Slot>)
    requires TableOk(fs) && |a| == |fs| && i < |fs| && ShapedSlot(fs, a[SlotOf(fs, i)], SlotOf(fs, i))
    requires DecodeField(fs, i, wt, s, a).Got?
    ensures ShapedSlot(fs, DecodeField(fs, i, wt, s, a).value[SlotOf(fs, i)], SlotOf(fs, i))
    decreases fs, |s|, 0, 0
  {
    var f, slot := fs[i], a[SlotOf(fs, i)];
    assert FieldOk(f);
    SharedIsOneOf(fs, i);
    match f.rule
    case Required => ValueShaped(f, s, slot.v);
    case Optional => ValueShaped(f, s, slot.v);
    case Repeated =>
    case OneOf =>
      BaseShaped(fs, i, slot);
      var base := UnionBase(f, slot);
      ValueShaped(f, s, base);
      MemberShaped(fs, i, DecodeValue(f, s, base).value);
  }

  lemma {:induction false} LoopShaped(fs: seq<Field>, s: bytes, a: seq<Slot>, seen: set<nat>)
    requires TableOk(fs) && |a| == |fs| && Shaped(fs, a)
    ensures DecodeLoop(fs, s, a, seen).Some? ==> Shaped(fs, DecodeLoop(fs, s, a, seen).value.slots)
    decreases fs, |s|, 1
  {
    hide Shaped, ReadTag, SkipField, DecodeField, DecodeScalar, Lookup, TableOk;
    if s != [] {
      match ReadTag(s)
      case TagBad =>
      case TagZero(after) =>
      case Tag(tag, wt, after) =>
        if fs == [] && tag == 0 {
          ScalarShrinks(Terminator(), after);
          var p := DecodeScalar(Terminator(), after);
          if p.Got? {
            LoopShaped(fs, p.rest, a, seen);
          }
        } else {
          match Lookup(fs, tag)
          case None =>
            var p := SkipField(wt, after);
            if p.Got? {
              LoopShaped(fs, p.rest, a, seen);
            }
          case Some(i) =>
            FieldShaped(fs, i, wt, after, a);
            var p := DecodeField(fs, i, wt, after, a);
            if p.Got? {
              LoopShaped(fs, p.rest, p.value, seen + {i});
            }
        }
    }
  }
}
