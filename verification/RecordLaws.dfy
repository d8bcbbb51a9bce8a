/** What one record does to a struct, said through other records and other structs: two records of a submessage
    are one with both payloads, the last scalar wins, a union that changes members starts over, and what no
    record reaches stays as it was. */
module RecordLaws {
  import opened Words
  import opened Schema
  import opened Wire
  import opened Encoding
  import opened Decoding
  import opened Merging
  import opened Concatenation

  // ---- two records of one field -------------------------------------------------------------

  /** Read to its end, into any struct that takes it: no zero tag is met. */
  ghost predicate ReadToEnd(fs: seq<Field>, s: bytes) {
    forall a: seq<Slot> :: |a| == |fs| ==> EndsWithout(DecodeLoop(fs, s, a, {}))
  }

  predicate EndsWithout(p: Option<Progress>) { p.Some? ==> !p.value.stopped }

  predicate NothingRequired(fs: seq<Field>) {
    forall i :: 0 <= i < |fs| ==> !fs[i].rule.Required?
  }

  /** Encoded messages are. */
  lemma EncodedReadToEnd(R: seq<Field>, S: seq<Field>, b: seq<Slot>)
    requires TableOk(S) && Agree(R, S) && MessageOk(S, b)
    ensures Encode(S, b).Some? && ReadToEnd(R, Encode(S, b).value)
  {
    hide DecodeLoop, TableOk, Agree;
    EncodedAlone(R, S, Defaults(R), b);
    var s := Encode(S, b).value;
    forall a: seq<Slot> | |a| == |R| ensures EndsWithout(DecodeLoop(R, s, a, {})) {
      EncodedAlone(R, S, a, b);
    }
  }

  /** The decoder of a submessage value that is not an array element. */
  lemma SubmessageValue(f: Field, s: bytes, t: bytes, base: Value)
    requires f.ltype.SubmessageT? && !f.rule.Repeated? && |s| < WORD32
    ensures DecodeValue(f, Delimited(s) + t, base)
         == if !(base.Msg? && |base.slots| == |f.sub|) || DecodeInto(f.sub, s, base.slots).None? then Bad
            else Got(Msg(DecodeInto(f.sub, s, base.slots).value.slots), t)
  {
    hide DecodeInto, ReadDelimited, Delimited;
    ReadDelimitedWritten(s, t);
  }

  /** Two payloads over one value. */
  lemma SubmessageValues(f: Field, s1: bytes, s2: bytes, t1: bytes, t2: bytes, base: Value)
    requires f.ltype.SubmessageT? && !f.rule.Repeated? && |s1| + |s2| < WORD32
    requires NothingRequired(f.sub) && ReadToEnd(f.sub, s1)
    requires DecodeValue(f, Delimited(s1) + t1, base).Got?
    ensures DecodeValue(f, Delimited(s1 + s2) + t2, base)
         == DecodeValue(f, Delimited(s2) + t2, DecodeValue(f, Delimited(s1) + t1, base).value)
  {
    hide DecodeInto, DecodeValue, Delimited;
    SubmessageValue(f, s1, t1, base);
    SubmessageValue(f, s1 + s2, t2, base);
    var p := DecodeInto(f.sub, s1, base.slots);
    SubmessageValue(f, s2, t2, Msg(p.value.slots));
    IntoIsLoop(f.sub, s1, base.slots);
    assert EndsWithout(DecodeLoop(f.sub, s1, base.slots, {}));
    ConcatenationWithoutRequired(f.sub, s1, s2, base.slots);
  }

  lemma IntoIsLoop(fs: seq<Field>, s: bytes, a: seq<Slot>)
    requires |a| == |fs| && DecodeInto(fs, s, a).Some?
    ensures DecodeInto(fs, s, a) == DecodeLoop(fs, s, a, {})
  {
  }

  /** The slot of a field that is no array, once it holds a value. */
  function Holding(f: Field, v: Value): Slot {
    match f.rule
    case OneOf => Union(f.tag, v)
    case Optional => if f.HasSize() then Opt(true, v) else Plain(v)
    case _ => Plain(v)
  }

  /** The slot can take such a value. */
  predicate Takes(fs: seq<Field>, i: nat, slot: Slot)
    requires i < |fs|
  {
    match fs[i].rule
    case Required => slot.Plain?
    case Optional => if fs[i].HasSize() then slot.Opt? else slot.Plain?
    case Repeated => false
    case OneOf => (slot.Union? || slot.Unset?) && !ReleaseFails(fs, fs[i], slot)
  }

  /** The value such a record is decoded over. */
  function BaseOf(f: Field, slot: Slot): Value
  {
    match slot
    case Plain(v) => v
    case Opt(_, v) => v
    case _ => UnionBase(f, slot)
  }

  lemma FieldBySlot(fs: seq<Field>, i: nat, wt: nat, s: bytes, a: seq<Slot>)
    requires |a| == |fs| && i < |fs| && !fs[i].rule.Repeated?
    ensures var f, k := fs[i], SlotOf(fs, i);
            DecodeField(fs, i, wt, s, a)
              == if !Takes(fs, i, a[k]) || DecodeValue(f, s, BaseOf(f, a[k])).Bad? then Bad
                 else Got(a[k := Holding(f, DecodeValue(f, s, BaseOf(f, a[k])).value)],
                          DecodeValue(f, s, BaseOf(f, a[k])).rest)
  {
    hide DecodeValue, UnionBase, ReleaseFails;
  }

  /** A slot that holds a value takes the next one, over that value if it is a submessage. */
  lemma HoldingTakes(fs: seq<Field>, i: nat, v: Value)
    requires i < |fs| && !fs[i].rule.Repeated?
    ensures var slot := Holding(fs[i], v);
            Takes(fs, i, slot) && (fs[i].ltype.SubmessageT? ==> BaseOf(fs[i], slot) == v)
  {
  }

  lemma UpdateTwice(a: seq<Slot>, k: nat, x: Slot, y: Slot)
    requires k < |a|
    ensures a[k := x][k := y] == a[k := y]
  {
  }

  /** A second record of a submessage continues the first: the two leave what a single record with both payloads
      leaves, and fail when it does. This holds of required, optional and union members alike. */
  lemma SubmessageRecordsJoin(fs: seq<Field>, i: nat, wt: nat, s1: bytes, s2: bytes, t1: bytes, t2: bytes, a: seq<Slot>)
    requires |a| == |fs| && i < |fs| && fs[i].ltype.SubmessageT? && !fs[i].rule.Repeated? && |s1| + |s2| < WORD32
    requires NothingRequired(fs[i].sub) && ReadToEnd(fs[i].sub, s1)
    requires DecodeField(fs, i, wt, Delimited(s1) + t1, a).Got?
    ensures DecodeField(fs, i, wt, Delimited(s2) + t2, DecodeField(fs, i, wt, Delimited(s1) + t1, a).value)
         == DecodeField(fs, i, wt, Delimited(s1 + s2) + t2, a)
  {
    hide DecodeField, DecodeValue, Delimited, NothingRequired, ReadToEnd, BaseOf, Holding, Takes;
    var f, k := fs[i], SlotOf(fs, i);
    var base := BaseOf(f, a[k]);
    FieldBySlot(fs, i, wt, Delimited(s1) + t1, a);
    SubmessageValues(f, s1, s2, t1, t2, base);
    var v := DecodeValue(f, Delimited(s1) + t1, base).value;
    HoldingTakes(fs, i, v);
    FieldBySlot(fs, i, wt, Delimited(s2) + t2, a[k := Holding(f, v)]);
    FieldBySlot(fs, i, wt, Delimited(s1 + s2) + t2, a);
    var p := DecodeValue(f, Delimited(s2) + t2, v);
    if p.Got? {
      UpdateTwice(a, k, Holding(f, v), Holding(f, p.value));
    }
  }

  /** The last of two records of a scalar wins: the first leaves no trace. */
  lemma LastScalarWins(fs: seq<Field>, i: nat, wt: nat, s1: bytes, s2: bytes, a: seq<Slot>)
    requires |a| == |fs| && i < |fs| && !fs[i].ltype.SubmessageT? && !fs[i].rule.Repeated?
    requires DecodeField(fs, i, wt, s1, a).Got?
    ensures DecodeField(fs, i, wt, s2, DecodeField(fs, i, wt, s1, a).value) == DecodeField(fs, i, wt, s2, a)
  {
    hide DecodeField, DecodeValue, BaseOf, Holding, Takes;
    var f, k := fs[i], SlotOf(fs, i);
    FieldBySlot(fs, i, wt, s1, a);
    var v := DecodeValue(f, s1, BaseOf(f, a[k])).value;
    HoldingTakes(fs, i, v);
    FieldBySlot(fs, i, wt, s2, a[k := Holding(f, v)]);
    FieldBySlot(fs, i, wt, s2, a);
    ScalarAlone(f, s2, BaseOf(f, a[k]), BaseOf(f, Holding(f, v)));
    var p := DecodeValue(f, s2, BaseOf(f, a[k]));
    if p.Got? {
      UpdateTwice(a, k, Holding(f, v), Holding(f, p.value));
    }
  }

  lemma ScalarAlone(f: Field, s: bytes, x: Value, y: Value)
    requires !f.ltype.SubmessageT?
    ensures DecodeValue(f, s, x) == DecodeValue(f, s, y)
  {
  }

  // ---- unions -----------------------------------------------------------------------------------

  /** A member arriving where another known member is active, or none, finds the union as if unset. */
  lemma UnionStartsOver(fs: seq<Field>, i: nat, wt: nat, s: bytes, a: seq<Slot>)
    requires |a| == |fs| && i < |fs| && fs[i].rule.OneOf? && fs[i].tag > 0 && a[SlotOf(fs, i)].Union?
    requires var which := a[SlotOf(fs, i)].which;
             which != fs[i].tag && (which == 0 || exists m :: 0 <= m < |fs| && fs[m].tag == which)
    ensures DecodeField(fs, i, wt, s, a) == DecodeField(fs, i, wt, s, a[SlotOf(fs, i) := Unset])
  {
    hide DecodeField, DecodeValue;
    var f, k := fs[i], SlotOf(fs, i);
    FieldBySlot(fs, i, wt, s, a);
    FieldBySlot(fs, i, wt, s, a[k := Unset]);
    var p := DecodeValue(f, s, BaseOf(f, Unset));
    if p.Got? {
      UpdateTwice(a, k, Unset, Holding(f, p.value));
    }
  }

  /** A tag that names no field is an error, whatever arrives. */
  lemma UnionOfUnknown(fs: seq<Field>, i: nat, wt: nat, s: bytes, a: seq<Slot>)
    requires |a| == |fs| && i < |fs| && fs[i].rule.OneOf? && a[SlotOf(fs, i)].Union?
    requires var which := a[SlotOf(fs, i)].which;
             which != fs[i].tag && which != 0 && forall m :: 0 <= m < |fs| ==> fs[m].tag != which
    ensures DecodeField(fs, i, wt, s, a) == Bad
  {
  }

  /** On an unset union a submessage member is decoded as a message of its own, and stored under its tag. */
  lemma UnionFirstMember(fs: seq<Field>, i: nat, wt: nat, s: bytes, t: bytes, a: seq<Slot>)
    requires |a| == |fs| && i < |fs| && fs[i].rule.OneOf? && a[SlotOf(fs, i)].Unset?
    requires fs[i].ltype.SubmessageT? && |s| < WORD32
    ensures DecodeField(fs, i, wt, Delimited(s) + t, a)
         == match Decode(fs[i].sub, s)
            case None => Bad
            case Some(p) => Got(a[SlotOf(fs, i) := Union(fs[i].tag, Msg(p.slots))], t)
  {
    hide DecodeInto, Delimited;
    SubmessageValue(fs[i], s, t, DefaultValue(fs[i]));
  }

  /** So is an array element; it is appended. */
  lemma ElementRecord(fs: seq<Field>, i: nat, wt: nat, s: bytes, t: bytes, a: seq<Slot>)
    requires |a| == |fs| && i < |fs| && fs[i].rule.Repeated? && a[SlotOf(fs, i)].Rep?
    requires fs[i].ltype.SubmessageT? && |s| < WORD32
    ensures var k := SlotOf(fs, i);
            DecodeField(fs, i, wt, Delimited(s) + t, a)
              == match Decode(fs[i].sub, s)
                 case None => Bad
                 case Some(p) =>
                   if |a[k].items| < fs[i].arraySize then Got(a[k := Rep(a[k].items + [Msg(p.slots)])], t) else Bad
  {
    hide DecodeInto, ReadDelimited, Delimited;
    ReadDelimitedWritten(s, t);
  }

  // ---- what no record reaches ---------------------------------------------------------------------

  /** None of the fields is stored in slot k. */
  predicate Misses(fs: seq<Field>, seen: set<nat>, k: nat) {
    forall i :: i in seen && i < |fs| ==> SlotOf(fs, i) != k
  }

  lemma FieldKeeps(fs: seq<Field>, i: nat, wt: nat, s: bytes, a: seq<Slot>, k: nat)
    requires |a| == |fs| && i < |fs| && k < |fs| && SlotOf(fs, i) != k && DecodeField(fs, i, wt, s, a).Got?
    ensures DecodeField(fs, i, wt, s, a).value[k] == a[k]
  {
    hide DecodeValue, ReadDelimited, DecodePacked;
  }

  /** The record loop changes only slots of fields it has records of. */
  lemma {:induction false} LoopKeeps(fs: seq<Field>, s: bytes, a: seq<Slot>, seen: set<nat>, k: nat)
    requires |a| == |fs| && k < |fs|
    ensures var p := DecodeLoop(fs, s, a, seen);
            p.Some? ==> seen <= p.value.seen && (Misses(fs, p.value.seen, k) ==> p.value.slots[k] == a[k])
    decreases |s|
  {
    hide ReadTag, SkipField, DecodeField, DecodeScalar, Lookup;
    if s != [] {
      match ReadTag(s)
      case TagBad =>
      case TagZero(after) =>
      case Tag(tag, wt, after) =>
        match Lookup(fs, tag)
        case None =>
          var p := SkipField(wt, after);
          if p.Got? {
            LoopKeeps(fs, p.rest, a, seen, k);
          }
        case Some(i) =>
          var p := DecodeField(fs, i, wt, after, a);
          if p.Got? {
            LoopKeeps(fs, p.rest, p.value, seen + {i}, k);
            if SlotOf(fs, i) != k {
              FieldKeeps(fs, i, wt, after, a, k);
            }
          }
    }
  }

  /** Whatever input a decoder accepts, what no record reached is as the table says: a scalar holds the `initial`
      of its descriptor, a submessage does so at every level, an array is empty and a union unset. */
  lemma UnreachedIsInitial(fs: seq<Field>, s: bytes, k: nat)
    requires Decode(fs, s).Some? && k < |fs| && Misses(fs, Decode(fs, s).value.seen, k)
    ensures UntouchedSlot(fs, Decode(fs, s).value.slots[k], k)
  {
    hide DecodeLoop, Untouched, UntouchedSlot, Misses, AllRequired;
    LoopKeeps(fs, s, Defaults(fs), {}, k);
    DefaultSlotUntouched(fs, Defaults(fs)[k], k);
  }

  /** A zero tag ends the message; what follows it is not looked at. */
  lemma ZeroTagEnds(fs: seq<Field>, t: bytes, a: seq<Slot>, seen: set<nat>)
    requires |a| == |fs|
    ensures DecodeLoop(fs, [0] + t, a, seen) == Some(Progress(a, seen, true, t))
  {
    assert ([0] + t)[1..] == t;
  }
}
