/** What merging a message into a struct leaves in each slot, and exactly when it fails. */
module MergeResults {
  import opened Words
  import opened Schema
  import opened Encoding
  import opened Decoding
  import opened Merging
  import opened Shapes

  /** Members of one reader union belong to one writer union, at every level. */
  predicate SameUnions(R: seq<Field>, S: seq<Field>) {
    && (forall j, k :: 0 <= j < |R| && 0 <= k < |R| && SlotOf(R, j) == SlotOf(R, k) ==>
          SharedInWriter(S, R[j].tag, R[k].tag))
    && forall j :: 0 <= j < |R| ==>
         match Lookup(S, R[j].tag)
         case None => true
         case Some(i) => SameUnions(R[j].sub, S[i].sub)
  }

  predicate SharedInWriter(S: seq<Field>, tag1: nat, tag2: nat) {
    match (Lookup(S, tag1), Lookup(S, tag2))
    case (Some(i1), Some(i2)) => SlotOf(S, i1) == SlotOf(S, i2)
    case _ => true
  }

  // ---- which message field fills which slot -----------------------------------------------------

  /** Writer field for reader field m, if the message has it. */
  function WriterOf(R: seq<Field>, S: seq<Field>, b: seq<Slot>, m: nat): Option<nat>
    requires |b| == |S| && m < |R|
  {
    match Lookup(S, R[m].tag)
    case None => None
    case Some(i) => if Present(S, b, i) then Some(i) else None
  }

  /** The first reader field stored in slot j, from field m on, that the message fills. */
  function FillerFrom(R: seq<Field>, S: seq<Field>, b: seq<Slot>, j: nat, m: nat): (r: Option<nat>)
    requires |b| == |S| && m <= |R|
    ensures r.Some? ==> m <= r.value < |R| && SlotOf(R, r.value) == j && WriterOf(R, S, b, r.value).Some?
    ensures r.None? ==> forall n :: m <= n < |R| && SlotOf(R, n) == j ==> WriterOf(R, S, b, n).None?
    decreases |R| - m
  {
    if m == |R| then None
    else if SlotOf(R, m) == j && WriterOf(R, S, b, m).Some? then Some(m)
    else FillerFrom(R, S, b, j, m + 1)
  }

  // ---- the merged struct ------------------------------------------------------------------------

  /** A scalar replaces what was there; a submessage merges into it, or into defaults in an array. */
  function MergedValue(r: Field, prior: Value, s: Field, v: Value): Value
    decreases s, 0
  {
    if s.ltype.SubmessageT? then
      var base := if r.rule.Repeated? then DefaultValue(r) else prior;
      if base.Msg? && |base.slots| == |r.sub| && v.Msg? && |v.slots| == |s.sub|
        then Msg(Merged(r.sub, base.slots, s.sub, v.slots))
      else v
    else Settle(s, v)
  }

  function MergedItems(r: Field, s: Field, items: seq<Value>): (vs: seq<Value>)
    ensures |vs| == |items|
    ensures forall k :: 0 <= k < |items| ==> vs[k] == MergedValue(r, DefaultValue(r), s, items[k])
    decreases s, 1, |items|
  {
    if items == [] then []
    else [MergedValue(r, DefaultValue(r), s, items[0])] + MergedItems(r, s, items[1..])
  }

  /** The slot of reader field r after the writer's slot arrived there: arrays append, and a union whose
      tag changes starts over. */
  function FilledSlot(r: Field, old': Slot, s: Field, slot: Slot): Slot
    decreases s, 2
  {
    match (r.rule, old', slot)
    case (Required, Plain(prior), Plain(v)) => Plain(MergedValue(r, prior, s, v))
    case (Optional, Plain(prior), Plain(v)) => Plain(MergedValue(r, prior, s, v))
    case (Optional, Opt(_, prior), Opt(_, v)) => Opt(true, MergedValue(r, prior, s, v))
    case (Repeated, Rep(before), Rep(items)) => Rep(before + MergedItems(r, s, items))
    case (OneOf, _, Union(_, v)) => Union(r.tag, MergedValue(r, UnionBase(r, old'), s, v))
    case _ => old'
  }

  function MergedSlot(R: seq<Field>, a: seq<Slot>, S: seq<Field>, b: seq<Slot>, j: nat): Slot
    requires |a| == |R| && |b| == |S| && j < |R|
    decreases S, 0
  {
    match FillerFrom(R, S, b, j, 0)
    case None => a[j]
    case Some(m) =>
      var i := WriterOf(R, S, b, m).value;
      FilledSlot(R[m], a[j], S[i], b[SlotOf(S, i)])
  }

  /** Every slot the message has a field for takes it up; every other slot stays. */
  function Merged(R: seq<Field>, a: seq<Slot>, S: seq<Field>, b: seq<Slot>): (m: seq<Slot>)
    requires |a| == |R| && |b| == |S|
    ensures |m| == |R|
    decreases S, 1
  {
    seq(|R|, j requires 0 <= j < |R| => MergedSlot(R, a, S, b, j))
  }

  // ---- when it fails ----------------------------------------------------------------------------

  predicate ValueFails(r: Field, prior: Value, s: Field, v: Value)
    decreases s, 0
  {
    if s.ltype.SubmessageT? then
      var base := if r.rule.Repeated? then DefaultValue(r) else prior;
      && base.Msg? && |base.slots| == |r.sub| && v.Msg? && |v.slots| == |s.sub|
      && MergeFails(r.sub, base.slots, s.sub, v.slots)
    else FullString(s, v)
  }

  predicate ItemsFail(r: Field, s: Field, items: seq<Value>)
    decreases s, 1, |items|
  {
    items != [] && (ValueFails(r, DefaultValue(r), s, items[0]) || ItemsFail(r, s, items[1..]))
  }

  /** An array would hold more than it has room for, a string has no room for its terminator, or an old
      union tag names no field at all, here or inside a submessage. */
  predicate SlotFails(R: seq<Field>, r: Field, old': Slot, s: Field, slot: Slot)
    decreases s, 2
  {
    match (r.rule, old', slot)
    case (Required, Plain(prior), Plain(v)) => ValueFails(r, prior, s, v)
    case (Optional, Plain(prior), Plain(v)) => ValueFails(r, prior, s, v)
    case (Optional, Opt(_, prior), Opt(_, v)) => ValueFails(r, prior, s, v)
    case (Repeated, Rep(before), Rep(items)) => |before| + |items| > r.arraySize || ItemsFail(r, s, items)
    case (OneOf, _, Union(_, v)) => ReleaseFails(R, r, old') || ValueFails(r, UnionBase(r, old'), s, v)
    case _ => false
  }

  predicate FieldFails(R: seq<Field>, a: seq<Slot>, S: seq<Field>, b: seq<Slot>, i: nat)
    requires |a| == |R| && |b| == |S| && i < |S|
    decreases S, 0
  {
    match Lookup(R, S[i].tag)
    case None => false
    case Some(m) => SlotFails(R, R[m], a[SlotOf(R, m)], S[i], b[SlotOf(S, i)])
  }

  predicate MergeFails(R: seq<Field>, a: seq<Slot>, S: seq<Field>, b: seq<Slot>)
    requires |a| == |R| && |b| == |S|
    decreases S, 2
  {
    FailsFrom(R, a, S, b, 0)
  }

  predicate FailsFrom(R: seq<Field>, a: seq<Slot>, S: seq<Field>, b: seq<Slot>, i: nat)
    requires |a| == |R| && |b| == |S| && i <= |S|
    decreases S, 1, |S| - i
  {
    i < |S| && ((Present(S, b, i) && FieldFails(R, a, S, b, i)) || FailsFrom(R, a, S, b, i + 1))
  }

  /** Some field from i on that the message has fails against the struct as it is. */
  predicate SomeFieldFails(R: seq<Field>, a: seq<Slot>, S: seq<Field>, b: seq<Slot>, i: nat)
    requires |a| == |R| && |b| == |S|
  {
    exists n {:trigger Present(S, b, n)} :: i <= n < |S| && Present(S, b, n) && FieldFails(R, a, S, b, n)
  }

  /** Merging fails exactly when some field the message has fails against the struct as it was before. */
  lemma {:induction false} FailsSomewhere(R: seq<Field>, a: seq<Slot>, S: seq<Field>, b: seq<Slot>, i: nat)
    requires |a| == |R| && |b| == |S| && i <= |S|
    ensures FailsFrom(R, a, S, b, i) <==> SomeFieldFails(R, a, S, b, i)
    decreases |S| - i
  {
    if i < |S| {
      assert FailsFrom(R, a, S, b, i) <==>
        (Present(S, b, i) && FieldFails(R, a, S, b, i)) || FailsFrom(R, a, S, b, i + 1);
      FailsSomewhere(R, a, S, b, i + 1);
    }
  }

  // ---- merging into defaults ------------------------------------------------------------------------

  predicate ValueOverfull(r: Field, s: Field, v: Value)
    decreases s, 0
  {
    if s.ltype.SubmessageT? then v.Msg? && |v.slots| == |s.sub| && OverfullFrom(r.sub, s.sub, v.slots, 0)
    else FullString(s, v)
  }

  predicate AnyOverfull(r: Field, s: Field, items: seq<Value>)
    decreases s, 1, |items|
  {
    items != [] && (ValueOverfull(r, s, items[0]) || AnyOverfull(r, s, items[1..]))
  }

  predicate OverfullFrom(R: seq<Field>, S: seq<Field>, b: seq<Slot>, i: nat)
    requires |b| == |S| && i <= |S|
    decreases S, |S| - i
  {
    && i < |S|
    && (|| (Lookup(R, S[i].tag).Some? && AnyOverfull(R[Lookup(R, S[i].tag).value], S[i], Occurrences(S, b, i)))
        || OverfullFrom(R, S, b, i + 1))
  }

  /** The message sends the reader a string without room for its terminator, at some level. */
  predicate Overfull(R: seq<Field>, S: seq<Field>, b: seq<Slot>)
    requires |b| == |S|
  {
    OverfullFrom(R, S, b, 0)
  }

  lemma {:induction false} ValueFailsFresh(r: Field, s: Field, v: Value)
    requires FieldsAgree(r, s) && FieldOk(s) && ValueOk(s, v)
    ensures ValueFails(r, DefaultValue(r), s, v) <==> ValueOverfull(r, s, v)
    decreases s, 0
  {
    if s.ltype.SubmessageT? {
      FailsFresh(r.sub, s.sub, v.slots, 0);
    }
  }

  lemma {:induction false} ItemsFailFresh(r: Field, s: Field, items: seq<Value>)
    requires FieldsAgree(r, s) && FieldOk(s) && forall k :: 0 <= k < |items| ==> ValueOk(s, items[k])
    ensures ItemsFail(r, s, items) <==> AnyOverfull(r, s, items)
    decreases s, 1, |items|
  {
    if items != [] {
      ValueFailsFresh(r, s, items[0]);
      ItemsFailFresh(r, s, items[1..]);
    }
  }

  lemma {:induction false} FieldFailsFresh(R: seq<Field>, S: seq<Field>, b: seq<Slot>, i: nat)
    requires TableOk(S) && Agree(R, S) && MessageOk(S, b) && i < |S|
    ensures Present(S, b, i) && FieldFails(R, Defaults(R), S, b, i)
       <==> Lookup(R, S[i].tag).Some? && AnyOverfull(R[Lookup(R, S[i].tag).value], S[i], Occurrences(S, b, i))
    decreases S, 0
  {
    var s, slot := S[i], b[SlotOf(S, i)];
    assert FieldOk(s) && SlotOk(S, b, i);
    AgreeingReaders(R, S, i);
    if Present(S, b, i) && Lookup(R, s.tag).Some? {
      var m := Lookup(R, s.tag).value;
      SharedIsOneOf(R, m);
      if s.rule.Repeated? {
        ItemsFailFresh(R[m], s, slot.items);
      } else {
        ValueFailsFresh(R[m], s, slot.v);
        assert [slot.v][1..] == [];
      }
    }
  }

  /** In a fresh struct nothing overflows: only a string without room for its terminator can fail. */
  lemma {:induction false} FailsFresh(R: seq<Field>, S: seq<Field>, b: seq<Slot>, i: nat)
    requires TableOk(S) && Agree(R, S) && MessageOk(S, b) && i <= |S|
    ensures FailsFrom(R, Defaults(R), S, b, i) <==> OverfullFrom(R, S, b, i)
    decreases S, 1, |S| - i
  {
    if i < |S| {
      FieldFailsFresh(R, S, b, i);
      FailsFresh(R, S, b, i + 1);
    }
  }

  // ---- the fold of the records is the merged struct -------------------------------------------------

  /** The struct once the message fields before i have arrived. */
  function UptoSlot(R: seq<Field>, a: seq<Slot>, S: seq<Field>, b: seq<Slot>, i: nat, j: nat): Slot
    requires |a| == |R| && |b| == |S| && j < |R|
  {
    match FillerFrom(R, S, b, j, 0)
    case None => a[j]
    case Some(m) => if WriterOf(R, S, b, m).value < i then MergedSlot(R, a, S, b, j) else a[j]
  }

  function Upto(R: seq<Field>, a: seq<Slot>, S: seq<Field>, b: seq<Slot>, i: nat): (m: seq<Slot>)
    requires |a| == |R| && |b| == |S|
    ensures |m| == |R|
  {
    seq(|R|, j requires 0 <= j < |R| => UptoSlot(R, a, S, b, i, j))
  }

  /** One slot is filled by at most one writer field. */
  lemma OneFiller(R: seq<Field>, S: seq<Field>, b: seq<Slot>, m: nat, n: nat)
    requires UniqueTags(S) && Agree(R, S) && SameUnions(R, S) && |b| == |S| && m < |R| && n < |R|
    requires SlotOf(R, m) == SlotOf(R, n) && WriterOf(R, S, b, m).Some? && WriterOf(R, S, b, n).Some?
    ensures m == n
  {
    if m != n {
      SharedIsOneOf(R, m);
      SharedIsOneOf(R, n);
    }
  }

  lemma FillerOf(R: seq<Field>, S: seq<Field>, b: seq<Slot>, m: nat)
    requires UniqueTags(S) && Agree(R, S) && SameUnions(R, S) && |b| == |S| && m < |R| && WriterOf(R, S, b, m).Some?
    ensures FillerFrom(R, S, b, SlotOf(R, m), 0) == Some(m)
  {
    OneFiller(R, S, b, m, FillerFrom(R, S, b, SlotOf(R, m), 0).value);
  }

  lemma {:induction false} ValueMerges(r: Field, prior: Value, s: Field, v: Value)
    requires FieldsAgree(r, s) && SameUnions(r.sub, s.sub) && FieldOk(s) && ValueOk(s, v)
    requires r.rule.Repeated? || ShapedValue(r, prior)
    ensures MergeValue(r, prior, s, v)
         == if ValueFails(r, prior, s, v) then None else Some(MergedValue(r, prior, s, v))
    decreases s, 0
  {
    if s.ltype.SubmessageT? {
      DefaultsShaped(r.sub);
      MergeResult(r.sub, if r.rule.Repeated? then Defaults(r.sub) else prior.slots, s.sub, v.slots);
    }
  }

  lemma {:induction false} ItemArrives(R: seq<Field>, j: nat, s: Field, v: Value, a: seq<Slot>)
    requires |a| == |R| && Lookup(R, s.tag) == Some(j) && FieldsAgree(R[j], s) && SameUnions(R[j].sub, s.sub)
    requires FieldOk(s) && s.rule.Repeated? && ValueOk(s, v) && a[SlotOf(R, j)].Rep?
    ensures var k := SlotOf(R, j);
            Apply(R, a, s, v)
              == if |a[k].items| < R[j].arraySize && !ValueFails(R[j], DefaultValue(R[j]), s, v)
                   then Some(a[k := Rep(a[k].items + [MergedValue(R[j], DefaultValue(R[j]), s, v)])])
                 else None
    decreases s, 1
  {
    ValueMerges(R[j], R[j].initial, s, v);
  }

  lemma ApplyFirst(R: seq<Field>, s: Field, items: seq<Value>, a: seq<Slot>, a': seq<Slot>)
    requires |a| == |R| == |a'| && items != [] && Apply(R, a, s, items[0]) == Some(a')
    ensures ApplyAll(R, a, s, items) == ApplyAll(R, a', s, items[1..])
  {
    hide Apply;
  }

  lemma AppendTwice(a: seq<Slot>, k: nat, x: seq<Value>, v: Value, y: seq<Value>, xvy: seq<Value>)
    requires k < |a| && a[k] == Rep(x) && xvy == [v] + y
    ensures a[k := Rep(x + [v])][k := Rep(x + [v] + y)] == a[k := Rep(x + xvy)]
  {
    assert x + [v] + y == x + xvy;
  }

  lemma {:induction false} ItemsArrive(R: seq<Field>, j: nat, s: Field, items: seq<Value>, a: seq<Slot>)
    requires |a| == |R| && Lookup(R, s.tag) == Some(j) && FieldsAgree(R[j], s) && SameUnions(R[j].sub, s.sub)
    requires FieldOk(s) && s.rule.Repeated? && forall k :: 0 <= k < |items| ==> ValueOk(s, items[k])
    requires a[SlotOf(R, j)].Rep?
    ensures var k := SlotOf(R, j);
            ApplyAll(R, a, s, items)
              == if items == [] || (|a[k].items| + |items| <= R[j].arraySize && !ItemsFail(R[j], s, items))
                   then Some(a[k := Rep(a[k].items + MergedItems(R[j], s, items))])
                 else None
    decreases s, 2, |items|
  {
    hide FieldsAgree, SameUnions, FieldOk, ValueOk, Apply, MergedValue, ValueFails, Lookup;
    var r, k := R[j], SlotOf(R, j);
    if items == [] {
      assert a[k].items + MergedItems(r, s, items) == a[k].items;
      assert a[k := a[k]] == a;
    } else {
      ItemArrives(R, j, s, items[0], a);
      if |a[k].items| < r.arraySize && !ValueFails(r, DefaultValue(r), s, items[0]) {
        var v := MergedValue(r, DefaultValue(r), s, items[0]);
        var a' := a[k := Rep(a[k].items + [v])];
        ApplyFirst(R, s, items, a, a');
        ItemsArrive(R, j, s, items[1..], a');
        AppendTwice(a, k, a[k].items, v, MergedItems(r, s, items[1..]), MergedItems(r, s, items));
      }
    }
  }

  /** All that field i contributes, arriving at a slot of the right shape. */
  lemma {:induction false} FieldArrives(R: seq<Field>, a: seq<Slot>, S: seq<Field>, b: seq<Slot>, i: nat, m: nat)
    requires TableOk(S) && MessageOk(S, b) && |a| == |R| && i < |S| && Present(S, b, i)
    requires Lookup(R, S[i].tag) == Some(m) && FieldsAgree(R[m], S[i]) && SameUnions(R[m].sub, S[i].sub)
    requires ShapedSlot(R, a[SlotOf(R, m)], SlotOf(R, m))
    ensures var k := SlotOf(R, m);
            ApplyAll(R, a, S[i], Occurrences(S, b, i))
              == if SlotFails(R, R[m], a[k], S[i], b[SlotOf(S, i)]) then None
                 else Some(a[k := FilledSlot(R[m], a[k], S[i], b[SlotOf(S, i)])])
    decreases S, 0
  {
    var r, s, k, slot := R[m], S[i], SlotOf(R, m), b[SlotOf(S, i)];
    SharedIsOneOf(R, m);
    assert SlotOk(S, b, i) && FieldOk(s);
    match s.rule
    case Repeated => ItemsArrive(R, m, s, slot.items, a);
    case OneOf =>
      ApplyOne(R, a, s, slot.v);
      BaseShaped(R, m, a[k]);
      ValueMerges(r, UnionBase(r, a[k]), s, slot.v);
    case _ =>
      ApplyOne(R, a, s, slot.v);
      ValueMerges(r, a[k].v, s, slot.v);
  }

  lemma {:induction false} StepMerges(R: seq<Field>, a: seq<Slot>, S: seq<Field>, b: seq<Slot>, i: nat)
    requires TableOk(S) && Agree(R, S) && SameUnions(R, S) && MessageOk(S, b) && i < |S| && |a| == |R| && Shaped(R, a)
    ensures ApplyAll(R, Upto(R, a, S, b, i), S[i], Occurrences(S, b, i))
         == if Present(S, b, i) && FieldFails(R, a, S, b, i) then None else Some(Upto(R, a, S, b, i + 1))
    decreases S, 1
  {
    hide FieldOk, Agree, SameUnions, SlotOk, MergedSlot, Shaped;
    var before, after := Upto(R, a, S, b, i), Upto(R, a, S, b, i + 1);
    if !Present(S, b, i) {
      forall j | 0 <= j < |R| ensures before[j] == after[j] {}
      assert before == after;
    } else if Lookup(R, S[i].tag).None? {
      ApplyNothing(R, before, S[i], Occurrences(S, b, i));
      forall j | 0 <= j < |R| ensures before[j] == after[j] {}
      assert before == after;
    } else {
      StepFills(R, a, S, b, i, Lookup(R, S[i].tag).value);
    }
  }

  lemma {:induction false} StepFills(R: seq<Field>, a: seq<Slot>, S: seq<Field>, b: seq<Slot>, i: nat, m: nat)
    requires TableOk(S) && Agree(R, S) && SameUnions(R, S) && MessageOk(S, b) && i < |S| && |a| == |R| && Shaped(R, a)
    requires Present(S, b, i) && Lookup(R, S[i].tag) == Some(m)
    ensures ApplyAll(R, Upto(R, a, S, b, i), S[i], Occurrences(S, b, i))
         == if Present(S, b, i) && FieldFails(R, a, S, b, i) then None else Some(Upto(R, a, S, b, i + 1))
    decreases S, 1, 0
  {
    hide FieldOk, SlotOk, FilledSlot, SlotFails, Present, Shaped, ShapedSlot;
    var before, after := Upto(R, a, S, b, i), Upto(R, a, S, b, i + 1);
    var k := SlotOf(R, m);
    LookupUnique(S, i);
    assert WriterOf(R, S, b, m) == Some(i);
    FillerOf(R, S, b, m);
    SlotShaped(R, a, k);
    assert before[k] == a[k];
    FieldArrives(R, before, S, b, i, m);
    forall j | 0 <= j < |R| && j != k ensures before[j] == after[j] {
      OtherSlot(R, a, S, b, i, m, j);
    }
    assert before[k := after[k]] == after;
  }

  lemma OtherSlot(R: seq<Field>, a: seq<Slot>, S: seq<Field>, b: seq<Slot>, i: nat, m: nat, j: nat)
    requires UniqueTags(R) && |a| == |R| && |b| == |S| && i < |S| && j < |R|
    requires Lookup(R, S[i].tag) == Some(m) && j != SlotOf(R, m)
    ensures UptoSlot(R, a, S, b, i, j) == UptoSlot(R, a, S, b, i + 1, j)
  {
    match FillerFrom(R, S, b, j, 0)
    case None =>
    case Some(n) =>
      if WriterOf(R, S, b, n) == Some(i) {
        LookupUnique(R, n);
        assert false;
      }
  }

  lemma {:induction false} RestMerges(R: seq<Field>, a: seq<Slot>, S: seq<Field>, b: seq<Slot>, i: nat)
    requires TableOk(S) && Agree(R, S) && SameUnions(R, S) && MessageOk(S, b) && i <= |S| && |a| == |R| && Shaped(R, a)
    ensures Merge(R, Upto(R, a, S, b, i), S, b, i)
         == if FailsFrom(R, a, S, b, i) then None else Some(Upto(R, a, S, b, |S|))
    decreases S, 2, |S| - i
  {
    hide FieldFails, Agree, SameUnions, Shaped, UptoSlot;
    if i < |S| {
      StepMerges(R, a, S, b, i);
      RestMerges(R, a, S, b, i + 1);
    }
  }

  lemma SlotEnds(R: seq<Field>, a: seq<Slot>, S: seq<Field>, b: seq<Slot>, j: nat)
    requires |a| == |R| && |b| == |S| && j < |R|
    ensures UptoSlot(R, a, S, b, 0, j) == a[j] && UptoSlot(R, a, S, b, |S|, j) == MergedSlot(R, a, S, b, j)
  {
    hide FilledSlot;
  }

  lemma UptoEnds(R: seq<Field>, a: seq<Slot>, S: seq<Field>, b: seq<Slot>)
    requires |a| == |R| && |b| == |S|
    ensures Upto(R, a, S, b, 0) == a && Upto(R, a, S, b, |S|) == Merged(R, a, S, b)
  {
    hide MergedSlot, UptoSlot;
    forall j | 0 <= j < |R|
      ensures UptoSlot(R, a, S, b, 0, j) == a[j] && UptoSlot(R, a, S, b, |S|, j) == MergedSlot(R, a, S, b, j)
    {
      SlotEnds(R, a, S, b, j);
    }
  }

  /** Merging a message into a struct fails exactly when a field of it fails against the struct as it
      was, and otherwise leaves in every slot what the message's field for that slot makes of it. */
  lemma {:induction false} MergeResult(R: seq<Field>, a: seq<Slot>, S: seq<Field>, b: seq<Slot>)
    requires TableOk(S) && Agree(R, S) && SameUnions(R, S) && MessageOk(S, b) && |a| == |R| && Shaped(R, a)
    ensures Merge(R, a, S, b, 0) == if MergeFails(R, a, S, b) then None else Some(Merged(R, a, S, b))
    decreases S, 3
  {
    hide FieldFails, FailsFrom, Upto, Merged, Merge, Shaped, Agree, SameUnions, TableOk;
    RestMerges(R, a, S, b, 0);
    UptoEnds(R, a, S, b);
  }

  // ---- merging keeps the shape ----------------------------------------------------------------------

  lemma {:induction false} ValueKeepsShape(r: Field, prior: Value, s: Field, v: Value)
    requires FieldsAgree(r, s) && FieldOk(s) && ValueOk(s, v)
    requires r.rule.Repeated? || ShapedValue(r, prior)
    ensures ShapedValue(r, MergedValue(r, prior, s, v))
    decreases s, 0
  {
    if s.ltype.SubmessageT? {
      DefaultsShaped(r.sub);
      MergedShaped(r.sub, if r.rule.Repeated? then Defaults(r.sub) else prior.slots, s.sub, v.slots);
    }
  }

  lemma {:induction false} FilledShaped(R: seq<Field>, a: seq<Slot>, S: seq<Field>, b: seq<Slot>, m: nat, i: nat)
    requires UniqueTags(R) && TableOk(S) && MessageOk(S, b) && |a| == |R| && m < |R| && i < |S| && Present(S, b, i)
    requires FieldsAgree(R[m], S[i]) && ShapedSlot(R, a[SlotOf(R, m)], SlotOf(R, m))
    ensures ShapedSlot(R, FilledSlot(R[m], a[SlotOf(R, m)], S[i], b[SlotOf(S, i)]), SlotOf(R, m))
    decreases S, 0
  {
    var r, s, slot, k := R[m], S[i], b[SlotOf(S, i)], SlotOf(R, m);
    assert FieldOk(s) && SlotOk(S, b, i);
    SharedIsOneOf(R, m);
    match s.rule
    case Repeated =>
    case OneOf =>
      BaseShaped(R, m, a[k]);
      ValueKeepsShape(r, UnionBase(r, a[k]), s, slot.v);
      MemberShaped(R, m, MergedValue(r, UnionBase(r, a[k]), s, slot.v));
    case _ => ValueKeepsShape(r, a[k].v, s, slot.v);
  }

  lemma {:induction false} MergedSlotShaped(R: seq<Field>, a: seq<Slot>, S: seq<Field>, b: seq<Slot>, j: nat)
    requires TableOk(S) && Agree(R, S) && MessageOk(S, b) && |a| == |R| && Shaped(R, a) && j < |R|
    ensures ShapedSlot(R, MergedSlot(R, a, S, b, j), j)
    decreases S, 1
  {
    SlotShaped(R, a, j);
    hide Shaped, ShapedSlot, FilledSlot, TableOk, MessageOk;
    match FillerFrom(R, S, b, j, 0)
    case None =>
    case Some(m) => FilledShaped(R, a, S, b, m, WriterOf(R, S, b, m).value);
  }

  lemma {:induction false} MergedShaped(R: seq<Field>, a: seq<Slot>, S: seq<Field>, b: seq<Slot>)
    requires TableOk(S) && Agree(R, S) && MessageOk(S, b) && |a| == |R| && Shaped(R, a)
    ensures Shaped(R, Merged(R, a, S, b))
    decreases S, 2
  {
    forall j | 0 <= j < |R| ensures ShapedSlot(R, Merged(R, a, S, b)[j], j) {
      MergedSlotShaped(R, a, S, b, j);
    }
  }

  // ---- decoding ---------------------------------------------------------------------------------------

  /** Decoding an encoded message into a struct that holds something already fails exactly when an array
      would overflow, a string has no room for its terminator or an old union tag is unknown, and otherwise
      gives the merged struct. */
  lemma DecodeMerges(R: seq<Field>, S: seq<Field>, a: seq<Slot>, b: seq<Slot>)
    requires TableOk(S) && Agree(R, S) && SameUnions(R, S) && MessageOk(S, b) && |a| == |R| && Shaped(R, a)
    ensures Encode(S, b).Some?
    ensures var p := DecodeInto(R, Encode(S, b).value, a);
            && (p.None? <==> SomeFieldFails(R, a, S, b, 0))
            && (p.Some? ==> p.value.slots == Merged(R, a, S, b) && !p.value.stopped && p.value.rest == [])
  {
    hide DecodeInto, Merge, FailsFrom, SomeFieldFails, Merged;
    DecodeIsMerge(R, S, a, b);
    FailsSomewhere(R, a, S, b, 0);
    MergeResult(R, a, S, b);
  }
}
