/** Forward compatibility: readers whose table lacks some of the writer's fields, at any depth. */
module Dropping {
  import opened Words
  import opened Schema
  import opened Encoding
  import opened Decoding
  import opened Merging
  import opened MergeResults
  import opened Evolution

  // ---- dropping one field ---------------------------------------------------------------------

  /** The old position of what is at j after position i was taken out. */
  function Up(i: nat, j: nat): nat { if j < i then j else j + 1 }

  /** The field after field i. When the first member of a union goes, the next one becomes the first, and
      its offset is no longer the mark of a later member. */
  function Moved(fs: seq<Field>, i: nat): (f: Field)
    requires i + 1 < |fs|
    ensures f == fs[i + 1].(dataOffset := f.dataOffset)
  {
    var f := fs[i + 1];
    if !Joins(fs, i) && f.rule.OneOf? && f.dataOffset == PB_SIZE_MAX then f.(dataOffset := 0) else f
  }

  function Without(fs: seq<Field>, i: nat): (r: seq<Field>)
    requires i < |fs|
    ensures |r| == |fs| - 1
    ensures forall j :: 0 <= j < |r| ==> r[j] == fs[Up(i, j)].(dataOffset := r[j].dataOffset)
  {
    seq(|fs| - 1, j requires 0 <= j < |fs| - 1 => if j == i then Moved(fs, i) else fs[Up(i, j)])
  }

  predicate NextJoins(fs: seq<Field>, i: nat) { i + 1 < |fs| && Joins(fs, i + 1) }

  /** The slot that goes with field i. The storage of a union stays while it has members. */
  function Gone(fs: seq<Field>, i: nat): nat { if NextJoins(fs, i) then i + 1 else i }

  lemma JoinsWithout(fs: seq<Field>, i: nat, k: nat)
    requires i < |fs| && k < |fs| - 1
    ensures Joins(Without(fs, i), k) <==> if k == i then Joins(fs, i) && Joins(fs, i + 1) else Joins(fs, Up(i, k))
  {
  }

  lemma {:induction false} SlotWithout(fs: seq<Field>, i: nat, k: nat)
    requires i < |fs| && k < |fs| - 1
    ensures var slot := SlotOf(fs, Up(i, k));
            slot != Gone(fs, i) && SlotOf(Without(fs, i), k) == if slot < Gone(fs, i) then slot else slot - 1
  {
    JoinsWithout(fs, i, k);
    hide Without;
    if Joins(Without(fs, i), k) {
      SlotWithout(fs, i, k - 1);
    }
  }

  lemma UnionsWithout(R: seq<Field>, S: seq<Field>, i: nat, j: nat, k: nat)
    requires SameUnions(R, S) && i < |R| && j < |R| - 1 && k < |R| - 1
    requires SlotOf(Without(R, i), j) == SlotOf(Without(R, i), k)
    ensures SharedInWriter(S, Without(R, i)[j].tag, Without(R, i)[k].tag)
  {
    hide SharedInWriter, Lookup;
    SlotWithout(R, i, j);
    SlotWithout(R, i, k);
    hide Without;
    assert SlotOf(R, Up(i, j)) == SlotOf(R, Up(i, k));
  }

  lemma TagsWithout(fs: seq<Field>, i: nat)
    requires UniqueTags(fs) && i < |fs|
    ensures UniqueTags(Without(fs, i))
  {
    var R := Without(fs, i);
    hide Without;
    forall j, k | 0 <= j < k < |R| ensures R[j].tag != R[k].tag {
      assert fs[Up(i, j)].tag != fs[Up(i, k)].tag;
    }
  }

  /** Whatever field a reader drops, it stays a reader of the same messages. */
  lemma DroppedFieldAgrees(R: seq<Field>, S: seq<Field>, i: nat)
    requires Agree(R, S) && SameUnions(R, S) && i < |R|
    ensures Agree(Without(R, i), S) && SameUnions(Without(R, i), S)
  {
    hide SharedInWriter, Lookup;
    var T := Without(R, i);
    TagsWithout(R, i);
    hide Without, UniqueTags;
    assert Agree(T, S);
    hide Agree;
    forall j, k | 0 <= j < |T| && 0 <= k < |T| && SlotOf(T, j) == SlotOf(T, k)
      ensures SharedInWriter(S, T[j].tag, T[k].tag)
    {
      UnionsWithout(R, S, i, j, k);
    }
  }

  // ---- what the reader then sees --------------------------------------------------------------

  /** Field i shares its storage with other members of a union. */
  predicate Sharing(fs: seq<Field>, i: nat)
    requires i < |fs|
  {
    Joins(fs, i) || NextJoins(fs, i)
  }

  /** The message less field i: its slot goes. A union keeps its slot while it has other members, and is
      unset if it held the member that goes. */
  function DropSlot(fs: seq<Field>, slots: seq<Slot>, i: nat): (r: seq<Slot>)
    requires |slots| == |fs| && i < |fs|
    ensures |r| == |fs| - 1
  {
    var k, x := SlotOf(fs, i), Gone(fs, i);
    var left := if Sharing(fs, i) && Which(slots[k]) == fs[i].tag then slots[k := Unset] else slots;
    left[..x] + left[x + 1..]
  }

  lemma DefaultOf(fs: seq<Field>, i: nat, gs: seq<Field>, j: nat)
    requires i < |fs| && j < |gs| && gs[j] == fs[i].(dataOffset := gs[j].dataOffset)
    requires Joins(fs, i) <==> Joins(gs, j)
    ensures DefaultSlot(fs, i) == DefaultSlot(gs, j)
  {
    hide Defaults;
  }

  lemma SameDefault(fs: seq<Field>, i: nat, t: nat)
    requires i < |fs| && t < |fs| - 1
    ensures DefaultSlot(Without(fs, i), t) == DefaultSlot(fs, Up(Gone(fs, i), t))
  {
    JoinsWithout(fs, i, t);
    hide Without, DefaultValue;
    if t == i && NextJoins(fs, i) {
      assert Without(fs, i)[t].rule.OneOf? && fs[i].rule.OneOf?;
    } else {
      hide DefaultSlot;
      DefaultOf(fs, Up(i, t), Without(fs, i), t);
    }
  }

  lemma WriterKept(R: seq<Field>, S: seq<Field>, b: seq<Slot>, i: nat, m: nat)
    requires |b| == |S| && i < |R| && m < |R| - 1
    ensures WriterOf(Without(R, i), S, b, m) == WriterOf(R, S, b, Up(i, m))
  {
    hide Lookup, Present, Without;
  }

  /** Field i fills slot u; no other field can then. */
  predicate FilledBy(R: seq<Field>, S: seq<Field>, b: seq<Slot>, u: nat, i: nat)
    requires |b| == |S| && i < |R|
  {
    SlotOf(R, i) == u && WriterOf(R, S, b, i).Some?
  }

  /** What still fills the slot is what filled it before. */
  lemma FillerStays(R: seq<Field>, S: seq<Field>, b: seq<Slot>, i: nat, t: nat, m: nat)
    requires UniqueTags(S) && Agree(R, S) && SameUnions(R, S) && |b| == |S| && i < |R| && t < |R| - 1
    requires FillerFrom(Without(R, i), S, b, t, 0) == Some(m)
    ensures FillerFrom(R, S, b, Up(Gone(R, i), t), 0) == Some(Up(i, m)) && !FilledBy(R, S, b, Up(Gone(R, i), t), i)
  {
    hide Agree, SameUnions, UniqueTags, WriterOf, Without;
    SlotWithout(R, i, m);
    WriterKept(R, S, b, i, m);
    FillerOf(R, S, b, Up(i, m));
    if FilledBy(R, S, b, Up(Gone(R, i), t), i) {
      OneFiller(R, S, b, i, Up(i, m));
    }
  }

  /** What filled the slot before still does, unless it was dropped. */
  lemma FillerWas(R: seq<Field>, S: seq<Field>, b: seq<Slot>, i: nat, t: nat, n: nat)
    requires |b| == |S| && i < |R| && t < |R| - 1 && n != i
    requires FillerFrom(R, S, b, Up(Gone(R, i), t), 0) == Some(n)
    ensures FillerFrom(Without(R, i), S, b, t, 0).Some?
  {
    hide WriterOf, Without;
    var m := if n < i then n else n - 1;
    SlotWithout(R, i, m);
    WriterKept(R, S, b, i, m);
  }

  lemma UnionDefault(fs: seq<Field>, i: nat)
    requires i < |fs| && SlotOf(fs, i) != Gone(fs, i)
    ensures fs[i].rule.OneOf? && Sharing(fs, i) && DefaultSlot(fs, SlotOf(fs, i)) == Unset
  {
    SharedIsOneOf(fs, i);
  }

  lemma FilledSlotKeepsView(R: seq<Field>, S: seq<Field>, b: seq<Slot>, i: nat, t: nat, m: nat)
    requires UniqueTags(S) && Agree(R, S) && SameUnions(R, S) && |b| == |S| && i < |R| && t < |R| - 1
    requires FillerFrom(Without(R, i), S, b, t, 0) == Some(m)
    ensures var u, T := Up(Gone(R, i), t), Without(R, i);
            !FilledBy(R, S, b, u, i) && MergedSlot(T, Defaults(T), S, b, t) == MergedSlot(R, Defaults(R), S, b, u)
  {
    var T, u := Without(R, i), Up(Gone(R, i), t);
    FillerStays(R, S, b, i, t, m);
    SameDefault(R, i, t);
    WriterKept(R, S, b, i, m);
    hide Agree, SameUnions, UniqueTags, WriterOf, FillerFrom, FilledSlot, DefaultSlot, Without, FilledBy;
    var w := WriterOf(T, S, b, m).value;
    SameFilled(R[Up(i, m)], T[m].dataOffset, DefaultSlot(R, u), S[w], b[SlotOf(S, w)]);
  }

  lemma SlotKeepsView(R: seq<Field>, S: seq<Field>, b: seq<Slot>, i: nat, t: nat)
    requires UniqueTags(S) && Agree(R, S) && SameUnions(R, S) && |b| == |S| && i < |R| && t < |R| - 1
    ensures var u, T := Up(Gone(R, i), t), Without(R, i);
            MergedSlot(T, Defaults(T), S, b, t)
              == if FilledBy(R, S, b, u, i) then Unset else MergedSlot(R, Defaults(R), S, b, u)
  {
    var T, u := Without(R, i), Up(Gone(R, i), t);
    SameDefault(R, i, t);
    var was, filler := FillerFrom(R, S, b, u, 0), FillerFrom(T, S, b, t, 0);
    hide Agree, SameUnions, UniqueTags, WriterOf, FillerFrom, FilledSlot, DefaultSlot, Without, Present;
    if filler.Some? {
      FilledSlotKeepsView(R, S, b, i, t, filler.value);
    } else {
      if was.Some? && was.value != i {
        FillerWas(R, S, b, i, t, was.value);
      }
      if FilledBy(R, S, b, u, i) {
        UnionDefault(R, i);
      }
    }
  }

  /** The offset of a field has no part in merging. */
  lemma SameFilled(r: Field, offset: int, old': Slot, s: Field, slot: Slot)
    ensures FilledSlot(r.(dataOffset := offset), old', s, slot) == FilledSlot(r, old', s, slot)
  {
  }

  lemma WriterHolds(R: seq<Field>, S: seq<Field>, b: seq<Slot>, m: nat)
    requires TableOk(S) && Agree(R, S) && MessageOk(S, b)
    requires m < |R| && R[m].rule.OneOf? && WriterOf(R, S, b, m).Some?
    ensures var w := WriterOf(R, S, b, m).value; S[w].rule.OneOf? && b[SlotOf(S, w)].Union?
  {
    var w := WriterOf(R, S, b, m).value;
    assert FieldOk(S[w]) && FieldsAgree(R[m], S[w]);
  }

  lemma UnionFilled(R: seq<Field>, S: seq<Field>, b: seq<Slot>, m: nat)
    requires TableOk(S) && Agree(R, S) && SameUnions(R, S) && MessageOk(S, b)
    requires m < |R| && R[m].rule.OneOf? && WriterOf(R, S, b, m).Some?
    ensures Which(View(R, S, b)[SlotOf(R, m)]) == R[m].tag
  {
    WriterHolds(R, S, b, m);
    FillerOf(R, S, b, m);
    var w, k := WriterOf(R, S, b, m).value, SlotOf(R, m);
    assert FilledSlot(R[m], Defaults(R)[k], S[w], b[SlotOf(S, w)]).which == R[m].tag;
    ViewAt(R, S, b, k);
    hide View, Merged, FilledSlot, MessageOk, TableOk, SameUnions, Agree, FillerFrom, WriterOf, Defaults;
  }

  lemma UnionStartsUnset(fs: seq<Field>, i: nat)
    requires i < |fs| && fs[i].rule.OneOf?
    ensures Defaults(fs)[SlotOf(fs, i)] == Unset
  {
    SharedIsOneOf(fs, i);
  }

  lemma UnionEmpty(R: seq<Field>, S: seq<Field>, b: seq<Slot>, i: nat)
    requires |b| == |S| && i < |R| && R[i].rule.OneOf? && FillerFrom(R, S, b, SlotOf(R, i), 0).None?
    ensures View(R, S, b)[SlotOf(R, i)] == Unset
  {
    UnionStartsUnset(R, i);
    ViewAt(R, S, b, SlotOf(R, i));
    hide View, Merged, FilledSlot, FillerFrom, Defaults, SlotOf, WriterOf;
  }

  /** The view holds a union member exactly when the message does. */
  lemma HeldMeans(R: seq<Field>, S: seq<Field>, b: seq<Slot>, i: nat)
    requires TableOk(R) && TableOk(S) && Agree(R, S) && SameUnions(R, S) && MessageOk(S, b)
    requires i < |R| && R[i].rule.OneOf?
    ensures Which(View(R, S, b)[SlotOf(R, i)]) == R[i].tag <==> WriterOf(R, S, b, i).Some?
  {
    TagPositive(R, i);
    assert UniqueTags(R);
    if WriterOf(R, S, b, i).Some? {
      UnionFilled(R, S, b, i);
    } else {
      SharedIsOneOf(R, i);
      hide View, Agree, SameUnions, MessageOk, TableOk, FieldOk;
      match FillerFrom(R, S, b, SlotOf(R, i), 0)
      case None => UnionEmpty(R, S, b, i);
      case Some(m) =>
        SharedIsOneOf(R, m);
        UnionFilled(R, S, b, m);
        DifferentTags(R, S, b, m, i);
    }
  }

  lemma DifferentTags(R: seq<Field>, S: seq<Field>, b: seq<Slot>, m: nat, i: nat)
    requires UniqueTags(R) && |b| == |S| && m < |R| && i < |R|
    requires WriterOf(R, S, b, m).Some? && WriterOf(R, S, b, i).None?
    ensures R[m].tag != R[i].tag
  {
  }

  /** Dropping a field, seen from the messages: exactly its slot goes, and a union it shared and held is
      unset. */
  lemma DroppedFromView(R: seq<Field>, S: seq<Field>, b: seq<Slot>, i: nat)
    requires TableOk(R) && TableOk(S) && Agree(R, S) && SameUnions(R, S) && MessageOk(S, b) && i < |R|
    ensures View(Without(R, i), S, b) == DropSlot(R, View(R, S, b), i)
  {
    hide View, MergedSlot, Without, DropSlot, FilledBy, TableOk, Agree, SameUnions;
    assert UniqueTags(S) by { TableTags(S); }
    var T, V := Without(R, i), View(R, S, b);
    forall t | 0 <= t < |R| - 1
      ensures View(T, S, b)[t] == DropSlot(R, V, i)[t]
    {
      SlotKeepsView(R, S, b, i, t);
      DroppedSlot(R, S, b, i, t);
      ViewAt(T, S, b, t);
      ViewAt(R, S, b, Up(Gone(R, i), t));
    }
  }

  lemma DroppedSlot(R: seq<Field>, S: seq<Field>, b: seq<Slot>, i: nat, t: nat)
    requires TableOk(R) && TableOk(S) && Agree(R, S) && SameUnions(R, S) && MessageOk(S, b) && i < |R| && t < |R| - 1
    ensures var u := Up(Gone(R, i), t);
            DropSlot(R, View(R, S, b), i)[t] == if FilledBy(R, S, b, u, i) then Unset else View(R, S, b)[u]
  {
    hide View, TableOk, MessageOk, Agree, SameUnions, WriterOf;
    var u, k := Up(Gone(R, i), t), SlotOf(R, i);
    if u == k {
      UnionDefault(R, i);
      HeldMeans(R, S, b, i);
    }
  }

  /** The reader sees the message less one slot, and nothing else changed, exactly when the message does
      not hold a member of a union that the reader still has. */
  lemma ProjectionExactly(R: seq<Field>, S: seq<Field>, b: seq<Slot>, i: nat)
    requires TableOk(R) && TableOk(S) && Agree(R, S) && SameUnions(R, S) && MessageOk(S, b) && i < |R|
    ensures var V, x := View(R, S, b), Gone(R, i);
            View(Without(R, i), S, b) == V[..x] + V[x + 1..] <==> !(Sharing(R, i) && WriterOf(R, S, b, i).Some?)
  {
    hide View, TableOk, Agree, SameUnions, WriterOf;
    DroppedFromView(R, S, b, i);
    var V, k, x := View(R, S, b), SlotOf(R, i), Gone(R, i);
    if Sharing(R, i) {
      HeldMeans(R, S, b, i);
      assert k < x by { UnionBeforeGone(R, i); }
      assert (V[..x] + V[x + 1..])[k] == V[k];
      if Which(V[k]) == R[i].tag && R[i].tag > 0 {
        assert DropSlot(R, V, i)[k] == Unset;
      }
      assert R[i].tag > 0 by { TagPositive(R, i); }
    }
  }

  lemma TableTags(fs: seq<Field>)
    requires TableOk(fs)
    ensures UniqueTags(fs)
  {
  }

  lemma TagPositive(fs: seq<Field>, i: nat)
    requires TableOk(fs) && i < |fs|
    ensures fs[i].tag > 0
  {
    assert FieldOk(fs[i]);
  }

  lemma UnionBeforeGone(fs: seq<Field>, i: nat)
    requires i < |fs| && Sharing(fs, i)
    ensures fs[i].rule.OneOf? && SlotOf(fs, i) < Gone(fs, i)
  {
  }

  // ---- dropping inside submessages ------------------------------------------------------------

  /** A way to a field: its position, after the positions of the submessage fields around it. */
  predicate Path(fs: seq<Field>, path: seq<nat>)
    decreases |path|
  {
    && path != [] && path[0] < |fs|
    && (|path| > 1 ==> fs[path[0]].ltype.SubmessageT? && Path(fs[path[0]].sub, path[1..]))
  }

  function Narrowed(fs: seq<Field>, j: nat, sub: seq<Field>): seq<Field>
    requires j < |fs|
  {
    fs[j := fs[j].(sub := sub)]
  }

  function Drop(fs: seq<Field>, path: seq<nat>): seq<Field>
    requires Path(fs, path)
    decreases |path|
  {
    if |path| == 1 then Without(fs, path[0])
    else Narrowed(fs, path[0], Drop(fs[path[0]].sub, path[1..]))
  }

  /** The message less the field at the end of the path, in every value the path leads through. */
  function Pruned(fs: seq<Field>, slots: seq<Slot>, path: seq<nat>): seq<Slot>
    requires |slots| == |fs| && Path(fs, path)
    decreases |path|, 3
  {
    var j := path[0];
    if |path| == 1 then DropSlot(fs, slots, j)
    else slots[SlotOf(fs, j) := PrunedSlot(fs[j], slots[SlotOf(fs, j)], path[1..])]
  }

  function PrunedSlot(f: Field, slot: Slot, path: seq<nat>): Slot
    requires Path(f.sub, path)
    decreases |path|, 6
  {
    match slot
    case Plain(v) => Plain(PrunedValue(f, v, path))
    case Opt(has, v) => Opt(has, PrunedValue(f, v, path))
    case Rep(items) => Rep(PrunedItems(f, items, path))
    case Union(which, v) => if which == f.tag then Union(which, PrunedValue(f, v, path)) else slot
    case _ => slot
  }

  function PrunedItems(f: Field, items: seq<Value>, path: seq<nat>): (r: seq<Value>)
    requires Path(f.sub, path)
    ensures |r| == |items| && forall k :: 0 <= k < |r| ==> r[k] == PrunedValue(f, items[k], path)
    decreases |path|, 5, |items|
  {
    if items == [] then [] else [PrunedValue(f, items[0], path)] + PrunedItems(f, items[1..], path)
  }

  function PrunedValue(f: Field, v: Value, path: seq<nat>): Value
    requires Path(f.sub, path)
    decreases |path|, 4
  {
    if v.Msg? && |v.slots| == |f.sub| then Msg(Pruned(f.sub, v.slots, path)) else v
  }

  lemma DefaultsWithout(fs: seq<Field>, i: nat)
    requires TableOk(fs) && i < |fs|
    ensures DropSlot(fs, Defaults(fs), i) == Defaults(Without(fs, i))
  {
    hide Without, DropSlot, Defaults, DefaultSlot, TableOk, SlotOf, Gone, NextJoins, Joins;
    var x, d, e := Gone(fs, i), Defaults(fs), Defaults(Without(fs, i));
    NothingHeld(fs, i);
    forall t | 0 <= t < |fs| - 1
      ensures e[t] == d[Up(x, t)]
    {
      SameDefault(fs, i, t);
      DefaultsAt(fs, Up(x, t));
      DefaultsAt(Without(fs, i), t);
    }
    TakenOut(d, x, e);
  }

  lemma NothingHeld(fs: seq<Field>, i: nat)
    requires TableOk(fs) && i < |fs|
    ensures var x, d := Gone(fs, i), Defaults(fs);
            x < |fs| && DropSlot(fs, d, i) == d[..x] + d[x + 1..]
  {
    TagPositive(fs, i);
    if Sharing(fs, i) {
      UnionBeforeGone(fs, i);
      UnionStartsUnset(fs, i);
    }
    hide Defaults, TableOk, SlotOf;
  }

  lemma DefaultsAt(fs: seq<Field>, i: nat)
    requires i < |fs|
    ensures Defaults(fs)[i] == DefaultSlot(fs, i)
  {
  }

  lemma TakenOut(a: seq<Slot>, x: nat, b: seq<Slot>)
    requires x < |a| == |b| + 1 && forall t :: 0 <= t < |b| ==> b[t] == a[Up(x, t)]
    ensures a[..x] + a[x + 1..] == b
  {
  }

  /** Dropping a field commutes with taking defaults. */
  lemma {:induction false} DefaultsPruned(fs: seq<Field>, path: seq<nat>)
    requires TableOk(fs) && Path(fs, path)
    ensures Pruned(fs, Defaults(fs), path) == Defaults(Drop(fs, path))
    decreases |path|
  {
    var j := path[0];
    if |path| == 1 {
      DefaultsWithout(fs, j);
    } else {
      assert FieldOk(fs[j]);
      DefaultsPruned(fs[j].sub, path[1..]);
      DefaultsNarrowed(fs, j, Drop(fs[j].sub, path[1..]), path[1..]);
    }
  }

  lemma DefaultsNarrowed(fs: seq<Field>, j: nat, sub: seq<Field>, path: seq<nat>)
    requires j < |fs| && fs[j].ltype.SubmessageT? && Path(fs[j].sub, path)
    requires Pruned(fs[j].sub, Defaults(fs[j].sub), path) == Defaults(sub)
    ensures Defaults(Narrowed(fs, j, sub))
         == Defaults(fs)[SlotOf(fs, j) := PrunedSlot(fs[j], Defaults(fs)[SlotOf(fs, j)], path)]
  {
    var T, k := Narrowed(fs, j, sub), SlotOf(fs, j);
    SharedIsOneOf(fs, j);
    assert PrunedValue(fs[j], DefaultValue(fs[j]), path) == DefaultValue(T[j]);
    forall t | 0 <= t < |fs|
      ensures DefaultSlot(T, t) == if t == k then PrunedSlot(fs[j], DefaultSlot(fs, k), path) else DefaultSlot(fs, t)
    {
      assert Joins(T, t) <==> Joins(fs, t);
    }
  }

  lemma {:induction false} SlotNarrowed(fs: seq<Field>, j: nat, sub: seq<Field>, k: nat)
    requires j < |fs| && k < |fs|
    ensures SlotOf(Narrowed(fs, j, sub), k) == SlotOf(fs, k)
  {
    if Joins(fs, k) {
      SlotNarrowed(fs, j, sub, k - 1);
    }
  }

  /** A reader of a nested table may take the place of that table. */
  lemma NarrowedSubmessageAgrees(R: seq<Field>, S: seq<Field>, j: nat, sub: seq<Field>)
    requires Agree(R, S) && SameUnions(R, S) && j < |R|
    requires match Lookup(S, R[j].tag)
             case None => true
             case Some(w) => Agree(sub, S[w].sub) && SameUnions(sub, S[w].sub)
    ensures Agree(Narrowed(R, j, sub), S) && SameUnions(Narrowed(R, j, sub), S)
  {
    var T := Narrowed(R, j, sub);
    hide SharedInWriter, Lookup;
    assert UniqueTags(T) by {
      forall m, n | 0 <= m < n < |T| ensures T[m].tag != T[n].tag {
        assert R[m].tag != R[n].tag;
      }
    }
    forall m, n | 0 <= m < |T| && 0 <= n < |T| && SlotOf(T, m) == SlotOf(T, n)
      ensures SharedInWriter(S, T[m].tag, T[n].tag)
    {
      SlotNarrowed(R, j, sub, m);
      SlotNarrowed(R, j, sub, n);
      assert SharedInWriter(S, R[m].tag, R[n].tag);
    }
  }

  lemma WriterNarrowed(R: seq<Field>, S: seq<Field>, b: seq<Slot>, j: nat, sub: seq<Field>, m: nat)
    requires |b| == |S| && j < |R| && m < |R|
    ensures WriterOf(Narrowed(R, j, sub), S, b, m) == WriterOf(R, S, b, m)
  {
    hide Lookup, Present;
  }

  lemma {:induction false} FillerNarrowed(R: seq<Field>, S: seq<Field>, b: seq<Slot>, j: nat, sub: seq<Field>,
                                          t: nat, m: nat)
    requires |b| == |S| && j < |R| && m <= |R|
    ensures FillerFrom(Narrowed(R, j, sub), S, b, t, m) == FillerFrom(R, S, b, t, m)
    decreases |R| - m
  {
    hide WriterOf, SlotOf;
    if m < |R| {
      SlotNarrowed(R, j, sub, m);
      WriterNarrowed(R, S, b, j, sub, m);
      FillerNarrowed(R, S, b, j, sub, t, m + 1);
    }
  }

  /** What a field's values come out as, once its table is narrowed. */
  predicate PrunesTo(r: Field, sub: seq<Field>, s: Field, v: Value, path: seq<nat>)
    requires Path(r.sub, path)
  {
    var r' := r.(sub := sub);
    MergedValue(r', DefaultValue(r'), s, v) == PrunedValue(r, MergedValue(r, DefaultValue(r), s, v), path)
  }

  lemma ItemsPruned(r: Field, sub: seq<Field>, s: Field, items: seq<Value>, path: seq<nat>)
    requires Path(r.sub, path) && forall n :: 0 <= n < |items| ==> PrunesTo(r, sub, s, items[n], path)
    ensures MergedItems(r.(sub := sub), s, items) == PrunedItems(r, MergedItems(r, s, items), path)
  {
    hide MergedValue, PrunedValue;
    forall n | 0 <= n < |items|
      ensures MergedItems(r.(sub := sub), s, items)[n] == PrunedItems(r, MergedItems(r, s, items), path)[n]
    {
      assert PrunesTo(r, sub, s, items[n], path);
    }
  }

  /** The slot the narrowed field fills. */
  lemma FilledPruned(R: seq<Field>, S: seq<Field>, b: seq<Slot>, j: nat, w: nat, sub: seq<Field>, path: seq<nat>)
    requires TableOk(S) && MessageOk(S, b) && j < |R| && w < |S| && Present(S, b, w) && FieldsAgree(R[j], S[w])
    requires Path(R[j].sub, path) && forall v :: ValueOk(S[w], v) ==> PrunesTo(R[j], sub, S[w], v, path)
    ensures var k, slot := SlotOf(R, j), b[SlotOf(S, w)];
            FilledSlot(R[j].(sub := sub), DefaultSlot(Narrowed(R, j, sub), k), S[w], slot)
              == PrunedSlot(R[j], FilledSlot(R[j], DefaultSlot(R, k), S[w], slot), path)
  {
    var r, s, k, slot := R[j], S[w], SlotOf(R, j), b[SlotOf(S, w)];
    assert FieldOk(s) && SlotOk(S, b, w);
    SharedIsOneOf(R, j);
    hide MergedValue, PrunedValue, Defaults;
    match s.rule
    case Repeated => ItemsPruned(r, sub, s, slot.items, path);
    case _ => assert PrunesTo(r, sub, s, slot.v, path);
  }

  lemma {:induction false} ValuePruned(r: Field, s: Field, v: Value, path: seq<nat>)
    requires FieldsAgree(r, s) && SameUnions(r.sub, s.sub) && FieldOk(r) && FieldOk(s) && ValueOk(s, v)
    requires r.ltype.SubmessageT? && Path(r.sub, path)
    ensures PrunesTo(r, Drop(r.sub, path), s, v, path)
    decreases |path|, 5
  {
    ViewPruned(r.sub, s.sub, v.slots, path);
  }

  lemma PrunedBelow(fs: seq<Field>, slots: seq<Slot>, path: seq<nat>, t: nat)
    requires |slots| == |fs| && Path(fs, path) && |path| > 1 && t < |fs|
    ensures var j, k := path[0], SlotOf(fs, path[0]);
            && |Pruned(fs, slots, path)| == |fs|
            && Pruned(fs, slots, path)[t] == if t == k then PrunedSlot(fs[j], slots[k], path[1..]) else slots[t]
  {
    hide PrunedSlot;
  }

  /** A slot the narrowed field does not fill keeps its contents, defaults apart. */
  lemma OtherSlotKept(R: seq<Field>, S: seq<Field>, b: seq<Slot>, j: nat, sub: seq<Field>, t: nat, d: seq<Slot>)
    requires UniqueTags(S) && Agree(R, S) && |b| == |S| && j < |R| && t < |R| && |d| == |R|
    requires FillerFrom(R, S, b, t, 0) != Some(j)
    ensures MergedSlot(Narrowed(R, j, sub), d, S, b, t) == MergedSlot(R, d, S, b, t)
  {
    FillerNarrowed(R, S, b, j, sub, t, 0);
    hide FilledSlot, WriterOf, Agree;
    var filler := FillerFrom(R, S, b, t, 0);
    if filler.Some? {
      WriterNarrowed(R, S, b, j, sub, filler.value);
    }
  }

  lemma MergedFrom(R: seq<Field>, a: seq<Slot>, a': seq<Slot>, S: seq<Field>, b: seq<Slot>, t: nat)
    requires |a| == |R| == |a'| && |b| == |S| && t < |R| && a[t] == a'[t]
    ensures MergedSlot(R, a, S, b, t) == MergedSlot(R, a', S, b, t)
  {
    hide FilledSlot, WriterOf, FillerFrom;
  }

  lemma {:induction false} NarrowedSlot(R: seq<Field>, S: seq<Field>, b: seq<Slot>, path: seq<nat>, t: nat)
    requires TableOk(R) && TableOk(S) && Agree(R, S) && SameUnions(R, S) && MessageOk(S, b)
    requires Path(R, path) && |path| > 1 && t < |R|
    ensures var T := Drop(R, path);
            |T| == |R| && MergedSlot(T, Defaults(T), S, b, t) == Pruned(R, View(R, S, b), path)[t]
    decreases |path|, 3
  {
    hide TableOk, Agree, SameUnions, View, MergedSlot, PrunedSlot, Pruned, Defaults, DefaultSlot, WriterOf, FillerFrom;
    var j, q := path[0], path[1..];
    var sub, T, k, d := Drop(R[j].sub, q), Drop(R, path), SlotOf(R, j), Defaults(R);
    DefaultsPruned(R, path);
    PrunedBelow(R, d, path, t);
    PrunedBelow(R, View(R, S, b), path, t);
    ViewAt(R, S, b, t);
    TableTags(S);
    if FillerFrom(R, S, b, t, 0) == Some(j) {
      NarrowedFills(R, S, b, path);
    } else {
      OtherSlotKept(R, S, b, j, sub, t, Defaults(T));
      if t != k {
        MergedFrom(R, Defaults(T), d, S, b, t);
      } else {
        UnfilledSlot(R, S, b, path);
      }
    }
  }

  /** The slot of the narrowed field, when it is that field that fills it. */
  lemma {:induction false} NarrowedFills(R: seq<Field>, S: seq<Field>, b: seq<Slot>, path: seq<nat>)
    requires TableOk(R) && TableOk(S) && Agree(R, S) && SameUnions(R, S) && MessageOk(S, b)
    requires Path(R, path) && |path| > 1 && FillerFrom(R, S, b, SlotOf(R, path[0]), 0) == Some(path[0])
    ensures var T, k := Drop(R, path), SlotOf(R, path[0]);
            && |T| == |R|
            && MergedSlot(T, Defaults(T), S, b, k)
               == PrunedSlot(R[path[0]], MergedSlot(R, Defaults(R), S, b, k), path[1..])
    decreases |path|, 2
  {
    var j, q := path[0], path[1..];
    var sub, k, w := Drop(R[j].sub, q), SlotOf(R, j), WriterOf(R, S, b, j).value;
    assert FieldOk(R[j]) && FieldOk(S[w]) && FieldsAgree(R[j], S[w]) && SameUnions(R[j].sub, S[w].sub);
    FillerNarrowed(R, S, b, j, sub, k, 0);
    WriterNarrowed(R, S, b, j, sub, j);
    forall v | ValueOk(S[w], v) ensures PrunesTo(R[j], sub, S[w], v, q) {
      ValuePruned(R[j], S[w], v, q);
    }
    FilledPruned(R, S, b, j, w, sub, q);
    DefaultsAt(R, k);
    DefaultsAt(Narrowed(R, j, sub), k);
    hide TableOk, MessageOk, Agree, SameUnions, FieldOk, FilledSlot, PrunedSlot, Defaults, DefaultSlot;
    hide FillerFrom, WriterOf;
  }

  /** The slot of the narrowed field, when nothing or another member of its union fills it. */
  lemma {:induction false} UnfilledSlot(R: seq<Field>, S: seq<Field>, b: seq<Slot>, path: seq<nat>)
    requires TableOk(R) && TableOk(S) && Agree(R, S) && SameUnions(R, S) && MessageOk(S, b)
    requires Path(R, path) && |path| > 1 && FillerFrom(R, S, b, SlotOf(R, path[0]), 0) != Some(path[0])
    ensures var T, k := Drop(R, path), SlotOf(R, path[0]);
            && |T| == |R|
            && MergedSlot(R, Defaults(T), S, b, k)
               == PrunedSlot(R[path[0]], MergedSlot(R, Defaults(R), S, b, k), path[1..])
  {
    hide TableOk, Agree, SameUnions, View, FilledSlot, Pruned, Defaults, WriterOf, FillerFrom, PrunedValue, PrunedItems;
    var T, j, k, d := Drop(R, path), path[0], SlotOf(R, path[0]), Defaults(R);
    DefaultsPruned(R, path);
    PrunedBelow(R, d, path, k);
    match FillerFrom(R, S, b, k, 0)
    case None =>
    case Some(m) =>
      OtherMember(R, S, b, j, m);
      UnionStartsUnset(R, j);
      ViewAt(R, S, b, k);
      MergedFrom(R, Defaults(T), d, S, b, k);
  }

  /** Another member of the union that field j belongs to. */
  lemma OtherMember(R: seq<Field>, S: seq<Field>, b: seq<Slot>, j: nat, m: nat)
    requires TableOk(R) && TableOk(S) && Agree(R, S) && SameUnions(R, S) && MessageOk(S, b)
    requires j < |R| && m < |R| && m != j && SlotOf(R, m) == SlotOf(R, j) && WriterOf(R, S, b, m).Some?
    ensures R[j].rule.OneOf? && View(R, S, b)[SlotOf(R, j)].Union? && View(R, S, b)[SlotOf(R, j)].which != R[j].tag
  {
    SharedIsOneOf(R, m);
    SharedIsOneOf(R, j);
    TagPositive(R, m);
    UnionFilled(R, S, b, m);
    if R[m].tag == R[j].tag {
      SameTag(R, m, j);
    }
  }

  /** Dropping a field at any depth, seen from the messages. */
  lemma {:induction false} ViewPruned(R: seq<Field>, S: seq<Field>, b: seq<Slot>, path: seq<nat>)
    requires TableOk(R) && TableOk(S) && Agree(R, S) && SameUnions(R, S) && MessageOk(S, b) && Path(R, path)
    ensures View(Drop(R, path), S, b) == Pruned(R, View(R, S, b), path)
    decreases |path|, 4
  {
    if |path| == 1 {
      DroppedFromView(R, S, b, path[0]);
    } else {
      forall t | 0 <= t < |R|
        ensures |Drop(R, path)| == |R| && View(Drop(R, path), S, b)[t] == Pruned(R, View(R, S, b), path)[t]
      {
        NarrowedSlot(R, S, b, path, t);
        ViewAt(Drop(R, path), S, b, t);
      }
    }
  }

  // ---- dropping any number of fields ----------------------------------------------------------

  lemma TableWithout(fs: seq<Field>, i: nat)
    requires TableOk(fs) && i < |fs|
    ensures TableOk(Without(fs, i))
  {
    TagsWithout(fs, i);
    hide Without;
    forall j | 0 <= j < |fs| - 1 ensures FieldOk(Without(fs, i)[j]) {
      assert FieldOk(fs[Up(i, j)]);
    }
  }

  lemma {:induction false} TableDropped(fs: seq<Field>, path: seq<nat>)
    requires TableOk(fs) && Path(fs, path)
    ensures TableOk(Drop(fs, path))
    decreases |path|
  {
    var j := path[0];
    if |path| == 1 {
      TableWithout(fs, j);
    } else {
      assert FieldOk(fs[j]);
      TableDropped(fs[j].sub, path[1..]);
      TableNarrowed(fs, j, Drop(fs[j].sub, path[1..]));
    }
  }

  lemma TableNarrowed(fs: seq<Field>, j: nat, sub: seq<Field>)
    requires TableOk(fs) && j < |fs| && fs[j].ltype.SubmessageT? && TableOk(sub)
    ensures TableOk(Narrowed(fs, j, sub))
  {
    var T := Narrowed(fs, j, sub);
    forall i | 0 <= i < |fs| ensures FieldOk(T[i]) {
      assert FieldOk(fs[i]);
    }
    forall m, n | 0 <= m < n < |T| ensures T[m].tag != T[n].tag {
      assert fs[m].tag != fs[n].tag;
    }
  }

  /** Whatever field is dropped, at any depth, what is left is a reader of the same messages. */
  lemma {:induction false} DroppedAgrees(R: seq<Field>, S: seq<Field>, path: seq<nat>)
    requires Agree(R, S) && SameUnions(R, S) && Path(R, path)
    ensures Agree(Drop(R, path), S) && SameUnions(Drop(R, path), S)
    decreases |path|
  {
    var j := path[0];
    if |path| == 1 {
      DroppedFieldAgrees(R, S, j);
    } else {
      var w := Lookup(S, R[j].tag);
      if w.Some? {
        assert FieldsAgree(R[j], S[w.value]) && SameUnions(R[j].sub, S[w.value].sub);
        DroppedAgrees(R[j].sub, S[w.value].sub, path[1..]);
      }
      NarrowedSubmessageAgrees(R, S, j, Drop(R[j].sub, path[1..]));
    }
  }

  /** Each way leads to a field of the table that is left. */
  predicate Paths(fs: seq<Field>, drops: seq<seq<nat>>)
    decreases |drops|
  {
    drops == [] || (Path(fs, drops[0]) && Paths(Drop(fs, drops[0]), drops[1..]))
  }

  function DropAll(fs: seq<Field>, drops: seq<seq<nat>>): seq<Field>
    requires Paths(fs, drops)
    decreases |drops|
  {
    if drops == [] then fs else DropAll(Drop(fs, drops[0]), drops[1..])
  }

  lemma {:induction false} PrunedLength(fs: seq<Field>, slots: seq<Slot>, path: seq<nat>)
    requires |slots| == |fs| && Path(fs, path)
    ensures |Pruned(fs, slots, path)| == |Drop(fs, path)|
  {
  }

  function PrunedAll(fs: seq<Field>, slots: seq<Slot>, drops: seq<seq<nat>>): seq<Slot>
    requires |slots| == |fs| && Paths(fs, drops)
    decreases |drops|
  {
    if drops == [] then slots
    else
      PrunedLength(fs, slots, drops[0]);
      PrunedAll(Drop(fs, drops[0]), Pruned(fs, slots, drops[0]), drops[1..])
  }

  lemma {:induction false} ViewPrunedAll(R: seq<Field>, S: seq<Field>, b: seq<Slot>, drops: seq<seq<nat>>)
    requires TableOk(R) && TableOk(S) && Agree(R, S) && SameUnions(R, S) && MessageOk(S, b) && Paths(R, drops)
    ensures Agree(DropAll(R, drops), S) && SameUnions(DropAll(R, drops), S)
    ensures View(DropAll(R, drops), S, b) == PrunedAll(R, View(R, S, b), drops)
    decreases |drops|
  {
    hide Agree, SameUnions, View, TableOk, MessageOk, Path, Drop, Pruned;
    if drops != [] {
      TableDropped(R, drops[0]);
      DroppedAgrees(R, S, drops[0]);
      ViewPruned(R, S, b, drops[0]);
      ViewPrunedAll(Drop(R, drops[0]), S, b, drops[1..]);
    }
  }

  /** Forward compatibility: any message, decoded under its table less any fields at any depth, comes out
      as its own table would give it, less those fields. It fails exactly when it sends a string without
      room for its terminator in a field that is left. */
  lemma DecodeAfterDropping(S: seq<Field>, b: seq<Slot>, drops: seq<seq<nat>>)
    requires TableOk(S) && MessageOk(S, b) && Paths(S, drops)
    ensures Encode(S, b).Some?
    ensures var p := Decode(DropAll(S, drops), Encode(S, b).value);
            && (p.None? <==> Overfull(DropAll(S, drops), S, b))
            && (p.Some? ==> && p.value.slots == PrunedAll(S, View(S, S, b), drops)
                            && !p.value.stopped && p.value.rest == [])
  {
    AgreeWithItself(S);
    hide Agree, SameUnions, View, Decode, Overfull, TableOk, MessageOk, Paths, DropAll, PrunedAll;
    ViewPrunedAll(S, S, b, drops);
    DecodeIsView(DropAll(S, drops), S, b);
  }

  /** A clean message comes out as itself, less those fields. */
  lemma ForwardCompatibility(S: seq<Field>, b: seq<Slot>, drops: seq<seq<nat>>)
    requires TableOk(S) && MessageOk(S, b) && Clean(S, b) && Paths(S, drops)
    ensures Encode(S, b).Some?
    ensures var p := Decode(DropAll(S, drops), Encode(S, b).value);
            p.Some? && p.value.slots == PrunedAll(S, b, drops) && !p.value.stopped && p.value.rest == []
  {
    AgreeWithItself(S);
    hide View, Decode, Agree, SameUnions, TableOk, MessageOk, Clean, Paths, DropAll, PrunedAll, OverfullFrom;
    CleanView(S, b);
    ViewPrunedAll(S, S, b, drops);
    CleanIsFormed(S, b, Loose);
    FormedNeverOverfull(DropAll(S, drops), S, b, 0);
    DecodeAfterDropping(S, b, drops);
  }
}
