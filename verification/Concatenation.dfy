/** Concatenated inputs: decoding s1 + s2 is decoding s1 and then s2 into the same struct. */
module Concatenation {
  import opened Words
  import opened Varints
  import opened Schema
  import opened Wire
  import opened Encoding
  import opened Decoding
  import opened Merging
  import opened MergeResults
  import opened Shapes
  import opened Evolution
  import opened Soundness

  // ---- every reader looks only at what it consumes ------------------------------------------

  lemma {:induction false} VarintFromExtends(s: bytes, t: bytes, k: nat, acc: nat)
    ensures var p := ReadVarintFrom(s, k, acc);
            p.Got? ==> ReadVarintFrom(s + t, k, acc) == Got(p.value, p.rest + t)
  {
    hide OrAt;
    if 7 * k < 64 && s != [] {
      assert (s + t)[1..] == s[1..] + t;
      VarintFromExtends(s[1..], t, k + 1, OrAt(acc, s[0] % 0x80, 7 * k, WORD64));
    }
  }

  lemma VarintExtends(s: bytes, t: bytes)
    ensures var p := ReadVarint(s);
            p.Got? ==> ReadVarint(s + t) == Got(p.value, p.rest + t)
  {
    hide ReadVarintFrom;
    VarintFromExtends(s, t, 0, 0);
  }

  lemma {:induction false} Varint32FromExtends(s: bytes, t: bytes, bitpos: nat, acc: nat)
    requires bitpos < 0x100
    ensures var p := ReadVarint32From(s, bitpos, acc);
            p.Got? ==> ReadVarint32From(s + t, bitpos, acc) == Got(p.value, p.rest + t)
  {
    hide OrAt;
    if s != [] {
      assert (s + t)[1..] == s[1..] + t;
      var acc' := if bitpos >= 32 then acc else OrAt(acc, s[0] % 0x80, bitpos, WORD32);
      Varint32FromExtends(s[1..], t, (bitpos + 7) % 0x100, acc');
    }
  }

  lemma Varint32Extends(s: bytes, t: bytes)
    ensures var p := ReadVarint32(s);
            p.Got? ==> ReadVarint32(s + t) == Got(p.value, p.rest + t)
  {
    hide ReadVarint32From;
    if s != [] {
      assert (s + t)[1..] == s[1..] + t;
      Varint32FromExtends(s[1..], t, 7, s[0] % 0x80);
    }
  }

  lemma {:induction false} SkipVarintExtends(s: bytes, t: bytes)
    ensures SkipVarint(s).Got? ==> SkipVarint(s + t) == Got((), SkipVarint(s).rest + t)
  {
    if s != [] {
      assert (s + t)[1..] == s[1..] + t;
      SkipVarintExtends(s[1..], t);
    }
  }

  lemma DelimitedExtends(s: bytes, t: bytes)
    ensures var p := ReadDelimited(s);
            p.Got? ==> ReadDelimited(s + t) == Got(p.value, p.rest + t)
  {
    hide ReadVarint32;
    Varint32Extends(s, t);
    var p := ReadVarint32(s);
    if p.Got? && p.value <= |p.rest| {
      assert (p.rest + t)[..p.value] == p.rest[..p.value];
      assert (p.rest + t)[p.value..] == p.rest[p.value..] + t;
    }
  }

  lemma FixedExtends(s: bytes, t: bytes, k: nat)
    requires k <= |s|
    ensures (s + t)[..k] == s[..k] && (s + t)[k..] == s[k..] + t
  {
  }

  lemma SkipExtends(wt: nat, s: bytes, t: bytes)
    ensures SkipField(wt, s).Got? ==> SkipField(wt, s + t) == Got((), SkipField(wt, s).rest + t)
  {
    hide ReadDelimited, SkipVarint;
    SkipVarintExtends(s, t);
    DelimitedExtends(s, t);
    if |s| >= 4 {
      FixedExtends(s, t, 4);
    }
    if |s| >= 8 {
      FixedExtends(s, t, 8);
    }
  }

  lemma ScalarExtends(f: Field, s: bytes, t: bytes)
    ensures var p := DecodeScalar(f, s);
            p.Got? ==> DecodeScalar(f, s + t) == Got(p.value, p.rest + t)
  {
    hide ReadVarint, ReadVarint32, ReadDelimited, FixedValue, ToSigned32, ToSigned64, Unzigzag, Zeros;
    match f.ltype
    case BoolT => Varint32Extends(s, t);
    case VarintT => VarintExtends(s, t);
    case UVarintT => VarintExtends(s, t);
    case SVarintT => VarintExtends(s, t);
    case Fixed32T =>
      if |s| >= 4 {
        FixedExtends(s, t, 4);
      }
    case Fixed64T =>
      if |s| >= 8 {
        FixedExtends(s, t, 8);
      }
    case BytesT => DelimitedExtends(s, t);
    case StringT => DelimitedExtends(s, t);
    case FixedBytesT => DelimitedExtends(s, t);
    case SubmessageT =>
  }

  lemma ValueExtends(f: Field, s: bytes, t: bytes, prior: Value)
    ensures var p := DecodeValue(f, s, prior);
            p.Got? ==> DecodeValue(f, s + t, prior) == Got(p.value, p.rest + t)
  {
    hide ReadDelimited, DecodeScalar;
    if f.ltype.SubmessageT? {
      DelimitedExtends(s, t);
    } else {
      ScalarExtends(f, s, t);
    }
  }

  lemma FieldExtends(fs: seq<Field>, i: nat, wt: nat, s: bytes, t: bytes, a: seq<Slot>)
    requires |a| == |fs| && i < |fs|
    ensures var p := DecodeField(fs, i, wt, s, a);
            p.Got? ==> DecodeField(fs, i, wt, s + t, a) == Got(p.value, p.rest + t)
  {
    hide ReadDelimited, DecodeValue, DecodePacked, ReleaseFails;
    var f, slot := fs[i], a[SlotOf(fs, i)];
    DelimitedExtends(s, t);
    match (f.rule, slot)
    case (Required, Plain(prior)) => ValueExtends(f, s, t, prior);
    case (Optional, Plain(prior)) => ValueExtends(f, s, t, prior);
    case (Optional, Opt(_, prior)) => ValueExtends(f, s, t, prior);
    case (Repeated, Rep(_)) => ValueExtends(f, s, t, f.initial);
    case (OneOf, _) => ValueExtends(f, s, t, UnionBase(f, slot));
    case _ =>
  }

  lemma TagExtends(s: bytes, t: bytes)
    ensures match ReadTag(s)
            case TagBad => true
            case TagZero(after) => ReadTag(s + t) == TagZero(after + t)
            case Tag(tag, wt, after) => ReadTag(s + t) == Tag(tag, wt, after + t)
  {
    hide ReadVarint32;
    Varint32Extends(s, t);
  }

  // ---- the record loop ------------------------------------------------------------------------

  /** The loop's progress on s carries over to s + t: after a zero tag nothing more is read, and
      otherwise the loop goes on with t. */
  lemma {:induction false} LoopExtends(fs: seq<Field>, s: bytes, t: bytes, a: seq<Slot>, seen: set<nat>)
    requires |a| == |fs|
    ensures match DecodeLoop(fs, s, a, seen)
            case None => true
            case Some(p) =>
              if p.stopped then DecodeLoop(fs, s + t, a, seen) == Some(p.(rest := p.rest + t))
              else p.rest == [] && DecodeLoop(fs, s + t, a, seen) == DecodeLoop(fs, t, p.slots, p.seen)
    decreases |s|
  {
    hide ReadTag, SkipField, DecodeField, DecodeScalar, Lookup;
    if s == [] {
      assert s + t == t;
    } else {
      TagExtends(s, t);
      match ReadTag(s)
      case TagBad =>
      case TagZero(after) =>
      case Tag(tag, wt, after) =>
        if fs == [] && tag == 0 {
          ScalarExtends(Terminator(), after, t);
          ScalarShrinks(Terminator(), after);
          var p := DecodeScalar(Terminator(), after);
          if p.Got? {
            LoopExtends(fs, p.rest, t, a, seen);
          }
        } else {
          match Lookup(fs, tag)
          case None =>
            SkipExtends(wt, after, t);
            var p := SkipField(wt, after);
            if p.Got? {
              LoopExtends(fs, p.rest, t, a, seen);
            }
          case Some(i) =>
            FieldExtends(fs, i, wt, after, t, a);
            var p := DecodeField(fs, i, wt, after, a);
            if p.Got? {
              LoopExtends(fs, p.rest, t, p.value, seen + {i});
            }
        }
    }
  }

  function WithSeen(p: Option<Progress>, seen: set<nat>): Option<Progress> {
    if p.Some? then Some(p.value.(seen := seen + p.value.seen)) else None
  }

  /** The fields found earlier change nothing but the set of fields found. */
  lemma {:induction false} SeenAdds(fs: seq<Field>, s: bytes, a: seq<Slot>, seen: set<nat>, more: set<nat>)
    requires |a| == |fs|
    ensures DecodeLoop(fs, s, a, seen + more) == WithSeen(DecodeLoop(fs, s, a, more), seen)
    decreases |s|
  {
    hide ReadTag, SkipField, DecodeField, DecodeScalar, Lookup;
    if s != [] {
      match ReadTag(s)
      case TagBad =>
      case TagZero(after) =>
      case Tag(tag, wt, after) =>
        if fs == [] && tag == 0 {
          ScalarShrinks(Terminator(), after);
          var p := DecodeScalar(Terminator(), after);
          if p.Got? {
            SeenAdds(fs, p.rest, a, seen, more);
          }
        } else {
          match Lookup(fs, tag)
          case None =>
            var p := SkipField(wt, after);
            if p.Got? {
              SeenAdds(fs, p.rest, a, seen, more);
            }
          case Some(i) =>
            var p := DecodeField(fs, i, wt, after, a);
            if p.Got? {
              assert seen + more + {i} == seen + (more + {i});
              SeenAdds(fs, p.rest, p.value, seen, more + {i});
            }
        }
    }
  }

  /** Concatenation is sequencing, for every table and every input: if s1 is read to its end without
      a zero tag, then decoding s1 + s2 is decoding s2 into the result, and the required fields may
      come from either part. */
  lemma ConcatenationIsSequencing(fs: seq<Field>, s1: bytes, s2: bytes, a: seq<Slot>)
    requires |a| == |fs|
    requires DecodeLoop(fs, s1, a, {}).Some? && !DecodeLoop(fs, s1, a, {}).value.stopped
    ensures var p1 := DecodeLoop(fs, s1, a, {}).value;
            DecodeInto(fs, s1 + s2, a)
              == match DecodeLoop(fs, s2, p1.slots, {})
                 case None => None
                 case Some(p2) =>
                   if AllRequired(fs, p1.seen + p2.seen) then Some(p2.(seen := p1.seen + p2.seen)) else None
  {
    LoopExtends(fs, s1, s2, a, {});
    var p1 := DecodeLoop(fs, s1, a, {}).value;
    SeenAdds(fs, s2, p1.slots, p1.seen, {});
    assert p1.seen + {} == p1.seen;
  }

  /** With no tracked required field, decoding s1 + s2 is decoding s1 and then s2. */
  lemma ConcatenationWithoutRequired(fs: seq<Field>, s1: bytes, s2: bytes, a: seq<Slot>)
    requires |a| == |fs| && (forall i :: 0 <= i < |fs| ==> !fs[i].rule.Required?)
    requires DecodeInto(fs, s1, a).Some? && !DecodeInto(fs, s1, a).value.stopped
    ensures var p1 := DecodeInto(fs, s1, a).value;
            DecodeInto(fs, s1 + s2, a) == WithSeen(DecodeInto(fs, s2, p1.slots), p1.seen)
  {
    hide DecodeLoop;
    ConcatenationIsSequencing(fs, s1, s2, a);
  }

  /** An encoded message after any input that is read to its end: decoding fails exactly when a field of
      the message fails against the struct the input left, and otherwise merges the message into it. The
      fields the reader requires may come from the message. */
  lemma MergesAfterInput(R: seq<Field>, S: seq<Field>, a: seq<Slot>, s: bytes, b: seq<Slot>)
    requires TableOk(S) && Agree(R, S) && SameUnions(R, S) && MessageOk(S, b) && |a| == |R|
    requires DecodeLoop(R, s, a, {}).Some? && !DecodeLoop(R, s, a, {}).value.stopped
    requires Shaped(R, DecodeLoop(R, s, a, {}).value.slots)
    ensures Encode(S, b).Some?
    ensures var p := DecodeInto(R, s + Encode(S, b).value, a);
            var left := DecodeLoop(R, s, a, {}).value.slots;
            && (p.None? <==> SomeFieldFails(R, left, S, b, 0))
            && (p.Some? ==> p.value.slots == Merged(R, left, S, b) && !p.value.stopped && p.value.rest == [])
  {
    hide DecodeLoop, Merge, AllRequired, SomeFieldFails, FailsFrom, Merged, Shaped, EncodeFrom, SeenFrom;
    hide TableOk, Agree, SameUnions;
    var p1 := DecodeLoop(R, s, a, {}).value;
    MergeResult(R, p1.slots, S, b);
    FailsSomewhere(R, p1.slots, S, b, 0);
    EncodedAlone(R, S, p1.slots, b);
    ConcatenationIsSequencing(R, s, Encode(S, b).value, a);
    SeenCovers(R, S, b, {});
    MoreSeen(R, SeenFrom(R, S, b, 0, {}), p1.seen);
    assert SeenFrom(R, S, b, 0, {}) + p1.seen == p1.seen + SeenFrom(R, S, b, 0, {});
  }

  lemma EncodedAlone(R: seq<Field>, S: seq<Field>, a: seq<Slot>, b: seq<Slot>)
    requires TableOk(S) && Agree(R, S) && MessageOk(S, b) && |a| == |R|
    ensures Encode(S, b).Some?
    ensures DecodeLoop(R, Encode(S, b).value, a, {})
         == match Merge(R, a, S, b, 0)
            case None => None
            case Some(m) => Some(Progress(m, SeenFrom(R, S, b, 0, {}), false, []))
  {
    hide DecodeLoop, Merge;
    MessageEncodes(S, b, 0, true);
    assert Encode(S, b).value + [] == Encode(S, b).value;
    DecodeOfEncodeFrom(R, S, a, b, 0, {}, []);
    var m := Merge(R, a, S, b, 0);
    if m.Some? {
      LoopEnds(R, m.value, SeenFrom(R, S, b, 0, {}));
    }
  }

  /** In particular after whatever a decoder accepted. */
  lemma MergesAfterDecoding(R: seq<Field>, S: seq<Field>, s: bytes, b: seq<Slot>)
    requires TableOk(R) && TableOk(S) && Agree(R, S) && SameUnions(R, S) && MessageOk(S, b)
    requires Decode(R, s).Some? && !Decode(R, s).value.stopped
    ensures Encode(S, b).Some?
    ensures var p := Decode(R, s + Encode(S, b).value);
            var left := Decode(R, s).value.slots;
            && (p.None? <==> SomeFieldFails(R, left, S, b, 0))
            && (p.Some? ==> p.value.slots == Merged(R, left, S, b) && !p.value.stopped && p.value.rest == [])
  {
    hide DecodeLoop, AllRequired, SomeFieldFails, Merged, Shaped, Formed, TableOk, MessageOk;
    DecodedIsFormed(R, s);
    FormedIsShaped(R, Decode(R, s).value.slots);
    MergesAfterInput(R, S, Defaults(R), s, b);
  }

  /** And after another encoded message: decoding fails exactly when that message sends a string without
      room for its terminator, or a field of the second one fails against the reader's view of the first. */
  lemma ConcatenationMerges(R: seq<Field>, S: seq<Field>, b1: seq<Slot>, b2: seq<Slot>)
    requires TableOk(S) && Agree(R, S) && SameUnions(R, S) && MessageOk(S, b1) && MessageOk(S, b2)
    ensures Encode(S, b1).Some? && Encode(S, b2).Some?
    ensures var p := Decode(R, Encode(S, b1).value + Encode(S, b2).value);
            var view := View(R, S, b1);
            && (p.None? <==> Overfull(R, S, b1) || SomeFieldFails(R, view, S, b2, 0))
            && (p.Some? ==> p.value.slots == Merged(R, view, S, b2) && !p.value.stopped && p.value.rest == [])
  {
    hide DecodeLoop, View, AllRequired, SomeFieldFails, Merged, Shaped, Overfull, Merge;
    MergeIsView(R, S, b1);
    EncodedAlone(R, S, Defaults(R), b1);
    if Overfull(R, S, b1) {
      MessageEncodes(S, b2, 0, true);
      DecodeOfEncodeFrom(R, S, Defaults(R), b1, 0, {}, Encode(S, b2).value);
    } else {
      ViewShaped(R, S, b1);
      MergesAfterInput(R, S, Defaults(R), Encode(S, b1).value, b2);
    }
  }

  lemma LoopEnds(fs: seq<Field>, a: seq<Slot>, seen: set<nat>)
    requires |a| == |fs|
    ensures DecodeLoop(fs, [], a, seen) == Some(Progress(a, seen, false, []))
  {
  }

  lemma ViewShaped(R: seq<Field>, S: seq<Field>, b: seq<Slot>)
    requires TableOk(S) && Agree(R, S) && MessageOk(S, b)
    ensures Shaped(R, View(R, S, b))
  {
    DefaultsShaped(R);
    MergedShaped(R, Defaults(R), S, b);
  }

  lemma MoreSeen(fs: seq<Field>, seen: set<nat>, more: set<nat>)
    requires AllRequired(fs, seen)
    ensures AllRequired(fs, seen + more)
  {
  }
}
