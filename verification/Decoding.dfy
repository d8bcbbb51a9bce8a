/** What the decoder makes of a byte string: the updated struct, or failure. */
module Decoding {
  import opened Words
  import opened Varints
  import opened Schema
  import opened Wire
  import opened Encoding

  /** Storing a decoded integer in `dataSize` bytes; None when it does not fit. */
  function NarrowSigned(n: int, width: nat): Option<Value> {
    if FitsSigned(n, width) then Some(Int(n)) else None
  }

  function NarrowUnsigned(n: nat, width: nat): Option<Value> {
    if FitsUnsigned(n, width) then Some(Int(n)) else None
  }

  function Stored(v: Option<Value>, rest: bytes): Parse<Value> {
    if v.Some? then Got(v.value, rest) else Bad
  }

  /** The field decoders of scalars. Fields of at most 32 bits take the low word of a varint. */
  function DecodeScalar(f: Field, s: bytes): Parse<Value> {
    match f.ltype
    case BoolT =>
      var (n, rest) :- ReadVarint32(s);
      Got(Int(if n != 0 then 1 else 0), rest)
    case VarintT =>
      var (w, rest) :- ReadVarint(s);
      Stored(NarrowSigned(if f.dataSize == 8 then ToSigned64(w) else ToSigned32(w), f.dataSize), rest)
    case UVarintT =>
      var (w, rest) :- ReadVarint(s);
      Stored(NarrowUnsigned(w, f.dataSize), rest)
    case SVarintT =>
      var (w, rest) :- ReadVarint(s);
      Stored(NarrowSigned(Unzigzag(w), f.dataSize), rest)
    case Fixed32T =>
      var (w, rest) :- ReadFixed(s, 4);
      Got(Int(w), rest)
    case Fixed64T =>
      var (w, rest) :- ReadFixed(s, 8);
      Got(Int(w), rest)
    case BytesT =>
      var (data, rest) :- ReadDelimited(s);
      if |data| + BYTES_HEADER > f.dataSize then Bad else Got(Blob(data), rest)
    case StringT =>
      var (data, rest) :- ReadDelimited(s);
      if |data| + 1 > f.dataSize then Bad else Got(Blob(data), rest)
    case FixedBytesT =>
      var (data, rest) :- ReadDelimited(s);
      if data == [] then Got(Blob(Zeros(f.dataSize)), rest)
      else if |data| != f.dataSize then Bad
      else Got(Blob(data), rest)
    case SubmessageT => Bad
  }

  lemma ScalarShrinks(f: Field, s: bytes)
    ensures DecodeScalar(f, s).Got? ==> |DecodeScalar(f, s).rest| < |s|
  {
    hide ReadVarint, ReadVarint32;
    ReadersShrink(s);
  }

  /** `seen` holds the fields found, `stopped` whether a zero tag ended the message, and `rest` what
      is then left unread. */
  datatype Progress = Progress(slots: seq<Slot>, seen: set<nat>, stopped: bool, rest: bytes)

  function DecodePacked(f: Field, s: bytes, items: seq<Value>): Option<seq<Value>>
    decreases |s|
  {
    if s == [] then Some(items)
    else if |items| >= f.arraySize then None
    else
      match DecodeScalar(f, s)
      case Bad => None
      case Got(v, rest) =>
        ScalarShrinks(f, s);
        DecodePacked(f, rest, items + [v])
  }

  function DecodeValue(f: Field, s: bytes, prior: Value): (p: Parse<Value>)
    ensures p.Got? ==> |p.rest| < |s|
    decreases f, 0, 0
  {
    if f.ltype.SubmessageT? then
      match ReadDelimited(s)
      case Bad => Bad
      case Got(body, rest) =>
        var base := if f.rule.Repeated? then DefaultValue(f) else prior;
        if base.Msg? && |base.slots| == |f.sub| then
          match DecodeInto(f.sub, body, base.slots)
          case None => Bad
          case Some(p) => Got(Msg(p.slots), rest)
        else Bad
    else
      ScalarShrinks(f, s);
      DecodeScalar(f, s)
  }

  /** The value a oneof member is decoded over: a submessage keeps its contents only while it stays
      the active member. */
  function UnionBase(f: Field, slot: Slot): Value {
    if f.ltype.SubmessageT? && slot.Union? && slot.which == f.tag then slot.v else DefaultValue(f)
  }

  /** Old union contents are released by looking their tag up; an unknown tag is an error. */
  predicate ReleaseFails(fs: seq<Field>, f: Field, slot: Slot) {
    Which(slot) != 0 && Which(slot) != f.tag && Lookup(fs, Which(slot)).None?
  }

  function DecodeField(fs: seq<Field>, i: nat, wt: nat, s: bytes, slots: seq<Slot>): (p: Parse<seq<Slot>>)
    requires |slots| == |fs| && i < |fs|
    ensures p.Got? ==> |p.value| == |fs| && |p.rest| <= |s|
    decreases fs, |s|, 0
  {
    var f, k := fs[i], SlotOf(fs, i);
    match (f.rule, slots[k])
    case (Required, Plain(prior)) =>
      var (v, rest) :- DecodeValue(f, s, prior);
      Got(slots[k := Plain(v)], rest)
    case (Optional, Plain(prior)) =>
      if f.HasSize() then Bad
      else
        var (v, rest) :- DecodeValue(f, s, prior);
        Got(slots[k := Plain(v)], rest)
    case (Optional, Opt(_, prior)) =>
      if !f.HasSize() then Bad
      else
        var (v, rest) :- DecodeValue(f, s, prior);
        Got(slots[k := Opt(true, v)], rest)
    case (Repeated, Rep(items)) =>
      if wt == WT_STRING && f.ltype.Packable() then
        var (payload, rest) :- ReadDelimited(s);
        (match DecodePacked(f, payload, items)
         case None => Bad
         case Some(all) => Got(slots[k := Rep(all)], rest))
      else if |items| >= f.arraySize then Bad
      else
        var (v, rest) :- DecodeValue(f, s, f.initial);
        Got(slots[k := Rep(items + [v])], rest)
    case (OneOf, _) =>
      if !(slots[k].Union? || slots[k].Unset?) || ReleaseFails(fs, f, slots[k]) then Bad
      else
        var (v, rest) :- DecodeValue(f, s, UnionBase(f, slots[k]));
        Got(slots[k := Union(f.tag, v)], rest)
    case _ => Bad
  }

  /** The record loop. In an empty table the iterator rests on the terminator, whose tag is zero, so
      there a record with field number zero is read as a bool and dropped. */
  function DecodeLoop(fs: seq<Field>, s: bytes, slots: seq<Slot>, seen: set<nat>): (p: Option<Progress>)
    requires |slots| == |fs|
    ensures p.Some? ==> |p.value.slots| == |fs|
    decreases fs, |s|, 1
  {
    if s == [] then Some(Progress(slots, seen, false, []))
    else
      match ReadTag(s)
      case TagBad => None
      case TagZero(after) => Some(Progress(slots, seen, true, after))
      case Tag(tag, wt, after) =>
        if fs == [] && tag == 0 then
          ScalarShrinks(Terminator(), after);
          (match DecodeScalar(Terminator(), after)
           case Bad => None
           case Got(_, rest) => DecodeLoop(fs, rest, slots, seen))
        else
          match Lookup(fs, tag)
          case None =>
            (match SkipField(wt, after)
             case Bad => None
             case Got(_, rest) => DecodeLoop(fs, rest, slots, seen))
          case Some(i) =>
            (match DecodeField(fs, i, wt, after, slots)
             case Bad => None
             case Got(slots', rest) => DecodeLoop(fs, rest, slots', seen + {i}))
  }

  /** The all-zero descriptor that ends a table: a required static bool with tag zero. */
  function Terminator(): Field {
    Field(0, Required, Static, BoolT, 0, 0, 0, 0, [], Int(0))
  }

  predicate AllRequired(fs: seq<Field>, seen: set<nat>) {
    forall i :: 0 <= i < |fs| && Tracked(fs, i) ==> i in seen
  }

  /** Decoding into a struct without initializing it. */
  function DecodeInto(fs: seq<Field>, s: bytes, slots: seq<Slot>): (p: Option<Progress>)
    requires |slots| == |fs|
    ensures p.Some? ==> |p.value.slots| == |fs|
    decreases fs, |s|, 2
  {
    var p :- DecodeLoop(fs, s, slots, {});
    if AllRequired(fs, p.seen) then Some(p) else None
  }

  function Decode(fs: seq<Field>, s: bytes): Option<Progress> {
    DecodeInto(fs, s, Defaults(fs))
  }
}
