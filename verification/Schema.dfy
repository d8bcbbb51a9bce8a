/** Field tables and message storage: the descriptor array of a message type, and one slot of
    storage for each field. The build is the one the pods are compiled with: 32-bit `pb_size_t`,
    malloc enabled, 64-bit `size_t`. */
module Schema {
  import opened Words

  const PB_SIZE_MAX: nat := 0xFFFF_FFFF
  const PB_MAX_REQUIRED_FIELDS: nat := 64
  const TAG_LIMIT: nat := 0x2000_0000
  const POINTER_SIZE: nat := 8
  /** Offset of the byte array inside `pb_bytes_array_t`: the size of its length field. */
  const BYTES_HEADER: nat := 4

  datatype LType =
    | BoolT | VarintT | UVarintT | SVarintT | Fixed32T | Fixed64T
    | BytesT | StringT | SubmessageT | FixedBytesT
  {
    /** At most PB_LTYPE_LAST_PACKABLE. */
    predicate Packable() {
      BoolT? || VarintT? || UVarintT? || SVarintT? || Fixed32T? || Fixed64T?
    }
  }

  datatype Rule = Required | Optional | Repeated | OneOf

  datatype Alloc = Static | Pointer | Callback

  /** One descriptor. `sub` is the table of a submessage, `initial` the default of any other field. */
  datatype Field = Field(
    tag: nat, rule: Rule, alloc: Alloc, ltype: LType, dataOffset: int, sizeOffset: int,
    dataSize: nat, arraySize: nat, sub: seq<Field>, initial: Value)
  {
    /** Optional with a has_ flag, repeated with a count, or oneof with a which_ tag. */
    predicate HasSize() { sizeOffset != 0 }
  }

  /** A C integer or bool, a byte string (a C string without its terminator), or a nested struct. */
  datatype Value = Int(n: int) | Blob(data: bytes) | Msg(slots: seq<Slot>)

  /** The storage of a field. `Shared` marks the later members of a union, whose storage is that of
      the union's first member; `Unset` is a union whose which_ tag is zero. */
  datatype Slot =
    | Plain(v: Value)
    | Opt(has: bool, v: Value)
    | Rep(items: seq<Value>)
    | Union(which: nat, v: Value)
    | Unset
    | Shared

  // ---- tables -----------------------------------------------------------------------------

  /** Field i continues the union of field i - 1. */
  predicate Joins(fs: seq<Field>, i: nat)
    requires i < |fs|
  {
    i > 0 && fs[i - 1].rule.OneOf? && fs[i].rule.OneOf? && fs[i].dataOffset == PB_SIZE_MAX
  }

  /** The field whose storage field i uses. */
  function SlotOf(fs: seq<Field>, i: nat): (k: nat)
    requires i < |fs|
    ensures k <= i && !Joins(fs, k)
  {
    if Joins(fs, i) then SlotOf(fs, i - 1) else i
  }

  function LookupFrom(fs: seq<Field>, tag: nat, i: nat): (r: Option<nat>)
    requires i <= |fs|
    ensures r.Some? ==> i <= r.value < |fs| && fs[r.value].tag == tag
    ensures r.None? ==> forall k :: i <= k < |fs| ==> fs[k].tag != tag
    decreases |fs| - i
  {
    if i == |fs| then None else if fs[i].tag == tag then Some(i) else LookupFrom(fs, tag, i + 1)
  }

  function Lookup(fs: seq<Field>, tag: nat): (r: Option<nat>)
    ensures r.Some? ==> r.value < |fs| && fs[r.value].tag == tag
    ensures r.None? ==> forall k :: 0 <= k < |fs| ==> fs[k].tag != tag
  {
    LookupFrom(fs, tag, 0)
  }

  predicate UniqueTags(fs: seq<Field>) {
    forall i, j :: 0 <= i < j < |fs| ==> fs[i].tag != fs[j].tag
  }

  lemma LookupUnique(fs: seq<Field>, i: nat)
    requires UniqueTags(fs) && i < |fs|
    ensures Lookup(fs, fs[i].tag) == Some(i)
  {
  }

  /** Fields that share storage are members of one union. */
  lemma {:induction false} SharedIsOneOf(fs: seq<Field>, i: nat)
    requires i < |fs|
    ensures SlotOf(fs, i) != i ==> fs[i].rule.OneOf? && fs[SlotOf(fs, i)].rule.OneOf?
  {
    if Joins(fs, i) {
      SharedIsOneOf(fs, i - 1);
    }
  }

  /** The number of required fields before field i. */
  function CountRequired(fs: seq<Field>, i: nat): (n: nat)
    requires i <= |fs|
    ensures n <= i
  {
    if i == 0 then 0 else CountRequired(fs, i - 1) + if fs[i - 1].rule.Required? then 1 else 0
  }

  /** One of the first PB_MAX_REQUIRED_FIELDS required fields. */
  predicate Tracked(fs: seq<Field>, i: nat)
    requires i < |fs|
  {
    fs[i].rule.Required? && CountRequired(fs, i) < PB_MAX_REQUIRED_FIELDS
  }

  // ---- well-formed tables and messages ----------------------------------------------------

  predicate IntWidth(n: nat) { n == 1 || n == 2 || n == 4 || n == 8 }

  predicate FitsSigned(n: int, width: nat) {
    match width
    case 1 => -0x80 <= n < 0x80
    case 2 => -0x8000 <= n < 0x8000
    case 4 => -0x8000_0000 <= n < 0x8000_0000
    case 8 => -0x8000_0000_0000_0000 <= n < 0x8000_0000_0000_0000
    case _ => false
  }

  predicate FitsUnsigned(n: int, width: nat) {
    match width
    case 1 => 0 <= n < 0x100
    case 2 => 0 <= n < 0x1_0000
    case 4 => 0 <= n < WORD32
    case 8 => 0 <= n < WORD64
    case _ => false
  }

  /** The characters before the terminator, or all of the buffer. */
  function CString(data: bytes, max: nat): (s: bytes)
    ensures |s| <= |data| && |s| <= max && s == data[..|s|] && 0 !in s
    ensures |s| == |data| || |s| == max || data[|s|] == 0
  {
    if max == 0 || data == [] || data[0] == 0 then [] else [data[0]] + CString(data[1..], max - 1)
  }

  function Zeros(n: nat): (s: bytes)
    ensures |s| == n && forall k :: 0 <= k < n ==> s[k] == 0
  {
    seq(n, _ => 0)
  }

  /** A value the C type of a scalar field can hold. */
  predicate ScalarOk(f: Field, v: Value) {
    match f.ltype
    case BoolT => v.Int?
    case VarintT => v.Int? && FitsSigned(v.n, f.dataSize)
    case SVarintT => v.Int? && FitsSigned(v.n, f.dataSize)
    case UVarintT => v.Int? && FitsUnsigned(v.n, f.dataSize)
    case Fixed32T => v.Int? && 0 <= v.n < WORD32
    case Fixed64T => v.Int? && 0 <= v.n < WORD64
    case BytesT => v.Blob? && |v.data| + BYTES_HEADER <= f.dataSize
    case StringT => v.Blob? && |v.data| < f.dataSize
    case FixedBytesT => v.Blob? && |v.data| == f.dataSize
    case SubmessageT => false
  }

  /** The all-zero value of a scalar field. */
  function ZeroValue(f: Field): Value {
    match f.ltype
    case BytesT => Blob([])
    case StringT => Blob([])
    case FixedBytesT => Blob(Zeros(f.dataSize))
    case _ => Int(0)
  }

  /** What the generator guarantees of a table of static fields, callbacks and extensions apart. */
  predicate TableOk(fs: seq<Field>) {
    && UniqueTags(fs)
    && forall i :: 0 <= i < |fs| ==> FieldOk(fs[i])
  }

  predicate FieldOk(f: Field) {
    && 0 < f.tag < TAG_LIMIT
    && f.alloc.Static?
    && f.dataSize <= PB_SIZE_MAX
    && f.arraySize <= PB_SIZE_MAX
    && (f.rule.Repeated? || f.rule.OneOf? ==> f.HasSize())
    && TableOk(f.sub)
    && (!f.ltype.SubmessageT? ==> ScalarOk(f, f.initial) && Settled(f, f.initial))
    && (f.rule.Optional? && !f.HasSize() && !f.ltype.SubmessageT? ==> f.initial == ZeroValue(f))
  }

  /** A scalar as the decoder leaves it: bools are 0 or 1, strings stop at their terminator. */
  predicate Settled(f: Field, v: Value) {
    match f.ltype
    case BoolT => v == Int(0) || v == Int(1)
    case StringT => v.Blob? && 0 !in v.data
    case _ => true
  }

  function Settle(f: Field, v: Value): Value {
    match (f.ltype, v)
    case (BoolT, Int(n)) => Int(if n != 0 then 1 else 0)
    case (StringT, Blob(data)) => Blob(CString(data, f.dataSize))
    case _ => v
  }

  // ---- defaults ---------------------------------------------------------------------------

  function DefaultValue(f: Field): Value
    decreases f, 0
  {
    if f.ltype.SubmessageT? then Msg(Defaults(f.sub)) else f.initial
  }

  function DefaultSlot(fs: seq<Field>, i: nat): Slot
    requires i < |fs|
    decreases fs, 0
  {
    if Joins(fs, i) then Shared
    else
      match fs[i].rule
      case Required => Plain(DefaultValue(fs[i]))
      case Optional => if fs[i].HasSize() then Opt(false, DefaultValue(fs[i])) else Plain(DefaultValue(fs[i]))
      case Repeated => Rep([])
      case OneOf => Unset
  }

  function Defaults(fs: seq<Field>): (slots: seq<Slot>)
    ensures |slots| == |fs|
    decreases fs, 1
  {
    seq(|fs|, i requires 0 <= i < |fs| => DefaultSlot(fs, i))
  }

  /** A struct no record has reached, by its table alone: at every level scalars hold the `initial` of their
      descriptors, has_ flags are off, arrays are empty and unions unset. */
  predicate Untouched(fs: seq<Field>, slots: seq<Slot>)
    decreases fs, 1
  {
    |slots| == |fs| && forall i :: 0 <= i < |fs| ==> UntouchedSlot(fs, slots[i], i)
  }

  predicate UntouchedSlot(fs: seq<Field>, slot: Slot, i: nat)
    requires i < |fs|
    decreases fs, 0
  {
    match slot
    case Plain(v) =>
      (fs[i].rule.Required? || (fs[i].rule.Optional? && fs[i].sizeOffset == 0)) && UntouchedValue(fs[i], v)
    case Opt(has, v) => fs[i].rule.Optional? && fs[i].sizeOffset != 0 && !has && UntouchedValue(fs[i], v)
    case Rep(items) => fs[i].rule.Repeated? && items == []
    case Unset => fs[i].rule.OneOf? && !Joins(fs, i)
    case Shared => Joins(fs, i)
    case Union(_, _) => false
  }

  predicate UntouchedValue(f: Field, v: Value)
    decreases f, 0
  {
    match v
    case Msg(slots) => if f.ltype.SubmessageT? then Untouched(f.sub, slots) else v == f.initial
    case _ => !f.ltype.SubmessageT? && v == f.initial
  }

  /** There is one such struct, and it is the one set up before decoding. */
  lemma {:induction false} DefaultsUntouched(fs: seq<Field>, slots: seq<Slot>)
    ensures Untouched(fs, slots) <==> slots == Defaults(fs)
    decreases fs, 1
  {
    if |slots| == |fs| {
      forall i | 0 <= i < |fs| ensures UntouchedSlot(fs, slots[i], i) <==> slots[i] == DefaultSlot(fs, i) {
        DefaultSlotUntouched(fs, slots[i], i);
      }
    }
  }

  lemma {:induction false} DefaultSlotUntouched(fs: seq<Field>, slot: Slot, i: nat)
    requires i < |fs|
    ensures UntouchedSlot(fs, slot, i) <==> slot == DefaultSlot(fs, i)
    decreases fs, 0
  {
    match slot
    case Plain(v) => DefaultValueUntouched(fs[i], v);
    case Opt(_, v) => DefaultValueUntouched(fs[i], v);
    case _ =>
  }

  lemma {:induction false} DefaultValueUntouched(f: Field, v: Value)
    ensures UntouchedValue(f, v) <==> v == DefaultValue(f)
    decreases f, 0
  {
    if f.ltype.SubmessageT? && v.Msg? {
      DefaultsUntouched(f.sub, v.slots);
    }
  }
}
