/** The wrapping field iterator: it walks the descriptor table and keeps running pointers to the data
    and size of the current field. */
module Iterators {
  import opened Words
  import opened Schema
  import opened Decoding

  /** The bytes field f occupies in the struct. */
  function Span(f: Field): int {
    if f.alloc.Static? && f.rule.Repeated? then f.dataSize * f.arraySize
    else if f.alloc.Pointer? then POINTER_SIZE
    else f.dataSize
  }

  /** The descriptor at position i; the table ends in an all-zero one. */
  function FieldAt(fs: seq<Field>, i: nat): Field {
    if i < |fs| then fs[i] else Terminator()
  }

  /** The running data offset at position i. */
  function DataOffset(fs: seq<Field>, i: nat): int {
    if i == 0 then FieldAt(fs, 0).dataOffset
    else if i >= |fs| then 0
    else if Joins(fs, i) then DataOffset(fs, i - 1)
    else DataOffset(fs, i - 1) + Span(fs[i - 1]) + fs[i].dataOffset
  }

  /** The running size offset at position i. Union members do not move it. */
  function SizeOffset(fs: seq<Field>, i: nat): int {
    if 0 < i < |fs| && Joins(fs, i) then SizeOffset(fs, i - 1)
    else DataOffset(fs, i) + FieldAt(fs, i).sizeOffset
  }

  class FieldIter {
    const start: seq<Field>
    const destStruct: int
    var pos: nat
    var requiredFieldIndex: nat
    var pData: int
    var pSize: int

    /** The position is inside the table, or on the terminator of an empty one, and the running
        values are the closed forms for that position. */
    ghost predicate Valid()
      reads this
    {
      && (pos < |start| || (pos == 0 && start == []))
      && pData == destStruct + DataOffset(start, pos)
      && pSize == destStruct + SizeOffset(start, pos)
      && requiredFieldIndex == CountRequired(start, pos)
    }

    constructor (fields: seq<Field>, destStruct: int)
      ensures Valid() && pos == 0 && start == fields && this.destStruct == destStruct
    {
      start, this.destStruct := fields, destStruct;
      pos, requiredFieldIndex := 0, 0;
      pData := destStruct + FieldAt(fields, 0).dataOffset;
      pSize := destStruct + FieldAt(fields, 0).dataOffset + FieldAt(fields, 0).sizeOffset;
    }

    /** Back to the first field; false for an empty message type. */
    method Begin() returns (more: bool)
      modifies this
      ensures Valid() && pos == 0 && more == (start != [])
    {
      pos, requiredFieldIndex := 0, 0;
      pData := destStruct + FieldAt(start, 0).dataOffset;
      pSize := pData + FieldAt(start, 0).sizeOffset;
      more := start != [];
    }

    /** One field on; false when that wraps round to the first field. */
    method Next() returns (more: bool)
      requires Valid()
      modifies this
      ensures Valid()
      ensures more == (old(pos) + 1 < |start|)
      ensures pos == if more then old(pos) + 1 else 0
    {
      if pos >= |start| {
        return false;
      }
      var prev := start[pos];
      if pos + 1 == |start| {
        var _ := Begin();
        return false;
      }
      pos := pos + 1;
      var field := start[pos];
      if prev.rule.OneOf? && field.rule.OneOf? && field.dataOffset == PB_SIZE_MAX {
        return true;
      }
      var prevSize := prev.dataSize;
      if prev.alloc.Static? && prev.rule.Repeated? {
        prevSize := prevSize * prev.arraySize;
      } else if prev.alloc.Pointer? {
        prevSize := POINTER_SIZE;
      }
      if prev.rule.Required? {
        requiredFieldIndex := requiredFieldIndex + 1;
      }
      pData := pData + prevSize + field.dataOffset;
      pSize := pData + field.sizeOffset;
      return true;
    }

    /** Steps from the current field, wrapping round, until a field has the tag. A search that fails
        ends where it began; with unique tags the search is a table lookup, wherever it begins. */
    method Find(tag: nat) returns (found: bool)
      requires Valid()
      modifies this
      ensures Valid()
      ensures found ==> FieldAt(start, pos).tag == tag
      ensures !found ==> pos == old(pos) && forall k :: 0 <= k < |start| ==> start[k].tag != tag
      ensures start == [] ==> found == (tag == 0)
      ensures start != [] && UniqueTags(start) ==>
                Lookup(start, tag) == if found then Some(pos) else None
    {
      var first := pos;
      ghost var steps := 0;
      while true
        invariant Valid()
        invariant steps <= |start| && (steps < |start| || start == [])
        invariant pos == if first + steps < |start| || start == [] then first + steps else first + steps - |start|
        invariant forall k :: first <= k < first + steps && k < |start| ==> start[k].tag != tag
        invariant forall k :: 0 <= k < first + steps - |start| && k < |start| ==> start[k].tag != tag
        decreases |start| - steps
      {
        if FieldAt(start, pos).tag == tag {
          if start != [] && UniqueTags(start) {
            LookupUnique(start, pos);
          }
          return true;
        }
        var _ := Next();
        if pos == first {
          return false;
        }
        steps := steps + 1;
      }
    }
  }

  // ---- the walk agrees with the layout of the struct ------------------------------------------

  /** Where the compiler put a field and its count, has_ flag or which_ tag. */
  datatype Place = Place(data: int, size: int)

  /** The descriptors the PB_FIELD macros generate from the layout: each data offset is the gap after
      the previous member, each size offset the distance to the size member; later members of a union
      carry PB_SIZE_MAX and share the union's place. */
  predicate Generated(fs: seq<Field>, places: seq<Place>) {
    && |places| == |fs|
    && forall i :: 0 <= i < |fs| ==> GeneratedField(fs, places, i)
  }

  predicate GeneratedField(fs: seq<Field>, places: seq<Place>, i: nat)
    requires |places| == |fs| && i < |fs|
  {
    && places[i].size == places[i].data + fs[i].sizeOffset
    && if i == 0 then fs[0].dataOffset == places[0].data
       else if Joins(fs, i) then places[i] == places[i - 1]
       else fs[i].dataOffset == places[i].data - places[i - 1].data - Span(fs[i - 1])
  }

  /** The running offsets are the absolute places of the fields, through arrays, pointers and unions. */
  lemma {:induction false} WalkIsLayout(fs: seq<Field>, places: seq<Place>, i: nat)
    requires Generated(fs, places) && i < |fs|
    ensures DataOffset(fs, i) == places[i].data && SizeOffset(fs, i) == places[i].size
  {
    assert GeneratedField(fs, places, i);
    if i > 0 {
      WalkIsLayout(fs, places, i - 1);
    }
  }

  /** Two positions share a slot of the message model only when they share a place in the struct. */
  lemma {:induction false} SlotIsPlace(fs: seq<Field>, places: seq<Place>, i: nat)
    requires Generated(fs, places) && i < |fs|
    ensures places[SlotOf(fs, i)] == places[i]
  {
    assert GeneratedField(fs, places, i);
    if Joins(fs, i) {
      SlotIsPlace(fs, places, i - 1);
    }
  }

  /** The last field with the storage of field i: field i itself, outside unions. */
  function LastSharing(fs: seq<Field>, i: nat): (k: nat)
    requires i < |fs|
    ensures i <= k < |fs| && SlotOf(fs, k) == SlotOf(fs, i)
    ensures k + 1 < |fs| ==> !Joins(fs, k + 1)
    decreases |fs| - i
  {
    if i + 1 < |fs| && Joins(fs, i + 1) then LastSharing(fs, i + 1) else i
  }

  lemma SpanPositive(f: Field)
    ensures Span(f) >= 0
  {
  }

  /** Later slots lie behind earlier ones: descriptors hold their gaps as unsigned numbers. */
  lemma {:induction false} SlotsApart(fs: seq<Field>, places: seq<Place>, i: nat, j: nat)
    requires Generated(fs, places) && (forall k :: 0 <= k < |fs| ==> fs[k].dataOffset >= 0)
    requires i < j < |fs| && SlotOf(fs, i) != SlotOf(fs, j)
    ensures places[i].data + Span(fs[LastSharing(fs, i)]) <= places[j].data
    decreases j
  {
    assert GeneratedField(fs, places, j);
    var k := LastSharing(fs, i);
    SpanPositive(fs[j - 1]);
    if SlotOf(fs, j - 1) == SlotOf(fs, i) {
      StaysInUnion(fs, i, j - 1);
      SlotIsPlace(fs, places, i);
      SlotIsPlace(fs, places, j - 1);
    } else {
      SlotsApart(fs, places, i, j - 1);
    }
  }

  /** So outside unions a static array keeps all its elements to itself, a pointer eight bytes, and any other field
      its value. */
  lemma StorageApart(fs: seq<Field>, places: seq<Place>, i: nat, j: nat)
    requires Generated(fs, places) && (forall k :: 0 <= k < |fs| ==> fs[k].dataOffset >= 0)
    requires i < j < |fs| && !fs[i].rule.OneOf?
    ensures fs[i].alloc.Static? && fs[i].rule.Repeated? ==>
              places[i].data + fs[i].dataSize * fs[i].arraySize <= places[j].data
    ensures fs[i].alloc.Pointer? ==> places[i].data + 8 <= places[j].data
    ensures fs[i].alloc.Static? && !fs[i].rule.Repeated? ==> places[i].data + fs[i].dataSize <= places[j].data
  {
    SharedOnlyInUnion(fs, i, j);
    SlotsApart(fs, places, i, j);
  }

  lemma SharedOnlyInUnion(fs: seq<Field>, i: nat, j: nat)
    requires i < j < |fs| && !fs[i].rule.OneOf?
    ensures SlotOf(fs, i) == i && LastSharing(fs, i) == i && SlotOf(fs, j) != i
  {
    SlotAfter(fs, i + 1, j);
  }

  lemma {:induction false} StaysInUnion(fs: seq<Field>, i: nat, k: nat)
    requires i <= k < |fs| && SlotOf(fs, k) == SlotOf(fs, i) && (k + 1 < |fs| ==> !Joins(fs, k + 1))
    ensures LastSharing(fs, i) == k
    decreases k - i
  {
    if i < k {
      if !Joins(fs, i + 1) {
        SlotAfter(fs, i + 1, k);
      }
      StaysInUnion(fs, i + 1, k);
    }
  }

  lemma {:induction false} SlotAfter(fs: seq<Field>, i: nat, k: nat)
    requires i <= k < |fs| && !Joins(fs, i)
    ensures SlotOf(fs, k) >= i
  {
    if i < k {
      SlotAfter(fs, i, k - 1);
    }
  }
}
