/** The encoder and the decoder run one after the other. */
module RoundTrips {
  import opened Words
  import opened Schema
  import opened Encoding
  import opened MergeResults
  import opened Evolution
  import opened InputStreams
  import opened Encoder
  import opened Decoder

  lemma {:induction false} OkValueIsHeld(f: Field, v: Value)
    requires FieldOk(f) && ValueOk(f, v)
    ensures HeldValue(f, v)
    decreases f, 0
  {
    if f.ltype.SubmessageT? {
      OkIsHeld(f.sub, v.slots);
    }
  }

  lemma {:induction false} OkSlotIsHeld(fs: seq<Field>, m: seq<Slot>, i: nat)
    requires TableOk(fs) && MessageOk(fs, m) && i < |fs|
    ensures HeldSlot(fs, m, i)
    decreases fs, 0
  {
    var f, slot := fs[i], m[SlotOf(fs, i)];
    assert FieldOk(f) && SlotOk(fs, m, i);
    match f.rule
    case Required => OkValueIsHeld(f, slot.v);
    case Optional =>
      if !f.HasSize() || slot.has {
        OkValueIsHeld(f, slot.v);
      }
    case Repeated =>
      forall k | 0 <= k < |slot.items| ensures HeldValue(f, slot.items[k]) {
        OkValueIsHeld(f, slot.items[k]);
      }
    case OneOf =>
      if slot.Union? && slot.which == f.tag {
        OkValueIsHeld(f, slot.v);
      }
  }

  /** The encoder runs on every message the theorems speak of. */
  lemma {:induction false} OkIsHeld(fs: seq<Field>, m: seq<Slot>)
    requires TableOk(fs) && MessageOk(fs, m)
    ensures Held(fs, m)
    decreases fs, 1
  {
    forall i | 0 <= i < |fs| ensures HeldSlot(fs, m, i) {
      OkSlotIsHeld(fs, m, i);
    }
  }

  /** Encodes a message to a buffer and decodes the bytes into a new struct. This succeeds exactly when the
      buffer is large enough and no string it sends lacks room for its terminator, and then the struct is
      the message in normal form: itself, if it is clean. */
  method EncodeAndDecode(buf: array<byte>, fields: seq<Field>, m: seq<Slot>) returns (ok: bool, dest: Struct)
    requires TableOk(fields) && MessageOk(fields, m)
    modifies buf
    ensures Encoding.Encode(fields, m).Some?
    ensures ok == (|Encoding.Encode(fields, m).value| <= buf.Length && !Overfull(fields, fields, m))
    ensures ok ==> dest.slots == View(fields, fields, m)
    ensures ok && Clean(fields, m) ==> dest.slots == m
  {
    hide Held, EncodeFrom, Decoding.Decode, View, Formed, OverfullFrom;
    OkIsHeld(fields, m);
    AgreeWithItself(fields);
    DecodeIsView(fields, fields, m);
    if Clean(fields, m) {
      CleanView(fields, m);
    }
    dest := new Struct(seq(|fields|, _ => Unset));
    var written;
    ok, written := EncodeToBuffer(buf, buf.Length, fields, m);
    if !ok {
      return;
    }
    var stream := new InputStream(buf[..written], 0, written);
    assert stream.Unread() == buf[..written];
    ok := Decoder.Decode(stream, fields, dest);
  }
}
