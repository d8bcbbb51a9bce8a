/** The records of the wire format: tags, fixed-width words, length-delimited data and skipping. */
module Wire {
  import opened Words
  import opened Varints
  import opened Schema

  const WT_VARINT: nat := 0
  const WT_64BIT: nat := 1
  const WT_STRING: nat := 2
  const WT_32BIT: nat := 5

  function WireType(l: LType): (wt: nat)
    ensures wt < 8
  {
    match l
    case BoolT => WT_VARINT
    case VarintT => WT_VARINT
    case UVarintT => WT_VARINT
    case SVarintT => WT_VARINT
    case Fixed32T => WT_32BIT
    case Fixed64T => WT_64BIT
    case _ => WT_STRING
  }

  /** `(field_number << 3) | wiretype`, as a varint. */
  function TagBytes(tag: nat, wt: nat): bytes {
    Varint(8 * tag + wt)
  }

  datatype TagRead = TagBad | TagZero(after: bytes) | Tag(tag: nat, wt: nat, after: bytes)

  /** A zero word ends the message. */
  function ReadTag(s: bytes): (r: TagRead)
    ensures r.Tag? ==> |r.after| < |s|
    ensures r.TagZero? ==> |r.after| < |s|
  {
    match ReadVarint32(s)
    case Bad => TagBad
    case Got(word, rest) =>
      ReadersShrink(s);
      if word == 0 then TagZero(rest) else Tag(word / 8, word % 8, rest)
  }

  /** Little-endian words. */
  function FixedBytes(n: nat, k: nat): (s: bytes)
    ensures |s| == k
  {
    if k == 0 then [] else [n % 0x100] + FixedBytes(n / 0x100, k - 1)
  }

  function FixedValue(s: bytes): nat {
    if s == [] then 0 else s[0] + 0x100 * FixedValue(s[1..])
  }

  function ReadFixed(s: bytes, k: nat): Parse<nat> {
    if |s| < k then Bad else Got(FixedValue(s[..k]), s[k..])
  }

  /** A 32-bit length and that many bytes. */
  function ReadDelimited(s: bytes): (p: Parse<bytes>)
    ensures p.Got? ==> |p.value| + |p.rest| < |s|
  {
    match ReadVarint32(s)
    case Bad => Bad
    case Got(n, rest) =>
      ReadersShrink(s);
      if |rest| < n then Bad else Got(rest[..n], rest[n..])
  }

  function Delimited(body: bytes): bytes {
    Varint(|body|) + body
  }

  function SkipField(wt: nat, s: bytes): (p: Parse<()>)
    ensures p.Got? ==> |p.rest| <= |s|
  {
    if wt == WT_VARINT then
      SkipVarintShrinks(s);
      SkipVarint(s)
    else if wt == WT_64BIT then (if |s| < 8 then Bad else Got((), s[8..]))
    else if wt == WT_STRING then
      (match ReadDelimited(s) case Bad => Bad case Got(_, rest) => Got((), rest))
    else if wt == WT_32BIT then (if |s| < 4 then Bad else Got((), s[4..]))
    else Bad
  }

  lemma {:induction false} SkipVarintShrinks(s: bytes)
    ensures SkipVarint(s).Got? ==> |SkipVarint(s).rest| < |s|
  {
    if s != [] && s[0] >= 0x80 {
      SkipVarintShrinks(s[1..]);
    }
  }

  // ---- reading back what was written ------------------------------------------------------

  lemma ReadTagWritten(tag: nat, wt: nat, t: bytes)
    requires 0 < tag < TAG_LIMIT && wt < 8
    ensures ReadTag(TagBytes(tag, wt) + t) == Tag(tag, wt, t)
  {
    hide Varint, ReadVarint32;
    Varint32Ranges(8 * tag + wt, t);
  }

  lemma {:induction false} FixedRoundTrip(n: nat, k: nat, bound: nat)
    requires n < bound && bound == Pow2(8 * k)
    ensures FixedValue(FixedBytes(n, k)) == n
  {
    if k > 0 {
      Pow2Sum(8, 8 * (k - 1));
      assert 8 + 8 * (k - 1) == 8 * k;
      assert Pow2(8) == 0x100;
      assert n / 0x100 < Pow2(8 * (k - 1));
      assert FixedBytes(n, k)[1..] == FixedBytes(n / 0x100, k - 1);
      FixedRoundTrip(n / 0x100, k - 1, Pow2(8 * (k - 1)));
    }
  }

  lemma ReadFixedWritten(n: nat, k: nat, t: bytes)
    requires (k == 4 && n < WORD32) || (k == 8 && n < WORD64)
    ensures ReadFixed(FixedBytes(n, k) + t, k) == Got(n, t)
  {
    Pow2Words();
    FixedRoundTrip(n, k, Pow2(8 * k));
    var s := FixedBytes(n, k) + t;
    assert s[..k] == FixedBytes(n, k) && s[k..] == t;
  }

  lemma ReadDelimitedWritten(body: bytes, t: bytes)
    requires |body| < WORD32
    ensures ReadDelimited(Delimited(body) + t) == Got(body, t)
  {
    hide Varint, ReadVarint32;
    assert Delimited(body) + t == Varint(|body|) + (body + t);
    Varint32Ranges(|body|, body + t);
    assert (body + t)[..|body|] == body && (body + t)[|body|..] == t;
  }
}
