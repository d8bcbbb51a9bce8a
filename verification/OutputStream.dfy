/** The output stream over a memory buffer, or the sizing stream that only counts. */
module OutputStreams {
  import opened Words
  import opened Varints
  import opened Wire

  /** What a stream has written so far, and the whole buffer behind it. */
  datatype Mark = Mark(contents: bytes, state: nat, written: nat)

  /** From mark m to mark n, exactly `out` was written, and nothing else in the buffer changed. */
  ghost predicate Advanced(sizing: bool, m: Mark, out: bytes, n: Mark) {
    && n.written == m.written + |out|
    && if sizing then n.contents == m.contents && n.state == m.state
       else
         && n.state == m.state + |out|
         && n.state <= |m.contents|
         && n.contents == m.contents[..m.state] + out + m.contents[n.state..]
  }

  /** From mark m to mark n, nothing before m and nothing from `limit` on changed. */
  ghost predicate Inside(sizing: bool, limit: nat, m: Mark, n: Mark) {
    && |n.contents| == |m.contents|
    && (sizing ==> n.contents == m.contents)
    && (!sizing ==> && m.state <= limit <= |m.contents|
                    && n.contents[..m.state] == m.contents[..m.state]
                    && n.contents[limit..] == m.contents[limit..])
  }

  lemma Chain(sizing: bool, m: Mark, a: bytes, n: Mark, b: bytes, o: Mark)
    requires Advanced(sizing, m, a, n) && Advanced(sizing, n, b, o)
    ensures Advanced(sizing, m, a + b, o)
  {
    if !sizing {
      assert n.contents[..n.state] == m.contents[..m.state] + a;
      assert n.contents[o.state..] == m.contents[o.state..];
    }
  }

  lemma Stay(sizing: bool, m: Mark)
    requires m.state <= |m.contents|
    ensures Advanced(sizing, m, [], m)
  {
    assert m.contents == m.contents[..m.state] + [] + m.contents[m.state..];
  }

  lemma AdvancedInside(sizing: bool, limit: nat, m: Mark, out: bytes, n: Mark)
    requires Advanced(sizing, m, out, n) && (sizing || n.state <= limit <= |m.contents|)
    ensures Inside(sizing, limit, m, n)
  {
    if !sizing {
      assert n.contents[..m.state] == m.contents[..m.state];
      assert n.contents[limit..] == m.contents[limit..];
    }
  }

  lemma ChainInside(sizing: bool, limit: nat, m: Mark, a: bytes, n: Mark, o: Mark)
    requires Advanced(sizing, m, a, n) && Inside(sizing, limit, n, o)
    ensures Inside(sizing, limit, m, o)
  {
    if !sizing {
      assert o.contents[..m.state] == o.contents[..n.state][..m.state];
      assert n.contents[..n.state][..m.state] == m.contents[..m.state];
      assert n.contents[limit..] == m.contents[limit..];
    }
  }

  /** Groups of seven bits go to a ten-byte buffer, low bits first; the last loses its top bit. */
  method VarintGroups(value: nat) returns (data: bytes)
    requires 0x80 <= value < WORD64
    ensures data == Varint(value) && |data| <= 10
  {
    VarintAtMostTen(value);
    var buffer := new byte[10](_ => 0);
    var i: nat := 0;
    var v: nat := value;
    while v > 0
      invariant i <= 10
      invariant v > 0 ==> Varint(value) == buffer[..i] + Varint(v)
      invariant v == 0 ==> i > 0 && buffer[i - 1] >= 0x80 && Varint(value) == buffer[..i - 1] + [buffer[i - 1] - 0x80]
      decreases v
    {
      ghost var before, rest := buffer[..i], Varint(v);
      buffer[i] := 0x80 + v % 0x80;
      assert buffer[..i] == before;
      v := v / 0x80;
      i := i + 1;
      GroupAppended(before, buffer[i - 1], v, rest);
      assert buffer[..i] == before + [buffer[i - 1]];
    }
    ghost var before := buffer[..i - 1];
    buffer[i - 1] := buffer[i - 1] - 0x80;
    data := buffer[..i];
    assert data == before + [buffer[i - 1]];
  }

  lemma GroupAppended(before: bytes, group: byte, v: nat, rest: bytes)
    requires group >= 0x80 && rest == if v == 0 then [group - 0x80] else [group] + Varint(v)
    ensures before + rest == if v == 0 then before + [group - 0x80] else before + [group] + Varint(v)
  {
  }

  class OutputStream {
    const sizing: bool
    const buf: array<byte>
    const maxSize: nat
    var state: nat
    var bytesWritten: nat

    ghost predicate Valid()
      reads this
    {
      && state <= buf.Length
      && (!sizing ==> bytesWritten <= maxSize && state + (maxSize - bytesWritten) <= buf.Length)
    }

    ghost function Here(): Mark
      reads this, buf
    {
      Mark(buf[..], state, bytesWritten)
    }

    /** The first position this stream may not write. */
    ghost function Limit(): nat
      requires Valid()
      reads this
    {
      if sizing then buf.Length else state + (maxSize - bytesWritten)
    }

    constructor (buf: array<byte>, state: nat, maxSize: nat)
      requires state + maxSize <= buf.Length
      ensures Valid() && !sizing && this.buf == buf && this.maxSize == maxSize
      ensures this.state == state && bytesWritten == 0
    {
      sizing, this.buf, this.maxSize := false, buf, maxSize;
      this.state, bytesWritten := state, 0;
    }

    constructor Sizing()
      ensures Valid() && sizing && fresh(buf) && bytesWritten == 0
    {
      sizing, buf, maxSize := true, new byte[0], 0;
      state, bytesWritten := 0, 0;
    }

    /** What every writer promises, given what it should emit from mark m: it succeeds exactly when there
        is something to emit and it fits; it then wrote exactly that; and in every case it changed nothing
        before m and nothing at or beyond the stream's limit. */
    ghost predicate Outcome(m: Mark, limit: nat, ok: bool, out: Option<bytes>)
      reads this, buf
    {
      && Valid()
      && Inside(sizing, limit, m, Here())
      && Limit() == limit
      && (ok <==> out.Some? && (sizing || m.written + |out.value| <= maxSize))
      && (ok ==> Advanced(sizing, m, out.value, Here()))
    }

    method BufWrite(data: bytes)
      requires !sizing && state + |data| <= buf.Length
      modifies this, buf
      ensures state == old(state) + |data| && bytesWritten == old(bytesWritten)
      ensures buf[..] == old(buf[..state]) + data + old(buf[state + |data|..])
    {
      var dest := state;
      state := dest + |data|;
      for i := 0 to |data|
        invariant state == dest + |data| && bytesWritten == old(bytesWritten)
        invariant buf[..dest] == old(buf[..dest])
        invariant buf[dest..dest + i] == data[..i]
        invariant buf[dest + |data|..] == old(buf[dest + |data|..])
      {
        buf[dest + i] := data[i];
      }
      assert buf[..] == buf[..dest] + buf[dest..dest + |data|] + buf[dest + |data|..];
    }

    method Write(data: bytes) returns (ok: bool)
      requires Valid()
      modifies this, buf
      ensures Outcome(old(Here()), old(Limit()), ok, Some(data))
    {
      ghost var m := Here();
      if |data| > 0 && !sizing {
        if bytesWritten + |data| > maxSize {
          return false;
        }
        BufWrite(data);
      }
      bytesWritten := bytesWritten + |data|;
      ok := true;
      assert data == [] ==> m.contents == m.contents[..m.state] + data + m.contents[m.state..];
      AdvancedInside(sizing, old(Limit()), m, data, Here());
    }

    /** A write without data: only a sizing stream is asked for one. */
    method WriteCount(count: nat)
      requires Valid() && sizing
      modifies this
      ensures Valid() && bytesWritten == old(bytesWritten) + count && state == old(state)
    {
      bytesWritten := bytesWritten + count;
    }

    method EncodeVarint(value: nat) returns (ok: bool)
      requires Valid() && value < WORD64
      modifies this, buf
      ensures Outcome(old(Here()), old(Limit()), ok, Some(Varint(value)))
    {
      if value <= 0x7F {
        ok := Write([value]);
      } else {
        var data := VarintGroups(value);
        ok := Write(data);
      }
    }

    method EncodeSvarint(value: int) returns (ok: bool)
      requires Valid() && -0x8000_0000_0000_0000 <= value < 0x8000_0000_0000_0000
      modifies this, buf
      ensures Outcome(old(Here()), old(Limit()), ok, Some(Varint(Zigzag(value))))
    {
      ZigzagRoundTrip(value);
      ok := EncodeVarint(Zigzag(value));
    }

    method EncodeFixed32(value: nat) returns (ok: bool)
      requires Valid() && value < WORD32
      modifies this, buf
      ensures Outcome(old(Here()), old(Limit()), ok, Some(FixedBytes(value, 4)))
    {
      var word := [value % 0x100, value / 0x100 % 0x100, value / 0x1_0000 % 0x100, value / 0x100_0000 % 0x100];
      FixedBytes4(value);
      ok := Write(word);
    }

    method EncodeFixed64(value: nat) returns (ok: bool)
      requires Valid() && value < WORD64
      modifies this, buf
      ensures Outcome(old(Here()), old(Limit()), ok, Some(FixedBytes(value, 8)))
    {
      var high := value / WORD32;
      var word := [value % 0x100, value / 0x100 % 0x100, value / 0x1_0000 % 0x100, value / 0x100_0000 % 0x100,
                   high % 0x100, high / 0x100 % 0x100, high / 0x1_0000 % 0x100, high / 0x100_0000 % 0x100];
      FixedBytes8(value);
      ok := Write(word);
    }

    method EncodeTag(wt: nat, tag: nat) returns (ok: bool)
      requires Valid() && wt < 8 && tag < WORD32
      modifies this, buf
      ensures Outcome(old(Here()), old(Limit()), ok, Some(TagBytes(tag, wt)))
    {
      ok := EncodeVarint(8 * tag + wt);
    }

    /** A length and the bytes. */
    method EncodeString(data: bytes) returns (ok: bool)
      requires Valid() && |data| < WORD64
      modifies this, buf
      ensures Outcome(old(Here()), old(Limit()), ok, Some(Delimited(data)))
    {
      hide Varint;
      ghost var m, limit := Here(), Limit();
      ok := EncodeVarint(|data|);
      if ok {
        ghost var n := Here();
        ok := Write(data);
        ChainInside(sizing, limit, m, Varint(|data|), n, Here());
        if ok {
          Chain(sizing, m, Varint(|data|), n, data, Here());
        }
      }
    }
  }

  lemma FixedBytes4(v: nat)
    ensures FixedBytes(v, 4) == [v % 0x100, v / 0x100 % 0x100, v / 0x1_0000 % 0x100, v / 0x100_0000 % 0x100]
  {
    FixedBytesSplit(v, 0);
  }

  lemma FixedBytesSplit(v: nat, k: nat)
    ensures FixedBytes(v, k + 4)
         == [v % 0x100, v / 0x100 % 0x100, v / 0x1_0000 % 0x100, v / 0x100_0000 % 0x100] + FixedBytes(v / WORD32, k)
  {
    var v1 := v / 0x100;
    var v2 := v1 / 0x100;
    var v3 := v2 / 0x100;
    assert v2 == v / 0x1_0000 && v3 == v / 0x100_0000 && v3 / 0x100 == v / WORD32;
    assert FixedBytes(v3, k + 1) == [v3 % 0x100] + FixedBytes(v3 / 0x100, k);
    assert FixedBytes(v2, k + 2) == [v2 % 0x100] + FixedBytes(v3, k + 1);
    assert FixedBytes(v1, k + 3) == [v1 % 0x100] + FixedBytes(v2, k + 2);
    assert FixedBytes(v, k + 4) == [v % 0x100] + FixedBytes(v1, k + 3);
  }

  lemma FixedBytes8(v: nat)
    ensures var h := v / WORD32;
            FixedBytes(v, 8) == [v % 0x100, v / 0x100 % 0x100, v / 0x1_0000 % 0x100, v / 0x100_0000 % 0x100,
                                 h % 0x100, h / 0x100 % 0x100, h / 0x1_0000 % 0x100, h / 0x100_0000 % 0x100]
  {
    FixedBytesSplit(v, 4);
    FixedBytesSplit(v / WORD32, 0);
  }
}
