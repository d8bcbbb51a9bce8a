/** The input stream over a memory buffer, its substreams, and the readers that run on it. */
module InputStreams {
  import opened Words
  import opened Varints
  import opened Wire

  class InputStream {
    const data: bytes
    /** Index of the next byte, and the number of bytes this stream may still hand out. */
    var state: nat
    var bytesLeft: nat

    ghost predicate Valid()
      reads this
    {
      state + bytesLeft <= |data|
    }

    ghost function Unread(): bytes
      requires Valid()
      reads this
    {
      data[state..state + bytesLeft]
    }

    /** Where the stream ends in the buffer: no successful read moves it. */
    ghost function End(): nat
      reads this
    {
      state + bytesLeft
    }

    constructor (data: bytes, state: nat, bytesLeft: nat)
      requires state + bytesLeft <= |data|
      ensures Valid() && this.data == data && this.state == state && this.bytesLeft == bytesLeft
    {
      this.data, this.state, this.bytesLeft := data, state, bytesLeft;
    }

    /** What every reader promises: it succeeds exactly when the parse of the unread bytes does, leaves
        that parse's rest unread, keeps the end of the stream when it succeeds, and never reads past it. */
    twostate predicate Follows<T>(ok: bool, new p: Parse<T>)
      requires old(Valid())
      reads this
    {
      && Valid()
      && old(state) <= state
      && End() <= old(End())
      && (ok <==> p.Got?)
      && (ok ==> Unread() == p.rest && End() == old(End()))
    }

    /** Copies bytes to a destination, unless they are only skipped. */
    method BufRead(buf: array?<byte>, count: nat)
      requires Valid() && count <= bytesLeft
      requires buf != null ==> count <= buf.Length
      modifies this, buf
      ensures state == old(state) + count && bytesLeft == old(bytesLeft)
      ensures buf != null ==> buf[..count] == old(Unread())[..count] && buf[count..] == old(buf[count..])
    {
      var source := state;
      state := state + count;
      if buf != null {
        for i := 0 to count
          invariant state == source + count && bytesLeft == old(bytesLeft)
          invariant buf[..i] == data[source..source + i]
          invariant buf[count..] == old(buf[count..])
        {
          buf[i] := data[source + i];
        }
      }
    }

    method Read(buf: array?<byte>, count: nat) returns (ok: bool)
      requires Valid()
      requires buf != null ==> count <= buf.Length
      modifies this, buf
      ensures Follows(ok, if |old(Unread())| < count then Bad else Got((), old(Unread())[count..]))
      ensures ok && buf != null ==> buf[..count] == old(Unread())[..count] && buf[count..] == old(buf[count..])
      ensures !ok ==> state == old(state) && bytesLeft == old(bytesLeft)
    {
      if count == 0 {
        return true;
      }
      if bytesLeft < count {
        return false;
      }
      BufRead(buf, count);
      bytesLeft := bytesLeft - count;
      return true;
    }

    method ReadByte() returns (ok: bool, b: byte)
      requires Valid()
      modifies this
      ensures ok == (old(bytesLeft) > 0)
      ensures ok ==> b == old(Unread())[0] && state == old(state) + 1 && bytesLeft == old(bytesLeft) - 1
      ensures ok ==> Valid() && Unread() == old(Unread())[1..]
      ensures !ok ==> state == old(state) && bytesLeft == old(bytesLeft)
    {
      if bytesLeft == 0 {
        return false, 0;
      }
      b := data[state];
      state := state + 1;
      bytesLeft := bytesLeft - 1;
      ok := true;
    }

    /** `eof` is set when the stream is at its end before the first byte. */
    method DecodeVarint32Eof() returns (ok: bool, dest: nat, eof: bool)
      requires Valid()
      modifies this
      ensures Follows(ok, ReadVarint32(old(Unread())))
      ensures ok ==> dest == ReadVarint32(old(Unread())).value
      ensures eof == (old(bytesLeft) == 0)
    {
      hide OrAt;
      ghost var all := Unread();
      var b: byte;
      dest, eof := 0, false;
      ok, b := ReadByte();
      if !ok {
        return false, 0, bytesLeft == 0;
      }
      var result: nat;
      if b < 0x80 {
        result := b;
      } else {
        var bitpos: nat := 7;
        result := b % 0x80;
        var more := true;
        while more
          invariant Valid() && End() == old(End()) && old(state) <= state
          invariant bitpos < 0x100
          invariant more ==> ReadVarint32(all) == ReadVarint32From(Unread(), bitpos, result)
          invariant !more ==> ReadVarint32(all)
                              == if bitpos == 35 && b / 0x10 % 8 != 0 then Bad else Got(result, Unread())
          decreases more, bytesLeft
        {
          ok, b := ReadByte();
          if !ok {
            return false, 0, false;
          }
          if bitpos >= 32 {
            var signExtension := if bitpos < 63 then 0xFF else 0x01;
            if b % 0x80 != 0 && (result / 0x8000_0000 == 0 || b != signExtension) {
              return false, 0, false;
            }
          } else {
            result := OrAt(result, b % 0x80, bitpos, WORD32);
          }
          bitpos := (bitpos + 7) % 0x100;
          more := b >= 0x80;
        }
        if bitpos == 35 && b / 0x10 % 8 != 0 {
          return false, 0, false;
        }
      }
      dest := result;
      ok := true;
    }

    method DecodeVarint32() returns (ok: bool, dest: nat)
      requires Valid()
      modifies this
      ensures Follows(ok, ReadVarint32(old(Unread())))
      ensures ok ==> dest == ReadVarint32(old(Unread())).value
    {
      hide ReadVarint32;
      var eof;
      ok, dest, eof := DecodeVarint32Eof();
    }

    method DecodeVarint() returns (ok: bool, dest: nat)
      requires Valid()
      modifies this
      ensures Follows(ok, ReadVarint(old(Unread())))
      ensures ok ==> dest == ReadVarint(old(Unread())).value
    {
      hide OrAt;
      ghost var all := Unread();
      ghost var groups: nat := 0;
      var bitpos: nat, result: nat := 0, 0;
      var more := true;
      dest := 0;
      while more
        invariant Valid() && End() == old(End()) && old(state) <= state
        invariant bitpos == 7 * groups
        invariant ReadVarint(all) == if more then ReadVarintFrom(Unread(), groups, result) else Got(result, Unread())
        decreases more, bytesLeft
      {
        if bitpos >= 64 {
          return false, 0;
        }
        var b: byte;
        ok, b := ReadByte();
        if !ok {
          return false, 0;
        }
        result := OrAt(result, b % 0x80, bitpos, WORD64);
        bitpos := bitpos + 7;
        groups := groups + 1;
        more := b >= 0x80;
      }
      dest := result;
      ok := true;
    }

    method DecodeSvarint() returns (ok: bool, dest: int)
      requires Valid()
      modifies this
      ensures Follows(ok, ReadVarint(old(Unread())))
      ensures ok ==> dest == Unzigzag(ReadVarint(old(Unread())).value)
    {
      var value;
      ok, value := DecodeVarint();
      dest := Unzigzag(value);
    }

    method DecodeFixed32() returns (ok: bool, dest: nat)
      requires Valid()
      modifies this
      ensures Follows(ok, ReadFixed(old(Unread()), 4))
      ensures ok ==> dest == ReadFixed(old(Unread()), 4).value
    {
      ghost var all := Unread();
      var buf := new byte[4];
      ok := Read(buf, 4);
      dest := Word(buf[0], buf[1], buf[2], buf[3]);
      if ok {
        FixedValue4(all[..4], buf[0], buf[1], buf[2], buf[3]);
      }
    }

    method DecodeFixed64() returns (ok: bool, dest: nat)
      requires Valid()
      modifies this
      ensures Follows(ok, ReadFixed(old(Unread()), 8))
      ensures ok ==> dest == ReadFixed(old(Unread()), 8).value
    {
      ghost var all := Unread();
      var buf := new byte[8];
      ok := Read(buf, 8);
      dest := Word(buf[0], buf[1], buf[2], buf[3]) + WORD32 * Word(buf[4], buf[5], buf[6], buf[7]);
      if ok {
        FixedValue8(all[..8], buf[..]);
      }
    }

    method SkipVarintBytes() returns (ok: bool)
      requires Valid()
      modifies this
      ensures Follows(ok, SkipVarint(old(Unread())))
    {
      ghost var all := Unread();
      var more := true;
      var buf := new byte[1];
      while more
        invariant Valid() && End() == old(End()) && old(state) <= state
        invariant SkipVarint(all) == if more then SkipVarint(Unread()) else Got((), Unread())
        decreases more, bytesLeft
      {
        ghost var rest := Unread();
        ok := Read(buf, 1);
        if !ok {
          return false;
        }
        assert buf[0] == buf[..1][0] == rest[0];
        more := buf[0] >= 0x80;
      }
      ok := true;
    }

    method SkipString() returns (ok: bool)
      requires Valid()
      modifies this
      ensures Follows(ok, SkipField(WT_STRING, old(Unread())))
    {
      var length;
      ok, length := DecodeVarint32();
      if ok {
        ok := Read(null, length);
      }
    }

    method Skip(wt: nat) returns (ok: bool)
      requires Valid()
      modifies this
      ensures Follows(ok, SkipField(wt, old(Unread())))
    {
      if wt == WT_VARINT {
        ok := SkipVarintBytes();
      } else if wt == WT_64BIT {
        ok := Read(null, 8);
      } else if wt == WT_STRING {
        ok := SkipString();
      } else if wt == WT_32BIT {
        ok := Read(null, 4);
      } else {
        ok := false;
      }
    }

    /** `eof` means the message ended: at the end of the stream or at a zero tag. */
    method DecodeTag() returns (ok: bool, wt: nat, tag: nat, eof: bool)
      requires Valid()
      modifies this
      ensures Valid() && old(state) <= state && End() <= old(End())
      ensures ok == ReadTag(old(Unread())).Tag?
      ensures ok ==> ReadTag(old(Unread())) == Tag(tag, wt, Unread()) && !eof
      ensures !ok && old(bytesLeft) > 0 ==> eof == ReadTag(old(Unread())).TagZero?
      ensures eof && old(bytesLeft) > 0 ==> Unread() == ReadTag(old(Unread())).after
      ensures ok || (eof && old(bytesLeft) > 0) ==> End() == old(End())
    {
      var word;
      wt, tag := 0, 0;
      ok, word, eof := DecodeVarint32Eof();
      if !ok {
        return;
      }
      if word == 0 {
        return false, wt, tag, true;
      }
      tag := word / 8;
      wt := word % 8;
    }

    /** A substream over the length-delimited bytes that follow. The parent's count shrinks at once; its
        position moves only when the substream is closed. */
    method MakeSubstream() returns (ok: bool, sub: InputStream)
      requires Valid()
      modifies this
      ensures Valid() && old(state) <= state && End() <= old(End())
      ensures ok == ReadDelimited(old(Unread())).Got?
      ensures fresh(sub) && sub.data == data && sub.Valid()
      ensures ok ==> sub.Unread() == ReadDelimited(old(Unread())).value
      ensures ok ==> sub.state == state && sub.End() + bytesLeft == old(End())
      ensures ok ==> data[sub.End()..sub.End() + bytesLeft] == ReadDelimited(old(Unread())).rest
    {
      var size;
      ok, size := DecodeVarint32();
      sub := new InputStream(data, state, bytesLeft);
      if !ok {
        return;
      }
      if sub.bytesLeft < size {
        return false, sub;
      }
      ghost var rest := Unread();
      sub.bytesLeft := size;
      bytesLeft := bytesLeft - size;
      assert rest[..size] == sub.Unread();
      assert rest[size..] == data[sub.End()..sub.End() + bytesLeft];
    }

    /** Moves the parent past the substream, also when the substream was not read to its end. */
    method CloseSubstream(sub: InputStream) returns (ok: bool)
      requires sub != this && sub.data == data && sub.Valid() && sub.End() + bytesLeft <= |data|
      modifies this, sub
      ensures ok && Valid() && state == old(sub.End()) && bytesLeft == old(bytesLeft)
      ensures Unread() == data[old(sub.End())..old(sub.End()) + bytesLeft]
    {
      if sub.bytesLeft > 0 {
        ok := sub.Read(null, sub.bytesLeft);
        if !ok {
          return false;
        }
      }
      state := sub.state;
      ok := true;
    }
  }

  /** Four bytes shifted and or-ed into a word; the bytes do not overlap. */
  function Word(b0: nat, b1: nat, b2: nat, b3: nat): nat {
    b0 + 0x100 * b1 + 0x1_0000 * b2 + 0x100_0000 * b3
  }

  lemma FixedValue4(s: bytes, b0: byte, b1: byte, b2: byte, b3: byte)
    requires s == [b0, b1, b2, b3]
    ensures FixedValue(s) == Word(b0, b1, b2, b3)
  {
    FixedValuePrefix(s);
    assert s[4..] == [];
  }

  lemma FixedValuePrefix(s: bytes)
    requires |s| >= 4
    ensures FixedValue(s) == Word(s[0], s[1], s[2], s[3]) + WORD32 * FixedValue(s[4..])
  {
    assert s[1..][1..] == s[2..] && s[2..][1..] == s[3..] && s[3..][1..] == s[4..];
    assert FixedValue(s) == s[0] + 0x100 * FixedValue(s[1..]);
    assert FixedValue(s[1..]) == s[1] + 0x100 * FixedValue(s[2..]);
    assert FixedValue(s[2..]) == s[2] + 0x100 * FixedValue(s[3..]);
    assert FixedValue(s[3..]) == s[3] + 0x100 * FixedValue(s[4..]);
  }

  lemma FixedValue8(s: bytes, b: bytes)
    requires |b| == 8 && s == b
    ensures FixedValue(s) == Word(b[0], b[1], b[2], b[3]) + WORD32 * Word(b[4], b[5], b[6], b[7])
  {
    FixedValuePrefix(s);
    FixedValue4(s[4..], b[4], b[5], b[6], b[7]);
  }
}
