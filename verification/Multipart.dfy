/** The two encoders of a multipart form: one in memory, one through an output stream. */
module Multipart {
  import opened Words
  import opened MultipartLayout

  const STREAM_BUFFER_SIZE: nat := 1024

  /** The first `n` bytes, or all of them. */
  function Cut(s: bytes, n: nat): bytes {
    if |s| <= n then s else s[..n]
  }

  /** Nothing is lost exactly when everything fits. */
  lemma CutKeeps(s: bytes, n: nat)
    ensures Cut(s, n) == s <==> |s| <= n
  {
  }

  /** A form of one letter, 17 bytes long, into an output with room for 16: the last byte is dropped. */
  lemma FormCut()
    ensures var text := Layout([98], Flagged([Part([], [65], false, false)]));
            |text| == 17 && Cut(text, 16) == text[..16] && Cut(text, 16) != text
  {
    var p := Part([], [65], true, true);
    assert Flagged([Part([], [65], false, false)]) == [p];
    assert [p][1..] == [];
    assert Layout([98], [p]) == Section([98], p) + [];
    assert Section([98], p) == [45, 45, 98, 13, 10] + [13, 10, 65] + [13, 10, 45, 45, 98, 45, 45, 13, 10];
  }

  lemma CutAppend(s: bytes, t: bytes, n: nat)
    ensures Cut(Cut(s, n) + t, n) == Cut(s + t, n)
  {
  }

  lemma CutMore(s: bytes, t: bytes, u: bytes, n: nat)
    ensures Cut(Cut(s + t, n) + u, n) == Cut(s + (t + u), n)
  {
    CutAppend(s + t, u, n);
    assert s + t + u == s + (t + u);
  }

  lemma CutWithin(s: bytes, n: nat)
    requires |s| <= n
    ensures Cut(s, n) == s && Cut(s + [], n) == s
  {
    assert s + [] == s;
  }

  lemma SectionInOrder(boundary: bytes, p: Part)
    ensures Section(boundary, p)
         == OpeningBoundary(boundary, p) + HeaderData(p.headers) + p.body + ClosingBoundary(boundary, p)
  {
    hide OpeningBoundary, ClosingBoundary, HeaderData;
    assert OpeningBoundary(boundary, p) + Block(p) == OpeningBoundary(boundary, p) + HeaderData(p.headers) + p.body;
  }

  lemma CutSection(s: bytes, boundary: bytes, p: Part, n: nat)
    ensures var head := Cut(Cut(s + OpeningBoundary(boundary, p), n) + HeaderData(p.headers), n);
            Cut(Cut(head + p.body, n) + ClosingBoundary(boundary, p), n) == Cut(s + Section(boundary, p), n)
  {
    hide Cut, OpeningBoundary, ClosingBoundary, HeaderData, Section;
    var opening, headers, closing := OpeningBoundary(boundary, p), HeaderData(p.headers), ClosingBoundary(boundary, p);
    CutAppend(s + opening, headers, n);
    CutAppend(s + opening + headers, p.body, n);
    CutAppend(s + opening + headers + p.body, closing, n);
    SectionInOrder(boundary, p);
    assert s + Section(boundary, p) == s + opening + headers + p.body + closing;
  }

  lemma LayoutNext(boundary: bytes, parts: seq<Part>, i: nat, n: nat)
    requires i < |parts|
    ensures var section := Section(boundary, parts[i]);
            && Layout(boundary, parts[..i + 1]) == Layout(boundary, parts[..i]) + section
            && Cut(Layout(boundary, parts[..i + 1]), n) == Cut(Cut(Layout(boundary, parts[..i]), n) + section, n)
  {
    hide Layout, Section, Cut;
    CutAppend(Layout(boundary, parts[..i]), Section(boundary, parts[i]), n);
    LayoutAppend(boundary, parts[..i], parts[i]);
    assert parts[..i + 1] == parts[..i] + [parts[i]];
  }

  /** An input stream that may give fewer bytes than asked for, and may fail. */
  class BodyStream {
    const content: bytes
    var position: nat
    var failed: bool

    ghost predicate Valid()
      reads this
    {
      position <= |content|
    }

    ghost function Unread(): bytes
      requires Valid()
      reads this
    {
      content[position..]
    }

    constructor (content: bytes)
      ensures Valid() && Unread() == content && !failed
    {
      this.content := content;
      position, failed := 0, false;
    }

    /** Surely true while bytes remain; at the end a read may be needed to know. */
    method HasBytesAvailable() returns (r: bool)
      requires Valid()
      ensures position < |content| ==> r
    {
      r := *;
      r := r || position < |content|;
    }

    method Read(buffer: array<byte>, maxLength: nat) returns (n: int)
      requires Valid() && !failed && 0 < maxLength <= buffer.Length
      modifies this, buffer
      ensures Valid() && old(position) <= position
      ensures failed ==> n == -1
      ensures !failed ==> && 0 <= n <= maxLength && buffer[..n] + Unread() == old(Unread())
                          && (n == 0 <==> old(position) == |content|)
    {
      var fails: bool := *;
      if fails {
        failed := true;
        return -1;
      }
      var left := |content| - position;
      var most := if left < maxLength then left else maxLength;
      var count: nat :| count <= most && (most > 0 ==> count > 0);
      for i := 0 to count
        invariant position == old(position) && !failed
        invariant buffer[..i] == content[position..position + i]
      {
        buffer[i] := content[position + i];
      }
      n := count;
      position := position + count;
    }
  }

  /** An output stream with room for `capacity` bytes, which may take fewer bytes than offered, and may fail. */
  class Sink {
    const capacity: nat
    var contents: bytes
    var failed: bool

    ghost predicate Valid()
      reads this
    {
      |contents| <= capacity
    }

    constructor (capacity: nat)
      ensures Valid() && contents == [] && !failed && this.capacity == capacity
    {
      this.capacity := capacity;
      contents, failed := [], false;
    }

    method Write(buffer: bytes, maxLength: nat) returns (n: int)
      requires Valid() && !failed && 0 < maxLength <= |buffer| && |contents| < capacity
      modifies this
      ensures Valid()
      ensures failed ==> n == -1
      ensures !failed ==> 0 < n <= maxLength && contents == old(contents) + buffer[..n]
    {
      var fails: bool := *;
      if fails {
        failed := true;
        return -1;
      }
      var room := capacity - |contents|;
      var count: nat :| 0 < count <= maxLength && count <= room;
      contents := contents + buffer[..count];
      n := count;
    }
  }

  class BodyPart {
    const headers: seq<Header>
    const bodyStream: BodyStream
    const bodyContentLength: nat
    var hasInitialBoundary: bool
    var hasFinalBoundary: bool

    constructor (headers: seq<Header>, bodyStream: BodyStream, bodyContentLength: nat)
      ensures this.headers == headers && this.bodyStream == bodyStream
      ensures this.bodyContentLength == bodyContentLength && !hasInitialBoundary && !hasFinalBoundary
    {
      this.headers, this.bodyStream, this.bodyContentLength := headers, bodyStream, bodyContentLength;
      hasInitialBoundary, hasFinalBoundary := false, false;
    }

    ghost predicate Ready()
      reads this, bodyStream
    {
      bodyStream.Valid() && !bodyStream.failed
    }

    ghost function Value(): Part
      requires bodyStream.Valid()
      reads this, bodyStream
    {
      Part(headers, bodyStream.Unread(), hasInitialBoundary, hasFinalBoundary)
    }

    // ---- in memory --------------------------------------------------------------------------------

    /** Reads the whole stream, and compares its length with the declared one at the end. */
    method EncodeBodyStream() returns (ok: bool, data: bytes)
      requires Ready()
      modifies bodyStream
      ensures bodyStream.Valid()
      ensures ok == (!bodyStream.failed && |old(bodyStream.Unread())| == bodyContentLength)
      ensures ok ==> data == old(bodyStream.Unread())
    {
      data := [];
      while true
        invariant Ready() && data + bodyStream.Unread() == old(bodyStream.Unread())
        decreases |bodyStream.Unread()|
      {
        var more := bodyStream.HasBytesAvailable();
        if !more {
          break;
        }
        var buffer := new byte[STREAM_BUFFER_SIZE](_ => 0);
        var bytesRead := bodyStream.Read(buffer, STREAM_BUFFER_SIZE);
        if bodyStream.failed {
          return false, [];
        }
        if bytesRead <= 0 {
          break;
        }
        data := data + buffer[..bytesRead];
      }
      assert bodyStream.Unread() == [];
      ok := |data| == bodyContentLength;
    }

    method Encode(boundary: bytes) returns (ok: bool, data: bytes)
      requires Ready()
      modifies bodyStream
      ensures bodyStream.Valid()
      ensures ok == (!bodyStream.failed && |old(bodyStream.Unread())| == bodyContentLength)
      ensures ok ==> data == Section(boundary, old(Value()))
    {
      hide Delimiter, HeaderData, Section;
      ghost var value := Value();
      var encoded := OpeningBoundary(boundary, Part(headers, [], hasInitialBoundary, hasFinalBoundary));
      assert encoded == OpeningBoundary(boundary, value);
      hide OpeningBoundary;
      encoded := encoded + HeaderData(headers);
      var body;
      ok, body := EncodeBodyStream();
      if !ok {
        return false, [];
      }
      encoded := encoded + body;
      SectionInOrder(boundary, value);
      if hasFinalBoundary {
        encoded := encoded + (Delimiter(boundary) + DASHES + CRLF);
      }
      data := encoded;
    }

    // ---- through an output stream -------------------------------------------------------------------

    /** Offers the buffer again and again, less what was taken, while the stream has space. When the space
        runs out the rest is dropped, and no error is raised. */
    static method WriteBuffer(data: bytes, output: Sink) returns (ok: bool)
      requires output.Valid() && !output.failed
      modifies output
      ensures output.Valid() && ok == !output.failed
      ensures ok ==> output.contents == Cut(old(output.contents) + data, output.capacity)
    {
      var buffer := data;
      var bytesToWrite := |buffer|;
      while bytesToWrite > 0 && |output.contents| < output.capacity
        invariant output.Valid() && !output.failed
        invariant bytesToWrite > 0 ==> bytesToWrite == |buffer|
        invariant output.contents + (if bytesToWrite > 0 then buffer else []) == old(output.contents) + data
        decreases bytesToWrite
      {
        var bytesWritten := output.Write(buffer, bytesToWrite);
        if output.failed {
          return false;
        }
        bytesToWrite := bytesToWrite - bytesWritten;
        if bytesToWrite > 0 {
          buffer := buffer[bytesWritten..];
        }
      }
      ok := true;
    }

    /** Copies the stream chunk by chunk; the declared length is not looked at. */
    method WriteBodyStream(output: Sink) returns (ok: bool)
      requires Ready() && output.Valid() && !output.failed
      modifies bodyStream, output
      ensures bodyStream.Valid() && output.Valid() && ok == (!bodyStream.failed && !output.failed)
      ensures ok ==> output.contents == Cut(old(output.contents) + old(bodyStream.Unread()), output.capacity)
    {
      hide Cut;
      ghost var body, start := bodyStream.Unread(), output.contents;
      ghost var copied: bytes := [];
      CutWithin(start, output.capacity);
      while true
        invariant Ready() && output.Valid() && !output.failed
        invariant copied + bodyStream.Unread() == body
        invariant output.contents == Cut(start + copied, output.capacity)
        decreases |bodyStream.Unread()|
      {
        var more := bodyStream.HasBytesAvailable();
        if !more {
          break;
        }
        var buffer := new byte[STREAM_BUFFER_SIZE](_ => 0);
        var bytesRead := bodyStream.Read(buffer, STREAM_BUFFER_SIZE);
        if bodyStream.failed {
          return false;
        }
        if bytesRead <= 0 {
          break;
        }
        var chunk := buffer[..bytesRead];
        ok := WriteBuffer(chunk, output);
        if !ok {
          return;
        }
        CutMore(start, copied, chunk, output.capacity);
        copied := copied + chunk;
      }
      assert bodyStream.Unread() == [] && copied == body;
      ok := true;
    }

    method Write(boundary: bytes, output: Sink) returns (ok: bool)
      requires Ready() && output.Valid() && !output.failed
      modifies bodyStream, output
      ensures bodyStream.Valid() && output.Valid() && ok == (!bodyStream.failed && !output.failed)
      ensures ok ==> output.contents == Cut(old(output.contents) + Section(boundary, old(Value())), output.capacity)
    {
      hide Cut, Section, Delimiter, HeaderData;
      ghost var start, value := output.contents, Value();
      var opening := OpeningBoundary(boundary, Part(headers, [], hasInitialBoundary, hasFinalBoundary));
      assert opening == OpeningBoundary(boundary, value);
      hide OpeningBoundary;
      CutSection(start, boundary, value, output.capacity);
      ok := WriteBuffer(opening, output);
      if !ok {
        return;
      }
      ok := WriteBuffer(HeaderData(headers), output);
      if !ok {
        return;
      }
      ok := WriteBodyStream(output);
      if !ok {
        return;
      }
      if hasFinalBoundary {
        ok := WriteBuffer(Delimiter(boundary) + DASHES + CRLF, output);
      } else {
        CutWithin(output.contents, output.capacity);
      }
    }
  }
  /** Different parts, with different streams. */
  ghost predicate AllDifferent(parts: seq<BodyPart>) {
    forall i, j :: 0 <= i < j < |parts| ==> parts[i] != parts[j] && parts[i].bodyStream != parts[j].bodyStream
  }

  ghost predicate AllReady(parts: seq<BodyPart>)
    reads parts, Streams(parts)
  {
    forall j :: 0 <= j < |parts| ==> parts[j] in parts && parts[j].Ready()
  }

  ghost function Streams(parts: seq<BodyPart>): set<BodyStream> {
    set p | p in parts :: p.bodyStream
  }

  /** From part `i` on, nothing has been read yet. */
  ghost predicate Pending(parts: seq<BodyPart>, values: seq<Part>, i: nat)
    reads parts, Streams(parts)
  {
    && |values| == |parts|
    && (forall j :: i <= j < |parts| ==> parts[j] in parts && parts[j].Ready() && parts[j].Value() == values[j])
  }

  /** Before part `i`, no stream has failed. */
  ghost predicate NoneFailed(parts: seq<BodyPart>, i: nat)
    reads parts, Streams(parts)
  {
    forall j :: 0 <= j < i <= |parts| ==> parts[j] in parts && !parts[j].bodyStream.failed
  }

  /** Before part `i`, every body has its declared length. */
  ghost predicate LengthsAgree(parts: seq<BodyPart>, values: seq<Part>, i: nat) {
    forall j :: 0 <= j < i <= |parts| == |values| ==> |values[j].body| == parts[j].bodyContentLength
  }

  ghost function ValuesOf(parts: seq<BodyPart>): (r: seq<Part>)
    requires AllReady(parts)
    reads parts, Streams(parts)
    ensures |r| == |parts| && forall i :: 0 <= i < |r| ==> r[i] == parts[i].Value()
  {
    if parts == [] then [] else [parts[0].Value()] + ValuesOf(parts[1..])
  }

  class MultipartFormData {
    const boundary: bytes
    var bodyParts: seq<BodyPart>
    var bodyPartError: bool

    ghost predicate Valid()
      reads this, bodyParts, Streams(bodyParts)
    {
      AllDifferent(bodyParts) && AllReady(bodyParts)
    }

    ghost function Values(): (r: seq<Part>)
      requires Valid()
      reads this, bodyParts, Streams(bodyParts)
      ensures |r| == |bodyParts|
    {
      ValuesOf(bodyParts)
    }

    constructor (boundary: bytes)
      ensures Valid() && Values() == [] && !bodyPartError && this.boundary == boundary
    {
      this.boundary := boundary;
      bodyParts, bodyPartError := [], false;
    }

    method Append(stream: BodyStream, length: nat, headers: seq<Header>)
      requires Valid() && stream.Valid() && !stream.failed && stream !in Streams(bodyParts)
      modifies this
      ensures Valid() && bodyPartError == old(bodyPartError)
      ensures Values() == old(Values()) + [Part(headers, stream.Unread(), false, false)]
    {
      hide ValuesOf;
      ghost var parts, values := bodyParts, Values();
      var bodyPart := new BodyPart(headers, stream, length);
      bodyParts := bodyParts + [bodyPart];
      forall i | 0 <= i < |parts|
        ensures bodyParts[i] in bodyParts && bodyParts[i] != bodyPart && bodyParts[i].bodyStream != stream
        ensures bodyParts[i].Ready() && bodyParts[i].Value() == values[i]
      {
        assert parts[i] in parts && parts[i].bodyStream in Streams(parts);
      }
      assert bodyParts[|parts|] == bodyPart && bodyPart in bodyParts;
      assert AllDifferent(bodyParts) && AllReady(bodyParts);
      assert Values() == values + [bodyPart.Value()];
    }

    /** The flags of the first and the last part; those of earlier encodings stay. */
    method SetFlags()
      requires Valid()
      modifies bodyParts
      ensures Valid() && Values() == Flagged(old(Values()))
      ensures Pending(bodyParts, Values(), 0) && NoneFailed(bodyParts, 0)
    {
      hide Flagged, ValuesOf;
      ghost var values, parts := Values(), bodyParts;
      if bodyParts != [] {
        bodyParts[0].hasInitialBoundary := true;
        bodyParts[|bodyParts| - 1].hasFinalBoundary := true;
      }
      forall i | 0 <= i < |parts|
        ensures Values()[i] == Flagged(values)[i]
      {
        FlaggedAt(values, i);
        assert parts[i] in parts;
      }
    }

    method EncodePart(i: nat, ghost values: seq<Part>) returns (ok: bool, data: bytes)
      requires i < |bodyParts| && AllDifferent(bodyParts)
      requires Pending(bodyParts, values, i) && NoneFailed(bodyParts, i)
      modifies bodyParts[i].bodyStream
      ensures ok ==> Pending(bodyParts, values, i + 1) && NoneFailed(bodyParts, i + 1)
      ensures ok ==> data == Section(boundary, values[i])
      ensures bodyParts[i].bodyStream.failed ==> !NoneFailed(bodyParts, |bodyParts|)
      ensures ok == (!bodyParts[i].bodyStream.failed && |values[i].body| == bodyParts[i].bodyContentLength)
    {
      hide Section;
      ok, data := bodyParts[i].Encode(boundary);
      assert bodyParts[i] in bodyParts;
    }

    /** Fails exactly when a part was rejected, a stream fails or a stream does not have its declared
        length. */
    method Encode() returns (ok: bool, data: bytes)
      requires Valid()
      modifies bodyParts, Streams(bodyParts)
      ensures ok == (&& !bodyPartError && NoneFailed(bodyParts, |bodyParts|)
                     && LengthsAgree(bodyParts, Flagged(old(Values())), |bodyParts|))
      ensures ok ==> data == Layout(boundary, Flagged(old(Values())))
    {
      hide ValuesOf, Layout, Section, Flagged, Pending, NoneFailed, AllReady;
      if bodyPartError {
        return false, [];
      }
      SetFlags();
      ghost var values := Values();
      data := [];
      LayoutEmpty(boundary);
      for i := 0 to |bodyParts|
        invariant Pending(bodyParts, values, i) && NoneFailed(bodyParts, i) && LengthsAgree(bodyParts, values, i)
        invariant data == Layout(boundary, values[..i])
      {
        var encodedData;
        assert bodyParts[i] in bodyParts;
        ok, encodedData := EncodePart(i, values);
        if !ok {
          return false, [];
        }
        data := data + encodedData;
        LayoutNext(boundary, values, i, 0);
      }
      assert values[..|bodyParts|] == values;
      ok := true;
    }

    method WritePart(i: nat, ghost values: seq<Part>, output: Sink) returns (ok: bool)
      requires i < |bodyParts| && AllDifferent(bodyParts) && output.Valid() && !output.failed
      requires Pending(bodyParts, values, i) && NoneFailed(bodyParts, i)
      modifies bodyParts[i].bodyStream, output
      ensures ok ==> Pending(bodyParts, values, i + 1) && NoneFailed(bodyParts, i + 1)
      ensures bodyParts[i].bodyStream.failed ==> !NoneFailed(bodyParts, |bodyParts|)
      ensures output.Valid() && ok == (!bodyParts[i].bodyStream.failed && !output.failed)
      ensures ok ==> output.contents == Cut(old(output.contents) + Section(boundary, values[i]), output.capacity)
    {
      hide Section, Cut;
      ok := bodyParts[i].Write(boundary, output);
      assert bodyParts[i] in bodyParts;
    }

    /** Fails exactly when a part was rejected or a stream fails. Otherwise the output holds the text of
        the form, as far as there was space for it. */
    method WriteEncodedData(output: Sink) returns (ok: bool)
      requires Valid() && output.Valid() && !output.failed && output.contents == []
      modifies bodyParts, Streams(bodyParts), output
      ensures ok == (!bodyPartError && !output.failed && NoneFailed(bodyParts, |bodyParts|))
      ensures ok ==> output.contents == Cut(Layout(boundary, Flagged(old(Values()))), output.capacity)
      ensures ok ==> (output.contents == Layout(boundary, Flagged(old(Values())))
                      <==> |Layout(boundary, Flagged(old(Values())))| <= output.capacity)
    {
      hide ValuesOf, Layout, Section, Flagged, Cut, Pending, NoneFailed, AllReady;
      if bodyPartError {
        return false;
      }
      SetFlags();
      ghost var values := Values();
      LayoutEmpty(boundary);
      CutWithin([], output.capacity);
      assert values[..0] == [];
      for i := 0 to |bodyParts|
        invariant output.Valid() && !output.failed
        invariant Pending(bodyParts, values, i) && NoneFailed(bodyParts, i)
        invariant output.contents == Cut(Layout(boundary, values[..i]), output.capacity)
      {
        assert bodyParts[i] in bodyParts;
        ok := WritePart(i, values, output);
        if !ok {
          return;
        }
        LayoutNext(boundary, values, i, output.capacity);
      }
      assert values[..|bodyParts|] == values;
      CutKeeps(Layout(boundary, values), output.capacity);
      ok := true;
    }
  }
}
