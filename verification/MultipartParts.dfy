/** A form read back as its parts: the blocks between the delimiters, and in each the header lines and the body. */
module MultipartParts {
  import opened Words
  import opened MultipartLayout

  // ---- the header lines of a block ----------------------------------------------------------------

  datatype Content = Content(headers: seq<Header>, body: bytes)

  /** The header lines, each up to CR LF and split at its first colon and space, and what follows the empty line. */
  function ReadPart(s: bytes): Option<Content>
    decreases |s|
  {
    var end := Find([13, 10], s);
    if end.None? then None
    else
      var line, rest := s[..end.value], s[end.value + 2..];
      if line == [] then Some(Content([], rest))
      else
        var colon := Find([58, 32], line);
        var more := ReadPart(rest);
        if colon.None? || more.None? then None
        else Some(more.value.(headers := [Header(line[..colon.value], line[colon.value + 2..])] + more.value.headers))
  }

  /** Two bytes in a row. */
  predicate Has(s: bytes, x: byte, y: byte) {
    exists k :: 0 <= k < |s| - 1 && s[k] == x && s[k + 1] == y
  }

  /** No separator in the name, and no line break in either. */
  predicate Plain(h: Header) {
    !Has(h.name, 58, 32) && !Has(h.name, 13, 10) && !Has(h.value, 13, 10)
  }

  predicate AllPlain(headers: seq<Header>) {
    forall h :: h in headers ==> Plain(h)
  }

  /** The first pair behind text is the one that follows the text, exactly when there is none in the text: unless
      the two are alike, one cannot begin at the text's end. */
  lemma {:induction false} FindPair(s: bytes, x: byte, y: byte, rest: bytes)
    requires x != y
    ensures var r := Find([x, y], s + [x, y] + rest);
            r.Some? && r.value <= |s| && (r.value == |s| <==> !Has(s, x, y))
  {
    var d, all := [x, y], s + [x, y] + rest;
    if s == [] {
      assert d <= all;
    } else {
      assert all[1..] == s[1..] + [x, y] + rest;
      FindPair(s[1..], x, y, rest);
      assert d <= all <==> all[0] == x && all[1] == y;
      if |s| > 1 && s[0] == x && s[1] == y {
        assert Has(s, x, y);
      } else {
        assert all[1] == if |s| > 1 then s[1] else x;
        HasTail(s, x, y);
      }
    }
  }

  lemma HasTail(s: bytes, x: byte, y: byte)
    requires s != [] && !(|s| > 1 && s[0] == x && s[1] == y)
    ensures Has(s, x, y) <==> Has(s[1..], x, y)
  {
    if Has(s, x, y) {
      var k :| 0 <= k < |s| - 1 && s[k] == x && s[k + 1] == y;
      assert s[1..][k - 1] == x && s[1..][k] == y;
    }
    if Has(s[1..], x, y) {
      var k :| 0 <= k < |s| - 2 && s[1..][k] == x && s[1..][k + 1] == y;
      assert s[k + 1] == x && s[k + 2] == y;
    }
  }

  lemma PlainLine(h: Header, rest: bytes)
    ensures var line := h.name + [58, 32] + h.value;
            && Find([13, 10], line + [13, 10] + rest).Some?
            && (Find([13, 10], line + [13, 10] + rest).value == |line|
                <==> !Has(h.name, 13, 10) && !Has(h.value, 13, 10))
            && Find([58, 32], line).Some?
            && (Find([58, 32], line).value == |h.name| <==> !Has(h.name, 58, 32))
  {
    var line := h.name + [58, 32] + h.value;
    FindPair(line, 13, 10, rest);
    FindPair(h.name, 58, 32, h.value);
    HasInLine(h);
  }

  lemma HasInLine(h: Header)
    ensures Has(h.name + [58, 32] + h.value, 13, 10) <==> Has(h.name, 13, 10) || Has(h.value, 13, 10)
  {
    var line, n := h.name + [58, 32] + h.value, |h.name|;
    if Has(line, 13, 10) {
      var k :| 0 <= k < |line| - 1 && line[k] == 13 && line[k + 1] == 10;
      if k >= n {
        assert h.value[k - n - 2] == 13 && h.value[k - n - 1] == 10;
      } else {
        assert h.name[k] == 13 && h.name[k + 1] == 10;
      }
    }
    if Has(h.name, 13, 10) {
      var k :| 0 <= k < n - 1 && h.name[k] == 13 && h.name[k + 1] == 10;
      assert line[k] == 13 && line[k + 1] == 10;
    }
    if Has(h.value, 13, 10) {
      var k :| 0 <= k < |h.value| - 1 && h.value[k] == 13 && h.value[k + 1] == 10;
      assert line[n + 2 + k] == 13 && line[n + 2 + k + 1] == 10;
    }
  }

  lemma {:induction false} FoundThere(d: bytes, s: bytes)
    ensures Find(d, s).Some? ==> d <= s[Find(d, s).value..]
  {
    if !(d <= s) && s != [] {
      FoundThere(d, s[1..]);
      var rest := Find(d, s[1..]);
      if rest.Some? {
        assert s[1..][rest.value..] == s[rest.value + 1..];
      }
    }
  }

  lemma SplitAt(s: bytes, x: byte, y: byte, n: nat)
    requires n + 2 <= |s| && [x, y] <= s[n..]
    ensures s == s[..n] + [x, y] + s[n + 2..]
  {
    assert s[n..][0] == x && s[n..][1] == y;
  }

  /** Whatever a block is read as, it is the text of that. */
  lemma {:induction false} ReadIsText(s: bytes)
    ensures var r := ReadPart(s);
            r.Some? ==> s == HeaderData(r.value.headers) + r.value.body
    decreases |s|
  {
    hide Find;
    var r, end := ReadPart(s), Find([13, 10], s);
    if r.Some? {
      FoundThere([13, 10], s);
      SplitAt(s, 13, 10, end.value);
      var line, rest := s[..end.value], s[end.value + 2..];
      if line == [] {
        assert s == CRLF + rest;
      } else {
        var colon := Find([58, 32], line);
        FoundThere([58, 32], line);
        SplitAt(line, 58, 32, colon.value);
        ReadIsText(rest);
        var h, more := r.value.headers[0], ReadPart(rest).value;
        assert r.value.headers[1..] == more.headers;
        TextOfFirst(h, more.headers, more.body);
      }
    }
  }

  lemma TextOfFirst(h: Header, more: seq<Header>, body: bytes)
    ensures HeaderData([h] + more) + body
         == h.name + [58, 32] + h.value + [13, 10] + (HeaderData(more) + body)
  {
    assert ([h] + more)[1..] == more;
  }

  /** The header lines and the body come back exactly when no name has a separator and neither names nor values
      have a line break. */
  lemma {:induction false} PartComesBack(headers: seq<Header>, body: bytes)
    ensures ReadPart(HeaderData(headers) + body) == Some(Content(headers, body)) <==> AllPlain(headers)
  {
    hide Find, Plain;
    var s := HeaderData(headers) + body;
    if headers == [] {
      FindPair([], 13, 10, body);
      assert s == [] + [13, 10] + body && s[2..] == body;
    } else {
      hide HeaderData;
      var h, more := headers[0], headers[1..];
      var line, rest := h.name + [58, 32] + h.value, HeaderData(more) + body;
      assert headers == [h] + more;
      TextOfFirst(h, more, body);
      PartComesBack(more, body);
      FirstLine(h, rest, s);
      AllPlainCons(h, more);
    }
  }

  lemma AllPlainCons(h: Header, more: seq<Header>)
    ensures AllPlain([h] + more) <==> Plain(h) && AllPlain(more)
  {
    hide Plain;
    assert h in [h] + more;
    assert forall x :: x in [h] + more <==> x == h || x in more;
  }

  /** Where the first header line and its name end. */
  lemma FirstHeader(s: bytes)
    requires ReadPart(s).Some? && ReadPart(s).value.headers != []
    ensures var h := ReadPart(s).value.headers[0];
            var end := |h.name| + 2 + |h.value|;
            end <= |s| && Find([13, 10], s) == Some(end) && Find([58, 32], s[..end]) == Some(|h.name|)
  {
    hide Find;
  }

  lemma FirstLine(h: Header, rest: bytes, s: bytes)
    requires s == h.name + [58, 32] + h.value + [13, 10] + rest
    ensures Plain(h) ==>
              ReadPart(s) == if ReadPart(rest).None? then None
                             else Some(ReadPart(rest).value.(headers := [h] + ReadPart(rest).value.headers))
    ensures !Plain(h) ==> ReadPart(s).None? || ReadPart(s).value.headers == [] || ReadPart(s).value.headers[0] != h
  {
    hide Find, Has;
    var line := h.name + [58, 32] + h.value;
    PlainLine(h, rest);
    var end := Find([13, 10], s).value;
    if Plain(h) {
      assert s[..end] == line && s[end + 2..] == rest;
      assert line[..|h.name|] == h.name && line[|h.name| + 2..] == h.value;
    } else if ReadPart(s).Some? && ReadPart(s).value.headers != [] {
      FirstHeader(s);
      if end == |line| {
        assert s[..end] == line;
      }
    }
  }

  // ---- whole forms --------------------------------------------------------------------------------

  function ReadParts(blocks: seq<bytes>): Option<seq<Content>> {
    if blocks == [] then Some([])
    else
      var first, more := ReadPart(blocks[0]), ReadParts(blocks[1..]);
      if first.None? || more.None? then None else Some([first.value] + more.value)
  }

  /** The parts of a form, from its text. */
  function ReadAll(boundary: bytes, text: bytes): Option<seq<Content>> {
    var blocks := ReadForm(boundary, text);
    if blocks.None? then None else ReadParts(blocks.value)
  }

  function Contents(parts: seq<Part>): seq<Content> {
    seq(|parts|, i requires 0 <= i < |parts| => Content(parts[i].headers, parts[i].body))
  }

  ghost predicate PlainParts(parts: seq<Part>) {
    forall p :: p in parts ==> AllPlain(p.headers)
  }

  /** Blocks read as certain parts are the texts of those parts. */
  lemma {:induction false} BlocksRead(blocks: seq<bytes>, parts: seq<Part>)
    requires ReadParts(blocks) == Some(Contents(parts))
    ensures blocks == Blocks(parts)
  {
    var all := Contents(parts);
    if blocks != [] {
      var first, more := ReadPart(blocks[0]), ReadParts(blocks[1..]);
      assert all == [first.value] + more.value;
      assert more.value == all[1..] == Contents(parts[1..]) && first.value == all[0];
      BlocksRead(blocks[1..], parts[1..]);
      ReadIsText(blocks[0]);
      BlocksCons(parts);
      assert blocks == [blocks[0]] + blocks[1..];
    } else {
      assert |parts| == |all| == 0;
    }
  }

  lemma {:induction false} BlocksReadBack(parts: seq<Part>)
    ensures ReadParts(Blocks(parts)) == Some(Contents(parts)) <==> PlainParts(parts)
  {
    hide Block, AllPlain, ReadPart;
    if parts == [] {
      assert Blocks(parts) == [] && Contents(parts) == [];
    } else {
      var p, tail := parts[0], parts[1..];
      BlocksCons(parts);
      var blocks := Blocks(parts);
      assert blocks[0] == Block(p) && blocks[1..] == Blocks(tail);
      assert Contents(parts) == [Content(p.headers, p.body)] + Contents(tail);
      BlocksReadBack(tail);
      PartBlock(p);
      var first, more := ReadPart(Block(p)), ReadParts(Blocks(tail));
      if first.Some? && more.Some? {
        assert [first.value] + more.value == Contents(parts) <==>
          first.value == Content(p.headers, p.body) && more.value == Contents(tail) by {
          assert ([first.value] + more.value)[1..] == more.value && Contents(parts)[1..] == Contents(tail);
        }
      }
      PlainPartsCons(p, tail);
      assert parts == [p] + tail;
    }
  }

  lemma PartBlock(p: Part)
    ensures ReadPart(Block(p)) == Some(Content(p.headers, p.body)) <==> AllPlain(p.headers)
  {
    hide AllPlain, ReadPart;
    PartComesBack(p.headers, p.body);
  }

  lemma PlainPartsCons(p: Part, tail: seq<Part>)
    ensures PlainParts([p] + tail) <==> AllPlain(p.headers) && PlainParts(tail)
  {
    hide AllPlain;
    assert p in [p] + tail;
    assert forall x :: x in [p] + tail <==> x == p || x in tail;
  }

  /** A form comes back as its parts, each with its header lines and its body, exactly when the delimiter begins in
      no block, only the last part closes the form, and all headers are plain. */
  lemma FormComesBack(boundary: bytes, parts: seq<Part>)
    requires parts != [] && OpensOnce(parts) && (exists i :: 0 <= i < |parts| && parts[i].closing)
    ensures ReadAll(boundary, Layout(boundary, parts)) == Some(Contents(parts))
       <==> AllUnbroken(boundary, Blocks(parts)) && ClosesLast(parts) && PlainParts(parts)
  {
    hide ReadForm, ReadParts, Layout, AllUnbroken, Blocks, Contents, ClosesLast, PlainParts, OpensOnce;
    FormReadsBackInFull(boundary, parts);
    BlocksReadBack(parts);
    var blocks := ReadForm(boundary, Layout(boundary, parts));
    if blocks.Some? && ReadParts(blocks.value) == Some(Contents(parts)) {
      BlocksRead(blocks.value, parts);
    }
  }

  /** A fresh form, encoded. */
  lemma FreshFormComesBack(boundary: bytes, parts: seq<Part>)
    requires parts != [] && Fresh(parts)
    ensures ReadAll(boundary, Layout(boundary, Flagged(parts))) == Some(Contents(parts))
       <==> AllUnbroken(boundary, Blocks(parts)) && PlainParts(parts)
  {
    hide ReadForm, ReadParts, Layout, AllUnbroken, Blocks, Contents, PlainParts, Flagged, Fresh;
    FreshFormReadsBack(boundary, parts);
    BlocksReadBack(parts);
    var blocks := ReadForm(boundary, Layout(boundary, Flagged(parts)));
    if blocks.Some? && ReadParts(blocks.value) == Some(Contents(parts)) {
      BlocksRead(blocks.value, parts);
    }
  }

  // ---- the text itself ------------------------------------------------------------------------------

  lemma OpeningText(boundary: bytes, h: Header, body: bytes)
    ensures Section(boundary, Part([h], body, true, false))
         == [45, 45] + boundary + [13, 10] + (h.name + [58, 32] + h.value + [13, 10] + [13, 10] + body)
  {
    var p := Part([h], body, true, false);
    assert [h][1..] == [];
    assert HeaderData([h]) == h.name + [58, 32] + h.value + [13, 10] + [13, 10];
    hide HeaderData;
    var block := h.name + [58, 32] + h.value + [13, 10] + [13, 10] + body;
    assert Block(p) == block;
    var opening := [45, 45] + boundary + [13, 10];
    assert OpeningBoundary(boundary, p) == opening && ClosingBoundary(boundary, p) == [];
    assert opening + block + [] == opening + block;
  }

  lemma ClosingText(boundary: bytes, body: bytes)
    ensures Section(boundary, Part([], body, false, true))
         == [13, 10, 45, 45] + boundary + [13, 10] + ([13, 10] + body)
              + ([13, 10, 45, 45] + boundary + [45, 45, 13, 10])
  {
    var p := Part([], body, false, true);
    assert Delimiter(boundary) == [13, 10, 45, 45] + boundary;
    hide Delimiter;
    var delimiter := [13, 10, 45, 45] + boundary;
    assert ClosingBoundary(boundary, p) == delimiter + [45, 45] + [13, 10] == delimiter + [45, 45, 13, 10];
  }

  /** A form of two parts, the first with a header line, byte by byte. */
  lemma TwoPartText(boundary: bytes, h: Header, body1: bytes, body2: bytes)
    ensures var parts := [Part([h], body1, false, false), Part([], body2, false, false)];
            Layout(boundary, Flagged(parts))
              == [45, 45] + boundary + [13, 10] + (h.name + [58, 32] + h.value + [13, 10] + [13, 10] + body1)
                   + ([13, 10, 45, 45] + boundary + [13, 10] + ([13, 10] + body2)
                      + ([13, 10, 45, 45] + boundary + [45, 45, 13, 10]))
  {
    hide Section;
    var p1, p2 := Part([h], body1, true, false), Part([], body2, false, true);
    var parts := [Part([h], body1, false, false), Part([], body2, false, false)];
    FlaggedAt(parts, 0);
    FlaggedAt(parts, 1);
    assert Flagged(parts) == [p1, p2];
    OpeningText(boundary, h, body1);
    ClosingText(boundary, body2);
    assert [p1, p2][1..] == [p2] && [p2][1..] == [];
    var section := Section(boundary, p2);
    assert Layout(boundary, [p2]) == section + [] == section;
  }
}
