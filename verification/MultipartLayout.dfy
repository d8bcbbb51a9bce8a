/** The text of a multipart/form-data body, and a reader for it as section 5.1.1 of RFC 2046 describes it. */
module MultipartLayout {
  import opened Words

  datatype Header = Header(name: bytes, value: bytes)

  /** A part and its two flags: `opening` for the first boundary of the form, `closing` for the last. */
  datatype Part = Part(headers: seq<Header>, body: bytes, opening: bool, closing: bool)

  const CRLF: bytes := [13, 10]
  const DASHES: bytes := [45, 45]
  const COLON: bytes := [58, 32]

  function HeaderData(headers: seq<Header>): bytes {
    if headers == [] then CRLF
    else headers[0].name + COLON + headers[0].value + CRLF + HeaderData(headers[1..])
  }

  function Block(p: Part): bytes {
    HeaderData(p.headers) + p.body
  }

  function Delimiter(boundary: bytes): bytes {
    CRLF + DASHES + boundary
  }

  function OpeningBoundary(boundary: bytes, p: Part): bytes {
    if p.opening then DASHES + boundary + CRLF else Delimiter(boundary) + CRLF
  }

  function ClosingBoundary(boundary: bytes, p: Part): bytes {
    if p.closing then Delimiter(boundary) + DASHES + CRLF else []
  }

  function Section(boundary: bytes, p: Part): bytes {
    OpeningBoundary(boundary, p) + Block(p) + ClosingBoundary(boundary, p)
  }

  function Layout(boundary: bytes, parts: seq<Part>): bytes {
    if parts == [] then [] else Section(boundary, parts[0]) + Layout(boundary, parts[1..])
  }

  lemma LayoutEmpty(boundary: bytes)
    ensures Layout(boundary, []) == []
  {
  }

  lemma {:induction false} LayoutAppend(boundary: bytes, parts: seq<Part>, p: Part)
    ensures Layout(boundary, parts + [p]) == Layout(boundary, parts) + Section(boundary, p)
  {
    hide Section;
    if parts == [] {
      assert [p][1..] == [];
    } else {
      LayoutAppend(boundary, parts[1..], p);
      assert (parts + [p])[1..] == parts[1..] + [p];
    }
  }

  /** The flags that encoding sets before it starts: nothing is ever cleared. */
  function Flagged(parts: seq<Part>): (r: seq<Part>)
    ensures |r| == |parts|
  {
    if parts == [] then []
    else
      var first := parts[0 := parts[0].(opening := true)];
      first[|parts| - 1 := first[|parts| - 1].(closing := true)]
  }

  lemma FlaggedAt(parts: seq<Part>, i: nat)
    requires i < |parts|
    ensures Flagged(parts)[i]
         == parts[i].(opening := parts[i].opening || i == 0, closing := parts[i].closing || i == |parts| - 1)
  {
  }

  // ---- the reader -------------------------------------------------------------------------------

  function Find(d: bytes, s: bytes): (r: Option<nat>)
    ensures r.Some? ==> r.value + |d| <= |s|
  {
    if d <= s then Some(0)
    else if s == [] then None
    else
      var rest := Find(d, s[1..]);
      if rest.None? then None else Some(rest.value + 1)
  }

  /** The blocks from the end of a dash-boundary on, up to the close-delimiter; what follows that is the
      epilogue, and is ignored. */
  function ReadBlocks(boundary: bytes, s: bytes): Option<seq<bytes>>
    decreases |s|
  {
    if !(CRLF <= s) then None
    else
      var t := s[|CRLF|..];
      var end := Find(Delimiter(boundary), t);
      if end.None? then None
      else
        var u := t[end.value + |Delimiter(boundary)|..];
        if DASHES <= u then Some([t[..end.value]])
        else
          var rest := ReadBlocks(boundary, u);
          if rest.None? then None else Some([t[..end.value]] + rest.value)
  }

  function ReadForm(boundary: bytes, s: bytes): Option<seq<bytes>> {
    if DASHES + boundary <= s then ReadBlocks(boundary, s[|DASHES + boundary|..]) else None
  }

  /** The delimiter does not begin inside the block, not even when it ends in the delimiter after it. */
  ghost predicate Unbroken(boundary: bytes, block: bytes) {
    forall k :: 0 <= k < |block| ==> !(Delimiter(boundary) <= (block + Delimiter(boundary))[k..])
  }

  ghost predicate AllUnbroken(boundary: bytes, blocks: seq<bytes>) {
    forall block :: block in blocks ==> Unbroken(boundary, block)
  }

  /** Prefixes only look at as many bytes as they have. */
  lemma PrefixWithin(d: bytes, s: bytes, rest: bytes, k: nat)
    requires k + |d| <= |s|
    ensures d <= (s + rest)[k..] <==> d <= s[k..]
  {
    assert (s + rest)[k..][..|d|] == s[k..][..|d|];
  }

  lemma FindCons(d: bytes, s: bytes)
    requires s != []
    ensures d <= s ==> Find(d, s) == Some(0)
    ensures !(d <= s) ==> Find(d, s) == if Find(d, s[1..]).None? then None else Some(Find(d, s[1..]).value + 1)
  {
  }

  lemma UnbrokenCons(boundary: bytes, block: bytes)
    requires block != []
    ensures Unbroken(boundary, block)
       <==> !(Delimiter(boundary) <= block + Delimiter(boundary)) && Unbroken(boundary, block[1..])
  {
    hide Delimiter;
    var d := Delimiter(boundary);
    assert (block + d)[0..] == block + d;
    assert forall k :: 0 <= k < |block| - 1 ==> (block[1..] + d)[k..] == (block + d)[k + 1..];
    assert forall k :: 0 < k < |block| ==> (block + d)[k..] == (block[1..] + d)[k - 1..];
  }

  lemma DropFirst(a: bytes, d: bytes, rest: bytes)
    requires a != []
    ensures a + d + rest != [] && (a + d + rest)[1..] == a[1..] + d + rest
    ensures d <= a + d + rest <==> d <= a + d
  {
    PrefixWithin(d, a + d, rest, 0);
    assert (a + d + rest)[0..] == a + d + rest && (a + d)[0..] == a + d;
  }

  /** The first delimiter in a block that a delimiter follows is that one exactly when the block is
      unbroken. */
  lemma {:induction false} FindDelimiter(boundary: bytes, block: bytes, rest: bytes)
    ensures var r := Find(Delimiter(boundary), block + Delimiter(boundary) + rest);
            r.Some? && r.value <= |block| && (r.value == |block| <==> Unbroken(boundary, block))
  {
    hide Delimiter;
    var d := Delimiter(boundary);
    if block == [] {
      assert [] + d + rest == d + rest;
    } else {
      hide Unbroken, Find;
      DropFirst(block, d, rest);
      FindCons(d, block + d + rest);
      UnbrokenCons(boundary, block);
      FindDelimiter(boundary, block[1..], rest);
    }
  }

  /** What a reader is given: the parts up to the first one that closes the form. */
  function Delivered(parts: seq<Part>): seq<bytes> {
    if parts == [] then []
    else [Block(parts[0])] + if parts[0].closing then [] else Delivered(parts[1..])
  }

  ghost predicate OpensOnce(parts: seq<Part>) {
    forall i :: 0 <= i < |parts| ==> (parts[i].opening <==> i == 0)
  }

  ghost predicate Closes(parts: seq<Part>) {
    exists i :: 0 <= i < |parts| && parts[i].closing
  }

  /** What follows the first part's block. */
  function After(boundary: bytes, parts: seq<Part>): bytes
    requires parts != []
  {
    ClosingBoundary(boundary, parts[0]) + Layout(boundary, parts[1..])
  }

  /** One block and the delimiter after it. */
  lemma ReadBlock(boundary: bytes, block: bytes, u: bytes)
    ensures var r := ReadBlocks(boundary, CRLF + block + Delimiter(boundary) + u);
            if !Unbroken(boundary, block) then r.Some? ==> r.value != [] && r.value[0] != block
            else if DASHES <= u then r == Some([block])
            else
              var rest := ReadBlocks(boundary, u);
              r == if rest.None? then None else Some([block] + rest.value)
  {
    hide Unbroken, Delimiter, Find;
    var d := Delimiter(boundary);
    var s := CRLF + block + d + u;
    var t := block + d + u;
    assert CRLF <= s && s[|CRLF|..] == t;
    FindDelimiter(boundary, block, u);
    var end := Find(d, t).value;
    assert |t[..end]| == end;
    if end == |block| {
      assert t[..end] == block && t[end + |d|..] == u;
    }
  }

  lemma Regroup(a: bytes, b: bytes, c: bytes, d: bytes, e: bytes)
    ensures ((a + b) + c + d) + e == a + ((b + c) + (d + e))
  {
  }

  /** The text of a form from the first delimiter or dash-boundary on. */
  lemma LayoutStart(boundary: bytes, parts: seq<Part>)
    requires parts != []
    ensures Layout(boundary, parts)
         == (if parts[0].opening then DASHES + boundary else Delimiter(boundary))
            + (CRLF + Block(parts[0]) + After(boundary, parts))
  {
    hide Block, Delimiter, ClosingBoundary;
    var p := parts[0];
    var start := if p.opening then DASHES + boundary else Delimiter(boundary);
    assert Section(boundary, p) == (start + CRLF) + Block(p) + ClosingBoundary(boundary, p);
    Regroup(start, CRLF, Block(p), ClosingBoundary(boundary, p), Layout(boundary, parts[1..]));
  }

  /** After a part comes the delimiter, and then either the closing dashes or the next part. */
  lemma AfterPart(boundary: bytes, parts: seq<Part>)
    requires Closes(parts) && forall i :: 0 < i < |parts| ==> !parts[i].opening
    ensures parts[0].closing ==>
              After(boundary, parts) == Delimiter(boundary) + (DASHES + CRLF + Layout(boundary, parts[1..]))
    ensures !parts[0].closing ==> |parts| > 1 && Closes(parts[1..])
    ensures !parts[0].closing ==>
              After(boundary, parts) == Delimiter(boundary) + (CRLF + Block(parts[1]) + After(boundary, parts[1..]))
  {
    hide Block, Delimiter, Layout;
    if parts[0].closing {
      var rest := Layout(boundary, parts[1..]);
      assert (Delimiter(boundary) + DASHES + CRLF) + rest == Delimiter(boundary) + (DASHES + CRLF + rest);
    } else {
      var i :| 0 <= i < |parts| && parts[i].closing;
      assert parts[1..][i - 1].closing;
      LayoutStart(boundary, parts[1..]);
      assert After(boundary, parts) == Layout(boundary, parts[1..]);
    }
  }

  lemma {:induction false} ReadsBlocks(boundary: bytes, parts: seq<Part>)
    requires Closes(parts) && forall i :: 0 < i < |parts| ==> !parts[i].opening
    ensures ReadBlocks(boundary, CRLF + Block(parts[0]) + After(boundary, parts)) == Some(Delivered(parts))
       <==> AllUnbroken(boundary, Delivered(parts))
  {
    hide Block, After, Delimiter, Layout, Unbroken, ReadBlocks;
    var tail := parts[1..];
    var block := Block(parts[0]);
    var s := CRLF + block + After(boundary, parts);
    AfterPart(boundary, parts);
    assert Delivered(parts)[0] == block;
    if parts[0].closing {
      var u := DASHES + CRLF + Layout(boundary, tail);
      assert s == CRLF + block + Delimiter(boundary) + u;
      ReadBlock(boundary, block, u);
      AllUnbrokenCons(boundary, block, []);
      assert DASHES <= u && Delivered(parts) == [block] + [] == [block];
    } else {
      var u := CRLF + Block(tail[0]) + After(boundary, tail);
      assert s == CRLF + block + Delimiter(boundary) + u && u[0] == 13;
      ReadBlock(boundary, block, u);
      ReadsBlocks(boundary, tail);
      AllUnbrokenCons(boundary, block, Delivered(tail));
      var rest := ReadBlocks(boundary, u);
      if rest.Some? {
        assert ([block] + rest.value)[1..] == rest.value && ([block] + Delivered(tail))[1..] == Delivered(tail);
      }
    }
  }

  lemma AllUnbrokenCons(boundary: bytes, block: bytes, blocks: seq<bytes>)
    ensures AllUnbroken(boundary, [block] + blocks) <==> Unbroken(boundary, block) && AllUnbroken(boundary, blocks)
  {
    hide Unbroken;
    forall x
      ensures x in [block] + blocks <==> x == block || x in blocks
    {
    }
  }

  /** The form is read back as its parts, in order and unchanged, exactly when the delimiter begins in
      none of them. `Delivered` ends with the first part that closes the form. */
  lemma FormReadsBack(boundary: bytes, parts: seq<Part>)
    requires parts != [] && OpensOnce(parts) && Closes(parts)
    ensures ReadForm(boundary, Layout(boundary, parts)) == Some(Delivered(parts))
       <==> AllUnbroken(boundary, Delivered(parts))
  {
    hide Layout, Block, After, AllUnbroken, Delivered, ReadBlocks;
    LayoutStart(boundary, parts);
    var s, dash, rest := Layout(boundary, parts), DASHES + boundary, CRLF + Block(parts[0]) + After(boundary, parts);
    assert dash <= s && s[|dash|..] == rest;
    ReadsBlocks(boundary, parts);
  }

  function Blocks(parts: seq<Part>): seq<bytes> {
    seq(|parts|, i requires 0 <= i < |parts| => Block(parts[i]))
  }

  /** Only the last part closes the form. */
  ghost predicate ClosesLast(parts: seq<Part>) {
    forall i :: 0 <= i < |parts| - 1 ==> !parts[i].closing
  }

  lemma BlocksCons(parts: seq<Part>)
    requires parts != []
    ensures Blocks(parts) == [Block(parts[0])] + Blocks(parts[1..])
    ensures ClosesLast(parts) <==> |parts| == 1 || (!parts[0].closing && ClosesLast(parts[1..]))
  {
    hide Block;
    forall i | 0 <= i < |parts| - 2 ensures parts[1..][i] == parts[i + 1] {}
    if |parts| > 1 && !parts[0].closing && ClosesLast(parts[1..]) {
      forall i | 0 < i < |parts| - 1 ensures !parts[i].closing {
        assert parts[1..][i - 1] == parts[i];
      }
    }
  }

  lemma {:induction false} ReadsAllBlocks(boundary: bytes, parts: seq<Part>)
    requires Closes(parts) && forall i :: 0 < i < |parts| ==> !parts[i].opening
    ensures ReadBlocks(boundary, CRLF + Block(parts[0]) + After(boundary, parts)) == Some(Blocks(parts))
       <==> AllUnbroken(boundary, Blocks(parts)) && ClosesLast(parts)
  {
    hide Block, After, Delimiter, Layout, Unbroken, ReadBlocks, Blocks, ClosesLast, AllUnbroken;
    var tail := parts[1..];
    var block := Block(parts[0]);
    var s := CRLF + block + After(boundary, parts);
    AfterPart(boundary, parts);
    BlocksCons(parts);
    AllUnbrokenCons(boundary, block, Blocks(tail));
    assert ([block] + Blocks(tail))[0] == block && ([block] + Blocks(tail))[1..] == Blocks(tail);
    if parts[0].closing {
      var u := DASHES + CRLF + Layout(boundary, tail);
      assert s == CRLF + block + Delimiter(boundary) + u && DASHES <= u;
      ReadBlock(boundary, block, u);
      BlockCount(tail);
      if |parts| == 1 {
        assert Blocks(tail) == [] && [block] + Blocks(tail) == [block];
        NothingBroken(boundary);
      }
    } else {
      var u := CRLF + Block(tail[0]) + After(boundary, tail);
      assert s == CRLF + block + Delimiter(boundary) + u && u[0] == 13;
      ReadBlock(boundary, block, u);
      ReadsAllBlocks(boundary, tail);
      var rest := ReadBlocks(boundary, u);
      if rest.Some? {
        assert ([block] + rest.value)[1..] == rest.value;
      }
    }
  }

  lemma BlockCount(parts: seq<Part>)
    ensures |Blocks(parts)| == |parts|
  {
  }

  lemma NothingBroken(boundary: bytes)
    ensures AllUnbroken(boundary, [])
  {
  }

  /** All parts are read back exactly when the delimiter begins in none of them and no part but the last
      one carries a closing flag. */
  lemma FormReadsBackInFull(boundary: bytes, parts: seq<Part>)
    requires parts != [] && OpensOnce(parts) && Closes(parts)
    ensures ReadForm(boundary, Layout(boundary, parts)) == Some(Blocks(parts))
       <==> AllUnbroken(boundary, Blocks(parts)) && ClosesLast(parts)
  {
    hide Layout, Block, After, AllUnbroken, Blocks, ReadBlocks, ClosesLast;
    LayoutStart(boundary, parts);
    var s, dash, rest := Layout(boundary, parts), DASHES + boundary, CRLF + Block(parts[0]) + After(boundary, parts);
    assert dash <= s && s[|dash|..] == rest;
    ReadsAllBlocks(boundary, parts);
  }

  /** A part added after an encoding, behind the one that still closes the form: it is lost. */
  lemma AddedPartLost()
    ensures var parts := [Part([], [65], true, true), Part([], [66], false, true)];
            ReadForm([98], Layout([98], parts)) == Some([[13, 10, 65]])
  {
    var parts := [Part([], [65], true, true), Part([], [66], false, true)];
    var block: bytes := [13, 10, 65];
    assert Block(parts[0]) == block && Delivered(parts) == [block] + [] == [block];
    assert Delimiter([98]) == [13, 10, 45, 45, 98];
    forall k | 0 <= k < |block| ensures !(Delimiter([98]) <= (block + Delimiter([98]))[k..]) {
      assert (block + Delimiter([98]))[k..][0] == block[k];
      if k == 0 {
        assert (block + Delimiter([98]))[k..][2] == 65;
      }
    }
    assert parts[0].closing;
    FormReadsBack([98], parts);
  }

  ghost predicate Fresh(parts: seq<Part>) {
    forall p :: p in parts ==> !p.opening && !p.closing
  }

  lemma {:induction false} DeliveredWhenFresh(parts: seq<Part>)
    requires parts != [] && forall i :: 0 <= i < |parts| ==> (parts[i].closing <==> i == |parts| - 1)
    ensures Delivered(parts) == Blocks(parts)
  {
    if |parts| > 1 {
      DeliveredWhenFresh(parts[1..]);
    }
    assert Blocks(parts) == [Block(parts[0])] + Blocks(parts[1..]);
  }

  /** A fresh form with at least one part is read back in full. */
  lemma FreshFormReadsBack(boundary: bytes, parts: seq<Part>)
    requires parts != [] && Fresh(parts)
    ensures ReadForm(boundary, Layout(boundary, Flagged(parts))) == Some(Blocks(parts))
       <==> AllUnbroken(boundary, Blocks(parts))
  {
    hide Flagged;
    var flagged := Flagged(parts);
    forall i | 0 <= i < |parts|
      ensures flagged[i] == parts[i].(opening := i == 0, closing := i == |parts| - 1)
    {
      FlaggedAt(parts, i);
      assert parts[i] in parts;
    }
    assert flagged[|parts| - 1].closing;
    FormReadsBack(boundary, flagged);
    DeliveredWhenFresh(flagged);
    assert Blocks(flagged) == Blocks(parts);
  }
}
