/** DSD+ file names (backend/internal/dirmonitor/parsers.go): underscores separate, bracketed text is atomic. */
module DsdPlus {
  import opened Prelude
  import opened Text

  type bytes = seq<byte>

  const OPEN: byte := 91
  const CLOSE: byte := 93
  const UNDERSCORE: byte := 95

  // ---------------------------------------------------------------------
  // Splitting
  // ---------------------------------------------------------------------

  /** Go's `string(b)` for a byte b: the UTF-8 form of the code point b, two bytes from 128 on. */
  function Utf8(b: byte): bytes {
    if b < 128 then [b] else [192 + b / 64, 128 + b % 64]
  }

  function Recode(s: bytes): bytes {
    if s == [] then [] else Recode(s[..|s| - 1]) + Utf8(s[|s| - 1])
  }

  predicate Ascii(s: bytes) {
    forall i :: 0 <= i < |s| ==> s[i] < 128
  }

  /** Whether the text so far ends inside a bracket. */
  predicate Inside(s: bytes) {
    s != [] && (s[|s| - 1] == OPEN || (s[|s| - 1] != CLOSE && Inside(s[..|s| - 1])))
  }

  /** What splitDSDPlusMeta computes, byte by byte from the left. */
  function Segments(base: bytes): (segments: seq<bytes>)
    ensures |segments| > 0
  {
    if base == [] then [[]]
    else
      var n := |base| - 1;
      var before := Segments(base[..n]);
      if base[n] == UNDERSCORE && !Inside(base[..n]) then before + [[]] else Extend(before, Utf8(base[n]))
  }

  function Extend<T>(parts: seq<seq<T>>, x: seq<T>): (r: seq<seq<T>>)
    requires |parts| > 0
    ensures |r| == |parts|
  {
    parts[..|parts| - 1] + [parts[|parts| - 1] + x]
  }

  method SplitDSDPlusMeta(base: bytes) returns (meta: seq<bytes>)
    ensures meta == Segments(base)
  {
    meta := [[]];
    var inBracket := false;
    var ptr := 0;
    for i := 0 to |base|
      invariant meta == Segments(base[..i]) && ptr == |meta| - 1
      invariant inBracket == Inside(base[..i])
    {
      assert base[..i + 1][..i] == base[..i];
      var ch := base[i];
      if ch == OPEN {
        inBracket := true;
      } else if ch == CLOSE {
        inBracket := false;
      }
      if !inBracket && ch == UNDERSCORE {
        ptr := ptr + 1;
        meta := meta + [[]];
      } else {
        meta := meta[ptr := meta[ptr] + Utf8(ch)];
      }
    }
    assert base[..|base|] == base;
  }

  lemma {:induction false} JoinSnoc<T>(parts: seq<seq<T>>, p: seq<T>, sep: T)
    requires |parts| > 0
    ensures Join(parts + [p], sep) == Join(parts, sep) + [sep] + p
  {
    if |parts| == 1 {
      assert (parts + [p])[1..] == [p];
    } else {
      assert (parts + [p])[1..] == parts[1..] + [p];
      JoinSnoc(parts[1..], p, sep);
    }
  }

  lemma {:induction false} JoinExtend<T>(parts: seq<seq<T>>, x: seq<T>, sep: T)
    requires |parts| > 0
    ensures Join(Extend(parts, x), sep) == Join(parts, sep) + x
  {
    var init, last := parts[..|parts| - 1], parts[|parts| - 1];
    assert parts == init + [last];
    if init != [] {
      JoinSnoc(init, last, sep);
      JoinSnoc(init, last + x, sep);
      hide Join;
      assert Join(init, sep) + [sep] + (last + x) == Join(init, sep) + [sep] + last + x;
    }
  }

  /** No byte is lost by splitting, whatever the name; but each non-ASCII byte comes back as two. */
  lemma {:induction false} JoinSegments(base: bytes)
    ensures Join(Segments(base), UNDERSCORE) == Recode(base)
  {
    if base != [] {
      var n := |base| - 1;
      var before := Segments(base[..n]);
      JoinSegments(base[..n]);
      JoinSnoc(before, [], UNDERSCORE);
      JoinExtend(before, Utf8(base[n]), UNDERSCORE);
    }
  }

  lemma Utf8Length(b: byte)
    ensures if b < 128 then Utf8(b) == [b] else |Utf8(b)| == 2
  {
  }

  lemma {:induction false} RecodeLength(s: bytes)
    ensures |Recode(s)| >= |s|
    ensures |Recode(s)| == |s| <==> Ascii(s)
    ensures Ascii(s) ==> Recode(s) == s
  {
    hide Utf8;
    if s != [] {
      var n := |s| - 1;
      RecodeLength(s[..n]);
      Utf8Length(s[n]);
      assert s == s[..n] + [s[n]];
      assert Recode(s) == Recode(s[..n]) + Utf8(s[n]);
      hide Recode;
      assert Ascii(s) <==> Ascii(s[..n]) && s[n] < 128;
    }
  }

  /** Reading UTF-8 of one or two bytes per code point (sections 3 and 4 of RFC 3629); None when it is anything else. */
  function CodePoints(s: bytes): Option<bytes> {
    if s == [] then Some([])
    else
      var n := if s[0] < 0x80 then 1 else 2;
      if |s| < n || (n == 2 && !(0xC2 <= s[0] <= 0xC3 && 0x80 <= s[1] <= 0xBF)) then None
      else
        var c := if n == 1 then s[0] else (s[0] - 0xC0) * 0x40 + (s[1] - 0x80);
        match CodePoints(s[n..])
        case None => None
        case Some(rest) => Some([c] + rest)
  }

  lemma {:induction false} RecodeFirst(b: byte, s: bytes)
    ensures Recode([b] + s) == Utf8(b) + Recode(s)
  {
    hide Utf8;
    if s == [] {
      assert [b] + s == [b] && [b][..0] == [];
    } else {
      var n := |s| - 1;
      RecodeFirst(b, s[..n]);
      assert ([b] + s)[..n + 1] == [b] + s[..n];
      assert Utf8(b) + Recode(s[..n]) + Utf8(s[n]) == Utf8(b) + (Recode(s[..n]) + Utf8(s[n]));
    }
  }

  lemma OneCodePoint(b: byte, rest: bytes)
    ensures var s := Utf8(b) + rest;
      CodePoints(s) == match CodePoints(rest) case None => None case Some(more) => Some([b] + more)
  {
    var s, n := Utf8(b) + rest, if b < 128 then 1 else 2;
    assert s[n..] == rest;
  }

  /** The recoded name is UTF-8, and its code points are the bytes of the name. */
  lemma {:induction false} RecodeDecodes(s: bytes)
    ensures CodePoints(Recode(s)) == Some(s)
  {
    hide Recode, Utf8, CodePoints;
    if s == [] {
      NothingRecoded();
    } else {
      assert s == [s[0]] + s[1..];
      RecodeFirst(s[0], s[1..]);
      OneCodePoint(s[0], Recode(s[1..]));
      RecodeDecodes(s[1..]);
    }
  }

  lemma NothingRecoded()
    ensures Recode([]) == [] && CodePoints([]) == Some([])
  {
  }

  /** Exactly the ASCII names survive the split and the join. */
  lemma JoinRestores(base: bytes)
    ensures Join(Segments(base), UNDERSCORE) == base <==> Ascii(base)
  {
    JoinSegments(base);
    RecodeLength(base);
  }

  // ---------------------------------------------------------------------
  // Where it splits
  // ---------------------------------------------------------------------

  /** Every underscore of the segment is inside a bracket opened in it. */
  predicate Whole(s: bytes) {
    s == [] || (Whole(s[..|s| - 1]) && (s[|s| - 1] == UNDERSCORE ==> Inside(s[..|s| - 1])))
  }

  /** Inside a bracket: a '[' has not been followed by a ']'. */
  lemma {:induction false} InsideIs(s: bytes)
    ensures Inside(s) <==>
            exists k :: 0 <= k < |s| && s[k] == '[' as int && ']' as int !in s[k..]
  {
    if s != [] {
      var n := |s| - 1;
      InsideIs(s[..n]);
      assert s == s[..n] + [s[n]];
      forall k | 0 <= k < n
        ensures ']' as int in s[k..] <==> ']' as int in s[..n][k..] || s[n] == ']' as int
      {
        assert s[k..] == s[..n][k..] + [s[n]];
      }
      assert s[n..] == [s[n]];
    }
  }

  lemma {:induction false} WholeIs(s: bytes)
    ensures Whole(s) <==> forall k :: 0 <= k < |s| && s[k] == '_' as int ==> Inside(s[..k])
  {
    if s != [] {
      var n := |s| - 1;
      WholeIs(s[..n]);
      assert forall k :: 0 <= k < n ==> s[..n][k] == s[k] && s[..n][..k] == s[..k];
    }
  }

  /** Segments that a split can produce: each whole, and each but the last with its brackets closed. */
  predicate Separated(parts: seq<bytes>) {
    |parts| > 0 && (forall i :: 0 <= i < |parts| ==> Whole(parts[i]))
    && forall i :: 0 <= i < |parts| - 1 ==> !Inside(parts[i])
  }

  lemma AppendByte(s: bytes, b: byte)
    ensures Inside(s + [b]) <==> b == OPEN || (b != CLOSE && Inside(s))
    ensures Whole(s + [b]) <==> Whole(s) && (b == UNDERSCORE ==> Inside(s))
  {
    assert (s + [b])[..|s|] == s;
  }

  lemma {:induction false} SegmentsSeparated(base: bytes)
    requires Ascii(base)
    ensures Separated(Segments(base))
    ensures Inside(Segments(base)[|Segments(base)| - 1]) == Inside(base)
  {
    if base != [] {
      var n := |base| - 1;
      var before := Segments(base[..n]);
      SegmentsSeparated(base[..n]);
      AppendByte(before[|before| - 1], base[n]);
      hide Inside, Whole;
      assert base == base[..n] + [base[n]];
      AppendByte(base[..n], base[n]);
      EmptySegment();
    }
  }

  lemma EmptySegment()
    ensures Whole([]) && !Inside([]) && Segments([]) == [[]] && Join([[]], UNDERSCORE) == []
  {
  }

  /** One more byte: the body of the loop. */
  lemma SplitStep(base: bytes, b: byte)
    ensures Segments(base + [b]) ==
      if b == UNDERSCORE && !Inside(base) then Segments(base) + [[]] else Extend(Segments(base), Utf8(b))
    ensures Inside(base + [b]) <==> b == OPEN || (b != CLOSE && Inside(base))
    ensures Ascii(base + [b]) <==> Ascii(base) && b < 128
  {
    assert (base + [b])[..|base|] == base;
    AppendByte(base, b);
    assert forall i :: 0 <= i < |base| ==> (base + [b])[i] == base[i];
    assert (base + [b])[|base|] == b;
  }

  /** Joining separated segments and splitting again gives them back. */
  lemma {:induction false} SplitUndoesJoin(parts: seq<bytes>)
    requires Separated(parts) && Ascii(Join(parts, UNDERSCORE))
    ensures Segments(Join(parts, UNDERSCORE)) == parts
    ensures Inside(Join(parts, UNDERSCORE)) == Inside(parts[|parts| - 1])
    decreases |parts|, |parts[|parts| - 1]|
  {
    hide Segments, Inside, Whole, Join, Ascii;
    var k := |parts| - 1;
    var init, last := parts[..k], parts[k];
    assert parts == init + [last];
    if last != [] {
      var m := |last| - 1;
      var shorter := init + [last[..m]];
      assert last == last[..m] + [last[m]];
      AppendByte(last[..m], last[m]);
      assert Extend(shorter, [last[m]]) == parts;
      JoinExtend(shorter, [last[m]], UNDERSCORE);
      SplitStep(Join(shorter, UNDERSCORE), last[m]);
      SplitUndoesJoin(shorter);
    } else if init != [] {
      JoinSnoc(init, [], UNDERSCORE);
      assert Join(parts, UNDERSCORE) == Join(init, UNDERSCORE) + [UNDERSCORE];
      SplitStep(Join(init, UNDERSCORE), UNDERSCORE);
      SplitUndoesJoin(init);
      EmptySegment();
    } else {
      assert parts == [[]];
      EmptySegment();
    }
  }

  /** The split of an ASCII name is the only way to cut it at underscores outside brackets. */
  lemma SplitExact(base: bytes, parts: seq<bytes>)
    requires Ascii(base)
    ensures Segments(base) == parts <==> Separated(parts) && Join(parts, UNDERSCORE) == base
  {
    SegmentsSeparated(base);
    JoinRestores(base);
    if Separated(parts) && Join(parts, UNDERSCORE) == base {
      SplitUndoesJoin(parts);
    }
  }

  // ---------------------------------------------------------------------
  // Bracket contents
  // ---------------------------------------------------------------------

  /** `strings.IndexByte`, with |s| for "not found". */
  function IndexByte(s: bytes, b: byte): (i: nat)
    ensures i <= |s| && b !in s[..i]
    ensures i < |s| ==> s[i] == b
  {
    if s == [] || s[0] == b then 0
    else
      assert s == [s[0]] + s[1..];
      1 + IndexByte(s[1..], b)
  }

  datatype Found = Nothing | Bracket(inner: bytes, rest: bytes)

  /** The first bracket that closes, and what follows it. */
  function FirstBracket(s: bytes): (r: Found)
    ensures r.Bracket? ==> |r.rest| < |s|
  {
    var o := IndexByte(s, OPEN);
    if o == |s| then Nothing
    else
      var c := IndexByte(s[o + 1..], CLOSE);
      if c == |s[o + 1..]| then Nothing else Bracket(s[o + 1..o + 1 + c], s[o + 1 + c + 1..])
  }

  function Contents(s: bytes): seq<bytes>
    decreases |s|
  {
    match FirstBracket(s)
    case Nothing => []
    case Bracket(inner, rest) => if |inner| > 0 then [inner] + Contents(rest) else Contents(rest)
  }

  method ExtractBracketContents(name: bytes) returns (parts: seq<bytes>)
    ensures parts == Contents(name)
  {
    hide Contents, IndexByte, FirstBracket;
    parts := [];
    var s := name;
    while true
      invariant parts + Contents(s) == Contents(name)
      decreases |s|
    {
      ContentsStep(s);
      FirstBracketIs(s);
      var openIdx := IndexByte(s, OPEN);
      if openIdx == |s| {
        break;
      }
      var closeIdx := IndexByte(s[openIdx + 1..], CLOSE);
      if closeIdx == |s[openIdx + 1..]| {
        break;
      }
      var inner := s[openIdx + 1..openIdx + 1 + closeIdx];
      s := s[openIdx + 1 + closeIdx + 1..];
      Gather(parts, inner, Contents(s));
      if |inner| > 0 {
        parts := parts + [inner];
      }
    }
  }

  lemma Gather(parts: seq<bytes>, inner: bytes, rest: seq<bytes>)
    ensures parts + ([inner] + rest) == (parts + [inner]) + rest
  {
  }

  lemma ContentsStep(s: bytes)
    ensures match FirstBracket(s)
      case Nothing => Contents(s) == []
      case Bracket(inner, rest) => Contents(s) == if |inner| > 0 then [inner] + Contents(rest) else Contents(rest)
  {
    hide FirstBracket;
  }

  lemma FirstBracketIs(s: bytes)
    ensures var o := IndexByte(s, OPEN);
      FirstBracket(s) ==
        if o == |s| then Nothing
        else
          var c := IndexByte(s[o + 1..], CLOSE);
          if c == |s[o + 1..]| then Nothing else Bracket(s[o + 1..o + 1 + c], s[o + 1 + c + 1..])
  {
    hide IndexByte;
  }

  /** A stretch of plain text and the bracket that follows it. */
  datatype Piece = Piece(text: bytes, inner: bytes)

  function Render(pieces: seq<Piece>, tail: bytes): bytes {
    if pieces == [] then tail
    else pieces[0].text + [OPEN] + pieces[0].inner + [CLOSE] + Render(pieces[1..], tail)
  }

  /** Text up to a bracket holds no '[', a bracket's inside no ']', and the tail no complete bracket. */
  predicate WellFormed(pieces: seq<Piece>, tail: bytes) {
    (forall i :: 0 <= i < |pieces| ==> OPEN !in pieces[i].text && CLOSE !in pieces[i].inner)
    && CLOSE !in tail[IndexByte(tail, OPEN)..]
  }

  function Inners(pieces: seq<Piece>): seq<bytes> {
    if pieces == [] then []
    else (if pieces[0].inner == [] then [] else [pieces[0].inner]) + Inners(pieces[1..])
  }

  lemma {:induction false} IndexAfter(s: bytes, b: byte, rest: bytes)
    requires b !in s
    ensures IndexByte(s + [b] + rest, b) == |s|
  {
    if s != [] {
      assert s[0] in s;
      assert (s + [b] + rest)[1..] == s[1..] + [b] + rest;
      IndexAfter(s[1..], b, rest);
    }
  }

  /** The contents of a name's brackets are the non-empty ones, in order. */
  lemma {:induction false} ContentsRecovered(pieces: seq<Piece>, tail: bytes)
    requires WellFormed(pieces, tail)
    ensures Contents(Render(pieces, tail)) == Inners(pieces)
  {
    hide Contents, FirstBracket, IndexByte;
    if pieces == [] {
      NoneInTail(tail);
      ContentsStep(tail);
    } else {
      var p, more := pieces[0], Render(pieces[1..], tail);
      FirstOfRendered(p, more);
      ContentsStep(Render(pieces, tail));
      ContentsRecovered(pieces[1..], tail);
    }
  }

  lemma NoneInTail(tail: bytes)
    requires CLOSE !in tail[IndexByte(tail, OPEN)..]
    ensures FirstBracket(tail) == Nothing
  {
    hide IndexByte;
    var o := IndexByte(tail, OPEN);
    if o < |tail| {
      assert tail[o + 1..] == tail[o..][1..];
    }
  }

  lemma FirstOfRendered(p: Piece, more: bytes)
    requires OPEN !in p.text && CLOSE !in p.inner
    ensures FirstBracket(p.text + [OPEN] + p.inner + [CLOSE] + more) == Bracket(p.inner, more)
  {
    hide IndexByte, FirstBracket;
    var rest := p.inner + [CLOSE] + more;
    var s := p.text + [OPEN] + rest;
    assert p.text + [OPEN] + p.inner + [CLOSE] + more == s;
    IndexAfter(p.text, OPEN, rest);
    IndexAfter(p.inner, CLOSE, more);
    FirstBracketIs(s);
    assert s[|p.text| + 1..] == rest;
    assert s[|p.text| + 1..|p.text| + 1 + |p.inner|] == p.inner;
    assert s[|p.text| + 1 + |p.inner| + 1..] == more;
  }

  /** Every name has such a form, so the previous lemma describes the extraction completely. */
  lemma {:induction false} EveryNameRenders(s: bytes) returns (pieces: seq<Piece>, tail: bytes)
    ensures WellFormed(pieces, tail) && Render(pieces, tail) == s
    decreases |s|
  {
    hide IndexByte, Render, WellFormed;
    var o := IndexByte(s, OPEN);
    var rest := if o == |s| then [] else s[o + 1..];
    var c := IndexByte(rest, CLOSE);
    if c == |rest| {
      NoBracket(s);
      pieces, tail := [], s;
    } else {
      var more;
      more, tail := EveryNameRenders(rest[c + 1..]);
      var p := Piece(s[..o], rest[..c]);
      pieces := [p] + more;
      AddPiece(p, more, tail);
      assert rest == rest[..c] + [CLOSE] + rest[c + 1..];
      assert s == s[..o] + [OPEN] + rest;
      Regroup([], p.text, p.inner, rest[c + 1..]);
    }
  }

  lemma NoBracket(s: bytes)
    requires var o := IndexByte(s, OPEN); o == |s| || IndexByte(s[o + 1..], CLOSE) == |s[o + 1..]|
    ensures WellFormed([], s) && Render([], s) == s
  {
    hide IndexByte;
    var o := IndexByte(s, OPEN);
    if o < |s| {
      var rest := s[o + 1..];
      assert s[o..] == [OPEN] + rest;
      assert rest[..|rest|] == rest;
    }
  }

  lemma AddPiece(p: Piece, pieces: seq<Piece>, tail: bytes)
    requires WellFormed(pieces, tail) && OPEN !in p.text && CLOSE !in p.inner
    ensures WellFormed([p] + pieces, tail)
    ensures Render([p] + pieces, tail) == p.text + [OPEN] + p.inner + [CLOSE] + Render(pieces, tail)
  {
    hide IndexByte;
    assert ([p] + pieces)[1..] == pieces;
  }

  lemma Regroup(s: bytes, text: bytes, inner: bytes, rest: bytes)
    ensures s + text + [OPEN] + inner + [CLOSE] + rest == s + (text + [OPEN] + inner + [CLOSE] + rest)
  {
  }

  lemma RenderFirst(pieces: seq<Piece>, tail: bytes)
    requires pieces != []
    ensures Render(pieces, tail) ==
      pieces[0].text + [OPEN] + pieces[0].inner + [CLOSE] + Render(pieces[1..], tail)
  {
  }

  // ---------------------------------------------------------------------
  // A whole file name
  // ---------------------------------------------------------------------

  datatype Segment = Segment(pieces: seq<Piece>, tail: bytes)

  /** A segment as DSD+ writes it: underscores only inside brackets, every bracket closed. */
  predicate Written(seg: Segment) {
    (forall i :: 0 <= i < |seg.pieces| ==>
        var p := seg.pieces[i];
        OPEN !in p.text && UNDERSCORE !in p.text && CLOSE !in p.inner)
    && OPEN !in seg.tail && UNDERSCORE !in seg.tail
  }

  function Rendered(segs: seq<Segment>): seq<bytes> {
    seq(|segs|, i requires 0 <= i < |segs| => Render(segs[i].pieces, segs[i].tail))
  }

  /** Plain text neither opens a bracket nor splits. */
  lemma {:induction false} PlainText(s: bytes, t: bytes)
    requires Whole(s) && !Inside(s) && OPEN !in t && UNDERSCORE !in t
    ensures Whole(s + t) && !Inside(s + t)
  {
    if t == [] {
      assert s + t == s;
    } else {
      var n := |t| - 1;
      PlainText(s, t[..n]);
      assert t[n] in t;
      assert s + t == s + t[..n] + [t[n]];
      AppendByte(s + t[..n], t[n]);
    }
  }

  lemma {:induction false} BracketText(s: bytes, t: bytes)
    requires Whole(s) && Inside(s) && CLOSE !in t
    ensures Whole(s + t) && Inside(s + t)
  {
    if t == [] {
      assert s + t == s;
    } else {
      var n := |t| - 1;
      BracketText(s, t[..n]);
      assert t[n] in t;
      assert s + t == s + t[..n] + [t[n]];
      AppendByte(s + t[..n], t[n]);
    }
  }

  lemma {:induction false} WrittenIsWhole(s: bytes, seg: Segment)
    requires Whole(s) && !Inside(s) && Written(seg)
    ensures Whole(s + Render(seg.pieces, seg.tail)) && !Inside(s + Render(seg.pieces, seg.tail))
    decreases |seg.pieces|
  {
    if seg.pieces == [] {
      PlainText(s, seg.tail);
    } else {
      hide Whole, Inside, Render;
      RenderFirst(seg.pieces, seg.tail);
      var p, more := seg.pieces[0], Segment(seg.pieces[1..], seg.tail);
      PlainText(s, p.text);
      AppendByte(s + p.text, OPEN);
      BracketText(s + p.text + [OPEN], p.inner);
      AppendByte(s + p.text + [OPEN] + p.inner, CLOSE);
      var s' := s + p.text + [OPEN] + p.inner + [CLOSE];
      WrittenIsWhole(s', more);
      Regroup(s, p.text, p.inner, Render(more.pieces, more.tail));
    }
  }

  /**
   * From DSD+ and back: an ASCII name made of written segments splits into those segments, and the
   * bracket contents of each are recovered.
   */
  lemma NameRecovered(segs: seq<Segment>)
    requires segs != [] && (forall i :: 0 <= i < |segs| ==> Written(segs[i]))
    requires Ascii(Join(Rendered(segs), UNDERSCORE))
    ensures Segments(Join(Rendered(segs), UNDERSCORE)) == Rendered(segs)
    ensures forall i :: 0 <= i < |segs| ==> Contents(Rendered(segs)[i]) == Inners(segs[i].pieces)
  {
    hide Whole, Inside, Render, Contents, Inners, Segments, Join, Ascii;
    EmptySegment();
    forall i | 0 <= i < |segs|
      ensures Whole(Rendered(segs)[i]) && !Inside(Rendered(segs)[i])
      ensures Contents(Rendered(segs)[i]) == Inners(segs[i].pieces)
    {
      WrittenIsWhole([], segs[i]);
      assert [] + Rendered(segs)[i] == Rendered(segs)[i];
      ContentsRecovered(segs[i].pieces, segs[i].tail);
    }
    SplitUndoesJoin(Rendered(segs));
  }
}
